/** Runs of a connection pool together with the callers that hold its sessions. */
module PoolRuns {
  import opened Common
  import opened PoolModel

  type Caller = nat

  datatype State = State(pool: Pool, held: map<Caller, SessionId>)

  /** A caller is one use of `get_connection`: it acquires once and releases what it got. */
  datatype Event =
    | Start
    | Stop
    | Acquire(caller: Caller, healthy: set<SessionId>, connects: bool, now: real)
    | Release(caller: Caller, isHealthy: bool, now: real)
    | HealthCheck(healthy: set<SessionId>, now: real)

  function Step(c: Config, s: State, e: Event): State {
    match e
    case Start => s.(pool := s.pool.(running := true))
    case Stop => s.(pool := StopStep(s.pool))
    case Acquire(caller, healthy, connects, now) =>
      if caller in s.held then s
      else
        var (p, r) := AcquireStep(c, s.pool, healthy, connects, now);
        State(p, if r.Success? then s.held[caller := r.value] else s.held)
    case Release(caller, isHealthy, now) =>
      if caller !in s.held then s
      else State(ReleaseStep(s.pool, s.held[caller], isHealthy, now), s.held - {caller})
    case HealthCheck(healthy, now) => s.(pool := HealthCheckStep(c, s.pool, healthy, now))
  }

  function Run(c: Config, s: State, es: seq<Event>): State
    decreases |es|
  {
    if es == [] then s else Run(c, Step(c, s, es[0]), es[1..])
  }

  /**
   * No two callers hold the same session, every lent session has its caller, and a caller holds a
   * session that is lent out or that `stop` has closed under it.
   */
  ghost predicate HeldOk(s: State) {
    && (forall a, b :: a in s.held && b in s.held && s.held[a] == s.held[b] ==> a == b)
    && (forall x <- s.pool.inUse :: x in s.held.Values)
    && (forall a :: a in s.held ==> s.held[a] in s.pool.inUse || s.held[a] in s.pool.closed)
  }

  ghost predicate Inv(c: Config, s: State) {
    PoolInv(c, s.pool) && HeldOk(s)
  }

  lemma StepKeepsInv(c: Config, s: State, e: Event)
    requires Inv(c, s)
    ensures Inv(c, Step(c, s, e)) && s.pool.closed <= Step(c, s, e).pool.closed
  {
    var s' := Step(c, s, e);
    match e
    case Start =>
    case Stop => StopKeepsInv(c, s.pool);
    case Acquire(caller, healthy, connects, now) =>
      if caller !in s.held {
        AcquireKeepsInv(c, s.pool, healthy, connects, now);
        AcquireKeepsHeld(c, s, caller, healthy, connects, now);
      }
    case Release(caller, isHealthy, now) =>
      if caller in s.held {
        ReleaseKeepsInv(c, s.pool, s.held[caller], isHealthy, now);
        forall x <- s'.pool.inUse ensures x in s'.held.Values {
          var a :| a in s.held && s.held[a] == x;
          assert s'.held[a] == x;
        }
      }
    case HealthCheck(healthy, now) => HealthCheckKeepsInv(c, s.pool, healthy, now);
  }

  lemma AcquireKeepsHeld(c: Config, s: State, caller: Caller, healthy: set<SessionId>, connects: bool, now: real)
    requires Inv(c, s) && caller !in s.held
    ensures HeldOk(Step(c, s, Acquire(caller, healthy, connects, now)))
  {
    AcquireKeepsInv(c, s.pool, healthy, connects, now);
    var (p, r) := AcquireStep(c, s.pool, healthy, connects, now);
    if r.Success? {
      LendingKeepsHeld(s, p, caller, r.value);
    }
  }

  lemma LendingKeepsHeld(s: State, p: Pool, caller: Caller, x: SessionId)
    requires HeldOk(s) && caller !in s.held
    requires x !in s.pool.inUse && x !in s.pool.closed
    requires p.inUse == s.pool.inUse + {x} && s.pool.closed <= p.closed
    ensures HeldOk(State(p, s.held[caller := x]))
  {
    var held := s.held[caller := x];
    assert held[caller] == x;
    forall y <- p.inUse ensures y in held.Values {
      if y != x {
        var a :| a in s.held && s.held[a] == y;
        assert held[a] == y;
      }
    }
  }

  lemma {:induction false} RunKeepsInv(c: Config, s: State, es: seq<Event>)
    requires Inv(c, s)
    ensures Inv(c, Run(c, s, es)) && s.pool.closed <= Run(c, s, es).pool.closed
    decreases |es|
  {
    if es != [] {
      StepKeepsInv(c, s, es[0]);
      RunKeepsInv(c, Step(c, s, es[0]), es[1..]);
    }
  }

  /**
   * In every run of a new pool: no idle session appears twice or is lent out, together they never
   * exceed the maximum, each has a last-used time, no session has two holders, and every session
   * ever created is in exactly one place.
   */
  lemma EveryRunIsSafe(c: Config, es: seq<Event>)
    ensures var s := Run(c, State(EMPTY, map[]), es); var p := s.pool;
      && NoDuplicates(p.available)
      && (forall x <- p.available :: x !in p.inUse)
      && |p.available| + |p.inUse| <= Capacity(c)
      && (forall x :: x in p.available || x in p.inUse ==> x in p.lastUsed)
      && (forall a, b :: a in s.held && b in s.held && a != b ==> s.held[a] != s.held[b])
      && (forall x: nat :: x < p.created <==> x in p.available || x in p.inUse || x in p.closed || x in p.abandoned)
      && (forall x <- p.available :: x !in p.closed && x !in p.abandoned)
      && p.inUse !! p.closed && p.inUse !! p.abandoned && p.closed !! p.abandoned
  {
    RunKeepsInv(c, State(EMPTY, map[]), es);
  }

  /**
   * A session the pool has closed never re-enters it, however the run goes on: not by an
   * acquisition, and not by the release of a caller under whom `stop` closed it.
   */
  lemma ClosedStaysOut(c: Config, es: seq<Event>, more: seq<Event>, x: SessionId)
    requires x in Run(c, State(EMPTY, map[]), es).pool.closed
    ensures var p := Run(c, Run(c, State(EMPTY, map[]), es), more).pool;
      x in p.closed && x !in p.available && x !in p.inUse
  {
    RunKeepsInv(c, State(EMPTY, map[]), es);
    RunKeepsInv(c, Run(c, State(EMPTY, map[]), es), more);
  }

  /** Stopping closes every session the pool knows, held or idle, and later releases change nothing. */
  lemma StopClosesEverything(c: Config, s: State, caller: Caller, isHealthy: bool, now: real)
    requires Inv(c, s) && s.pool.running
    ensures var s' := Step(c, s, Stop);
      && (forall x: nat :: x < s.pool.created && x !in s.pool.abandoned ==> x in s'.pool.closed)
      && Step(c, s', Release(caller, isHealthy, now)).pool == s'.pool
  {
    StepKeepsInv(c, s, Stop);
  }

  // ------------------------------------------------------------------------------------------
  // A stopped pool
  // ------------------------------------------------------------------------------------------

  predicate IsEmpty(p: Pool) {
    p.available == [] && p.inUse == {}
  }

  /** An acquisition, by a caller that holds nothing, that finds no idle session and can make a new one. */
  predicate Lends(c: Config, s: State, e: Event) {
    e.Acquire? && e.caller !in s.held && e.connects && Capacity(c) > 0
  }

  lemma EmptyStep(c: Config, s: State, e: Event)
    requires IsEmpty(s.pool)
    ensures IsEmpty(Step(c, s, e).pool) <==> !Lends(c, s, e)
  {
  }

  /** The state after the first `n` events. */
  function StateAt(c: Config, s: State, es: seq<Event>, n: nat): State
    requires n <= |es|
  {
    if n == 0 then s else Step(c, StateAt(c, s, es, n - 1), es[n - 1])
  }

  /**
   * Acquiring does not ask whether the pool runs. So a pool that has been emptied, by `stop` for
   * instance, stays empty throughout a run exactly when no acquisition in it makes a new session.
   */
  lemma {:induction false} StaysEmptyExactly(c: Config, s: State, es: seq<Event>, n: nat)
    requires IsEmpty(s.pool) && n <= |es|
    ensures (forall k: nat :: k <= n ==> EmptyAt(c, s, es, k)) <==> forall k: nat :: k < n ==> !LendsAt(c, s, es, k)
  {
    if n > 0 {
      var before := n - 1;
      StaysEmptyExactly(c, s, es, before);
      if EmptyAt(c, s, es, before) {
        EmptyAfter(c, s, es, before);
      }
    }
  }

  predicate EmptyAt(c: Config, s: State, es: seq<Event>, n: nat)
    requires n <= |es|
  {
    IsEmpty(StateAt(c, s, es, n).pool)
  }

  predicate LendsAt(c: Config, s: State, es: seq<Event>, n: nat)
    requires n < |es|
  {
    Lends(c, StateAt(c, s, es, n), es[n])
  }

  lemma EmptyAfter(c: Config, s: State, es: seq<Event>, n: nat)
    requires n < |es| && EmptyAt(c, s, es, n)
    ensures EmptyAt(c, s, es, n + 1) <==> !LendsAt(c, s, es, n)
  {
    EmptyStep(c, StateAt(c, s, es, n), es[n]);
  }

  /** A session made after `stop` is lent out like any other, and stopping again does not close it. */
  lemma StoppedPoolLends(c: Config, s: State, e: Event)
    requires Inv(c, s) && s.pool.running && Lends(c, s, e)
    ensures var s1 := Step(c, Step(c, s, Stop), e);
      && e.caller in s1.held && s1.held[e.caller] in s1.pool.inUse
      && Step(c, s1, Stop) == s1
  {
  }

  // ------------------------------------------------------------------------------------------
  // Releasing and acquiring
  // ------------------------------------------------------------------------------------------

  /** A session released in good health into an empty pool is what the next caller gets, if it still is. */
  lemma ReleasedIsReused(c: Config, s: State, a: Caller, b: Caller, healthy: set<SessionId>,
                         connects: bool, now: real, later: real)
    requires Inv(c, s) && a in s.held && s.held[a] in s.pool.inUse && s.pool.available == []
    requires s.held[a] in healthy && (b !in s.held || b == a)
    ensures var s1 := Step(c, s, Release(a, true, now)); var s2 := Step(c, s1, Acquire(b, healthy, connects, later));
      && s1.pool.available == [s.held[a]] && a !in s1.held
      && b in s2.held && s2.held[b] == s.held[a] && s2.held[b] in s2.pool.inUse
      && s2.pool.created == s.pool.created && s2.pool.closed == s.pool.closed
      && s2.pool.lastUsed[s2.held[b]] == later
  {
    var x := s.held[a];
    var s1 := Step(c, s, Release(a, true, now));
    ReleaseExactly(s.pool, x, true, now);
    assert s1.pool.available == [x];
    StepKeepsInv(c, s, Release(a, true, now));
    AcquireExactly(c, s1.pool, healthy, connects, later, 0);
  }

  /** A session released in bad health is closed, and no continuation puts it back or lends it out. */
  lemma UnhealthyStaysOut(c: Config, s: State, a: Caller, now: real, es: seq<Event>)
    requires Inv(c, s) && a in s.held && s.held[a] in s.pool.inUse
    ensures var s1 := Step(c, s, Release(a, false, now)); var p := Run(c, s1, es).pool; var x := s.held[a];
      && s1.pool.available == s.pool.available && s1.pool.closed == s.pool.closed + {x}
      && x in p.closed && x !in p.available && x !in p.inUse
  {
    ReleaseExactly(s.pool, s.held[a], false, now);
    StepKeepsInv(c, s, Release(a, false, now));
    RunKeepsInv(c, Step(c, s, Release(a, false, now)), es);
  }

  /** A pool started again after it was stopped can be stopped again, which closes what it made meanwhile. */
  lemma RestartedPoolStops(c: Config, s: State, x: SessionId)
    requires Inv(c, s) && (x in s.pool.inUse || x in s.pool.available)
    ensures var s' := Step(c, Step(c, s, Start), Stop);
      x in s'.pool.closed && x !in s'.pool.inUse && s'.pool.available == [] && !s'.pool.running
  {
    StopExactly(Step(c, s, Start).pool);
  }
}
