/**
 * The connection pool as a state machine over values. Each operation runs under the pool's lock and
 * is one step. What a session answers to a health check is not determined by the pool: an operation
 * takes the set of sessions that answer well while it runs.
 */
module PoolModel {
  import opened Common

  type SessionId = nat

  datatype Config = Config(maxConnections: int, maxIdleTime: real)

  datatype Pool = Pool(
    available: seq<SessionId>,
    inUse: set<SessionId>,
    lastUsed: map<SessionId, real>,
    running: bool,
    closed: set<SessionId>,
    abandoned: set<SessionId>,
    created: nat)

  datatype PoolError = LimitExceeded(total: nat) | ConnectFailed

  const EMPTY := Pool([], {}, map[], false, {}, {}, 0)

  /** `list.remove`: drop the first occurrence. */
  function Remove(xs: seq<SessionId>, x: SessionId): seq<SessionId> {
    if xs == [] then [] else if xs[0] == x then xs[1..] else [xs[0]] + Remove(xs[1..], x)
  }

  function Members(xs: seq<SessionId>): set<SessionId> {
    set s <- xs
  }

  ghost predicate NoDuplicates(xs: seq<SessionId>) {
    forall i, j :: 0 <= i < j < |xs| ==> xs[i] != xs[j]
  }

  lemma {:induction false} RemoveAt(xs: seq<SessionId>, i: nat)
    requires NoDuplicates(xs) && i < |xs|
    ensures Remove(xs, xs[i]) == xs[..i] + xs[i + 1..]
  {
    if i > 0 {
      assert xs[0] != xs[i] && xs[1..][i - 1] == xs[i];
      RemoveAt(xs[1..], i - 1);
      assert [xs[0]] + xs[1..][..i - 1] == xs[..i];
      assert xs[1..][i..] == xs[i + 1..];
    }
  }

  // ------------------------------------------------------------------------------------------
  // Acquiring
  // ------------------------------------------------------------------------------------------

  datatype Scan = Scan(kept: seq<SessionId>, closed: seq<SessionId>, found: Option<SessionId>)

  /**
   * The loop that looks for a healthy session from position `i` on. Each turn removes the element
   * it looks at, while the iterator still moves on by one.
   */
  function ScanFrom(xs: seq<SessionId>, i: nat, healthy: set<SessionId>): Scan
    decreases |xs| - i
  {
    if i >= |xs| then Scan(xs, [], None)
    else
      var rest := xs[..i] + xs[i + 1..];
      if xs[i] in healthy then Scan(rest, [], Some(xs[i]))
      else
        var r := ScanFrom(rest, i + 1, healthy);
        r.(closed := [xs[i]] + r.closed)
  }

  /** Every other element, starting with the first. */
  function EveryOther(xs: seq<SessionId>): seq<SessionId> {
    if |xs| == 0 then [] else if |xs| == 1 then [xs[0]] else [xs[0]] + EveryOther(xs[2..])
  }

  /** The first healthy session among `xs` and how many come before it. */
  function FirstHealthy(xs: seq<SessionId>, healthy: set<SessionId>): (n: nat)
    ensures n <= |xs|
    ensures n < |xs| ==> xs[n] in healthy
    ensures forall k :: 0 <= k < n ==> xs[k] !in healthy
  {
    if xs == [] || xs[0] in healthy then 0 else 1 + FirstHealthy(xs[1..], healthy)
  }

  /** The sessions without the first, the third and so on, as far as the first `n` of those. */
  function WithoutEveryOther(xs: seq<SessionId>, n: nat): seq<SessionId> {
    if n == 0 || |xs| == 0 then xs
    else if |xs| == 1 then []
    else [xs[1]] + WithoutEveryOther(xs[2..], n - 1)
  }

  /**
   * The loop only ever looks at every other session: it takes the first healthy one of those, closes
   * those before it, and leaves all others in the pool, in order as `ScanKeeps` says.
   */
  lemma {:induction false} ScanExact(xs: seq<SessionId>, i: nat, healthy: set<SessionId>)
    requires i <= |xs|
    ensures var r := ScanFrom(xs, i, healthy); var looked := EveryOther(xs[i..]); var n := FirstHealthy(looked, healthy);
      && r.found == (if n < |looked| then Some(looked[n]) else None)
      && r.closed == looked[..n]
      && |r.kept| == |xs| - n - (if n < |looked| then 1 else 0)
    decreases |xs| - i
  {
    if i < |xs| && xs[i] !in healthy {
      var rest := xs[..i] + xs[i + 1..];
      if i + 1 < |xs| {
        ScanExact(rest, i + 1, healthy);
        assert rest[i + 1..] == xs[i..][2..];
        assert EveryOther(xs[i..])[1..] == EveryOther(xs[i..][2..]);
      }
    }
  }

  lemma {:induction false} ScanKeeps(xs: seq<SessionId>, i: nat, healthy: set<SessionId>)
    requires i <= |xs|
    ensures ScanFrom(xs, i, healthy).kept == xs[..i] + WithoutEveryOther(xs[i..], LookedAt(xs[i..], healthy))
    decreases |xs| - i
  {
    var tail := xs[i..];
    if i == |xs| {
      assert xs[..i] + tail == xs;
    } else {
      var rest := xs[..i] + xs[i + 1..];
      if i + 1 == |xs| {
        assert rest == xs[..i] + [];
      } else if xs[i] in healthy {
        assert rest == xs[..i] + ([tail[1]] + tail[2..]);
      } else {
        ScanKeeps(rest, i + 1, healthy);
        assert rest[i + 1..] == tail[2..] && rest[..i + 1] == xs[..i] + [tail[1]];
        LookedOneFurther(tail, healthy);
        Assoc(xs[..i], [tail[1]], WithoutEveryOther(tail[2..], LookedAt(tail[2..], healthy)));
      }
    }
  }

  /** How many sessions the loop looks at. */
  function LookedAt(xs: seq<SessionId>, healthy: set<SessionId>): nat {
    var n := FirstHealthy(EveryOther(xs), healthy);
    if n < |EveryOther(xs)| then n + 1 else n
  }

  lemma LookedOneFurther(xs: seq<SessionId>, healthy: set<SessionId>)
    requires |xs| > 1 && xs[0] !in healthy
    ensures LookedAt(xs, healthy) == 1 + LookedAt(xs[2..], healthy)
  {
    assert EveryOther(xs)[1..] == EveryOther(xs[2..]);
  }

  /** What the loop keeps, closes and takes is what the pool had, each session once. */
  lemma {:induction false} ScanPartitions(xs: seq<SessionId>, i: nat, healthy: set<SessionId>)
    requires NoDuplicates(xs)
    ensures var r := ScanFrom(xs, i, healthy);
      && NoDuplicates(r.kept)
      && (forall s :: s in xs <==> s in r.kept || s in r.closed || r.found == Some(s))
      && (forall s <- r.closed :: s !in r.kept && r.found != Some(s) && s !in healthy)
      && (r.found.Some? ==> r.found.value !in r.kept && r.found.value in healthy)
      && |r.kept| + |r.closed| + (if r.found.Some? then 1 else 0) == |xs|
    decreases |xs| - i
  {
    if i < |xs| {
      var rest := xs[..i] + xs[i + 1..];
      forall s ensures s in xs <==> s in rest || s == xs[i] {
        if s in xs {
          var k :| 0 <= k < |xs| && xs[k] == s;
          if k < i { assert rest[k] == s; } else if k > i { assert rest[k - 1] == s; }
        }
      }
      assert xs[i] !in rest;
      if xs[i] !in healthy {
        ScanPartitions(rest, i + 1, healthy);
      }
    }
  }

  /** The pool after the loop of an acquisition, before a session is lent out. */
  function Scanned(p: Pool, healthy: set<SessionId>): Pool {
    var r := ScanFrom(p.available, 0, healthy);
    p.(available := r.kept, closed := p.closed + Members(r.closed))
  }

  /** Lend the session found, or else a new one while the limit allows it. */
  function LendStep(c: Config, p: Pool, found: Option<SessionId>, connects: bool, now: real)
    : (Pool, Result<SessionId, PoolError>)
  {
    match found
    case Some(s) => (p.(inUse := p.inUse + {s}, lastUsed := p.lastUsed[s := now]), Success(s))
    case None =>
      var total := |p.available| + |p.inUse|;
      if total >= c.maxConnections then (p, Failure(LimitExceeded(total)))
      else
        var s := p.created;
        var p1 := p.(created := s + 1);
        if !connects then (p1.(abandoned := p1.abandoned + {s}), Failure(ConnectFailed))
        else (p1.(inUse := p1.inUse + {s}, lastUsed := p1.lastUsed[s := now]), Success(s))
  }

  function AcquireStep(c: Config, p: Pool, healthy: set<SessionId>, connects: bool, now: real)
    : (Pool, Result<SessionId, PoolError>)
  {
    LendStep(c, Scanned(p, healthy), ScanFrom(p.available, 0, healthy).found, connects, now)
  }

  // ------------------------------------------------------------------------------------------
  // The other operations
  // ------------------------------------------------------------------------------------------

  function ReleaseStep(p: Pool, s: SessionId, isHealthy: bool, now: real): Pool {
    if s !in p.inUse then p
    else
      var p1 := p.(inUse := p.inUse - {s});
      if isHealthy then p1.(available := p1.available + [s], lastUsed := p1.lastUsed[s := now])
      else p1.(closed := p1.closed + {s})
  }

  /** A pooled session a health check lets stay: used recently enough and answering well. */
  predicate Stays(c: Config, p: Pool, healthy: set<SessionId>, now: real, s: SessionId) {
    var used := if s in p.lastUsed then p.lastUsed[s] else 0.0;
    now - used <= c.maxIdleTime && s in healthy
  }

  function Keep(c: Config, p: Pool, healthy: set<SessionId>, now: real, xs: seq<SessionId>): seq<SessionId> {
    if xs == [] then []
    else (if Stays(c, p, healthy, now, xs[0]) then [xs[0]] else []) + Keep(c, p, healthy, now, xs[1..])
  }

  function HealthCheckStep(c: Config, p: Pool, healthy: set<SessionId>, now: real): Pool {
    p.(available := Keep(c, p, healthy, now, p.available),
       closed := p.closed + set s <- p.available | !Stays(c, p, healthy, now, s))
  }

  function StopStep(p: Pool): Pool {
    if !p.running then p
    else p.(running := false, closed := p.closed + Members(p.available) + p.inUse,
            available := [], inUse := {}, lastUsed := map[])
  }

  // ------------------------------------------------------------------------------------------
  // The pool invariant
  // ------------------------------------------------------------------------------------------

  function Capacity(c: Config): nat {
    if c.maxConnections < 0 then 0 else c.maxConnections
  }

  ghost predicate PoolInv(c: Config, p: Pool) {
    && NoDuplicates(p.available)
    && (forall s <- p.available :: s !in p.inUse)
    && |p.available| + |p.inUse| <= Capacity(c)
    && (forall s <- p.available :: s in p.lastUsed)
    && (forall s <- p.inUse :: s in p.lastUsed)
    && Partitioned(p)
  }

  /**
   * Every session ever created is in exactly one place: idle in the pool, lent out, closed, or
   * abandoned because it never connected.
   */
  ghost predicate Partitioned(p: Pool) {
    && (forall s <- p.available :: s !in p.inUse && s !in p.closed && s !in p.abandoned)
    && p.inUse !! p.closed && p.inUse !! p.abandoned && p.closed !! p.abandoned
    && (forall s: nat :: s < p.created <==> s in p.available || s in p.inUse || s in p.closed || s in p.abandoned)
  }

  lemma ScannedPool(c: Config, p: Pool, healthy: set<SessionId>, now: real)
    requires PoolInv(c, p)
    ensures var r := ScanFrom(p.available, 0, healthy); var p1 := Scanned(p, healthy);
      && NoDuplicates(p1.available)
      && (forall s <- p1.available :: s in p.available)
      && |p1.available| + |p1.inUse| + (if r.found.Some? then 1 else 0) <= Capacity(c)
      && (r.found.Some? ==> r.found.value in p.available && r.found.value !in p1.available && r.found.value !in p1.closed)
      && (r.found.None? ==> PoolInv(c, p1))
      && (r.found.Some? ==>
           PoolInv(c, p1.(inUse := p1.inUse + {r.found.value}, lastUsed := p1.lastUsed[r.found.value := now])))
  {
    ScanPartitions(p.available, 0, healthy);
    var r := ScanFrom(p.available, 0, healthy);
    if r.found.Some? {
      FoundIsLent(c, p, Scanned(p, healthy), r.found.value, now);
    }
  }

  /** Lending a session that has been taken out of the list keeps the invariant. */
  lemma FoundIsLent(c: Config, p: Pool, p1: Pool, s: SessionId, now: real)
    requires PoolInv(c, p) && NoDuplicates(p1.available) && s in p.available && s !in p1.available
    requires p1 == p.(available := p1.available, closed := p1.closed) && p.closed <= p1.closed
    requires forall x :: x in p.available <==> x in p1.available || (x in p1.closed && x !in p.closed) || x == s
    requires s !in p1.closed && (forall x <- p1.available :: x !in p1.closed)
    requires |p1.available| < |p.available|
    ensures PoolInv(c, p1.(inUse := p1.inUse + {s}, lastUsed := p1.lastUsed[s := now]))
  {
    assert |p.inUse + {s}| == |p.inUse| + 1;
  }

  lemma LendingKeepsInv(c: Config, p: Pool, s: SessionId, now: real)
    requires PoolInv(c, p) && s == p.created && |p.available| + |p.inUse| < Capacity(c)
    ensures PoolInv(c, p.(created := s + 1, inUse := p.inUse + {s}, lastUsed := p.lastUsed[s := now]))
  {
    assert |p.inUse + {s}| == |p.inUse| + 1;
  }

  lemma AbandoningKeepsInv(c: Config, p: Pool, s: SessionId)
    requires PoolInv(c, p) && s == p.created
    ensures PoolInv(c, p.(created := s + 1, abandoned := p.abandoned + {s}))
  {
  }

  /**
   * An acquisition keeps the invariant; a session it lends out was not lent out before and not
   * closed, and an acquisition that fails lends out nothing.
   */
  lemma AcquireKeepsInv(c: Config, p: Pool, healthy: set<SessionId>, connects: bool, now: real)
    requires PoolInv(c, p)
    ensures var (p', r) := AcquireStep(c, p, healthy, connects, now);
      && PoolInv(c, p') && p.closed <= p'.closed
      && (r.Success? ==> r.value !in p.inUse && r.value !in p.closed && p'.inUse == p.inUse + {r.value})
      && (r.Failure? ==> p'.inUse == p.inUse)
  {
    ScannedPool(c, p, healthy, now);
    var r := ScanFrom(p.available, 0, healthy);
    var p1 := Scanned(p, healthy);
    if r.found.None? && |p1.available| + |p1.inUse| < c.maxConnections {
      LendingKeepsInv(c, p1, p1.created, now);
      AbandoningKeepsInv(c, p1, p1.created);
    }
  }

  /** The acquisition was refused because of the limit. */
  predicate AtLimit(r: Result<SessionId, PoolError>) {
    r.Failure? && r.error.LimitExceeded?
  }

  /**
   * Although the loop skips sessions, the limit error is raised only when it must be: exactly when
   * the pool had no idle session and all connections it may have are lent out.
   */
  lemma LimitExactly(c: Config, p: Pool, healthy: set<SessionId>, connects: bool, now: real)
    requires PoolInv(c, p)
    ensures AtLimit(AcquireStep(c, p, healthy, connects, now).1) <==> p.available == [] && |p.inUse| == Capacity(c)
  {
    ScanExact(p.available, 0, healthy);
    assert p.available[0..] == p.available;
    var looked := EveryOther(p.available);
    assert p.available != [] ==> looked != [];
  }

  /** The acquisition handed out a session that was idle in the pool. */
  predicate Reused(p: Pool, r: Result<SessionId, PoolError>) {
    r.Success? && r.value in p.available
  }

  lemma ReusedIsFound(c: Config, p: Pool, healthy: set<SessionId>, connects: bool, now: real)
    requires PoolInv(c, p)
    ensures var out := AcquireStep(c, p, healthy, connects, now).1; var r := ScanFrom(p.available, 0, healthy);
      (Reused(p, out) <==> r.found.Some?) && (Reused(p, out) ==> r.found == Some(out.value))
  {
    ScanPartitions(p.available, 0, healthy);
  }

  /**
   * An idle session is reused exactly when one of those at even positions answers well, and then it
   * is the first of them. A healthy session at an odd position is passed over.
   */
  lemma ReuseExactly(c: Config, p: Pool, healthy: set<SessionId>, connects: bool, now: real)
    requires PoolInv(c, p)
    ensures var out := AcquireStep(c, p, healthy, connects, now).1;
      && (Reused(p, out) <==> HealthyAtEven(p.available, healthy))
      && (Reused(p, out) ==>
           out.value in healthy && FirstHealthy(EveryOther(p.available), healthy) < |EveryOther(p.available)|
           && out.value == EveryOther(p.available)[FirstHealthy(EveryOther(p.available), healthy)])
  {
    var xs := p.available;
    ReusedIsFound(c, p, healthy, connects, now);
    ScanExact(xs, 0, healthy);
    assert xs[0..] == xs;
    HealthyAmongEveryOther(xs, healthy);
  }

  lemma HealthyAmongEveryOther(xs: seq<SessionId>, healthy: set<SessionId>)
    ensures HealthyAtEven(xs, healthy) <==> FirstHealthy(EveryOther(xs), healthy) < |EveryOther(xs)|
  {
    var looked := EveryOther(xs);
    var n := FirstHealthy(looked, healthy);
    EveryOtherAt(xs);
    if n < |looked| {
      var at := 2 * n;
      assert Even(at) && xs[at] == looked[n];
    } else {
      forall k | 0 <= k < |xs| && Even(k) ensures xs[k] !in healthy {
        LookedAtHalf(xs, k);
      }
    }
  }

  lemma LookedAtHalf(xs: seq<SessionId>, k: nat)
    requires k < |xs| && Even(k)
    ensures k / 2 < |EveryOther(xs)| && EveryOther(xs)[k / 2] == xs[k]
  {
    EveryOtherAt(xs);
    var half := k / 2;
    assert k == 2 * half;
  }

  predicate HealthyAtEven(xs: seq<SessionId>, healthy: set<SessionId>) {
    exists k :: 0 <= k < |xs| && Even(k) && xs[k] in healthy
  }

  predicate Even(k: int) {
    k % 2 == 0
  }

  lemma {:induction false} EveryOtherAt(xs: seq<SessionId>)
    ensures |EveryOther(xs)| == (|xs| + 1) / 2
    ensures forall k :: 0 <= k < |EveryOther(xs)| ==> EveryOther(xs)[k] == xs[2 * k]
  {
    if |xs| > 1 {
      EveryOtherAt(xs[2..]);
    }
  }

  lemma ReleaseKeepsInv(c: Config, p: Pool, s: SessionId, isHealthy: bool, now: real)
    requires PoolInv(c, p)
    ensures PoolInv(c, ReleaseStep(p, s, isHealthy, now)) && p.closed <= ReleaseStep(p, s, isHealthy, now).closed
    ensures ReleaseStep(p, s, isHealthy, now).inUse == p.inUse - {s}
  {
    if s in p.inUse {
      assert |p.inUse - {s}| == |p.inUse| - 1;
      if isHealthy { ReturnedToPool(c, p, s, now); }
    }
  }

  lemma ReturnedToPool(c: Config, p: Pool, s: SessionId, now: real)
    requires PoolInv(c, p) && s in p.inUse && |p.inUse - {s}| == |p.inUse| - 1
    ensures PoolInv(c, p.(inUse := p.inUse - {s}, available := p.available + [s], lastUsed := p.lastUsed[s := now]))
  {
  }

  lemma {:induction false} KeepExact(c: Config, p: Pool, healthy: set<SessionId>, now: real, xs: seq<SessionId>)
    ensures var kept := Keep(c, p, healthy, now, xs);
      && |kept| <= |xs|
      && (forall s :: s in kept <==> s in xs && Stays(c, p, healthy, now, s))
      && (NoDuplicates(xs) ==> NoDuplicates(kept))
  {
    if xs != [] {
      KeepExact(c, p, healthy, now, xs[1..]);
      assert xs == [xs[0]] + xs[1..];
    }
  }

  lemma HealthCheckKeepsInv(c: Config, p: Pool, healthy: set<SessionId>, now: real)
    requires PoolInv(c, p)
    ensures PoolInv(c, HealthCheckStep(c, p, healthy, now)) && p.closed <= HealthCheckStep(c, p, healthy, now).closed
  {
    KeepExact(c, p, healthy, now, p.available);
  }

  lemma StopKeepsInv(c: Config, p: Pool)
    requires PoolInv(c, p)
    ensures PoolInv(c, StopStep(p)) && p.closed <= StopStep(p).closed
  {
  }

  // ------------------------------------------------------------------------------------------
  // What each operation does to the pool, entry by entry
  // ------------------------------------------------------------------------------------------

  /** `s` was last used at `now`; every other entry is as before. */
  ghost predicate Touched(before: map<SessionId, real>, after: map<SessionId, real>, s: SessionId, now: real) {
    s in after && after[s] == now
    && forall x :: x != s ==> (x in after <==> x in before) && (x in before ==> after[x] == before[x])
  }

  /** A session that answers well goes back to the end of the pool; one that does not is closed. */
  lemma ReleaseExactly(p: Pool, s: SessionId, isHealthy: bool, now: real)
    ensures var p' := ReleaseStep(p, s, isHealthy, now);
      && p'.abandoned == p.abandoned && p'.created == p.created && p'.running == p.running
      && (s !in p.inUse ==> p' == p)
      && (s in p.inUse && isHealthy ==>
           && p'.available == p.available + [s] && p'.inUse == p.inUse - {s} && p'.closed == p.closed
           && Touched(p.lastUsed, p'.lastUsed, s, now))
      && (s in p.inUse && !isHealthy ==>
           && p'.available == p.available && p'.inUse == p.inUse - {s} && p'.closed == p.closed + {s}
           && p'.lastUsed == p.lastUsed)
  {
  }

  /**
   * With `n` unhealthy sessions before the first healthy one among those at positions 0, 2, 4 and so
   * on, that one is lent out and those `n` are closed. Without a healthy one there all of them are
   * closed, and a new session is made unless that would be one too many.
   */
  lemma AcquireExactly(c: Config, p: Pool, healthy: set<SessionId>, connects: bool, now: real, n: nat)
    requires PoolInv(c, p) && 2 * n <= |p.available| + 1
    requires forall k :: 0 <= k < n ==> p.available[2 * k] !in healthy
    requires 2 * n < |p.available| ==> p.available[2 * n] in healthy
    ensures var (p', r) := AcquireStep(c, p, healthy, connects, now);
      && p'.closed == p.closed + (set k | 0 <= k < n :: p.available[2 * k])
      && p'.available == WithoutEveryOther(p.available, if 2 * n < |p.available| then n + 1 else n)
      && p'.running == p.running
      && (2 * n < |p.available| ==>
           && r == Success(p.available[2 * n]) && p'.inUse == p.inUse + {p.available[2 * n]}
           && Touched(p.lastUsed, p'.lastUsed, p.available[2 * n], now)
           && p'.created == p.created && p'.abandoned == p.abandoned)
      && (2 * n >= |p.available| ==>
           var total := |p'.available| + |p.inUse|;
           && (total >= c.maxConnections ==>
                r == Failure(LimitExceeded(total)) && p'.inUse == p.inUse && p'.lastUsed == p.lastUsed
                && p'.created == p.created && p'.abandoned == p.abandoned)
           && (total < c.maxConnections && connects ==>
                r == Success(p.created) && p'.created == p.created + 1 && p'.inUse == p.inUse + {p.created}
                && Touched(p.lastUsed, p'.lastUsed, p.created, now) && p'.abandoned == p.abandoned)
           && (total < c.maxConnections && !connects ==>
                r == Failure(ConnectFailed) && p'.created == p.created + 1 && p'.inUse == p.inUse
                && p'.lastUsed == p.lastUsed && p'.abandoned == p.abandoned + {p.created}))
  {
    ScannedExactly(p, healthy, n);
    var p1 := Scanned(p, healthy);
    if 2 * n < |p.available| {
      assert LendStep(c, p1, Some(p.available[2 * n]), connects, now).0.closed == p1.closed;
    }
  }

  /** The loop of an acquisition, with its outcome spelt out. */
  lemma ScannedExactly(p: Pool, healthy: set<SessionId>, n: nat)
    requires 2 * n <= |p.available| + 1
    requires forall k :: 0 <= k < n ==> p.available[2 * k] !in healthy
    requires 2 * n < |p.available| ==> p.available[2 * n] in healthy
    ensures ScanFrom(p.available, 0, healthy).found == (if 2 * n < |p.available| then Some(p.available[2 * n]) else None)
    ensures Scanned(p, healthy) == p.(
      available := WithoutEveryOther(p.available, if 2 * n < |p.available| then n + 1 else n),
      closed := p.closed + (set k | 0 <= k < n :: p.available[2 * k]))
  {
    ScanIs(p.available, healthy, n);
    ClosedAreLooked(p.available, n);
  }

  lemma ScanIs(xs: seq<SessionId>, healthy: set<SessionId>, n: nat)
    requires 2 * n <= |xs| + 1
    requires forall k :: 0 <= k < n ==> xs[2 * k] !in healthy
    requires 2 * n < |xs| ==> xs[2 * n] in healthy
    ensures n <= |EveryOther(xs)|
    ensures ScanFrom(xs, 0, healthy) == Scan(
      WithoutEveryOther(xs, if 2 * n < |xs| then n + 1 else n), EveryOther(xs)[..n],
      if 2 * n < |xs| then Some(xs[2 * n]) else None)
  {
    LookedIs(xs, healthy, n);
    ScanExact(xs, 0, healthy);
    ScanKeeps(xs, 0, healthy);
    assert xs[0..] == xs;
    assert xs[..0] + WithoutEveryOther(xs, LookedAt(xs, healthy)) == WithoutEveryOther(xs, LookedAt(xs, healthy));
  }

  lemma LookedIs(xs: seq<SessionId>, healthy: set<SessionId>, n: nat)
    requires 2 * n <= |xs| + 1
    requires forall k :: 0 <= k < n ==> xs[2 * k] !in healthy
    requires 2 * n < |xs| ==> xs[2 * n] in healthy
    ensures n <= |EveryOther(xs)| && (n < |EveryOther(xs)| <==> 2 * n < |xs|)
    ensures FirstHealthy(EveryOther(xs), healthy) == n
    ensures n < |EveryOther(xs)| ==> EveryOther(xs)[n] == xs[2 * n]
  {
    EveryOtherAt(xs);
    FirstHealthyIs(EveryOther(xs), healthy, n);
  }

  lemma {:induction false} FirstHealthyIs(looked: seq<SessionId>, healthy: set<SessionId>, n: nat)
    requires n <= |looked| && forall k :: 0 <= k < n ==> looked[k] !in healthy
    requires n < |looked| ==> looked[n] in healthy
    ensures FirstHealthy(looked, healthy) == n
  {
    if n > 0 {
      assert looked[0] !in healthy;
      FirstHealthyIs(looked[1..], healthy, n - 1);
    }
  }

  lemma ClosedAreLooked(xs: seq<SessionId>, n: nat)
    requires n <= |EveryOther(xs)|
    ensures 2 * n <= |xs| + 1 && Members(EveryOther(xs)[..n]) == set k | 0 <= k < n :: xs[2 * k]
  {
    EveryOtherAt(xs);
    var looked := EveryOther(xs);
    forall k | 0 <= k < n ensures looked[..n][k] == xs[2 * k] {}
    assert forall s <- Members(looked[..n]) :: exists k :: 0 <= k < n && looked[..n][k] == s;
    assert forall k :: 0 <= k < n ==> looked[..n][k] in Members(looked[..n]);
  }

  /**
   * A health check keeps, in order, the idle sessions that were last used no longer ago than the limit
   * and answer well, and closes the other idle ones. It lends nothing and forgets nothing.
   */
  lemma HealthCheckExactly(c: Config, p: Pool, healthy: set<SessionId>, now: real)
    requires PoolInv(c, p)
    ensures var p' := HealthCheckStep(c, p, healthy, now);
      && (forall s :: s in p'.available <==> s in p.available && s in healthy && now - p.lastUsed[s] <= c.maxIdleTime)
      && InOrder(p'.available, p.available)
      && (forall s :: s in p'.closed <==>
           s in p.closed || (s in p.available && !(s in healthy && now - p.lastUsed[s] <= c.maxIdleTime)))
      && p' == p.(available := p'.available, closed := p'.closed)
  {
    KeepExact(c, p, healthy, now, p.available);
    KeepInOrder(c, p, healthy, now, p.available);
  }

  /** `xs` is `ys` without some of its elements. */
  ghost predicate InOrder(xs: seq<SessionId>, ys: seq<SessionId>)
    decreases |ys|
  {
    xs == [] || (ys != [] && (if xs[0] == ys[0] then InOrder(xs[1..], ys[1..]) else InOrder(xs, ys[1..])))
  }

  lemma {:induction false} KeepInOrder(c: Config, p: Pool, healthy: set<SessionId>, now: real, xs: seq<SessionId>)
    requires NoDuplicates(xs)
    ensures InOrder(Keep(c, p, healthy, now, xs), xs)
  {
    if xs != [] {
      KeepInOrder(c, p, healthy, now, xs[1..]);
      KeepExact(c, p, healthy, now, xs[1..]);
      var kept := Keep(c, p, healthy, now, xs);
      if Stays(c, p, healthy, now, xs[0]) {
        assert kept[0] == xs[0] && kept[1..] == Keep(c, p, healthy, now, xs[1..]);
      } else {
        assert kept == Keep(c, p, healthy, now, xs[1..]);
        if kept != [] { assert kept[0] in xs[1..] && kept[0] != xs[0]; }
      }
    }
  }

  /** Stopping closes everything idle or lent out and forgets it; only a running pool can be stopped. */
  lemma StopExactly(p: Pool)
    ensures var p' := StopStep(p);
      if p.running then
        && p'.available == [] && p'.inUse == {} && p'.lastUsed == map[] && !p'.running
        && (forall s :: s in p'.closed <==> s in p.closed || s in p.available || s in p.inUse)
        && p'.abandoned == p.abandoned && p'.created == p.created
      else p' == p
  {
  }
}
