/** The connection pool as an object; every method takes the step of `PoolModel` of the same name. */
module ConnectionPools {
  import opened Common
  import opened PoolModel

  class ConnectionPool {
    const maxConnections: int
    const maxIdleTime: real
    var available: seq<SessionId>
    var inUse: set<SessionId>
    var lastUsed: map<SessionId, real>
    var running: bool
    var closed: set<SessionId>
    var abandoned: set<SessionId>
    var created: nat

    function Limits(): Config {
      Config(maxConnections, maxIdleTime)
    }

    function View(): Pool
      reads this
    {
      Pool(available, inUse, lastUsed, running, closed, abandoned, created)
    }

    ghost predicate Valid()
      reads this
    {
      PoolInv(Limits(), View())
    }

    constructor (maxConnections: int, maxIdleTime: real)
      ensures Valid() && View() == EMPTY && Limits() == Config(maxConnections, maxIdleTime)
    {
      this.maxConnections, this.maxIdleTime := maxConnections, maxIdleTime;
      available, inUse, lastUsed, running, closed, abandoned, created := [], {}, map[], false, {}, {}, 0;
    }

    method Start()
      requires Valid()
      modifies this
      ensures Valid() && View() == old(View()).(running := true)
    {
      if running {
        return;
      }
      running := true;
    }

    /** Close the idle sessions one after another, then those lent out. */
    method CloseAll()
      modifies this`closed
      ensures closed == old(closed) + Members(available) + inUse
    {
      var i := 0;
      while i < |available|
        invariant 0 <= i <= |available|
        invariant closed == old(closed) + Members(available[..i])
      {
        assert available[..i + 1] == available[..i] + [available[i]];
        closed := closed + {available[i]};
        i := i + 1;
      }
      assert available[..|available|] == available;
      closed := closed + inUse;
    }

    /** Close every session, idle or lent out, and forget them. */
    method Stop()
      requires Valid()
      modifies this
      ensures Valid() && View() == StopStep(old(View()))
      ensures !running && (old(running) ==>
        available == [] && inUse == {} && lastUsed == map[] && closed == old(closed) + Members(old(available)) + old(inUse))
    {
      StopKeepsInv(Limits(), View());
      if !running {
        return;
      }
      running := false;
      CloseAll();
      available, inUse, lastUsed := [], {}, map[];
      assert View() == StopStep(old(View()));
    }

    /** Look for an idle session that answers well, closing those looked at that do not. */
    method FindHealthy(healthy: set<SessionId>) returns (found: Option<SessionId>)
      requires NoDuplicates(available)
      modifies this`available, this`closed
      ensures View() == Scanned(old(View()), healthy)
      ensures found == ScanFrom(old(available), 0, healthy).found
    {
      ghost var idle := available;
      ghost var looked: seq<SessionId> := [];
      var i := 0;
      while i < |available|
        invariant NoDuplicates(available)
        invariant ScanFrom(idle, 0, healthy) == Resumed(looked, ScanFrom(available, i, healthy))
        invariant closed == old(closed) + Members(looked)
        decreases |available| - i
      {
        var session := available[i];
        RemoveAt(available, i);
        ShorterHasNoDuplicates(available, i);
        if session in healthy {
          available := Remove(available, session);
          assert looked + [] == looked;
          return Some(session);
        }
        closed := closed + {session};
        ghost var after := ScanFrom(available[..i] + available[i + 1..], i + 1, healthy);
        assert looked + ([session] + after.closed) == (looked + [session]) + after.closed;
        looked := looked + [session];
        available := Remove(available, session);
        i := i + 1;
      }
      assert looked + [] == looked;
      return None;
    }

    /** Lend a session to a caller: an idle one that answers well, or else a new one. */
    method AcquireConnection(healthy: set<SessionId>, connects: bool, now: real)
      returns (r: Result<SessionId, PoolError>)
      requires Valid()
      modifies this
      ensures Valid() && (View(), r) == AcquireStep(Limits(), old(View()), healthy, connects, now)
      ensures AtLimit(r) <==> old(available) == [] && |old(inUse)| == Capacity(Limits())
      ensures r.Success? ==> r.value !in old(inUse) && inUse == old(inUse) + {r.value}
      ensures r.Success? && r.value in old(available) ==> r.value in healthy
      ensures r.Success? ==> lastUsed == old(lastUsed)[r.value := now]
      ensures r.Success? && r.value !in old(available) ==> connects && r.value == old(created) && created == old(created) + 1
    {
      AcquireKeepsInv(Limits(), View(), healthy, connects, now);
      LimitExactly(Limits(), View(), healthy, connects, now);
      ReuseExactly(Limits(), View(), healthy, connects, now);
      var found := FindHealthy(healthy);
      r := Lend(found, connects, now);
    }

    /** The end of an acquisition, once the idle sessions have been looked through. */
    method Lend(found: Option<SessionId>, connects: bool, now: real) returns (r: Result<SessionId, PoolError>)
      modifies this
      ensures (View(), r) == LendStep(Limits(), old(View()), found, connects, now)
    {
      if found.Some? {
        inUse := inUse + {found.value};
        lastUsed := lastUsed[found.value := now];
        return Success(found.value);
      }
      var total := |available| + |inUse|;
      if total >= maxConnections {
        return Failure(LimitExceeded(total));
      }
      var session := created;
      created := created + 1;
      if !connects {
        abandoned := abandoned + {session};
        return Failure(ConnectFailed);
      }
      inUse := inUse + {session};
      lastUsed := lastUsed[session := now];
      return Success(session);
    }

    /** Take a session back: into the pool when it answers well, closed when it does not. */
    method ReleaseConnection(session: SessionId, isHealthy: bool, now: real)
      requires Valid()
      modifies this
      ensures Valid() && View() == ReleaseStep(old(View()), session, isHealthy, now)
      ensures session !in old(inUse) ==> View() == old(View())
      ensures session in old(inUse) ==> inUse == old(inUse) - {session}
      ensures session in old(inUse) && isHealthy ==>
        available == old(available) + [session] && closed == old(closed) && lastUsed == old(lastUsed)[session := now]
      ensures session in old(inUse) && !isHealthy ==>
        available == old(available) && closed == old(closed) + {session} && lastUsed == old(lastUsed)
    {
      ReleaseKeepsInv(Limits(), View(), session, isHealthy, now);
      if session in inUse {
        inUse := inUse - {session};
        if isHealthy {
          available := available + [session];
          lastUsed := lastUsed[session := now];
        } else {
          closed := closed + {session};
        }
      }
    }

    /** Drop idle sessions that were not used for too long or do not answer well. */
    method PerformHealthChecks(healthy: set<SessionId>, now: real)
      requires Valid()
      modifies this
      ensures Valid() && View() == HealthCheckStep(Limits(), old(View()), healthy, now)
      ensures forall s :: s in available <==>
        s in old(available) && s in healthy && now - (if s in lastUsed then lastUsed[s] else 0.0) <= maxIdleTime
    {
      ghost var c, p := Limits(), View();
      HealthCheckKeepsInv(c, p, healthy, now);
      KeepExact(c, p, healthy, now, available);
      var unhealthy := CollectUnhealthy(healthy, now);
      RemoveAndClose(unhealthy);
      DroppedExact(c, p, healthy, now, p.available);
      RemovingDroppedKeeps(c, p, healthy, now, p.available);
      assert Members(unhealthy) == set s <- p.available | !Stays(c, p, healthy, now, s);
      assert View() == HealthCheckStep(c, p, healthy, now);
    }

    method CollectUnhealthy(healthy: set<SessionId>, now: real) returns (unhealthy: seq<SessionId>)
      ensures unhealthy == Dropped(Limits(), View(), healthy, now, available)
    {
      unhealthy := [];
      var i := 0;
      while i < |available|
        invariant 0 <= i <= |available|
        invariant unhealthy == Dropped(Limits(), View(), healthy, now, available[..i])
      {
        var session := available[i];
        var used := if session in lastUsed then lastUsed[session] else 0.0;
        assert available[..i + 1] == available[..i] + [session];
        DroppedSnoc(Limits(), View(), healthy, now, available[..i], session);
        if now - used > maxIdleTime {
          unhealthy := unhealthy + [session];
        } else if session !in healthy {
          unhealthy := unhealthy + [session];
        }
        i := i + 1;
      }
      assert available[..|available|] == available;
    }

    method RemoveAndClose(unhealthy: seq<SessionId>)
      modifies this`available, this`closed
      ensures available == RemoveAll(old(available), unhealthy)
      ensures closed == old(closed) + Members(unhealthy)
    {
      var i := 0;
      assert unhealthy[..0] == [];
      while i < |unhealthy|
        invariant 0 <= i <= |unhealthy|
        invariant available == RemoveAll(old(available), unhealthy[..i])
        invariant closed == old(closed) + Members(unhealthy[..i])
      {
        var session := unhealthy[i];
        assert unhealthy[..i + 1] == unhealthy[..i] + [session];
        RemoveAllSnoc(old(available), unhealthy[..i], session);
        if session in available {
          available := Remove(available, session);
        } else {
          RemoveAbsent(available, session);
        }
        closed := closed + {session};
        i := i + 1;
      }
      assert unhealthy[..|unhealthy|] == unhealthy;
    }
  }

  lemma ShorterHasNoDuplicates(xs: seq<SessionId>, i: nat)
    requires NoDuplicates(xs) && i < |xs|
    ensures NoDuplicates(xs[..i] + xs[i + 1..])
  {
  }

  /** The sessions a health check collects, in order. */
  ghost function Dropped(c: Config, p: Pool, healthy: set<SessionId>, now: real, xs: seq<SessionId>): seq<SessionId> {
    if xs == [] then []
    else (if Stays(c, p, healthy, now, xs[0]) then [] else [xs[0]]) + Dropped(c, p, healthy, now, xs[1..])
  }

  lemma DroppedSnoc(c: Config, p: Pool, healthy: set<SessionId>, now: real, xs: seq<SessionId>, x: SessionId)
    ensures Dropped(c, p, healthy, now, xs + [x])
         == Dropped(c, p, healthy, now, xs) + if Stays(c, p, healthy, now, x) then [] else [x]
  {
    if xs == [] {
      assert [x][1..] == [];
    } else {
      assert (xs + [x])[1..] == xs[1..] + [x];
      DroppedSnoc(c, p, healthy, now, xs[1..], x);
    }
  }

  lemma DroppedExact(c: Config, p: Pool, healthy: set<SessionId>, now: real, xs: seq<SessionId>)
    ensures forall s :: s in Dropped(c, p, healthy, now, xs) <==> s in xs && !Stays(c, p, healthy, now, s)
  {
    if xs != [] {
      assert xs == [xs[0]] + xs[1..];
    }
  }

  /** A scan that had closed `looked` before it went on as `r`. */
  ghost function Resumed(looked: seq<SessionId>, r: Scan): Scan {
    r.(closed := looked + r.closed)
  }

  ghost function RemoveAll(xs: seq<SessionId>, ys: seq<SessionId>): seq<SessionId>
    decreases |ys|
  {
    if ys == [] then xs else RemoveAll(Remove(xs, ys[0]), ys[1..])
  }

  lemma RemoveAbsent(xs: seq<SessionId>, x: SessionId)
    requires x !in xs
    ensures Remove(xs, x) == xs
  {
  }

  lemma RemoveAllSnoc(xs: seq<SessionId>, ys: seq<SessionId>, y: SessionId)
    ensures RemoveAll(xs, ys + [y]) == Remove(RemoveAll(xs, ys), y)
    decreases |ys|
  {
    if ys == [] {
      assert [y][1..] == [];
    } else {
      assert (ys + [y])[1..] == ys[1..] + [y];
      RemoveAllSnoc(Remove(xs, ys[0]), ys[1..], y);
    }
  }

  /** Removing sessions other than `x` leaves `x` in front. */
  lemma RemoveAllBehind(x: SessionId, xs: seq<SessionId>, ys: seq<SessionId>)
    requires x !in ys
    ensures RemoveAll([x] + xs, ys) == [x] + RemoveAll(xs, ys)
    decreases |ys|
  {
    if ys != [] {
      assert ([x] + xs)[1..] == xs;
      RemoveAllBehind(x, Remove(xs, ys[0]), ys[1..]);
    }
  }

  /** Collecting the sessions to drop and removing them one by one is keeping the others. */
  lemma {:induction false} RemovingDroppedKeeps(c: Config, p: Pool, healthy: set<SessionId>, now: real, xs: seq<SessionId>)
    requires NoDuplicates(xs)
    ensures RemoveAll(xs, Dropped(c, p, healthy, now, xs)) == Keep(c, p, healthy, now, xs)
  {
    if xs != [] {
      var dropped := Dropped(c, p, healthy, now, xs[1..]);
      RemovingDroppedKeeps(c, p, healthy, now, xs[1..]);
      DroppedExact(c, p, healthy, now, xs[1..]);
      assert xs == [xs[0]] + xs[1..];
      if Stays(c, p, healthy, now, xs[0]) {
        RemoveAllBehind(xs[0], xs[1..], dropped);
        assert [] + dropped == dropped;
      } else {
        assert Dropped(c, p, healthy, now, xs)[1..] == dropped;
      }
    }
  }
}
