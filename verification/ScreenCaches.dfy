/** The expiring screen cache, against an unbounded log of everything ever put into it. */
module ScreenCaches {
  import opened Common

  const MAX_AGE := 5.0

  datatype Entry = Entry(content: string, time: real)

  datatype LoggedPut = LoggedPut(key: string, entry: Entry)

  datatype Operation =
    | PutOp(key: string, content: string)
    | GetOp(key: string)
    | CleanupOp

  /** An operation and the clock reading it sees. */
  datatype Timed = Timed(operation: Operation, now: real)

  type Cache = map<string, Entry>

  function Fresh(e: Entry, now: real): bool {
    now - e.time < MAX_AGE
  }

  function Lookup(c: Cache, key: string, now: real): Option<string> {
    if key in c && Fresh(c[key], now) then Some(c[key].content) else None
  }

  function Cleaned(c: Cache, now: real): Cache {
    map k | k in c && Fresh(c[k], now) :: c[k]
  }

  /** The cache after an operation; looking up an expired entry removes it. */
  function After(c: Cache, t: Timed): Cache {
    match t.operation
    case PutOp(key, content) => c[key := Entry(content, t.now)]
    case GetOp(key) => if key in c && !Fresh(c[key], t.now) then c - {key} else c
    case CleanupOp => Cleaned(c, t.now)
  }

  function Answer(c: Cache, t: Timed): Option<string> {
    if t.operation.GetOp? then Lookup(c, t.operation.key, t.now) else None
  }

  /** The cache after the first `n` operations. */
  function CacheAt(ts: seq<Timed>, n: nat): Cache
    requires n <= |ts|
  {
    if n == 0 then map[] else After(CacheAt(ts, n - 1), ts[n - 1])
  }

  function Answers(ts: seq<Timed>): (answers: seq<Option<string>>)
    ensures |answers| == |ts|
  {
    seq(|ts|, n requires 0 <= n < |ts| => Answer(CacheAt(ts, n), ts[n]))
  }

  // ------------------------------------------------------------------------------------------
  // The log
  // ------------------------------------------------------------------------------------------

  function Logged(log: seq<LoggedPut>, t: Timed): seq<LoggedPut> {
    if t.operation.PutOp? then log + [LoggedPut(t.operation.key, Entry(t.operation.content, t.now))] else log
  }

  function LogAt(ts: seq<Timed>, n: nat): seq<LoggedPut>
    requires n <= |ts|
  {
    if n == 0 then [] else Logged(LogAt(ts, n - 1), ts[n - 1])
  }

  /** What was last put for a key. */
  function LastPut(log: seq<LoggedPut>, key: string): Option<Entry> {
    if log == [] then None
    else if log[|log| - 1].key == key then Some(log[|log| - 1].entry)
    else LastPut(log[..|log| - 1], key)
  }

  /** The content last put for a key when it is younger than the maximum age. */
  function LogAnswer(log: seq<LoggedPut>, t: Timed): Option<string> {
    if !t.operation.GetOp? then None
    else
      var last := LastPut(log, t.operation.key);
      if last.Some? && t.now - last.value.time < 5.0 then Some(last.value.content) else None
  }

  function LogAnswers(ts: seq<Timed>): (answers: seq<Option<string>>)
    ensures |answers| == |ts|
  {
    seq(|ts|, n requires 0 <= n < |ts| => LogAnswer(LogAt(ts, n), ts[n]))
  }

  lemma LastPutAfter(log: seq<LoggedPut>, t: Timed, key: string)
    ensures LastPut(Logged(log, t), key)
         == if t.operation.PutOp? && t.operation.key == key then Some(Entry(t.operation.content, t.now)) else LastPut(log, key)
  {
    if t.operation.PutOp? {
      assert Logged(log, t)[..|log|] == log;
    }
  }

  // ------------------------------------------------------------------------------------------
  // What the cache keeps of the log
  // ------------------------------------------------------------------------------------------

  /** The entry was put by one of the first `n` operations. */
  ghost predicate PutBefore(ts: seq<Timed>, n: nat, e: Entry)
    requires n <= |ts|
  {
    exists i :: 0 <= i < n && ts[i].now == e.time
  }

  /** One of the first `n` operations found the entry expired. */
  ghost predicate ExpiredBefore(ts: seq<Timed>, n: nat, e: Entry)
    requires n <= |ts|
  {
    exists i, j :: 0 <= i < j < n && ts[i].now == e.time && !Fresh(e, ts[j].now)
  }

  /** The cache holds what was last put for a key, unless that was found expired since. */
  ghost predicate Represents(ts: seq<Timed>, n: nat)
    requires n <= |ts|
  {
    var c, log := CacheAt(ts, n), LogAt(ts, n);
    && (forall key :: key in c ==> LastPut(log, key) == Some(c[key]) && PutBefore(ts, n, c[key]))
    && (forall key :: key !in c ==> LastPut(log, key).None? || ExpiredBefore(ts, n, LastPut(log, key).value))
  }

  lemma StepRepresents(ts: seq<Timed>, n: nat)
    requires n < |ts| && Represents(ts, n)
    ensures Represents(ts, n + 1)
  {
    var c, log, t := CacheAt(ts, n), LogAt(ts, n), ts[n];
    forall key: string {:trigger LastPut(log, key)}
      ensures var c', last := CacheAt(ts, n + 1), LastPut(LogAt(ts, n + 1), key);
        if key in c' then last == Some(c'[key]) && PutBefore(ts, n + 1, c'[key])
        else last.None? || ExpiredBefore(ts, n + 1, last.value)
    {
      LastPutAfter(log, t, key);
      if key in c && key !in After(c, t) {
        var i :| 0 <= i < n && ts[i].now == c[key].time;
        assert !Fresh(c[key], ts[n].now);
      }
    }
  }

  /** In every run, whatever the clock does, the cache is what the log says but for expired entries. */
  lemma {:induction false} EveryRunRepresents(ts: seq<Timed>, n: nat)
    requires n <= |ts|
    ensures Represents(ts, n)
  {
    if n == 0 {
      assert CacheAt(ts, 0) == map[] && LogAt(ts, 0) == [];
    } else {
      EveryRunRepresents(ts, n - 1);
      StepRepresents(ts, n - 1);
      assert Represents(ts, n - 1 + 1);
    }
  }

  // ------------------------------------------------------------------------------------------
  // Clocks
  // ------------------------------------------------------------------------------------------

  function Readings(ts: seq<Timed>): (nows: seq<real>)
    ensures |nows| == |ts| && forall i :: 0 <= i < |ts| ==> nows[i] == ts[i].now
  {
    seq(|ts|, i requires 0 <= i < |ts| => ts[i].now)
  }

  /** What was put at reading `i` and is expired at reading `j` is fresh again at reading `k`. */
  predicate FreshAgain(nows: seq<real>, i: nat, j: nat, k: nat) {
    i < j < k < |nows| && nows[j] - nows[i] >= 5.0 && nows[k] - nows[i] < 5.0
  }

  /** Nothing that has expired is ever fresh again. */
  ghost predicate ExpiryIsFinal(nows: seq<real>) {
    forall i: nat, j: nat, k: nat :: !FreshAgain(nows, i, j, k)
  }

  lemma AnswerAgrees(ts: seq<Timed>, n: nat)
    requires n < |ts| && ExpiryIsFinal(Readings(ts))
    ensures Answers(ts)[n] == LogAnswer(LogAt(ts, n), ts[n])
  {
    EveryRunRepresents(ts, n);
    forall e | ExpiredBefore(ts, n, e) ensures !Fresh(e, ts[n].now) {
      ExpiredStays(ts, n, e);
    }
  }

  lemma ExpiredStays(ts: seq<Timed>, n: nat, e: Entry)
    requires n < |ts| && ExpiryIsFinal(Readings(ts)) && ExpiredBefore(ts, n, e)
    ensures !Fresh(e, ts[n].now)
  {
    var i: nat, j: nat :| i < j < n && ts[i].now == e.time && !Fresh(e, ts[j].now);
    assert !FreshAgain(Readings(ts), i, j, n);
  }

  /** An entry put at reading `i`, a cleanup at reading `j`, and the entry looked up at all others. */
  function Revealing(nows: seq<real>, i: nat, j: nat, key: string, content: string): (ts: seq<Timed>)
    ensures Readings(ts) == nows
  {
    seq(|nows|, n requires 0 <= n < |nows| =>
      Timed(if n == i then PutOp(key, content) else if n == j then CleanupOp else GetOp(key), nows[n]))
  }

  /** After the cleanup the entry is gone, while the log still has it. */
  lemma {:induction false} Revealed(nows: seq<real>, i: nat, j: nat, k: nat, key: string, content: string, n: nat)
    requires FreshAgain(nows, i, j, k) && n <= k
    ensures var ts := Revealing(nows, i, j, key, content);
      && LogAt(ts, n) == (if n <= i then [] else [LoggedPut(key, Entry(content, nows[i]))])
      && (n <= i || n > j ==> CacheAt(ts, n) == map[])
      && (i < n <= j ==> CacheAt(ts, n) == map[] || CacheAt(ts, n) == map[key := Entry(content, nows[i])])
  {
    if n > 0 {
      Revealed(nows, i, j, k, key, content, n - 1);
    }
  }

  /**
   * The cache answers as the unbounded log of puts does, for all operations at these clock readings,
   * exactly when nothing that has expired is ever fresh again: no reading 5 seconds or more after an
   * earlier one is followed by one less than 5 seconds after it.
   */
  lemma AgreesExactly(nows: seq<real>)
    ensures (forall ts :: Readings(ts) == nows ==> Answers(ts) == LogAnswers(ts)) <==> ExpiryIsFinal(nows)
  {
    if ExpiryIsFinal(nows) {
      forall ts | Readings(ts) == nows ensures Answers(ts) == LogAnswers(ts) { AllAnswersAgree(ts); }
    } else {
      var i: nat, j: nat, k: nat :| FreshAgain(nows, i, j, k);
      AnswersDiffer(nows, i, j, k);
      assert Readings(Revealing(nows, i, j, "", "")) == nows;
    }
  }

  lemma AllAnswersAgree(ts: seq<Timed>)
    requires ExpiryIsFinal(Readings(ts))
    ensures Answers(ts) == LogAnswers(ts)
  {
    forall n | 0 <= n < |ts| ensures Answers(ts)[n] == LogAnswers(ts)[n] { AnswerAgrees(ts, n); }
  }

  lemma AnswersDiffer(nows: seq<real>, i: nat, j: nat, k: nat)
    requires FreshAgain(nows, i, j, k)
    ensures var ts := Revealing(nows, i, j, "", ""); Answers(ts) != LogAnswers(ts)
  {
    var ts := Revealing(nows, i, j, "", "");
    Revealed(nows, i, j, k, "", "", k);
    assert LastPut(LogAt(ts, k), "") == Some(Entry("", nows[i]));
    assert Answers(ts)[k] == None && LogAnswers(ts)[k] == Some("");
  }

  /** In particular a clock that never goes back is good enough. */
  lemma ClockForward(ts: seq<Timed>)
    requires forall i, j :: 0 <= i <= j < |ts| ==> ts[i].now <= ts[j].now
    ensures Answers(ts) == LogAnswers(ts)
  {
    AgreesExactly(Readings(ts));
  }

  // ------------------------------------------------------------------------------------------
  // Cleaning up
  // ------------------------------------------------------------------------------------------

  /** The log does not notice the cleanup. */
  lemma {:induction false} LogPastCleanup(a: seq<Timed>, now: real, b: seq<Timed>, n: nat)
    requires n <= |a + b|
    ensures var more := a + [Timed(CleanupOp, now)] + b; var at := Past(a, n);
      at <= |more| && LogAt(more, at) == LogAt(a + b, n) && (n < |a + b| ==> more[at] == (a + b)[n])
  {
    var more := a + [Timed(CleanupOp, now)] + b;
    if n > 0 {
      var before := n - 1;
      LogPastCleanup(a, now, b, before);
      LogStep(more, Past(a, before));
      LogStep(a + b, before);
    }
    if n == |a| {
      LogStep(more, n);
      assert more[n] == Timed(CleanupOp, now);
    }
  }

  lemma LogStep(ts: seq<Timed>, n: nat)
    requires n < |ts|
    ensures LogAt(ts, n + 1) == Logged(LogAt(ts, n), ts[n])
  {
  }

  /** Leaving a cleanup out of a run changes no other answer, unless something expired is fresh again. */
  lemma CleanupUnobservable(a: seq<Timed>, now: real, b: seq<Timed>, at: nat)
    requires at < |a + b| && ExpiryIsFinal(Readings(a + [Timed(CleanupOp, now)] + b))
    ensures Past(a, at) < |a + [Timed(CleanupOp, now)] + b|
    ensures Answers(a + [Timed(CleanupOp, now)] + b)[Past(a, at)] == Answers(a + b)[at]
  {
    FewerReadings(a, now, b);
    LogPastCleanup(a, now, b, at);
    SameAnswer(a + [Timed(CleanupOp, now)] + b, Past(a, at), a + b, at);
  }

  lemma SameAnswer(ts: seq<Timed>, n: nat, us: seq<Timed>, m: nat)
    requires n < |ts| && m < |us| && ts[n] == us[m] && LogAt(ts, n) == LogAt(us, m)
    requires ExpiryIsFinal(Readings(ts)) && ExpiryIsFinal(Readings(us))
    ensures Answers(ts)[n] == Answers(us)[m]
  {
    AnswerAgrees(ts, n);
    AnswerAgrees(us, m);
  }

  lemma FewerReadings(a: seq<Timed>, now: real, b: seq<Timed>)
    requires ExpiryIsFinal(Readings(a + [Timed(CleanupOp, now)] + b))
    ensures ExpiryIsFinal(Readings(a + b))
  {
    var more, fewer := Readings(a + [Timed(CleanupOp, now)] + b), Readings(a + b);
    assert forall m: nat :: m < |fewer| ==> more[Past(a, m)] == fewer[m];
    forall i: nat, j: nat, k: nat | i < j < k < |fewer| ensures !FreshAgain(fewer, i, j, k) {
      assert !FreshAgain(more, Past(a, i), Past(a, j), Past(a, k));
    }
  }

  /** Where the operation at `i` is once a cleanup follows `a`. */
  function Past(a: seq<Timed>, i: nat): nat {
    if i < |a| then i else i + 1
  }

  // ------------------------------------------------------------------------------------------
  // The cache
  // ------------------------------------------------------------------------------------------

  class ScreenCache {
    var cache: map<string, Entry>
    ghost var done: seq<Timed>

    ghost predicate Valid()
      reads this
    {
      cache == CacheAt(done, |done|)
    }

    constructor ()
      ensures Valid() && cache == map[] && done == []
    {
      cache, done := map[], [];
    }

    lemma Recorded(t: Timed)
      requires Valid()
      ensures CacheAt(done + [t], |done|) == cache && CacheAt(done + [t], |done| + 1) == After(cache, t)
    {
      SameCache(done, [t], |done|);
    }

    lemma LookedUp(key: string, now: real)
      requires Valid()
      ensures var t := Timed(GetOp(key), now);
        ExpiryIsFinal(Readings(done + [t])) ==> Lookup(cache, key, now) == LogAnswer(LogAt(done + [t], |done|), t)
    {
      var more := done + [Timed(GetOp(key), now)];
      if ExpiryIsFinal(Readings(more)) {
        Recorded(Timed(GetOp(key), now));
        AnswerAgrees(more, |done|);
      }
    }

    method Get(key: string, now: real) returns (r: Option<string>)
      requires Valid()
      modifies this
      ensures Valid() && done == old(done) + [Timed(GetOp(key), now)]
      ensures r == if key in old(cache) && now - old(cache)[key].time < 5.0 then Some(old(cache)[key].content) else None
      ensures cache == if key in old(cache) && r.None? then old(cache) - {key} else old(cache)
      ensures ExpiryIsFinal(Readings(done)) ==> r == LogAnswer(LogAt(done, |done| - 1), Timed(GetOp(key), now))
    {
      Recorded(Timed(GetOp(key), now));
      LookedUp(key, now);
      done := done + [Timed(GetOp(key), now)];
      if key in cache {
        var entry := cache[key];
        if now - entry.time < MAX_AGE {
          return Some(entry.content);
        } else {
          cache := cache - {key};
        }
      }
      return None;
    }

    method Put(key: string, content: string, now: real)
      requires Valid()
      modifies this
      ensures Valid() && done == old(done) + [Timed(PutOp(key, content), now)]
      ensures cache == old(cache)[key := Entry(content, now)]
    {
      Recorded(Timed(PutOp(key, content), now));
      cache := cache[key := Entry(content, now)];
      done := done + [Timed(PutOp(key, content), now)];
    }

    /** Collect the expired keys, then delete them one by one. */
    method Cleanup(now: real)
      requires Valid()
      modifies this
      ensures Valid() && done == old(done) + [Timed(CleanupOp, now)]
      ensures forall k :: k in cache <==> k in old(cache) && now - old(cache)[k].time < 5.0
      ensures forall k :: k in cache ==> cache[k] == old(cache)[k]
    {
      Recorded(Timed(CleanupOp, now));
      done := done + [Timed(CleanupOp, now)];
      var expired := set key | key in cache && now - cache[key].time >= MAX_AGE;
      ghost var all, before := expired, cache;
      while expired != {}
        invariant expired <= all
        invariant cache == before - (all - expired)
        invariant done == old(done) + [Timed(CleanupOp, now)]
        decreases expired
      {
        var key :| key in expired;
        cache := cache - {key};
        expired := expired - {key};
      }
      assert cache == Cleaned(before, now);
    }
  }

  lemma {:induction false} SameCache(a: seq<Timed>, rest: seq<Timed>, n: nat)
    requires n <= |a|
    ensures CacheAt(a + rest, n) == CacheAt(a, n)
  {
    if n > 0 { SameCache(a, rest, n - 1); }
  }
}
