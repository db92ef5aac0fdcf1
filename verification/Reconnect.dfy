/** Reconnecting with a bounded number of attempts and exponential backoff. */
module Reconnection {
  import opened Common

  datatype Connecting = Connected | Refused(error: string)

  /** What `reconnect` does to the outside, in order. */
  datatype Action = Close | Connect | Sleep(seconds: real)

  datatype Ending = Returned | Raised(error: string)

  function RealMin(a: real, b: real): real {
    if a <= b then a else b
  }

  /** The length of the `k`-th sleep, counting from 1. */
  function Wait(initial: real, cap: real, k: nat): real
    requires k >= 1
  {
    if k == 1 then initial else RealMin(Wait(initial, cap, k - 1) * 2.0, cap)
  }

  function Pow2(k: nat): (p: nat)
    ensures p >= 1
  {
    if k == 0 then 1 else 2 * Pow2(k - 1)
  }

  /** `x` doubled `k` times. */
  function Scaled(x: real, k: nat): real {
    x * Pow2(k) as real
  }

  lemma ScaledStep(x: real, k: nat)
    ensures Scaled(x, k + 1) == Scaled(x, k) * 2.0
    ensures x >= 0.0 <==> Scaled(x, k) >= 0.0
  {
    assert Pow2(k + 1) == 2 * Pow2(k);
    assert Pow2(k + 1) as real == 2.0 * Pow2(k) as real;
  }

  /** The sleeps double until they reach the cap; only the first one is never cut down to it. */
  lemma {:induction false} WaitClosedForm(initial: real, cap: real, k: nat)
    requires k >= 1 && 0.0 <= cap
    ensures initial <= cap || k > 1 ==> Wait(initial, cap, k) == RealMin(Scaled(initial, k - 1), cap)
    ensures initial > cap && k == 1 ==> Wait(initial, cap, k) == initial
  {
    assert Scaled(initial, 0) == initial by { assert Pow2(0) as real == 1.0; }
    if k > 1 {
      WaitClosedForm(initial, cap, k - 1);
      ScaledStep(initial, k - 2);
    }
  }

  /** No sleep is longer than the cap, exactly when the first one is not or there is none. */
  lemma CapExactly(initial: real, cap: real, sleeps: nat)
    ensures (forall k :: 1 <= k <= sleeps ==> Wait(initial, cap, k) <= cap) <==> sleeps == 0 || initial <= cap
  {
    if sleeps > 0 {
      var first := 1;
      assert Wait(initial, cap, first) == initial;
      forall k | 2 <= k <= sleeps ensures Wait(initial, cap, k) <= cap {}
    }
  }

  /** Sleeps never get shorter as long as the first one is within the cap. */
  lemma {:induction false} WaitsGrow(initial: real, cap: real, k: nat)
    requires k >= 1 && 0.0 <= initial <= cap
    ensures 0.0 <= Wait(initial, cap, k) <= Wait(initial, cap, k + 1) <= cap
  {
    if k > 1 {
      WaitsGrow(initial, cap, k - 1);
    }
  }

  /** The first of the attempts `from`, `from + 1`, ... up to `max` that connects, or `max` if none does. */
  function AttemptsMade(connect: int -> Connecting, from: nat, max: nat): (n: nat)
    requires from <= max
    ensures from <= n <= max
    ensures forall k :: from <= k < n ==> connect(k).Refused?
    ensures n < max ==> connect(n).Connected?
    decreases max - from
  {
    if from == max || connect(from).Connected? then from else AttemptsMade(connect, from + 1, max)
  }

  /** The actions of `n` attempts: close and connect each time, with a sleep in between. */
  function Attempts(initial: real, cap: real, n: nat): seq<Action> {
    if n == 0 then []
    else Attempts(initial, cap, n - 1)
         + (if n == 1 then [] else [Sleep(Wait(initial, cap, n - 1))]) + [Close, Connect]
  }

  function Count(actions: seq<Action>, what: Action -> bool): nat {
    if actions == [] then 0
    else Count(actions[..|actions| - 1], what) + if what(actions[|actions| - 1]) then 1 else 0
  }

  lemma CountAppend(a: seq<Action>, b: seq<Action>, what: Action -> bool)
    ensures Count(a + b, what) == Count(a, what) + Count(b, what)
  {
    if b == [] {
      assert a + b == a;
    } else {
      assert (a + b)[..|a + b| - 1] == a + b[..|b| - 1];
      CountAppend(a, b[..|b| - 1], what);
    }
  }

  /** Every connect has its close, and there is one sleep fewer. */
  lemma {:induction false} AttemptsCounted(initial: real, cap: real, n: nat)
    ensures var actions := Attempts(initial, cap, n);
      && Count(actions, a => a == Connect) == n
      && Count(actions, a => a == Close) == n
      && Count(actions, (a: Action) => a.Sleep?) == (if n == 0 then 0 else n - 1)
      && (forall i :: 0 <= i < |actions| && actions[i] == Connect ==> i > 0 && actions[i - 1] == Close)
  {
    if n > 0 {
      AttemptsCounted(initial, cap, n - 1);
      var front := Attempts(initial, cap, n - 1);
      var pause: seq<Action> := if n == 1 then [] else [Sleep(Wait(initial, cap, n - 1))];
      CountPart(front, pause, a => a == Connect);
      CountPart(front, pause, a => a == Close);
      CountPart(front, pause, (a: Action) => a.Sleep?);
    }
  }

  lemma CountPart(front: seq<Action>, pause: seq<Action>, what: Action -> bool)
    requires |pause| <= 1
    ensures Count(front + pause + [Close, Connect], what)
         == Count(front, what) + (if pause != [] && what(pause[0]) then 1 else 0)
            + (if what(Close) then 1 else 0) + (if what(Connect) then 1 else 0)
  {
    CountAppend(front + pause, [Close, Connect], what);
    CountAppend(front, pause, what);
    assert [Close, Connect][..1] == [Close] && [Close][..0] == [];
    if pause != [] { assert pause[..0] == []; }
  }

  /**
   * Close and connect until a connection is made or the attempts are used up, sleeping in between.
   * With no attempt allowed it returns although nothing was connected.
   */
  method Reconnect(maxAttempts: int, initialBackoff: real, maxBackoff: real, connect: int -> Connecting)
    returns (ending: Ending, actions: seq<Action>)
    ensures maxAttempts < 1 ==> ending == Returned && actions == []
    ensures maxAttempts >= 1 ==> var n := AttemptsMade(connect, 1, maxAttempts);
      && actions == Attempts(initialBackoff, maxBackoff, n)
      && (ending == Returned <==> exists k :: 1 <= k <= maxAttempts && connect(k).Connected?)
      && (ending.Raised? ==> n == maxAttempts && connect(n) == Refused(ending.error))
    ensures maxAttempts >= 1 ==> var n := AttemptsMade(connect, 1, maxAttempts);
      && InTurn(actions, n) && BacksOff(actions, initialBackoff, maxBackoff, n)
      && (maxBackoff >= 0.0 ==> Doubles(actions, initialBackoff, maxBackoff, n))
    ensures (forall a <- actions :: a.Sleep? ==> a.seconds <= maxBackoff)
      <==> initialBackoff <= maxBackoff || forall a <- actions :: !a.Sleep?
  {
    if maxAttempts >= 1 {
      AttemptsBackOff(initialBackoff, maxBackoff, AttemptsMade(connect, 1, maxAttempts));
      if maxBackoff >= 0.0 { AttemptsDouble(initialBackoff, maxBackoff, AttemptsMade(connect, 1, maxAttempts)); }
      SleepsCapped(initialBackoff, maxBackoff, AttemptsMade(connect, 1, maxAttempts));
    }
    var attempt := 0;
    var backoff := initialBackoff;
    var lastError: Option<string> := None;
    actions := [];
    while attempt < maxAttempts
      invariant 0 <= attempt && (attempt > 0 ==> attempt < maxAttempts)
      invariant forall k :: 1 <= k <= attempt ==> connect(k).Refused?
      invariant backoff == Wait(initialBackoff, maxBackoff, attempt + 1)
      invariant actions == Attempts(initialBackoff, maxBackoff, attempt)
                           + if attempt == 0 then [] else [Sleep(Wait(initialBackoff, maxBackoff, attempt))]
      invariant lastError == if attempt == 0 then None else Some(connect(attempt).error)
      decreases maxAttempts - attempt
    {
      attempt := attempt + 1;
      actions := actions + [Close];
      actions := actions + [Connect];
      assert actions == Attempts(initialBackoff, maxBackoff, attempt);
      match connect(attempt) {
        case Connected =>
          OnlyAttempts(connect, 1, maxAttempts, attempt);
          return Returned, actions;
        case Refused(error) =>
          lastError := Some(error);
          if attempt >= maxAttempts {
            OnlyAttempts(connect, 1, maxAttempts, attempt);
            return Raised(error), actions;
          }
          actions := actions + [Sleep(backoff)];
          backoff := RealMin(backoff * 2.0, maxBackoff);
      }
    }
    return Returned, actions;
  }

  /** The `k`-th attempt: close, then connect. */
  predicate AttemptAt(actions: seq<Action>, k: int) {
    1 <= k && 3 * k - 2 < |actions| && actions[3 * k - 3] == Close && actions[3 * k - 2] == Connect
  }

  predicate SleepAt(actions: seq<Action>, k: int) {
    1 <= k && 3 * k - 1 < |actions| && actions[3 * k - 1].Sleep?
  }

  /** The length of the sleep after the `k`-th attempt. */
  function Slept(actions: seq<Action>, k: int): real
    requires SleepAt(actions, k)
  {
    actions[3 * k - 1].seconds
  }

  /** `n` attempts in turn, and a sleep between any two. */
  ghost predicate InTurn(actions: seq<Action>, n: nat) {
    && n >= 1 && |actions| == 3 * n - 1
    && (forall k :: 1 <= k <= n ==> AttemptAt(actions, k))
    && (forall k :: 1 <= k < n ==> SleepAt(actions, k))
  }

  /** The first sleep is the initial one, and every further one is twice the one before, cut to the cap. */
  ghost predicate BacksOff(actions: seq<Action>, initial: real, cap: real, n: nat)
    requires InTurn(actions, n)
  {
    forall k :: 1 <= k < n ==>
      if k == 1 then Slept(actions, k) == initial
      else
        var twice := Slept(actions, k - 1) * 2.0; Slept(actions, k) == if twice <= cap then twice else cap
  }

  /** The `k`-th sleep is the initial one doubled `k - 1` times, cut to the cap from the second one on. */
  ghost predicate Doubles(actions: seq<Action>, initial: real, cap: real, n: nat)
    requires InTurn(actions, n)
  {
    forall k :: 1 <= k < n ==>
      var doubled := initial * Pow2(k - 1) as real;
      Slept(actions, k) == if k == 1 || doubled <= cap then doubled else cap
  }

  lemma {:induction false} AttemptsInTurn(initial: real, cap: real, n: nat)
    requires n >= 1
    ensures InTurn(Attempts(initial, cap, n), n)
    ensures forall k :: 1 <= k < n ==> Slept(Attempts(initial, cap, n), k) == Wait(initial, cap, k)
  {
    if n > 1 {
      var before := n - 1;
      var front, actions := Attempts(initial, cap, before), Attempts(initial, cap, n);
      AttemptsInTurn(initial, cap, before);
      assert actions == front + [Sleep(Wait(initial, cap, before)), Close, Connect];
      forall k | 1 <= k < n ensures SleepAt(actions, k) && Slept(actions, k) == Wait(initial, cap, k) {
        if k < before { assert SleepAt(front, k) && actions[3 * k - 1] == front[3 * k - 1]; }
      }
      forall k | 1 <= k <= n ensures AttemptAt(actions, k) {
        if k < n { assert AttemptAt(front, k); }
      }
    }
  }

  lemma AttemptsBackOff(initial: real, cap: real, n: nat)
    requires n >= 1
    ensures var actions := Attempts(initial, cap, n); InTurn(actions, n) && BacksOff(actions, initial, cap, n)
  {
    var actions := Attempts(initial, cap, n);
    AttemptsInTurn(initial, cap, n);
    forall k | 1 < k < n
      ensures var twice := Slept(actions, k - 1) * 2.0; Slept(actions, k) == if twice <= cap then twice else cap
    {
      assert Slept(actions, k - 1) == Wait(initial, cap, k - 1);
    }
  }

  lemma AttemptsDouble(initial: real, cap: real, n: nat)
    requires n >= 1 && cap >= 0.0
    ensures InTurn(Attempts(initial, cap, n), n) && Doubles(Attempts(initial, cap, n), initial, cap, n)
  {
    AttemptsInTurn(initial, cap, n);
    forall k | 1 <= k < n
      ensures var doubled := initial * Pow2(k - 1) as real;
        Wait(initial, cap, k) == if k == 1 || doubled <= cap then doubled else cap
    {
      WaitClosedForm(initial, cap, k);
      if k == 1 { assert Pow2(0) as real == 1.0; }
    }
  }

  /** All sleeps are within the cap exactly when the first is, or there is none. */
  lemma SleepsCapped(initial: real, cap: real, n: nat)
    ensures var actions := Attempts(initial, cap, n);
      (forall a <- actions :: a.Sleep? ==> a.seconds <= cap) <==> initial <= cap || forall a <- actions :: !a.Sleep?
  {
    var actions := Attempts(initial, cap, n);
    if n >= 1 {
      AttemptsBackOff(initial, cap, n);
      if n > 1 { assert SleepAt(actions, 1) && actions[2] in actions; }
      forall i | 0 <= i < |actions| && actions[i].Sleep?
        ensures n > 1 && (initial <= cap ==> actions[i].seconds <= cap)
      {
        SleepIsAt(actions, n, i);
      }
    }
  }

  lemma SleepIsAt(actions: seq<Action>, n: nat, i: nat)
    requires InTurn(actions, n) && i < |actions| && actions[i].Sleep?
    ensures var k := i / 3 + 1; k < n && SleepAt(actions, k) && i == 3 * k - 1
  {
    var k := i / 3 + 1;
    assert AttemptAt(actions, k);
    assert i == 3 * k - 3 || i == 3 * k - 2 || i == 3 * k - 1;
  }

  lemma OnlyAttempts(connect: int -> Connecting, from: nat, max: nat, n: nat)
    requires from <= n <= max
    requires forall k :: from <= k < n ==> connect(k).Refused?
    requires n < max ==> connect(n).Connected?
    ensures AttemptsMade(connect, from, max) == n
  {
  }
}
