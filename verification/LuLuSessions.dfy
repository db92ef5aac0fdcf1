/**
 * LU-LU sessions. `start`, `end` and `receive_data` are coroutines; a run is a sequence of their
 * uninterrupted segments and of inbound data.
 */
module LuLuSessions {
  import opened Common

  /**
   * The session and the calls suspended in it: starting, ending, waiting for data. `accepted` and
   * `returned` record what was queued and handed out since the session last ended.
   */
  datatype Lu = Lu(
    luName: Option<string>,
    active: bool,
    queue: seq<seq<byte>>,
    starting: nat,
    ending: nat,
    waiting: nat,
    accepted: seq<seq<byte>>,
    returned: seq<seq<byte>>)

  const IDLE := Lu(None, false, [], 0, 0, 0, [], [])

  datatype Event =
    | BeginStart(luName: string)
    | FinishStart(sent: bool)
    | BeginEnd
    | FinishEnd(sent: bool)
    | BeginReceive
    | Deliver
    | TimeOut
    | Inbound(data: seq<byte>)

  function Step(s: Lu, e: Event): Lu {
    match e
    case BeginStart(luName) => s.(luName := Some(luName), starting := s.starting + 1)
    case FinishStart(sent) =>
      if s.starting == 0 then s else s.(starting := s.starting - 1, active := s.active || sent)
    case BeginEnd => if s.active then s.(ending := s.ending + 1) else s
    case FinishEnd(sent) =>
      if s.ending == 0 then s
      else if !sent then s.(ending := s.ending - 1)
      else Lu(None, false, [], s.starting, s.ending - 1, s.waiting, [], [])
    case BeginReceive => if s.active then s.(waiting := s.waiting + 1) else s
    case Deliver =>
      if s.waiting == 0 || s.queue == [] then s
      else s.(waiting := s.waiting - 1, queue := s.queue[1..], returned := s.returned + [s.queue[0]])
    case TimeOut => if s.waiting == 0 then s else s.(waiting := s.waiting - 1)
    case Inbound(data) => if s.active then s.(queue := s.queue + [data], accepted := s.accepted + [data]) else s
  }

  function Run(s: Lu, es: seq<Event>): Lu
    decreases |es|
  {
    if es == [] then s else Run(Step(s, es[0]), es[1..])
  }

  /** An inactive session holds no data, and what was accepted is what was returned and what waits. */
  predicate Inv(s: Lu) {
    (!s.active ==> s.queue == []) && s.accepted == s.returned + s.queue
  }

  lemma StepKeepsInv(s: Lu, e: Event)
    requires Inv(s)
    ensures Inv(Step(s, e))
  {
    if e.Deliver? && s.waiting > 0 && s.queue != [] {
      assert s.queue == [s.queue[0]] + s.queue[1..];
      assert s.returned + ([s.queue[0]] + s.queue[1..]) == s.returned + [s.queue[0]] + s.queue[1..];
    }
    if e.Inbound? && s.active {
      assert s.returned + s.queue + [e.data] == s.returned + (s.queue + [e.data]);
    }
  }

  lemma {:induction false} RunKeepsInv(s: Lu, es: seq<Event>)
    requires Inv(s)
    ensures Inv(Run(s, es))
    decreases |es|
  {
    if es != [] {
      StepKeepsInv(s, es[0]);
      RunKeepsInv(Step(s, es[0]), es[1..]);
    }
  }

  /**
   * In every run, an inactive session has an empty queue, and what `receive_data` returned since the
   * session was last ended is a prefix of what was accepted since then, in the same order.
   */
  lemma EveryRunIsFifo(es: seq<Event>)
    ensures var s := Run(IDLE, es); (!s.active ==> s.queue == []) && s.returned <= s.accepted
  {
    RunKeepsInv(IDLE, es);
  }

  /** The data accepted by a session that is active throughout a run. */
  function Arrived(es: seq<Event>): seq<seq<byte>> {
    if es == [] then [] else Arrival(es[0]) + Arrived(es[1..])
  }

  predicate NoEnd(es: seq<Event>) {
    forall e <- es :: !e.FinishEnd?
  }

  function Arrival(e: Event): seq<seq<byte>> {
    if e.Inbound? then [e.data] else []
  }

  lemma ActiveAccepts(s: Lu, e: Event)
    requires s.active && !e.FinishEnd?
    ensures Step(s, e).active && Step(s, e).accepted == s.accepted + Arrival(e)
  {
  }

  /**
   * While a session stays active nothing inbound is lost: everything that arrives is accepted, and
   * has been returned or is still queued.
   */
  lemma {:induction false} ActiveLosesNothing(s: Lu, es: seq<Event>)
    requires Inv(s) && s.active && NoEnd(es)
    ensures var s' := Run(s, es);
      s'.active && s'.accepted == s.accepted + Arrived(es) && s'.returned + s'.queue == s.accepted + Arrived(es)
    decreases |es|
  {
    if es != [] {
      assert es[0] in es;
      StepKeepsInv(s, es[0]);
      ActiveAccepts(s, es[0]);
      ActiveLosesNothing(Step(s, es[0]), es[1..]);
      Assoc(s.accepted, Arrival(es[0]), Arrived(es[1..]));
    }
  }

  function Return(s: Lu, e: Event): seq<seq<byte>> {
    if e.Deliver? && s.waiting > 0 && s.queue != [] then [s.queue[0]] else []
  }

  function Acceptance(s: Lu, e: Event): seq<seq<byte>> {
    if s.active then Arrival(e) else []
  }

  /** No event makes up data. */
  lemma ReturnStep(s: Lu, e: Event)
    ensures multiset(Return(s, e)) + multiset(Step(s, e).queue) <= multiset(s.queue) + multiset(Acceptance(s, e))
  {
    if s.queue != [] { assert s.queue == [s.queue[0]] + s.queue[1..]; }
  }

  /** What the calls of `receive_data` return in a run, in order. */
  function Returns(s: Lu, es: seq<Event>): seq<seq<byte>>
    decreases |es|
  {
    if es == [] then []
    else Return(s, es[0]) + Returns(Step(s, es[0]), es[1..])
  }

  /** What is accepted in a run, in order. */
  function Accepts(s: Lu, es: seq<Event>): seq<seq<byte>>
    decreases |es|
  {
    if es == [] then []
    else Acceptance(s, es[0]) + Accepts(Step(s, es[0]), es[1..])
  }

  lemma Together(r: multiset<seq<byte>>, r': multiset<seq<byte>>, q': multiset<seq<byte>>,
                 q: multiset<seq<byte>>, a: multiset<seq<byte>>, a': multiset<seq<byte>>)
    requires r + q' <= q + a && r' <= q' + a'
    ensures r + r' <= q + (a + a')
  {
    forall x ensures (r + r')[x] <= (q + (a + a'))[x] {
      assert (r + q')[x] <= (q + a)[x] && r'[x] <= (q' + a')[x];
    }
  }

  /** Whatever a run returns was queued before it or is accepted in it, each datum once. */
  lemma {:induction false} ReturnsOnce(s: Lu, es: seq<Event>)
    ensures multiset(Returns(s, es)) <= multiset(s.queue) + multiset(Accepts(s, es))
    decreases |es|
  {
    if es != [] {
      var s' := Step(s, es[0]);
      ReturnStep(s, es[0]);
      ReturnsOnce(s', es[1..]);
      Together(multiset(Return(s, es[0])), multiset(Returns(s', es[1..])), multiset(s'.queue),
        multiset(s.queue), multiset(Acceptance(s, es[0])), multiset(Accepts(s', es[1..])));
    }
  }

  /**
   * Ending drops what was accepted and not returned, for good: no continuation, not even one that
   * starts the session again or completes a call that was already waiting, returns anything but what
   * it accepts itself, each datum once.
   */
  lemma EndDropsTheRest(s: Lu, es: seq<Event>)
    requires Inv(s) && s.ending > 0
    ensures var s' := Step(s, FinishEnd(true));
      !s'.active && s'.waiting == s.waiting && multiset(Returns(s', es)) <= multiset(Accepts(s', es))
  {
    ReturnsOnce(Step(s, FinishEnd(true)), es);
  }

  /** A start names the session at once, and makes it active once the BIND was sent. */
  lemma StartExactly(s: Lu, name: string, sent: bool)
    ensures var s' := Step(Step(s, BeginStart(name)), FinishStart(sent));
      && s'.luName == Some(name) && s'.active == (s.active || sent) && s'.starting == s.starting
      && s'.queue == s.queue && s'.accepted == s.accepted && s'.returned == s.returned
  {
  }

  /** An end whose UNBIND was sent leaves the session inactive, unnamed and empty; one whose was not changes nothing. */
  lemma EndExactly(s: Lu, sent: bool)
    requires s.active
    ensures var s' := Step(Step(s, BeginEnd), FinishEnd(sent));
      if sent then !s'.active && s'.luName == None && s'.queue == [] && s'.waiting == s.waiting else s' == s
  {
  }

  /** Once started, what arrives next is accepted, and it is what a call of `receive_data` gets first. */
  lemma StartedReceives(name: string, data: seq<byte>, later: seq<byte>)
    ensures var s := Step(Step(IDLE, BeginStart(name)), FinishStart(true));
      var es := [Inbound(data)] + [Inbound(later)] + [BeginReceive] + [Deliver];
      && Accepts(s, es) == [data, later] && Returns(s, es) == [data] && Run(s, es).queue == [later]
  {
    var s := Step(Step(IDLE, BeginStart(name)), FinishStart(true));
    var e0: Event, e1: Event := Inbound(data), Inbound(later);
    var es := [e0] + [e1] + [BeginReceive] + [Deliver];
    var rest1, rest2, rest3 := [e1] + [BeginReceive] + [Deliver], [BeginReceive] + [Deliver], [Deliver];
    assert es[1..] == rest1 && rest1[1..] == rest2 && rest2[1..] == rest3 && rest3[1..] == [];
    var s1 := Step(s, e0);
    var s2 := Step(s1, e1);
    var s3 := Step(s2, BeginReceive);
    assert s1.queue == [data] && s2.queue == [data, later] && s2.queue[1..] == [later];
    assert Returns(s3, rest3) == [data] && Accepts(s3, rest3) == [];
    assert Returns(s2, rest2) == [data] && Accepts(s2, rest2) == [];
    assert Returns(s1, rest1) == [data] && Accepts(s1, rest1) == [later];
    assert Run(s, es) == Run(s1, rest1) == Run(s2, rest2) == Run(s3, rest3) == Run(Step(s3, Deliver), []);
  }

  /** An inactive session accepts nothing and no call begins to wait; a timeout loses nothing. */
  lemma InactiveAndTimeOut(s: Lu, data: seq<byte>)
    ensures !s.active ==> Step(s, Inbound(data)) == s && Step(s, BeginReceive) == s && Step(s, BeginEnd) == s
    ensures s.waiting > 0 ==> Step(s, TimeOut) == s.(waiting := s.waiting - 1)
  {
  }

  class LuLuSession {
    var luName: Option<string>
    var isActive: bool
    var dataQueue: seq<seq<byte>>
    ghost var starting: nat
    ghost var ending: nat
    ghost var waiting: nat
    ghost var accepted: seq<seq<byte>>
    ghost var returned: seq<seq<byte>>

    ghost function View(): Lu
      reads this
    {
      Lu(luName, isActive, dataQueue, starting, ending, waiting, accepted, returned)
    }

    constructor ()
      ensures View() == IDLE
    {
      luName, isActive, dataQueue := None, false, [];
      starting, ending, waiting, accepted, returned := 0, 0, 0, [], [];
    }

    /** `start`, up to the wait for the BIND to be sent. */
    method BeginStart(name: string)
      modifies this
      ensures View() == Step(old(View()), Event.BeginStart(name))
    {
      luName := Some(name);
      starting := starting + 1;
    }

    method FinishStart(sent: bool)
      requires starting > 0
      modifies this
      ensures View() == Step(old(View()), Event.FinishStart(sent))
    {
      starting := starting - 1;
      if sent {
        isActive := true;
      }
    }

    /** `end`, up to the wait for the UNBIND to be sent. */
    method BeginEnd()
      modifies this
      ensures View() == Step(old(View()), Event.BeginEnd)
    {
      if isActive {
        ending := ending + 1;
      }
    }

    /** The rest of `end`: leave the session and drain the queue. */
    method FinishEnd(sent: bool)
      requires ending > 0
      modifies this
      ensures View() == Step(old(View()), Event.FinishEnd(sent))
    {
      ending := ending - 1;
      if sent {
        isActive := false;
        luName := None;
        while dataQueue != []
          invariant !isActive && luName == None
          invariant unchanged(`starting) && unchanged(`waiting) && ending == old(ending) - 1
          decreases |dataQueue|
        {
          dataQueue := dataQueue[1..];
        }
        accepted, returned := [], [];
      }
    }

    /** `receive_data`, up to the wait for data; false when the session is not active. */
    method BeginReceive() returns (ok: bool)
      modifies this
      ensures ok == old(isActive) && View() == Step(old(View()), Event.BeginReceive)
    {
      ok := isActive;
      if isActive {
        waiting := waiting + 1;
      }
    }

    /** A waiting call gets the oldest datum. */
    method Deliver() returns (data: seq<byte>)
      requires waiting > 0 && dataQueue != []
      modifies this
      ensures data == old(dataQueue)[0] && View() == Step(old(View()), Event.Deliver)
    {
      data := dataQueue[0];
      dataQueue := dataQueue[1..];
      waiting := waiting - 1;
      returned := returned + [data];
    }

    /** A waiting call gives up and returns nothing. */
    method TimeOut() returns (data: seq<byte>)
      requires waiting > 0
      modifies this
      ensures data == [] && View() == Step(old(View()), Event.TimeOut)
    {
      waiting := waiting - 1;
      data := [];
    }

    method HandleInbound3270ds(data: seq<byte>)
      modifies this
      ensures View() == Step(old(View()), Event.Inbound(data))
    {
      if isActive {
        dataQueue := dataQueue + [data];
        accepted := accepted + [data];
      }
    }
  }

  // ------------------------------------------------------------------------------------------
  // Framing
  // ------------------------------------------------------------------------------------------

  const OUTBOUND_SF: byte := 0x88
  const OUTBOUND_3270DS: byte := 0x40

  /** An outbound field; here the length counts every byte of it. */
  function OutboundFrame(data: seq<byte>): seq<byte> {
    var length := |data| + 4;
    [OUTBOUND_SF, (length / 256) % 256, length % 256, OUTBOUND_3270DS] + data
  }

  /** An outbound field byte by byte. */
  lemma OutboundBytes(data: seq<byte>)
    requires |data| <= 65531
    ensures var f := OutboundFrame(data);
      && f[0] == 0x88 && f[1] as int * 256 + f[2] as int == |f| == |data| + 4 && f[3] == 0x40 && f[4..] == data
  {
  }

  function CutOutbound(w: seq<byte>): Option<(seq<byte>, seq<byte>)> {
    if |w| < 4 || w[0] != OUTBOUND_SF || w[3] != OUTBOUND_3270DS then None
    else
      var length := w[1] as int * 256 + w[2] as int;
      if length < 4 || |w| < length then None else Some((w[4..length], w[length..]))
  }

  /** The length delimits the field whatever follows exactly when the data is at most 65531 bytes. */
  lemma OutboundExact(data: seq<byte>, rest: seq<byte>)
    ensures CutOutbound(OutboundFrame(data) + rest) == Some((data, rest)) <==> |data| <= 65531
  {
    var w := OutboundFrame(data) + rest;
    var length := |data| + 4;
    assert w[0] == OUTBOUND_SF && w[1] == (length / 256) % 256 && w[2] == length % 256 && w[3] == OUTBOUND_3270DS;
    assert w[4..length] == data && w[length..] == rest;
    if |data| <= 65531 {
      assert w[1] as int * 256 + w[2] as int == length;
    }
  }
}
