/**
 * Reassembly of trace records, as values: what the parser does with each line, and the one list of
 * records a trace can stand for.
 */
module TraceModel {
  import opened Common

  datatype Direction = Send | Recv

  /** The data of a well-formed packet line: at least one byte. */
  type Payload = bs: seq<byte> | bs != [] witness [0]

  /**
   * A trace line as the parsers tell lines apart. `Packet` is a line that matches the packet
   * pattern; its payload is None when it has an odd number of hex digits. `BadSize` is a size
   * directive whose number cannot be read.
   */
  datatype Line =
    | Blank
    | SlashComment
    | HashComment
    | Rows(rows: int)
    | Columns(columns: int)
    | BadSize
    | Packet(direction: Direction, offset: nat, payload: Option<Payload>)
    | Unrecognised

  datatype TraceEvent = TraceEvent(direction: Direction, offset: nat, data: seq<byte>, lineNum: nat)

  /** The state of the parser: the record under construction and the events so far. */
  datatype Parser = Parser(
    direction: Option<Direction>,
    offset: Option<nat>,
    data: seq<byte>,
    startLine: nat,
    events: seq<TraceEvent>)

  const INITIAL := Parser(None, None, [], 0, [])

  function Flush(p: Parser): Parser {
    var events :=
      if p.data != [] && p.direction.Some? && p.offset.Some?
      then p.events + [TraceEvent(p.direction.value, p.offset.value, p.data, p.startLine)]
      else p.events;
    Parser(None, None, [], p.startLine, events)
  }

  /** A fragment continues the record under construction: same direction, touching offset. */
  predicate Continues(p: Parser, direction: Direction, offset: nat) {
    p.direction == Some(direction) && p.offset.Some? && offset == p.offset.value + |p.data|
  }

  function AddFragment(p: Parser, direction: Direction, offset: nat, data: seq<byte>, lineNum: nat): Parser {
    if Continues(p, direction, offset) then p.(data := p.data + data)
    else Flush(p).(direction := Some(direction), offset := Some(offset), data := data, startLine := lineNum)
  }

  /** A line that ends the record under construction without carrying data. */
  predicate IsBreak(line: Line) {
    line.HashComment? || line.Unrecognised? || (line.Packet? && line.payload.None?)
  }

  function ParseLine(p: Parser, line: Line, lineNum: nat): Parser {
    if IsBreak(line) then Flush(p)
    else if line.Packet? then AddFragment(p, line.direction, line.offset, line.payload.value, lineNum)
    else p
  }

  /** The parser after the first `n` lines. */
  function ParseUpTo(lines: seq<Line>, n: nat): Parser
    requires n <= |lines|
  {
    if n == 0 then INITIAL else ParseLine(ParseUpTo(lines, n - 1), lines[n - 1], n)
  }

  /**
   * The events of a whole trace. A trace with an unreadable size directive makes the parser fail, as
   * `Parse` of `TraceProcessors` says; what is proved of such a trace here is about the events the
   * parser would return without that directive.
   */
  function Parsed(lines: seq<Line>): seq<TraceEvent> {
    Flush(ParseUpTo(lines, |lines|)).events
  }

  // ------------------------------------------------------------------------------------------
  // Records and the bytes they stand for
  // ------------------------------------------------------------------------------------------

  datatype Record = Record(direction: Direction, offset: nat, data: seq<byte>)

  /** One byte of a trace: which way it went, at which offset, and its value. */
  datatype Tagged = Tagged(direction: Direction, position: nat, value: byte)

  function TagBytes(direction: Direction, offset: nat, data: seq<byte>): (ts: seq<Tagged>)
    ensures |ts| == |data|
    ensures forall k :: 0 <= k < |data| ==> ts[k] == Tagged(direction, offset + k, data[k])
  {
    seq(|data|, k requires 0 <= k < |data| => Tagged(direction, offset + k, data[k]))
  }

  function RecordBytes(rs: seq<Record>): seq<Tagged> {
    if rs == [] then []
    else RecordBytes(rs[..|rs| - 1]) + LastBytes(rs)
  }

  function LastBytes(rs: seq<Record>): seq<Tagged>
    requires rs != []
  {
    var r := rs[|rs| - 1];
    TagBytes(r.direction, r.offset, r.data)
  }

  function LineBytes(line: Line): seq<Tagged> {
    if line.Packet? && line.payload.Some? then TagBytes(line.direction, line.offset, line.payload.value) else []
  }

  /** All bytes of the well-formed packet lines among the first `n`, in order. */
  function TraceBytes(lines: seq<Line>, n: nat): seq<Tagged>
    requires n <= |lines|
  {
    if n == 0 then [] else TraceBytes(lines, n - 1) + LineBytes(lines[n - 1])
  }

  function RecordsOf(events: seq<TraceEvent>): (rs: seq<Record>)
    ensures |rs| == |events|
    ensures forall k :: 0 <= k < |rs| ==> rs[k] == Record(events[k].direction, events[k].offset, events[k].data)
  {
    seq(|events|, k requires 0 <= k < |events| => Record(events[k].direction, events[k].offset, events[k].data))
  }

  /** `b` starts where `a` ends, in the same direction. */
  predicate Touching(a: Record, b: Record) {
    a.direction == b.direction && b.offset == a.offset + |a.data|
  }

  ghost predicate NonEmpty(rs: seq<Record>) {
    forall r <- rs :: r.data != []
  }

  /** No record continues the one before it. */
  ghost predicate Separated(rs: seq<Record>) {
    forall k :: 0 <= k < |rs| - 1 ==> !Touching(rs[k], rs[k + 1])
  }

  /** The records the parser has completed, with the one under construction. */
  function Pending(p: Parser): seq<Record> {
    RecordsOf(Flush(p).events)
  }

  /** The direction and the offset are set together, and then there is data. */
  predicate Consistent(p: Parser) {
    (p.direction.Some? <==> p.offset.Some?) && (p.direction.Some? <==> p.data != [])
  }

  lemma {:induction false} UpToConsistent(lines: seq<Line>, n: nat)
    requires n <= |lines|
    ensures Consistent(ParseUpTo(lines, n))
  {
    if n > 0 {
      UpToConsistent(lines, n - 1);
    }
  }

  lemma RecordBytesSnoc(rs: seq<Record>, r: Record)
    ensures RecordBytes(rs + [r]) == RecordBytes(rs) + TagBytes(r.direction, r.offset, r.data)
  {
    assert (rs + [r])[..|rs|] == rs;
  }

  lemma TagBytesAppend(direction: Direction, offset: nat, a: seq<byte>, b: seq<byte>)
    ensures TagBytes(direction, offset, a + b)
         == TagBytes(direction, offset, a) + TagBytes(direction, offset + |a|, b)
  {
  }

  lemma ExtendingLast(rs: seq<Record>, data: seq<byte>)
    requires rs != []
    ensures var last := rs[|rs| - 1];
      RecordBytes(rs[..|rs| - 1] + [last.(data := last.data + data)])
      == RecordBytes(rs) + TagBytes(last.direction, last.offset + |last.data|, data)
  {
    var last := rs[|rs| - 1];
    RecordBytesSnoc(rs[..|rs| - 1], last.(data := last.data + data));
    TagBytesAppend(last.direction, last.offset, last.data, data);
    assert RecordBytes(rs) == RecordBytes(rs[..|rs| - 1]) + TagBytes(last.direction, last.offset, last.data);
  }

  /** How one line changes the records. */
  lemma PendingStep(p: Parser, line: Line, lineNum: nat)
    requires Consistent(p)
    ensures var rs := Pending(p); var p' := ParseLine(p, line, lineNum); var rs' := Pending(p');
      && (line.Packet? && line.payload.Some? ==>
           && p'.direction == Some(line.direction)
           && rs' == if Continues(p, line.direction, line.offset)
                     then rs[..|rs| - 1] + [rs[|rs| - 1].(data := rs[|rs| - 1].data + line.payload.value)]
                     else rs + [Record(line.direction, line.offset, line.payload.value)])
      && (!(line.Packet? && line.payload.Some?) ==> rs' == rs)
  {
    var rs := Pending(p);
    if p.direction.Some? {
      assert Flush(p).events == p.events + [TraceEvent(p.direction.value, p.offset.value, p.data, p.startLine)];
    }
  }

  lemma BytesStep(p: Parser, line: Line, lineNum: nat)
    requires Consistent(p)
    ensures RecordBytes(Pending(ParseLine(p, line, lineNum))) == RecordBytes(Pending(p)) + LineBytes(line)
  {
    PendingStep(p, line, lineNum);
    if line.Packet? && line.payload.Some? {
      var rs := Pending(p);
      if Continues(p, line.direction, line.offset) {
        assert rs[|rs| - 1] == Record(p.direction.value, p.offset.value, p.data);
      }
      BytesAdded(rs, line.direction, line.offset, line.payload.value, Continues(p, line.direction, line.offset));
    } else {
      assert RecordBytes(Pending(p)) + [] == RecordBytes(Pending(p));
    }
  }

  /** A fragment adds its bytes, whether it continues the last record or starts a new one. */
  lemma BytesAdded(rs: seq<Record>, direction: Direction, offset: nat, data: seq<byte>, continuing: bool)
    requires continuing ==> rs != [] && Touching(rs[|rs| - 1], Record(direction, offset, data))
    ensures RecordBytes(if continuing then rs[..|rs| - 1] + [rs[|rs| - 1].(data := rs[|rs| - 1].data + data)]
                        else rs + [Record(direction, offset, data)])
         == RecordBytes(rs) + TagBytes(direction, offset, data)
  {
    if continuing {
      ExtendingLast(rs, data);
    } else {
      RecordBytesSnoc(rs, Record(direction, offset, data));
    }
  }

  /**
   * Conservation: the bytes of the records, each with its direction and its offset, are those of
   * the packet lines, in order. In particular every event is a run of contiguous offsets.
   */
  lemma {:induction false} BytesConserved(lines: seq<Line>, n: nat)
    requires n <= |lines|
    ensures RecordBytes(Pending(ParseUpTo(lines, n))) == TraceBytes(lines, n)
  {
    if n > 0 {
      var before := n - 1;
      BytesConserved(lines, before);
      UpToConsistent(lines, before);
      BytesStep(ParseUpTo(lines, before), lines[before], n);
      assert ParseUpTo(lines, n) == ParseLine(ParseUpTo(lines, before), lines[before], n);
    }
  }

  ghost predicate BreakFree(lines: seq<Line>) {
    forall line <- lines :: !IsBreak(line)
  }

  /** Without breaks the parser is always inside a record, and no record continues another. */
  lemma {:induction false} UpToSeparated(lines: seq<Line>, n: nat)
    requires n <= |lines| && BreakFree(lines)
    ensures var p := ParseUpTo(lines, n); var rs := Pending(p);
      NonEmpty(rs) && Separated(rs) && (rs != [] ==> p.direction.Some?)
  {
    if n > 0 {
      UpToSeparated(lines, n - 1);
      UpToConsistent(lines, n - 1);
      var p := ParseUpTo(lines, n - 1);
      var line := lines[n - 1];
      assert line in lines;
      PendingStep(p, line, n);
      var rs := Pending(p);
      if rs != [] {
        assert rs[|rs| - 1] == Record(p.direction.value, p.offset.value, p.data);
      }
    }
  }

  /** A separated list of non-empty records is determined by its bytes. */
  lemma {:induction false} SeparatedUnique(a: seq<Record>, b: seq<Record>)
    requires NonEmpty(a) && NonEmpty(b) && Separated(a) && Separated(b)
    requires RecordBytes(a) == RecordBytes(b)
    ensures a == b
    decreases |a|
  {
    BytesEmptiness(a);
    BytesEmptiness(b);
    if a != [] && b != [] {
      var x, y := a[|a| - 1], b[|b| - 1];
      var a', b' := a[..|a| - 1], b[..|b| - 1];
      if |x.data| < |y.data| {
        LongerLastContinues(a, b);
      } else if |y.data| < |x.data| {
        LongerLastContinues(b, a);
      }
      var w := RecordBytes(a);
      var cut := |w| - |x.data|;
      assert w[cut..] == LastBytes(a) && w[cut..] == LastBytes(b);
      assert w[..cut] == RecordBytes(a') && w[..cut] == RecordBytes(b');
      SameLast(x, y);
      SeparatedUnique(a', b');
      assert a == a' + [x] && b == b' + [y];
    }
  }

  lemma SameLast(x: Record, y: Record)
    requires x.data != [] && y.data != []
    requires TagBytes(x.direction, x.offset, x.data) == TagBytes(y.direction, y.offset, y.data)
    ensures x == y
  {
    var tx, ty := TagBytes(x.direction, x.offset, x.data), TagBytes(y.direction, y.offset, y.data);
    assert tx[0] == ty[0];
    forall k | 0 <= k < |x.data| ensures x.data[k] == y.data[k] {
      assert tx[k] == ty[k];
    }
  }

  function TagAt(r: Record, k: nat): Tagged
    requires k < |r.data|
  {
    Tagged(r.direction, r.offset + k, r.data[k])
  }

  /** Two lists with the same bytes whose last records differ in length are not both separated. */
  lemma LongerLastContinues(a: seq<Record>, b: seq<Record>)
    requires a != [] && b != [] && NonEmpty(a) && NonEmpty(b)
    requires RecordBytes(a) == RecordBytes(b)
    requires |a[|a| - 1].data| < |b[|b| - 1].data|
    ensures !Separated(a)
  {
    var x, y := a[|a| - 1], b[|b| - 1];
    var shift := |y.data| - |x.data|;
    LastBytesAt(a, 0);
    LastBytesAt(b, shift);
    LastBytesAt(b, shift - 1);
    assert TagAt(x, 0) == TagAt(y, shift);
    BeforeLast(a);
    var z := a[|a| - 2];
    assert TagAt(z, |z.data| - 1) == TagAt(y, shift - 1);
    assert Touching(a[|a| - 2], a[|a| - 2 + 1]);
  }

  /** The byte before those of the last record is the last one of the record before it. */
  lemma BeforeLast(rs: seq<Record>)
    requires NonEmpty(rs) && rs != [] && |rs[|rs| - 1].data| < |RecordBytes(rs)|
    ensures |rs| >= 2 && rs[|rs| - 2].data != []
    ensures RecordBytes(rs)[|RecordBytes(rs)| - |rs[|rs| - 1].data| - 1]
         == TagAt(rs[|rs| - 2], |rs[|rs| - 2].data| - 1)
  {
    var front := rs[..|rs| - 1];
    assert forall r <- front :: r in rs;
    BytesEmptiness(front);
    var w := RecordBytes(front);
    var z := front[|front| - 1];
    assert z == rs[|rs| - 2] && z in rs;
    LastBytesAt(front, |z.data| - 1);
    assert RecordBytes(rs) == w + LastBytes(rs);
  }

  /** The bytes of a list of non-empty records end with those of its last record. */
  lemma LastBytesAt(rs: seq<Record>, k: nat)
    requires NonEmpty(rs) && rs != [] && k < |rs[|rs| - 1].data|
    ensures |RecordBytes(rs)| >= |rs[|rs| - 1].data|
    ensures RecordBytes(rs)[|RecordBytes(rs)| - |rs[|rs| - 1].data| + k] == TagAt(rs[|rs| - 1], k)
  {
    assert RecordBytes(rs) == RecordBytes(rs[..|rs| - 1]) + LastBytes(rs);
  }

  lemma BytesEmptiness(rs: seq<Record>)
    requires NonEmpty(rs)
    ensures rs == [] <==> RecordBytes(rs) == []
    ensures rs != [] ==> 0 < |rs[|rs| - 1].data| <= |RecordBytes(rs)|
  {
    if rs != [] {
      assert rs[|rs| - 1] in rs;
    }
  }

  /**
   * On a trace without breaks the parser returns the one list of non-empty records, none continuing
   * another, whose bytes are those of the trace.
   */
  lemma ParsedExactly(lines: seq<Line>, rs: seq<Record>)
    requires BreakFree(lines)
    ensures RecordsOf(Parsed(lines)) == rs
      <==> NonEmpty(rs) && Separated(rs) && RecordBytes(rs) == TraceBytes(lines, |lines|)
  {
    var mine := Pending(ParseUpTo(lines, |lines|));
    UpToSeparated(lines, |lines|);
    BytesConserved(lines, |lines|);
    if NonEmpty(rs) && Separated(rs) && RecordBytes(rs) == TraceBytes(lines, |lines|) {
      SeparatedUnique(mine, rs);
    }
  }

  // ------------------------------------------------------------------------------------------
  // Breaks
  // ------------------------------------------------------------------------------------------

  lemma {:induction false} AfterBreak(a: seq<Line>, brk: Line, b: seq<Line>, n: nat)
    requires IsBreak(brk) && n <= |b|
    ensures var p := ParseUpTo(a + [brk] + b, |a| + 1 + n); var q := ParseUpTo(b, n);
      && p.direction == q.direction && p.offset == q.offset && p.data == q.data
      && RecordsOf(p.events) == RecordsOf(Parsed(a)) + RecordsOf(q.events)
  {
    var lines := a + [brk] + b;
    if n == 0 {
      AtBreak(lines, a, brk);
      assert RecordsOf(Parsed(a)) + [] == RecordsOf(Parsed(a));
    } else {
      var before, at := n - 1, |a| + n;
      AfterBreak(a, brk, b, before);
      assert lines[at] == b[before] && at == |a| + 1 + before;
      var p, q := ParseUpTo(lines, at), ParseUpTo(b, before);
      StepAfterBreak(p, q, b[before], at + 1, n, RecordsOf(Parsed(a)));
      assert ParseUpTo(lines, at + 1) == ParseLine(p, lines[at], at + 1);
      assert ParseUpTo(b, n) == ParseLine(q, b[before], n);
    }
  }

  lemma AtBreak(lines: seq<Line>, a: seq<Line>, brk: Line)
    requires IsBreak(brk) && |a| < |lines| && lines[..|a|] == a && lines[|a|] == brk
    ensures ParseUpTo(lines, |a| + 1) == Flush(ParseUpTo(a, |a|))
  {
    SamePrefix(lines, a, |a|);
  }

  lemma StepAfterBreak(p: Parser, q: Parser, line: Line, m: nat, n: nat, front: seq<Record>)
    requires p.direction == q.direction && p.offset == q.offset && p.data == q.data
    requires RecordsOf(p.events) == front + RecordsOf(q.events)
    ensures var p', q' := ParseLine(p, line, m), ParseLine(q, line, n);
      && p'.direction == q'.direction && p'.offset == q'.offset && p'.data == q'.data
      && RecordsOf(p'.events) == front + RecordsOf(q'.events)
  {
    FlushSplits(p, q, front);
  }

  lemma FlushSplits(p: Parser, q: Parser, front: seq<Record>)
    requires p.direction == q.direction && p.offset == q.offset && p.data == q.data
    requires RecordsOf(p.events) == front + RecordsOf(q.events)
    ensures RecordsOf(Flush(p).events) == front + RecordsOf(Flush(q).events)
  {
  }

  lemma {:induction false} SamePrefix(lines: seq<Line>, a: seq<Line>, n: nat)
    requires n <= |a| <= |lines| && lines[..|a|] == a
    ensures ParseUpTo(lines, n) == ParseUpTo(a, n)
  {
    if n > 0 {
      SamePrefix(lines, a, n - 1);
      assert lines[n - 1] == lines[..|a|][n - 1];
    }
  }

  /** A break cuts a trace in two that are parsed on their own. */
  lemma BreakSplits(a: seq<Line>, brk: Line, b: seq<Line>)
    requires IsBreak(brk)
    ensures RecordsOf(Parsed(a + [brk] + b)) == RecordsOf(Parsed(a)) + RecordsOf(Parsed(b))
  {
    AfterBreak(a, brk, b, |b|);
    var lines := a + [brk] + b;
    FlushSplits(ParseUpTo(lines, |lines|), ParseUpTo(b, |b|), RecordsOf(Parsed(a)));
  }

  // ------------------------------------------------------------------------------------------
  // Line numbers
  // ------------------------------------------------------------------------------------------

  /** The line an event points at carries its direction, its offset and the beginning of its data. */
  ghost predicate PointsAt(lines: seq<Line>, e: TraceEvent) {
    && 1 <= e.lineNum <= |lines|
    && lines[e.lineNum - 1].Packet? && lines[e.lineNum - 1].payload.Some?
    && lines[e.lineNum - 1].direction == e.direction
    && lines[e.lineNum - 1].offset == e.offset
    && lines[e.lineNum - 1].payload.value <= e.data
  }

  predicate EventTouches(a: TraceEvent, b: TraceEvent) {
    a.direction == b.direction && b.offset == a.offset + |a.data|
  }

  /** The list of events so far, counting the one under construction. */
  function AllEvents(p: Parser): seq<TraceEvent> {
    Flush(p).events
  }

  ghost predicate BreakBetween(lines: seq<Line>, from: nat, to: nat)
    requires to <= |lines|
  {
    exists j :: from <= j < to && IsBreak(lines[j])
  }

  ghost predicate EventsOk(lines: seq<Line>, n: nat, es: seq<TraceEvent>)
    requires n <= |lines|
  {
    forall k :: 0 <= k < |es| ==> EventOk(lines, n, es, k)
  }

  ghost predicate EventOk(lines: seq<Line>, n: nat, es: seq<TraceEvent>, k: nat)
    requires n <= |lines| && k < |es|
  {
    && PointsAt(lines, es[k]) && es[k].lineNum <= n
    && (k > 0 ==> FollowsOk(lines, es[k - 1], es[k]))
  }

  /** `b` starts on a later line than `a`, behind a break if it touches `a`. */
  ghost predicate FollowsOk(lines: seq<Line>, a: TraceEvent, b: TraceEvent)
    requires 1 <= b.lineNum <= |lines|
  {
    a.lineNum < b.lineNum && (EventTouches(a, b) ==> BreakBetween(lines, a.lineNum, b.lineNum - 1))
  }

  lemma {:induction false} UpToEventsOk(lines: seq<Line>, n: nat)
    requires n <= |lines|
    ensures ParserOk(lines, n, ParseUpTo(lines, n))
  {
    if n == 0 {
      assert AllEvents(INITIAL) == [];
    } else {
      var before := n - 1;
      UpToEventsOk(lines, before);
      UpToConsistent(lines, before);
      LineEventsOk(lines, n, ParseUpTo(lines, before));
    }
  }

  /** The events so far are in order, and outside a record there was a break since the last one. */
  ghost predicate ParserOk(lines: seq<Line>, n: nat, p: Parser)
    requires n <= |lines|
  {
    && EventsOk(lines, n, AllEvents(p))
    && (AllEvents(p) != [] && p.direction.None? ==> BrokenSince(lines, AllEvents(p), n))
  }

  ghost predicate BrokenSince(lines: seq<Line>, es: seq<TraceEvent>, n: nat)
    requires es != [] && n <= |lines|
  {
    BreakBetween(lines, es[|es| - 1].lineNum, n)
  }

  lemma LineEventsOk(lines: seq<Line>, n: nat, p: Parser)
    requires 0 < n <= |lines| && Consistent(p) && ParserOk(lines, n - 1, p)
    ensures ParserOk(lines, n, ParseLine(p, lines[n - 1], n))
  {
    var es := AllEvents(p);
    var line := lines[n - 1];
    var p' := ParseLine(p, line, n);
    AllEventsStep(p, line, n);
    if line.Packet? && line.payload.Some? {
      if Continues(p, line.direction, line.offset) {
        ExtendedEventsOk(lines, n, es, line.payload.value);
      } else {
        AddedEventsOk(lines, n, es, TraceEvent(line.direction, line.offset, line.payload.value, n));
      }
    } else {
      OlderEventsOk(lines, n, es);
      if es != [] && p'.direction.None? {
        LaterBreak(lines, es[|es| - 1].lineNum, n);
      }
    }
  }

  /** How one line changes the events. */
  lemma AllEventsStep(p: Parser, line: Line, lineNum: nat)
    requires Consistent(p)
    ensures var es := AllEvents(p); var p' := ParseLine(p, line, lineNum);
      && AllEvents(p') == (
           if !(line.Packet? && line.payload.Some?) then es
           else if Continues(p, line.direction, line.offset)
           then es[..|es| - 1] + [es[|es| - 1].(data := es[|es| - 1].data + line.payload.value)]
           else es + [TraceEvent(line.direction, line.offset, line.payload.value, lineNum)])
      && (line.Packet? && line.payload.Some? ==> p'.direction.Some?)
  {
  }

  lemma OlderEventsOk(lines: seq<Line>, n: nat, es: seq<TraceEvent>)
    requires 0 < n <= |lines| && EventsOk(lines, n - 1, es)
    ensures EventsOk(lines, n, es)
    ensures es != [] ==> es[|es| - 1].lineNum <= n - 1
  {
    forall k | 0 <= k < |es| ensures EventOk(lines, n, es, k) && es[k].lineNum <= n - 1 {
      assert EventOk(lines, n - 1, es, k);
    }
  }

  lemma LaterBreak(lines: seq<Line>, from: nat, n: nat)
    requires from < n <= |lines|
    requires IsBreak(lines[n - 1]) || BreakBetween(lines, from, n - 1)
    ensures BreakBetween(lines, from, n)
  {
  }

  lemma ExtendedEventsOk(lines: seq<Line>, n: nat, es: seq<TraceEvent>, data: seq<byte>)
    requires 0 < n <= |lines| && es != [] && EventsOk(lines, n - 1, es)
    ensures EventsOk(lines, n, es[..|es| - 1] + [es[|es| - 1].(data := es[|es| - 1].data + data)])
  {
    var last := |es| - 1;
    var es' := es[..last] + [es[last].(data := es[last].data + data)];
    forall k | 0 <= k < |es'| ensures EventOk(lines, n, es', k) {
      assert EventOk(lines, n - 1, es, k);
      assert k < last ==> es'[k] == es[k];
    }
  }

  lemma AddedEventsOk(lines: seq<Line>, n: nat, es: seq<TraceEvent>, e: TraceEvent)
    requires 0 < n <= |lines| && EventsOk(lines, n - 1, es) && PointsAt(lines, e) && e.lineNum == n
    requires es != [] && EventTouches(es[|es| - 1], e) ==> BreakBetween(lines, es[|es| - 1].lineNum, n - 1)
    ensures EventsOk(lines, n, es + [e])
  {
    var es' := es + [e];
    forall k | 0 <= k < |es'| ensures EventOk(lines, n, es', k) {
      if k < |es| { assert EventOk(lines, n - 1, es, k); }
      if k == |es| > 0 { assert EventOk(lines, n - 1, es, k - 1); }
    }
  }

  /**
   * Every event points at the line its record starts on, in increasing order, and an event touches
   * the one before it in the same direction only when an unrecognised or malformed line lies
   * between the two.
   */
  lemma EventsInOrder(lines: seq<Line>)
    ensures EventsOk(lines, |lines|, Parsed(lines))
  {
    UpToEventsOk(lines, |lines|);
  }

  // ------------------------------------------------------------------------------------------
  // Kind by kind
  // ------------------------------------------------------------------------------------------

  /** A fragment goes on with the record under construction: same direction, at the offset where that ends. */
  predicate GoesOn(p: Parser, direction: Direction, offset: nat) {
    p.direction.Some? && p.offset.Some? && p.direction.value == direction && offset == p.offset.value + |p.data|
  }

  /**
   * What each kind of line does to the parser. Blank lines, slash comments and size directives do
   * nothing. Hash lines, unrecognised lines and packets with an odd number of digits complete the record
   * under construction. A packet goes on with it, or completes it and starts the next one.
   */
  lemma LineExactly(p: Parser, line: Line, lineNum: nat)
    requires Consistent(p)
    ensures var p' := ParseLine(p, line, lineNum);
      var done := if p.direction.Some?
        then p.events + [TraceEvent(p.direction.value, p.offset.value, p.data, p.startLine)] else p.events;
      match line
      case Blank => p' == p
      case SlashComment => p' == p
      case Rows(_) => p' == p
      case Columns(_) => p' == p
      case BadSize => p' == p
      case HashComment => p'.events == done && p'.direction.None? && p'.offset.None? && p'.data == []
      case Unrecognised => p'.events == done && p'.direction.None? && p'.offset.None? && p'.data == []
      case Packet(direction, offset, payload) =>
        if payload.None? then p'.events == done && p'.direction.None? && p'.offset.None? && p'.data == []
        else if GoesOn(p, direction, offset) then p' == p.(data := p.data + payload.value)
        else p' == Parser(Some(direction), Some(offset), payload.value, lineNum, done)
  {
  }

  /** At the end of the trace the record under construction is completed as well. */
  lemma EndExactly(lines: seq<Line>)
    ensures var p := ParseUpTo(lines, |lines|);
      Consistent(p) && Parsed(lines) == if p.direction.Some?
        then p.events + [TraceEvent(p.direction.value, p.offset.value, p.data, p.startLine)] else p.events
  {
    UpToConsistent(lines, |lines|);
  }
}
