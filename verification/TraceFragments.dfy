/** Reassembly undoes fragmentation, and agrees with the simpler packet grouping. */
module TraceFragments {
  import opened Common
  import opened TraceModel

  /** A record cut into the fragments its trace lines carry. */
  datatype CutRecord = CutRecord(direction: Direction, offset: nat, pieces: seq<Payload>)

  function Whole(c: CutRecord): Record {
    Record(c.direction, c.offset, Joined(c.pieces))
  }

  function Joined(pieces: seq<Payload>): seq<byte> {
    if pieces == [] then [] else pieces[0] + Joined(pieces[1..])
  }

  function Wholes(cs: seq<CutRecord>): (rs: seq<Record>)
    ensures |rs| == |cs| && forall k :: 0 <= k < |cs| ==> rs[k] == Whole(cs[k])
  {
    seq(|cs|, k requires 0 <= k < |cs| => Whole(cs[k]))
  }

  /** The lines of one record: its fragments at cumulative offsets. */
  function FragmentLines(direction: Direction, offset: nat, pieces: seq<Payload>): seq<Line>
    decreases |pieces|
  {
    if pieces == [] then []
    else [Packet(direction, offset, Some(pieces[0]))]
         + FragmentLines(direction, offset + |pieces[0]|, pieces[1..])
  }

  function AllFragments(cs: seq<CutRecord>): seq<Line> {
    if cs == [] then []
    else AllFragments(cs[..|cs| - 1])
         + FragmentLines(cs[|cs| - 1].direction, cs[|cs| - 1].offset, cs[|cs| - 1].pieces)
  }

  /** A line without any effect on records: blank, a comment or a readable size directive. */
  predicate IsQuiet(line: Line) {
    line.Blank? || line.SlashComment? || line.Rows? || line.Columns?
  }

  function WithoutQuiet(lines: seq<Line>): seq<Line> {
    if lines == [] then []
    else WithoutQuiet(lines[..|lines| - 1]) + if IsQuiet(lines[|lines| - 1]) then [] else [lines[|lines| - 1]]
  }

  lemma {:induction false} TraceBytesAppend(a: seq<Line>, b: seq<Line>)
    ensures TraceBytes(a + b, |a + b|) == TraceBytes(a, |a|) + TraceBytes(b, |b|)
    decreases |b|
  {
    if b == [] {
      assert a + b == a;
      assert TraceBytes(a, |a|) + [] == TraceBytes(a, |a|);
    } else {
      var front, last := b[..|b| - 1], b[|b| - 1];
      TraceBytesAppend(a, front);
      LastLine(b);
      LastLine(a + b);
      assert (a + b)[..|a + b| - 1] == a + front;
      Assoc(TraceBytes(a, |a|), TraceBytes(front, |front|), LineBytes(last));
    }
  }

  lemma {:induction false} TraceBytesPrefix(lines: seq<Line>, a: seq<Line>, n: nat)
    requires n <= |a| <= |lines| && lines[..|a|] == a
    ensures TraceBytes(lines, n) == TraceBytes(a, n)
  {
    if n > 0 {
      var before := n - 1;
      TraceBytesPrefix(lines, a, before);
      assert lines[before] == lines[..|a|][before] == a[before];
      assert TraceBytes(lines, n) == TraceBytes(lines, before) + LineBytes(lines[before]);
      assert TraceBytes(a, n) == TraceBytes(a, before) + LineBytes(a[before]);
    }
  }

  lemma {:induction false} QuietCarriesNothing(lines: seq<Line>)
    ensures TraceBytes(lines, |lines|) == TraceBytes(WithoutQuiet(lines), |WithoutQuiet(lines)|)
  {
    if lines != [] {
      var front, last := lines[..|lines| - 1], lines[|lines| - 1];
      QuietCarriesNothing(front);
      LastLine(lines);
      if IsQuiet(last) {
        assert WithoutQuiet(lines) == WithoutQuiet(front) + [] == WithoutQuiet(front);
        assert TraceBytes(front, |front|) + [] == TraceBytes(front, |front|);
      } else {
        var kept := WithoutQuiet(front) + [last];
        LastLine(kept);
        assert kept[..|kept| - 1] == WithoutQuiet(front);
      }
    }
  }

  lemma LastLine(lines: seq<Line>)
    requires lines != []
    ensures var front := lines[..|lines| - 1];
      TraceBytes(lines, |lines|) == TraceBytes(front, |front|) + LineBytes(lines[|lines| - 1])
  {
    TraceBytesPrefix(lines, lines[..|lines| - 1], |lines| - 1);
  }

  lemma OneFragment(direction: Direction, offset: nat, piece: Payload)
    ensures TraceBytes([Packet(direction, offset, Some(piece))], 1) == TagBytes(direction, offset, piece)
  {
    var lines := [Packet(direction, offset, Some(piece))];
    assert TraceBytes(lines, 1) == TraceBytes(lines, 0) + LineBytes(lines[0]);
  }

  lemma FragmentBefore(direction: Direction, offset: nat, piece: Payload, rest: seq<Line>, data: seq<byte>)
    requires TraceBytes(rest, |rest|) == TagBytes(direction, offset + |piece|, data)
    ensures var lines := [Packet(direction, offset, Some(piece))] + rest;
      TraceBytes(lines, |lines|) == TagBytes(direction, offset, piece + data)
  {
    TraceBytesAppend([Packet(direction, offset, Some(piece))], rest);
    OneFragment(direction, offset, piece);
    TagBytesAppend(direction, offset, piece, data);
  }

  lemma {:induction false} FragmentsCarry(direction: Direction, offset: nat, pieces: seq<Payload>)
    ensures var lines := FragmentLines(direction, offset, pieces);
      TraceBytes(lines, |lines|) == TagBytes(direction, offset, Joined(pieces))
    decreases |pieces|
  {
    if pieces != [] {
      var next := offset + |pieces[0]|;
      FragmentsCarry(direction, next, pieces[1..]);
      FragmentBefore(direction, offset, pieces[0], FragmentLines(direction, next, pieces[1..]), Joined(pieces[1..]));
    }
  }

  lemma WholesLast(cs: seq<CutRecord>)
    requires cs != []
    ensures var last := cs[|cs| - 1];
      RecordBytes(Wholes(cs))
      == RecordBytes(Wholes(cs[..|cs| - 1])) + TagBytes(last.direction, last.offset, Joined(last.pieces))
  {
    var front, last := cs[..|cs| - 1], cs[|cs| - 1];
    assert Wholes(cs) == Wholes(front) + [Whole(last)];
    RecordBytesSnoc(Wholes(front), Whole(last));
  }

  lemma {:induction false} AllFragmentsCarry(cs: seq<CutRecord>)
    ensures TraceBytes(AllFragments(cs), |AllFragments(cs)|) == RecordBytes(Wholes(cs))
  {
    if cs != [] {
      var front, last := cs[..|cs| - 1], cs[|cs| - 1];
      AllFragmentsCarry(front);
      FragmentsCarry(last.direction, last.offset, last.pieces);
      TraceBytesAppend(AllFragments(front), FragmentLines(last.direction, last.offset, last.pieces));
      WholesLast(cs);
    }
  }

  /**
   * Fragmentation round trip. Take records, cut each into fragments, and put blank lines, comments
   * and size directives anywhere between the lines: the parser returns the records exactly when no
   * record continues the one before it.
   */
  lemma FragmentationRoundTrip(lines: seq<Line>, cs: seq<CutRecord>)
    requires forall c <- cs :: c.pieces != []
    requires WithoutQuiet(lines) == AllFragments(cs)
    ensures RecordsOf(Parsed(lines)) == Wholes(cs) <==> Separated(Wholes(cs))
  {
    QuietCarriesNothing(lines);
    AllFragmentsCarry(cs);
    AllFragmentsUnbroken(cs);
    QuietUnbroken(lines);
    forall r <- Wholes(cs) ensures r.data != [] {
      var k :| 0 <= k < |cs| && Wholes(cs)[k] == r;
      assert cs[k] in cs;
    }
    ParsedExactly(lines, Wholes(cs));
  }

  lemma {:induction false} AllFragmentsUnbroken(cs: seq<CutRecord>)
    ensures BreakFree(AllFragments(cs))
  {
    if cs != [] {
      AllFragmentsUnbroken(cs[..|cs| - 1]);
      FragmentsUnbroken(cs[|cs| - 1].direction, cs[|cs| - 1].offset, cs[|cs| - 1].pieces);
    }
  }

  lemma FragmentsUnbroken(direction: Direction, offset: nat, pieces: seq<Payload>)
    ensures BreakFree(FragmentLines(direction, offset, pieces))
    decreases |pieces|
  {
    if pieces != [] {
      FragmentsUnbroken(direction, offset + |pieces[0]|, pieces[1..]);
    }
  }

  lemma {:induction false} QuietUnbroken(lines: seq<Line>)
    requires BreakFree(WithoutQuiet(lines))
    ensures BreakFree(lines)
  {
    if lines != [] {
      var front, last := lines[..|lines| - 1], lines[|lines| - 1];
      assert forall line <- WithoutQuiet(front) :: line in WithoutQuiet(lines);
      QuietUnbroken(front);
      assert !IsQuiet(last) ==> last in WithoutQuiet(lines);
      assert lines == front + [last];
    }
  }

  // ------------------------------------------------------------------------------------------
  // The packet grouping of the marker diagnostic
  // ------------------------------------------------------------------------------------------

  /** The packet under construction and the packets so far. */
  datatype Grouper = Grouper(current: seq<byte>, packets: seq<seq<byte>>)

  function Close(g: Grouper): Grouper {
    if g.current != [] then Grouper([], g.packets + [g.current]) else g
  }

  /** `#` lines and blank lines are skipped, sent fragments collected, received ones ignored. */
  function GroupLine(g: Grouper, line: Line): Grouper {
    match line
    case Blank => g
    case HashComment => g
    case Packet(direction, offset, payload) =>
      if direction == Recv then g
      else
        var g1 := if offset == 0 then Close(g) else g;
        if payload.Some? then g1.(current := g1.current + payload.value) else g1
    case _ => Close(g)
  }

  function GroupUpTo(lines: seq<Line>, n: nat): Grouper
    requires n <= |lines|
  {
    if n == 0 then Grouper([], []) else GroupLine(GroupUpTo(lines, n - 1), lines[n - 1])
  }

  function Grouped(lines: seq<Line>): seq<seq<byte>> {
    Close(GroupUpTo(lines, |lines|)).packets
  }

  function SentData(rs: seq<Record>): seq<seq<byte>> {
    if rs == [] then []
    else SentData(rs[..|rs| - 1]) + if rs[|rs| - 1].direction == Send then [rs[|rs| - 1].data] else []
  }

  lemma SentDataSnoc(rs: seq<Record>, r: Record)
    ensures SentData(rs + [r]) == SentData(rs) + if r.direction == Send then [r.data] else []
  {
    assert (rs + [r])[..|rs|] == rs;
  }

  // ------------------------------------------------------------------------------------------
  // When the two agree
  // ------------------------------------------------------------------------------------------

  /** A well-formed sent fragment: the only kind of line that adds to packets. */
  predicate IsSent(line: Line) {
    line.Packet? && line.direction == Send && line.payload.Some?
  }

  /** A line the parser passes over without ending a record. */
  predicate Passed(line: Line) {
    IsQuiet(line) || line.BadSize?
  }

  /** A line that ends a packet of the diagnostic without starting one. */
  predicate Closes(line: Line) {
    match line
    case Blank => false
    case HashComment => false
    case Packet(direction, offset, payload) => direction == Send && offset == 0 && payload.None?
    case _ => true
  }

  /**
   * The offset at which the record under construction goes on, when it is a sent one: that is when
   * the last line the parser did not pass over is a sent fragment.
   */
  function SentNext(lines: seq<Line>, n: nat): Option<nat>
    requires n <= |lines|
  {
    if n == 0 then None
    else if Passed(lines[n - 1]) then SentNext(lines, n - 1)
    else if IsSent(lines[n - 1]) then Some(lines[n - 1].offset + |lines[n - 1].payload.value|)
    else None
  }

  /** There was a sent fragment, and no line since has closed its packet. */
  predicate Collecting(lines: seq<Line>, n: nat)
    requires n <= |lines|
  {
    n > 0 && (IsSent(lines[n - 1]) || (!Closes(lines[n - 1]) && Collecting(lines, n - 1)))
  }

  /** The parser adds line `n`, a sent fragment, to a record it has begun. */
  predicate RecordGoesOn(lines: seq<Line>, n: nat)
    requires n < |lines| && IsSent(lines[n])
  {
    SentNext(lines, n) == Some(lines[n].offset)
  }

  /** The diagnostic adds line `n`, a sent fragment, to a packet it has begun. */
  predicate PacketGoesOn(lines: seq<Line>, n: nat)
    requires n < |lines| && IsSent(lines[n])
  {
    lines[n].offset != 0 && Collecting(lines, n)
  }

  /** The parser and the diagnostic do the same with line `n`. */
  predicate SameHere(lines: seq<Line>, n: nat)
    requires n < |lines|
  {
    IsSent(lines[n]) ==> (RecordGoesOn(lines, n) <==> PacketGoesOn(lines, n))
  }

  ghost predicate SameUpTo(lines: seq<Line>, n: nat)
    requires n <= |lines|
  {
    forall k :: 0 <= k < n ==> SameHere(lines, k)
  }

  lemma {:induction false} SentNextExact(lines: seq<Line>, n: nat)
    requires n <= |lines|
    ensures var p := ParseUpTo(lines, n);
      SentNext(lines, n) == if p.direction == Some(Send) && p.offset.Some? then Some(p.offset.value + |p.data|) else None
  {
    if n > 0 {
      SentNextExact(lines, n - 1);
      UpToConsistent(lines, n - 1);
    }
  }

  lemma {:induction false} CollectingExact(lines: seq<Line>, n: nat)
    requires n <= |lines|
    ensures Collecting(lines, n) <==> GroupUpTo(lines, n).current != []
  {
    if n > 0 {
      CollectingExact(lines, n - 1);
    }
  }

  /** A fragment added to a list of packets, to its last one or as a new one. */
  function Added(ps: seq<seq<byte>>, data: seq<byte>, goesOn: bool): seq<seq<byte>>
    requires goesOn ==> ps != []
  {
    if goesOn then ps[..|ps| - 1] + [ps[|ps| - 1] + data] else ps + [data]
  }

  ghost predicate NoneEmpty(ps: seq<seq<byte>>) {
    forall k :: 0 <= k < |ps| ==> ps[k] != []
  }

  /** What a fragment was added to, and how, can be told from the result. */
  lemma AddedExact(ps: seq<seq<byte>>, qs: seq<seq<byte>>, data: seq<byte>, a: bool, b: bool)
    requires data != [] && NoneEmpty(ps) && NoneEmpty(qs) && (a ==> ps != []) && (b ==> qs != [])
    ensures Added(ps, data, a) == Added(qs, data, b) <==> ps == qs && (a <==> b)
  {
    var r, s := Added(ps, data, a), Added(qs, data, b);
    if r == s {
      var last := |r| - 1;
      assert r[last] == if a then ps[last] + data else data;
      assert s[last] == if b then qs[last] + data else data;
      assert r[..last] == if a then ps[..last] else ps;
      assert s[..last] == if b then qs[..last] else qs;
      if a && b {
        assert (ps[last] + data)[..|ps[last]|] == ps[last] && (qs[last] + data)[..|qs[last]|] == qs[last];
        assert ps == ps[..last] + [ps[last]] && qs == qs[..last] + [qs[last]];
      }
    }
  }

  /** How a line changes the data of the parser's sent records. */
  lemma RecordsAdd(p: Parser, line: Line, lineNum: nat)
    requires Consistent(p)
    ensures var ps := SentData(Pending(p)); var ps' := SentData(Pending(ParseLine(p, line, lineNum)));
      var goesOn := line.Packet? && p.direction == Some(Send) && Continues(p, Send, line.offset);
      && (IsSent(line) ==> (goesOn ==> ps != []) && ps' == Added(ps, line.payload.value, goesOn))
      && (!IsSent(line) ==> ps' == ps)
  {
    PendingStep(p, line, lineNum);
    var rs := Pending(p);
    if line.Packet? && line.payload.Some? {
      if Continues(p, line.direction, line.offset) {
        assert rs[|rs| - 1] == Record(p.direction.value, p.offset.value, p.data);
        ExtendingSentData(rs, line.payload.value);
      } else {
        SentDataSnoc(rs, Record(line.direction, line.offset, line.payload.value));
      }
    }
  }

  /** How a line changes the packets of the diagnostic, counting the one under construction. */
  lemma PacketsAdd(g: Grouper, line: Line)
    ensures var ps, ps' := Close(g).packets, Close(GroupLine(g, line)).packets;
      var goesOn := line.Packet? && line.offset != 0 && g.current != [];
      && (IsSent(line) ==> (goesOn ==> ps != []) && ps' == Added(ps, line.payload.value, goesOn))
      && (!IsSent(line) ==> ps' == ps)
  {
    if IsSent(line) {
      var data := line.payload.value;
      assert [] + data == data;
      if line.offset != 0 && g.current != [] {
        assert (g.packets + [g.current])[..|g.packets|] == g.packets;
      }
    }
  }

  lemma ExtendingSentData(rs: seq<Record>, data: seq<byte>)
    requires rs != []
    ensures var last := rs[|rs| - 1]; var front := SentData(rs[..|rs| - 1]);
      && SentData(rs) == front + (if last.direction == Send then [last.data] else [])
      && SentData(rs[..|rs| - 1] + [last.(data := last.data + data)])
         == front + (if last.direction == Send then [last.data + data] else [])
  {
    SentDataSnoc(rs[..|rs| - 1], rs[|rs| - 1].(data := rs[|rs| - 1].data + data));
  }

  /** The data of the parser's sent records after `n` lines, and the packets of the diagnostic. */
  function SentRecords(lines: seq<Line>, n: nat): seq<seq<byte>>
    requires n <= |lines|
  {
    SentData(Pending(ParseUpTo(lines, n)))
  }

  function Packets(lines: seq<Line>, n: nat): seq<seq<byte>>
    requires n <= |lines|
  {
    Close(GroupUpTo(lines, n)).packets
  }

  lemma SentRecordsStep(lines: seq<Line>, n: nat)
    requires n < |lines|
    ensures var ps, ps' := SentRecords(lines, n), SentRecords(lines, n + 1);
      if IsSent(lines[n]) then
        (RecordGoesOn(lines, n) ==> ps != []) && ps' == Added(ps, lines[n].payload.value, RecordGoesOn(lines, n))
      else ps' == ps
  {
    UpToConsistent(lines, n);
    SentNextExact(lines, n);
    RecordsAdd(ParseUpTo(lines, n), lines[n], n + 1);
  }

  lemma PacketsStep(lines: seq<Line>, n: nat)
    requires n < |lines|
    ensures var ps, ps' := Packets(lines, n), Packets(lines, n + 1);
      if IsSent(lines[n]) then
        (PacketGoesOn(lines, n) ==> ps != []) && ps' == Added(ps, lines[n].payload.value, PacketGoesOn(lines, n))
      else ps' == ps
  {
    CollectingExact(lines, n);
    PacketsAdd(GroupUpTo(lines, n), lines[n]);
  }

  /** Up to any line the two have the same packets exactly when they did the same with every line. */
  lemma {:induction false} GroupingUpTo(lines: seq<Line>, n: nat)
    requires n <= |lines|
    ensures NoneEmpty(SentRecords(lines, n)) && NoneEmpty(Packets(lines, n))
    ensures SentRecords(lines, n) == Packets(lines, n) <==> SameUpTo(lines, n)
  {
    if n == 0 {
      assert Pending(INITIAL) == [];
      assert SentRecords(lines, 0) == [] && Packets(lines, 0) == [];
    } else {
      GroupingUpTo(lines, n - 1);
      GroupingStep(lines, n - 1, SentRecords(lines, n - 1), Packets(lines, n - 1));
    }
  }

  lemma GroupingStep(lines: seq<Line>, n: nat, ps: seq<seq<byte>>, qs: seq<seq<byte>>)
    requires n < |lines| && ps == SentRecords(lines, n) && qs == Packets(lines, n)
    requires NoneEmpty(ps) && NoneEmpty(qs) && (ps == qs <==> SameUpTo(lines, n))
    ensures NoneEmpty(SentRecords(lines, n + 1)) && NoneEmpty(Packets(lines, n + 1))
    ensures SentRecords(lines, n + 1) == Packets(lines, n + 1) <==> SameUpTo(lines, n + 1)
  {
    SentRecordsStep(lines, n);
    PacketsStep(lines, n);
    assert SameUpTo(lines, n + 1) <==> SameUpTo(lines, n) && SameHere(lines, n);
    if IsSent(lines[n]) {
      AddedExact(ps, qs, lines[n].payload.value, RecordGoesOn(lines, n), PacketGoesOn(lines, n));
    }
  }

  /**
   * The diagnostic groups exactly the data of the parser's send events when, and only when, at every
   * sent fragment the parser continues its record if and only if the diagnostic continues its packet.
   * On a trace with an unreadable size directive the parser returns nothing; there this is about the
   * events it would return without that directive.
   */
  lemma GroupingExactly(lines: seq<Line>)
    ensures Grouped(lines) == SentData(RecordsOf(Parsed(lines))) <==> SameUpTo(lines, |lines|)
  {
    GroupingUpTo(lines, |lines|);
  }

  /**
   * Every sent fragment starts a record at offset 0 or goes on right after the sent fragment before
   * it, with at most blank lines between the two.
   */
  ghost predicate Uninterrupted(lines: seq<Line>) {
    forall n :: 0 <= n < |lines| && IsSent(lines[n]) ==>
      lines[n].offset == 0 || exists k :: GoesOnFrom(lines, k, n)
  }

  predicate GoesOnFrom(lines: seq<Line>, k: int, n: int)
    requires n < |lines|
  {
    && 0 <= k < n && IsSent(lines[k]) && lines[n].Packet?
    && lines[n].offset == lines[k].offset + |lines[k].payload.value|
    && forall m :: k < m < n ==> lines[m].Blank?
  }

  /** Records traced from offset 0 without interruption are grouped alike. */
  lemma GroupingAgrees(lines: seq<Line>)
    requires Uninterrupted(lines)
    ensures Grouped(lines) == SentData(RecordsOf(Parsed(lines)))
  {
    forall n | 0 <= n < |lines| ensures SameHere(lines, n) {
      if IsSent(lines[n]) { SameWhenUninterrupted(lines, n); }
    }
    GroupingExactly(lines);
  }

  lemma SameWhenUninterrupted(lines: seq<Line>, n: nat)
    requires n < |lines| && IsSent(lines[n])
    requires lines[n].offset == 0 || exists k :: GoesOnFrom(lines, k, n)
    ensures SameHere(lines, n)
  {
    if lines[n].offset == 0 {
      NothingGoesOnAtZero(lines, n);
    } else {
      var k :| GoesOnFrom(lines, k, n);
      AcrossBlanks(lines, k + 1, n);
    }
  }

  lemma {:induction false} NothingGoesOnAtZero(lines: seq<Line>, n: nat)
    requires n <= |lines|
    ensures SentNext(lines, n) != Some(0)
  {
    if n > 0 {
      NothingGoesOnAtZero(lines, n - 1);
    }
  }

  lemma {:induction false} AcrossBlanks(lines: seq<Line>, k: nat, n: nat)
    requires k <= n <= |lines| && forall m :: k <= m < n ==> lines[m].Blank?
    ensures SentNext(lines, n) == SentNext(lines, k) && Collecting(lines, n) == Collecting(lines, k)
  {
    if k < n {
      AcrossBlanks(lines, k, n - 1);
    }
  }

  /**
   * Interruption: whatever else a trace holds, when received lines come between two sent fragments
   * and the second is not at offset 0, the diagnostic makes one packet of what are two records to the
   * parser, and the two disagree.
   */
  lemma InterruptionDisagrees(lines: seq<Line>, k: nat, n: nat)
    requires k + 1 < n < |lines| && IsSent(lines[k]) && IsSent(lines[n]) && lines[n].offset != 0
    requires forall m :: k < m < n ==> lines[m].Packet? && lines[m].direction == Recv
    ensures Grouped(lines) != SentData(RecordsOf(Parsed(lines)))
  {
    AcrossReceived(lines, k + 1, n);
    assert !SameHere(lines, n);
    GroupingExactly(lines);
  }

  lemma {:induction false} AcrossReceived(lines: seq<Line>, k: nat, n: nat)
    requires k <= n <= |lines|
    requires forall m :: k <= m < n ==> lines[m].Packet? && lines[m].direction == Recv
    ensures Collecting(lines, n) == Collecting(lines, k) && (k < n ==> SentNext(lines, n) == None)
  {
    if k < n {
      AcrossReceived(lines, k, n - 1);
    }
  }

  // ------------------------------------------------------------------------------------------
  // The diagnostic on its own
  // ------------------------------------------------------------------------------------------

  /** What each kind of line does to the diagnostic's packet under construction. */
  lemma GroupLineExactly(g: Grouper, line: Line)
    ensures var g' := GroupLine(g, line);
      var closed := if g.current == [] then g.packets else g.packets + [g.current];
      match line
      case Blank => g' == g
      case HashComment => g' == g
      case Packet(direction, offset, payload) =>
        (match direction
         case Recv => g' == g
         case Send =>
           var more := if payload.Some? then payload.value else [];
           if offset == 0 then g' == Grouper(more, closed) else g' == Grouper(g.current + more, g.packets))
      case _ => g' == Grouper([], closed)
  {
    if line.Packet? && line.direction == Send {
      assert g.current + [] == g.current;
      if line.payload.Some? { assert [] + line.payload.value == line.payload.value; }
    }
  }

  /** The bytes of the sent fragments among the first `n` lines, in order. */
  function SentBytes(lines: seq<Line>, n: nat): seq<byte>
    requires n <= |lines|
  {
    if n == 0 then []
    else SentBytes(lines, n - 1) + if IsSent(lines[n - 1]) then lines[n - 1].payload.value else []
  }

  lemma {:induction false} FlattenAdded(ps: seq<seq<byte>>, data: seq<byte>, goesOn: bool)
    requires goesOn ==> ps != []
    ensures Flatten(Added(ps, data, goesOn)) == Flatten(ps) + data
    decreases |ps|
  {
    if |ps| > (if goesOn then 1 else 0) {
      FlattenAdded(ps[1..], data, goesOn);
      assert Added(ps, data, goesOn) == [ps[0]] + Added(ps[1..], data, goesOn);
      FlattenCons(ps[0], Added(ps[1..], data, goesOn));
      Assoc(ps[0], Flatten(ps[1..]), data);
    } else if goesOn {
      assert Added(ps, data, goesOn) == [ps[0] + data];
      FlattenOne(ps[0] + data);
      FlattenOne(ps[0]);
      assert ps == [ps[0]];
    } else {
      assert Added(ps, data, goesOn) == [data];
      FlattenOne(data);
      assert Flatten(ps) + data == data;
    }
  }

  lemma FlattenOne(x: seq<byte>)
    ensures Flatten([x]) == x
  {
    assert [x][1..] == [];
    assert Flatten([x]) == x + Flatten<byte>([]);
  }

  /** The diagnostic loses and makes up nothing: its packets joined are what was sent, in order. */
  lemma {:induction false} PacketsConserve(lines: seq<Line>, n: nat)
    requires n <= |lines|
    ensures Flatten(Packets(lines, n)) == SentBytes(lines, n)
  {
    if n > 0 {
      var before := n - 1;
      PacketsConserve(lines, before);
      PacketsStep(lines, before);
      if IsSent(lines[before]) {
        FlattenAdded(Packets(lines, before), lines[before].payload.value, PacketGoesOn(lines, before));
      } else {
        assert SentBytes(lines, before) + [] == SentBytes(lines, before);
      }
    }
  }
}
