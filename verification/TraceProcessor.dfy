/** The two loops over trace lines, against the specifications they are proved to compute. */
module TraceProcessors {
  import opened Common
  import opened TraceModel
  import opened TraceFragments

  datatype ParseError = UnreadableSize

  /** The lines up to the first size directive that cannot be read, or all of them. */
  function Readable(lines: seq<Line>): (n: nat)
    ensures n <= |lines|
    ensures forall k :: 0 <= k < n ==> !lines[k].BadSize?
    ensures n < |lines| ==> lines[n].BadSize?
  {
    if lines == [] || lines[0].BadSize? then 0 else 1 + Readable(lines[1..])
  }

  /** The number of rows the last row directive among the first `n` lines sets, and likewise columns. */
  function RowsAfter(lines: seq<Line>, n: nat, before: int): int
    requires n <= |lines|
  {
    if n == 0 then before
    else if lines[n - 1].Rows? then lines[n - 1].rows
    else RowsAfter(lines, n - 1, before)
  }

  function ColumnsAfter(lines: seq<Line>, n: nat, before: int): int
    requires n <= |lines|
  {
    if n == 0 then before
    else if lines[n - 1].Columns? then lines[n - 1].columns
    else ColumnsAfter(lines, n - 1, before)
  }

  /** The line at `k` is the last row directive among the first `n`, and likewise for columns. */
  ghost predicate LastRows(lines: seq<Line>, n: nat, k: nat)
    requires n <= |lines|
  {
    k < n && lines[k].Rows? && forall j :: k < j < n ==> !lines[j].Rows?
  }

  ghost predicate LastColumns(lines: seq<Line>, n: nat, k: nat)
    requires n <= |lines|
  {
    k < n && lines[k].Columns? && forall j :: k < j < n ==> !lines[j].Columns?
  }

  /** The number of rows is what the last row directive says, and that of columns what the last column directive says. */
  lemma {:induction false} RowsExactly(lines: seq<Line>, n: nat, k: nat, rows: int)
    requires n <= |lines| && LastRows(lines, n, k)
    ensures RowsAfter(lines, n, rows) == lines[k].rows
  {
    if k < n - 1 {
      RowsExactly(lines, n - 1, k, rows);
    }
  }

  lemma {:induction false} ColumnsExactly(lines: seq<Line>, n: nat, k: nat, columns: int)
    requires n <= |lines| && LastColumns(lines, n, k)
    ensures ColumnsAfter(lines, n, columns) == lines[k].columns
  {
    if k < n - 1 {
      ColumnsExactly(lines, n - 1, k, columns);
    }
  }

  /** Without such a directive the size stays. */
  lemma {:induction false} SizeStays(lines: seq<Line>, n: nat, rows: int, columns: int)
    requires n <= |lines|
    ensures (forall k :: 0 <= k < n ==> !lines[k].Rows?) ==> RowsAfter(lines, n, rows) == rows
    ensures (forall k :: 0 <= k < n ==> !lines[k].Columns?) ==> ColumnsAfter(lines, n, columns) == columns
  {
    if n > 0 {
      SizeStays(lines, n - 1, rows, columns);
    }
  }

  class S3270TraceProcessor {
    var events: seq<TraceEvent>
    var expectedRows: int
    var expectedColumns: int

    constructor ()
      ensures events == [] && expectedRows == 24 && expectedColumns == 80
    {
      events, expectedRows, expectedColumns := [], 24, 80;
    }

    /**
     * Parse a whole trace. A size directive that cannot be read ends the parse with an error and
     * leaves the events of an earlier parse in place; directives before it have taken effect.
     */
    method Parse(lines: seq<Line>) returns (r: Result<seq<TraceEvent>, ParseError>)
      modifies this
      ensures r.Success? <==> Readable(lines) == |lines|
      ensures r.Success? ==> r.value == events == Parsed(lines)
      ensures r.Failure? ==> events == old(events)
      ensures expectedRows == RowsAfter(lines, Readable(lines), old(expectedRows))
      ensures expectedColumns == ColumnsAfter(lines, Readable(lines), old(expectedColumns))
    {
      var found: seq<TraceEvent> := [];
      var lineNum := 0;
      var currentDirection: Option<Direction> := None;
      var currentOffset: Option<nat> := None;
      var currentData: seq<byte> := [];
      var currentStartLine := 0;
      while lineNum < |lines|
        invariant 0 <= lineNum <= Readable(lines)
        invariant Parser(currentDirection, currentOffset, currentData, currentStartLine, found) == ParseUpTo(lines, lineNum)
        invariant events == old(events)
        invariant expectedRows == RowsAfter(lines, lineNum, old(expectedRows))
        invariant expectedColumns == ColumnsAfter(lines, lineNum, old(expectedColumns))
      {
        var line := lines[lineNum];
        if line.BadSize? {
          return Failure(UnreadableSize);
        }
        lineNum := lineNum + 1;
        if line.Rows? {
          expectedRows := line.rows;
        } else if line.Columns? {
          expectedColumns := line.columns;
        } else if line.Blank? || line.SlashComment? {
          continue;
        } else if !line.Packet? || line.payload.None? {
          found := FlushRecord(currentDirection, currentOffset, currentData, currentStartLine, found);
          currentDirection, currentOffset, currentData := None, None, [];
        } else if currentDirection == Some(line.direction) && currentOffset.Some?
                  && line.offset == currentOffset.value + |currentData| {
          currentData := currentData + line.payload.value;
        } else {
          found := FlushRecord(currentDirection, currentOffset, currentData, currentStartLine, found);
          currentDirection, currentOffset := Some(line.direction), Some(line.offset);
          currentData, currentStartLine := line.payload.value, lineNum;
        }
      }
      found := FlushRecord(currentDirection, currentOffset, currentData, currentStartLine, found);
      events := found;
      return Success(found);
    }

    /** Append the record under construction to the events, if there is one. */
    static method FlushRecord(direction: Option<Direction>, offset: Option<nat>, data: seq<byte>, startLine: nat,
                              events: seq<TraceEvent>) returns (events': seq<TraceEvent>)
      ensures events' == Flush(Parser(direction, offset, data, startLine, events)).events
    {
      events' := events;
      if data != [] && direction.Some? && offset.Some? {
        events' := events' + [TraceEvent(direction.value, offset.value, data, startLine)];
      }
    }
  }

  /** The packet grouping loop of the marker diagnostic. */
  method GroupPackets(lines: seq<Line>) returns (packets: seq<seq<byte>>)
    ensures packets == Grouped(lines)
    ensures packets == SentData(RecordsOf(Parsed(lines))) <==> SameUpTo(lines, |lines|)
  {
    var currentPacket: seq<byte> := [];
    packets := [];
    var i := 0;
    while i < |lines|
      invariant 0 <= i <= |lines|
      invariant Grouper(currentPacket, packets) == GroupUpTo(lines, i)
    {
      var line := lines[i];
      i := i + 1;
      if line.Blank? || line.HashComment? {
        continue;
      }
      if line.Packet? {
        if line.direction == Send {
          if line.offset == 0 && currentPacket != [] {
            packets := packets + [currentPacket];
            currentPacket := [];
          }
          if line.payload.Some? {
            currentPacket := currentPacket + line.payload.value;
          }
        }
      } else if currentPacket != [] {
        packets := packets + [currentPacket];
        currentPacket := [];
      }
    }
    if currentPacket != [] {
      packets := packets + [currentPacket];
    }
    GroupingExactly(lines);
  }
}
