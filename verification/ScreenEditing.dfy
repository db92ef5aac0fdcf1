/** The editing and field operations of a session, in place on its screen buffer. */
module ScreenEditing {
  import opened Common
  import opened ScreenModel

  /** A field as detected: its first and its last position. Nothing says that they are in order. */
  datatype Field = Field(startRow: nat, startCol: nat, endRow: nat, endCol: nat)

  function FirstPos(g: Geometry, f: Field): nat {
    g.At(f.startRow, f.startCol)
  }

  function LastPos(g: Geometry, f: Field): nat {
    g.At(f.endRow, f.endCol)
  }

  class ScreenBuffer {
    const g: Geometry
    const buffer: array<byte>
    const shielded: array<bool>
    var cursor: Cursor

    ghost predicate Valid()
      reads this, buffer, shielded
    {
      g.Valid() && buffer.Length == shielded.Length == g.Size() && OnScreen(g, cursor)
    }

    constructor (rows: nat, cols: nat)
      requires 0 < rows && 0 < cols
      ensures Valid() && g == Geometry(rows, cols) && cursor == Cursor(0, 0)
      ensures fresh(buffer) && fresh(shielded)
      ensures forall k :: 0 <= k < buffer.Length ==> buffer[k] == EBCDIC_SPACE && !shielded[k]
    {
      g := Geometry(rows, cols);
      buffer := new byte[rows * cols](_ => EBCDIC_SPACE);
      shielded := new bool[rows * cols](_ => false);
      cursor := Cursor(0, 0);
    }

    /** Positions off the screen are clamped to it. */
    method SetPosition(row: int, col: int)
      requires Valid()
      modifies this`cursor
      ensures Valid()
      ensures 0 <= row < g.rows && 0 <= col < g.cols ==> cursor == Cursor(row, col)
      ensures cursor.row == (if row < 0 then 0 else Min(g.rows - 1, row))
      ensures cursor.col == (if col < 0 then 0 else Min(g.cols - 1, col))
    {
      var r := if row < 0 then 0 else Min(g.rows - 1, row);
      var c := if col < 0 then 0 else Min(g.cols - 1, col);
      cursor := Cursor(r, c);
    }

    /**
     * Store a byte and move the cursor on, wherever it is, unless the cell is shielded and protection
     * is not circumvented. A position off the screen does nothing.
     */
    method WriteChar(b: byte, row: int, col: int, circumventProtection: bool)
      requires Valid()
      modifies this`cursor, buffer
      ensures Valid()
      ensures !(0 <= row < g.rows && 0 <= col < g.cols) ==> buffer[..] == old(buffer[..]) && cursor == old(cursor)
      ensures 0 <= row < g.rows && 0 <= col < g.cols ==>
        && g.At(row, col) < buffer.Length
        && var refused := shielded[g.At(row, col)] && !circumventProtection;
          && buffer[..] == (if refused then old(buffer[..]) else old(buffer[..])[g.At(row, col) := b])
          && cursor == (if refused then old(cursor) else Advanced(g, old(cursor)))
    {
      if 0 <= row < g.rows && 0 <= col < g.cols {
        CursorBounds(g, Cursor(row, col));
        var pos := row * g.cols + col;
        if shielded[pos] && !circumventProtection {
          return;
        }
        buffer[pos] := b;
        var r, c := cursor.row, cursor.col + 1;
        if c >= g.cols {
          c := 0;
          r := r + 1;
          if r >= g.rows {
            r := 0;
          }
        }
        cursor := Cursor(r, c);
      }
    }
  }

  class AsyncSession {
    const screen: ScreenBuffer
    var insertMode: bool
    var circumventProtection: bool

    ghost predicate Valid()
      reads this, screen, screen.buffer, screen.shielded
    {
      screen.Valid()
    }

    ghost function CurrentMode(): Mode
      reads this, screen, screen.shielded
    {
      Mode(screen.g, screen.shielded[..], insertMode, circumventProtection)
    }

    constructor (screen: ScreenBuffer)
      requires screen.Valid()
      ensures Valid() && this.screen == screen && !insertMode && !circumventProtection
    {
      this.screen := screen;
      insertMode, circumventProtection := false, false;
    }

    /** Move the cells of the row from the cursor on right by one, from the end backwards. */
    method ShiftRowRight(row: nat, col: nat)
      requires Valid() && row < screen.g.rows && col < screen.g.cols
      modifies screen.buffer
      ensures screen.g.At(row, col) < RowEnd(screen.g, row) <= screen.buffer.Length
      ensures screen.buffer[..] == ShiftRight(old(screen.buffer[..]), screen.g.At(row, col), RowEnd(screen.g, row))
    {
      var buffer := screen.buffer;
      ghost var before := buffer[..];
      var start := row * screen.g.cols;
      ghost var end := RowEnd(screen.g, row);
      var c := screen.g.cols - 1;
      while c > col
        invariant col <= c < screen.g.cols
        invariant forall k {:trigger buffer[k]} :: 0 <= k < buffer.Length ==>
          buffer[k] == if start + c < k < end then before[k - 1] else before[k]
      {
        var src := start + (c - 1);
        var dst := start + c;
        buffer[dst] := buffer[src];
        c := c - 1;
      }
      SameAsShift(buffer[..], before, start + col, end);
    }

    method TypeAt(b: byte, row: nat, col: nat)
      requires Valid() && row < screen.g.rows && col < screen.g.cols
      modifies screen`cursor, screen.buffer
      ensures Valid()
      ensures screen.g.At(row, col) < RowEnd(screen.g, row) <= screen.buffer.Length
      ensures screen.buffer[..]
        == TypeOne(CurrentMode(), old(screen.buffer[..]), screen.g.At(row, col), RowEnd(screen.g, row), b)
    {
      if insertMode {
        ShiftRowRight(row, col);
      }
      screen.WriteChar(b, row, col, circumventProtection);
    }

    /** Type text at the cursor: the cells become what `Typed` says and the cursor moves on. */
    method InsertText(text: seq<byte>)
      requires Valid()
      modifies screen`cursor, screen.buffer
      ensures Valid()
      ensures screen.buffer[..] == Typed(old(CurrentMode()), old(screen.buffer[..]), old(screen.cursor), text, |text|)
      ensures screen.cursor == Moved(screen.g, old(screen.cursor), |text|)
      ensures Linear(screen.g, screen.cursor) == Orbit(screen.g, Linear(screen.g, old(screen.cursor)), |text|)
    {
      ghost var m, cells, start := CurrentMode(), screen.buffer[..], screen.cursor;
      var row: nat, col: nat := screen.cursor.row, screen.cursor.col;
      var i := 0;
      while i < |text|
        invariant 0 <= i <= |text|
        invariant Valid() && CurrentMode() == m && Fits(m, cells)
        invariant screen.cursor == Moved(screen.g, start, i) == Cursor(row, col)
        invariant screen.buffer[..] == Typed(m, cells, start, text, i)
      {
        ghost var at, before := screen.cursor, screen.buffer[..];
        row, col := TypeNext(text[i], row, col);
        TypedNext(m, cells, start, at, text, i, before, screen.buffer[..]);
        i := i + 1;
      }
      CursorOrbit(screen.g, start, |text|);
    }

    /** One turn: type a byte, then move on by one column, or to the next row while there is one. */
    method TypeNext(b: byte, fromRow: nat, fromCol: nat) returns (row: nat, col: nat)
      requires Valid() && screen.cursor == Cursor(fromRow, fromCol)
      modifies screen`cursor, screen.buffer
      ensures Valid() && screen.cursor == Cursor(row, col) == RightOf(screen.g, old(screen.cursor))
      ensures Linear(screen.g, old(screen.cursor)) < RowEnd(screen.g, fromRow) <= screen.buffer.Length
      ensures screen.buffer[..] == TypeOne(CurrentMode(), old(screen.buffer[..]),
        Linear(screen.g, old(screen.cursor)), RowEnd(screen.g, fromRow), b)
    {
      TypeAt(b, fromRow, fromCol);
      row, col := fromRow, fromCol + 1;
      if col >= screen.g.cols {
        col := 0;
        row := Min(screen.g.rows - 1, row + 1);
      }
      screen.SetPosition(row, col);
    }

    /** Delete the character at the cursor: the rest of the row moves left and its last cell is blanked. */
    method Delete()
      requires Valid()
      modifies screen.buffer
      ensures Valid()
      ensures Linear(screen.g, screen.cursor) < RowEnd(screen.g, screen.cursor.row)
      ensures screen.buffer[..]
        == DeleteOne(old(screen.buffer[..]), Linear(screen.g, screen.cursor), RowEnd(screen.g, screen.cursor.row))
    {
      var buffer := screen.buffer;
      ghost var before := buffer[..];
      var row, col := screen.cursor.row, screen.cursor.col;
      var start := row * screen.g.cols;
      ghost var end := RowEnd(screen.g, row);
      var c := col;
      while c < screen.g.cols - 1
        invariant col <= c < screen.g.cols
        invariant forall k {:trigger buffer[k]} :: 0 <= k < buffer.Length ==>
          buffer[k] == if start + col <= k < start + c then before[k + 1] else before[k]
      {
        var dst := start + c;
        var src := start + (c + 1);
        buffer[dst] := buffer[src];
        c := c + 1;
      }
      var last := start + (screen.g.cols - 1);
      buffer[last] := EBCDIC_SPACE;
      SameAsDelete(buffer[..], before, start + col, end);
    }

    method Right()
      requires Valid()
      modifies screen`cursor
      ensures Valid() && screen.cursor == RightOf(screen.g, old(screen.cursor))
      ensures Linear(screen.g, screen.cursor) == Succ(screen.g, Linear(screen.g, old(screen.cursor)))
    {
      RightIsSucc(screen.g, screen.cursor);
      var row, col := screen.cursor.row, screen.cursor.col;
      col := col + 1;
      if col >= screen.g.cols {
        col := 0;
        row := Min(screen.g.rows - 1, row + 1);
      }
      screen.SetPosition(row, col);
    }

    method Left()
      requires Valid()
      modifies screen`cursor
      ensures Valid() && screen.cursor == LeftOf(screen.g, old(screen.cursor))
      ensures var p := Linear(screen.g, old(screen.cursor)); Linear(screen.g, screen.cursor) == if p == 0 then 0 else p - 1
    {
      LeftIsPred(screen.g, screen.cursor);
      var row, col := screen.cursor.row, screen.cursor.col;
      if col > 0 {
        col := col - 1;
      } else if row > 0 {
        row := row - 1;
        col := screen.g.cols - 1;
      }
      screen.SetPosition(row, col);
    }

    /** The characters of a field: the cells of its rows, as far as there are any. */
    method AsciiField(f: Field, decode: seq<byte> -> string) returns (text: string)
      requires Valid()
      ensures text == decode(FieldCells(screen.g, f, screen.buffer[..]))
    {
      ghost var g, cells := screen.g, screen.buffer[..];
      var content: seq<byte> := [];
      var r := f.startRow;
      while r <= f.endRow
        invariant f.startRow <= r && (r > f.startRow ==> r <= f.endRow + 1)
        invariant content == CellsBefore(g, f, cells, r)
      {
        var row := RowOfField(f, r);
        CellsOfRow(g, f, cells, r);
        content := content + row;
        r := r + 1;
      }
      return decode(content);
    }

    method RowOfField(f: Field, r: nat) returns (content: seq<byte>)
      requires Valid() && f.startRow <= r <= f.endRow
      ensures content == RowCells(screen.g, f, screen.buffer[..], r)
    {
      var start := r * screen.g.cols;
      var cStart := if r == f.startRow then f.startCol else 0;
      var cEnd := if r == f.endRow then f.endCol else screen.g.cols - 1;
      ColumnsOfRow(screen.g, f, screen.buffer[..], r, start, cStart, cEnd);
      content := ReadColumns(start, cStart, cEnd);
    }

    /** The inner loop: the cells at columns `cStart` to `cEnd` of the row that starts at `start`. */
    method ReadColumns(start: nat, cStart: nat, cEnd: int) returns (content: seq<byte>)
      requires cEnd >= -1
      ensures content == Span(screen.buffer[..], start + cStart, start + (cEnd + 1))
    {
      var buffer := screen.buffer;
      ghost var cells, lo := buffer[..], start + cStart;
      content := [];
      var c := cStart;
      while c <= cEnd
        invariant cStart <= c && (c > cStart ==> c <= cEnd + 1)
        invariant content == Span(cells, lo, start + c)
      {
        var pos := start + c;
        SpanSnoc(cells, lo, pos);
        if 0 <= pos < buffer.Length {
          content := content + [buffer[pos]];
        }
        c := c + 1;
      }
      SameSpan(cells, lo, start + c, start + (cEnd + 1));
    }

    /** Blank the field the cursor is in, if any, and leave every other cell alone. */
    method DeleteField(field: Option<Field>)
      requires Valid()
      modifies screen.buffer
      ensures Valid()
      ensures forall k :: 0 <= k < screen.buffer.Length ==>
        screen.buffer[k] == if InField(screen.g, field, k) then 0x40 else old(screen.buffer[k])
    {
      if field.None? {
        return;
      }
      var f := field.value;
      var buffer, cols := screen.buffer, screen.g.cols;
      var r := f.startRow;
      while r <= f.endRow
        invariant f.startRow <= r && (r > f.startRow ==> r <= f.endRow + 1)
        invariant forall k :: 0 <= k < buffer.Length ==>
          buffer[k] == if InRowsBefore(screen.g, f, r, k) then EBCDIC_SPACE else old(buffer[k])
      {
        var cStart := if r == f.startRow then f.startCol else 0;
        var cEnd := if r == f.endRow then f.endCol else cols - 1;
        var c := cStart;
        ghost var lo := RowFirst(screen.g, f, r);
          while c <= cEnd
          invariant cStart <= c && (c > cStart ==> c <= cEnd + 1)
          invariant lo <= r * cols + c
          invariant forall k :: 0 <= k < buffer.Length ==>
            buffer[k] == if InRowsBefore(screen.g, f, r, k) || lo <= k < r * cols + c then EBCDIC_SPACE else old(buffer[k])
        {
          var pos := r * cols + c;
          if 0 <= pos < buffer.Length {
            buffer[pos] := EBCDIC_SPACE;
          }
          c := c + 1;
        }
        forall k ensures InRowsBefore(screen.g, f, r + 1, k) <==> InRowsBefore(screen.g, f, r, k) || lo <= k < r * cols + c {
          OneMoreRow(screen.g, f, r, k);
        }
        r := r + 1;
      }
    }
  }

  // ------------------------------------------------------------------------------------------
  // The cells of a field
  // ------------------------------------------------------------------------------------------

  lemma RowsInOrder(g: Geometry, a: nat, b: nat)
    requires a < b
    ensures g.At(a, 0) + g.cols <= g.At(b, 0)
  {
    MulGap(a, b, g.cols);
  }

  /** The positions of a field in row `r` go from the first of these up to the second. */
  function RowFirst(g: Geometry, f: Field, r: nat): nat {
    g.At(r, 0) + if r == f.startRow then f.startCol else 0
  }

  function RowEndOf(g: Geometry, f: Field, r: nat): nat {
    g.At(r, 0) + if r == f.endRow then f.endCol + 1 else g.cols
  }

  /** The cells from `lo` up to `hi`, as far as they exist. */
  function Span(cells: seq<byte>, lo: nat, hi: nat): seq<byte> {
    if lo <= hi then cells[Min(|cells|, lo)..Min(|cells|, hi)] else []
  }

  /** The cells of the rows of a field before `r`, in order. */
  function CellsBefore(g: Geometry, f: Field, cells: seq<byte>, r: nat): seq<byte>
    requires f.startRow <= r
  {
    if r == f.startRow then []
    else CellsBefore(g, f, cells, r - 1) + RowCells(g, f, cells, r - 1)
  }

  function RowCells(g: Geometry, f: Field, cells: seq<byte>, r: nat): seq<byte> {
    Span(cells, RowFirst(g, f, r), RowEndOf(g, f, r))
  }

  lemma ColumnsOfRow(g: Geometry, f: Field, cells: seq<byte>, r: nat, start: nat, cStart: nat, cEnd: int)
    requires start == g.At(r, 0) && cEnd >= -1
    requires cStart == (if r == f.startRow then f.startCol else 0)
    requires cEnd == (if r == f.endRow then f.endCol else g.cols - 1)
    ensures RowCells(g, f, cells, r) == Span(cells, start + cStart, start + (cEnd + 1))
  {
  }

  lemma CellsOfRow(g: Geometry, f: Field, cells: seq<byte>, r: nat)
    requires f.startRow <= r
    ensures CellsBefore(g, f, cells, r + 1) == CellsBefore(g, f, cells, r) + RowCells(g, f, cells, r)
  {
  }

  function FieldCells(g: Geometry, f: Field, cells: seq<byte>): seq<byte> {
    if f.startRow <= f.endRow then CellsBefore(g, f, cells, f.endRow + 1) else []
  }

  predicate InRow(g: Geometry, f: Field, r: nat, k: int) {
    RowFirst(g, f, r) <= k < RowEndOf(g, f, r)
  }

  ghost predicate InRowsBefore(g: Geometry, f: Field, end: int, k: int) {
    exists r: nat :: f.startRow <= r < end && InRow(g, f, r, k)
  }

  ghost predicate InField(g: Geometry, field: Option<Field>, k: int) {
    field.Some? && InRowsBefore(g, field.value, field.value.endRow + 1, k)
  }

  lemma OneMoreRow(g: Geometry, f: Field, r: nat, k: int)
    requires f.startRow <= r
    ensures InRowsBefore(g, f, r + 1, k) <==> InRowsBefore(g, f, r, k) || InRow(g, f, r, k)
  {
  }

  lemma SpanSnoc(cells: seq<byte>, lo: nat, hi: nat)
    requires lo <= hi
    ensures Span(cells, lo, hi + 1) == Span(cells, lo, hi) + if hi < |cells| then [cells[hi]] else []
  {
  }

  /** Where a loop over the columns of a row ends, nothing is missing. */
  lemma SameSpan(cells: seq<byte>, lo: nat, reached: nat, end: nat)
    requires reached == end || (reached == lo && end <= lo)
    ensures Span(cells, lo, reached) == Span(cells, lo, end)
  {
  }

  lemma SpanAppend(cells: seq<byte>, lo: nat, mid: nat, hi: nat)
    requires lo <= mid <= hi
    ensures Span(cells, lo, mid) + Span(cells, mid, hi) == Span(cells, lo, hi)
  {
  }

  /** The rows of a field up to row `r` are the cells from its first position to the end of that row. */
  lemma {:induction false} RowsFormInterval(g: Geometry, f: Field, cells: seq<byte>, r: nat, lo: nat)
    requires f.startCol < g.cols && f.startRow <= r < f.endRow && lo == g.At(f.startRow, 0) + f.startCol
    ensures lo <= g.At(r + 1, 0) && CellsBefore(g, f, cells, r + 1) == Span(cells, lo, g.At(r + 1, 0))
    decreases r
  {
    InnerRow(g, f, cells, r);
    if r > f.startRow {
      var before := r - 1;
      RowsFormInterval(g, f, cells, before, lo);
      assert before + 1 == r;
      OneMoreSpan(g, f, cells, r, lo, g.At(r, 0), g.At(r + 1, 0));
    }
  }

  lemma OneMoreSpan(g: Geometry, f: Field, cells: seq<byte>, r: nat, lo: nat, mid: nat, hi: nat)
    requires f.startRow <= r && lo <= mid <= hi
    requires CellsBefore(g, f, cells, r) == Span(cells, lo, mid) && RowCells(g, f, cells, r) == Span(cells, mid, hi)
    ensures CellsBefore(g, f, cells, r + 1) == Span(cells, lo, hi)
  {
    CellsOfRow(g, f, cells, r);
    SpanAppend(cells, lo, mid, hi);
  }

  /** A row of a field other than its last one extends to the end of the row. */
  lemma InnerRow(g: Geometry, f: Field, cells: seq<byte>, r: nat)
    requires f.startRow <= r < f.endRow
    ensures g.At(r + 1, 0) == g.At(r, 0) + g.cols
    ensures r == f.startRow ==> CellsBefore(g, f, cells, r + 1) == Span(cells, g.At(r, 0) + f.startCol, g.At(r + 1, 0))
    ensures r > f.startRow ==> RowCells(g, f, cells, r) == Span(cells, g.At(r, 0), g.At(r + 1, 0))
  {
    if r == f.startRow {
      CellsOfRow(g, f, cells, r);
      assert CellsBefore(g, f, cells, r) == [];
    }
  }

  /**
   * With its columns on the screen a field is what lies between its first and its last position: the
   * row and column loops visit that interval once, in order, and nothing if the two are not in order.
   */
  lemma FieldIsInterval(g: Geometry, f: Field, cells: seq<byte>)
    requires f.startCol < g.cols && f.endCol < g.cols
    ensures FieldCells(g, f, cells) == Span(cells, FirstPos(g, f), LastPos(g, f) + 1)
  {
    FieldFromTo(g, f, cells, FirstPos(g, f), LastPos(g, f) + 1);
  }

  lemma FieldFromTo(g: Geometry, f: Field, cells: seq<byte>, lo: nat, hi: nat)
    requires f.startCol < g.cols && f.endCol < g.cols
    requires lo == g.At(f.startRow, 0) + f.startCol && hi == g.At(f.endRow, 0) + f.endCol + 1
    ensures FieldCells(g, f, cells) == Span(cells, lo, hi)
  {
    if f.startRow < f.endRow {
      var before := f.endRow - 1;
      RowsFormInterval(g, f, cells, before, lo);
      assert before + 1 == f.endRow;
      OneMoreSpan(g, f, cells, f.endRow, lo, g.At(f.endRow, 0), hi);
    } else if f.startRow == f.endRow {
      CellsOfRow(g, f, cells, f.endRow);
      assert CellsBefore(g, f, cells, f.startRow) == [];
    } else {
      RowsInOrder(g, f.endRow, f.startRow);
    }
  }

  lemma RowWithin(g: Geometry, f: Field, r: nat, k: int)
    requires f.startCol < g.cols && f.endCol < g.cols && f.startRow <= r <= f.endRow && InRow(g, f, r, k)
    ensures g.At(f.startRow, 0) + f.startCol <= k <= g.At(f.endRow, 0) + f.endCol
  {
    if r < f.endRow { RowsInOrder(g, r, f.endRow); }
    if f.startRow < r { RowsInOrder(g, f.startRow, r); }
  }

  /** The row that holds a position. */
  lemma {:induction false} RowOfPosition(g: Geometry, k: nat, b: nat) returns (r: nat)
    requires k < g.At(b, 0)
    ensures r < b && g.At(r, 0) <= k < g.At(r, 0) + g.cols
  {
    if g.At(b - 1, 0) <= k {
      r := b - 1;
    } else {
      r := RowOfPosition(g, k, b - 1);
    }
  }

  /** What is blanked is the same interval. */
  lemma BlankedIsInterval(g: Geometry, f: Field, k: nat)
    requires f.startCol < g.cols && f.endCol < g.cols
    ensures InField(g, Some(f), k) <==> FirstPos(g, f) <= k <= LastPos(g, f)
  {
    forall r: nat | f.startRow <= r <= f.endRow && InRow(g, f, r, k) ensures FirstPos(g, f) <= k <= LastPos(g, f) {
      RowWithin(g, f, r, k);
    }
    if FirstPos(g, f) <= k <= LastPos(g, f) {
      var r := RowOfPosition(g, k, f.endRow + 1);
      if r < f.startRow { RowsInOrder(g, r, f.startRow); }
      assert InRow(g, f, r, k);
    }
  }
}
