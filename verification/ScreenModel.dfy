/**
 * The screen as a flat sequence of cells, and what typing, deleting and moving do to it.
 */
module ScreenModel {
  import opened Common

  const EBCDIC_SPACE: byte := 0x40

  datatype Geometry = Geometry(rows: nat, cols: nat) {
    ghost predicate Valid() {
      0 < rows && 0 < cols
    }

    function Size(): nat {
      rows * cols
    }

    /** The linear position of a row and column. */
    function At(row: nat, col: nat): nat {
      row * cols + col
    }
  }

  datatype Cursor = Cursor(row: nat, col: nat)

  ghost predicate OnScreen(g: Geometry, c: Cursor) {
    c.row < g.rows && c.col < g.cols
  }

  function Linear(g: Geometry, c: Cursor): nat {
    g.At(c.row, c.col)
  }

  lemma RowBounds(g: Geometry, row: nat)
    requires row < g.rows
    ensures g.At(row + 1, 0) == g.At(row, 0) + g.cols <= g.Size()
  {
    if row + 1 < g.rows {
      MulGap(row + 1, g.rows, g.cols);
    }
  }

  lemma MulGap(a: nat, b: nat, m: nat)
    requires a < b
    ensures a * m + m <= b * m
  {
    var k := b - a - 1;
    assert b * m == (a + 1 + k) * m == a * m + m + k * m;
  }

  /** The linear position just after the last cell of a row. */
  function RowEnd(g: Geometry, row: nat): (end: nat)
    requires row < g.rows
    ensures end == g.At(row, 0) + g.cols <= g.Size()
  {
    RowBounds(g, row);
    g.At(row + 1, 0)
  }

  lemma CursorBounds(g: Geometry, c: Cursor)
    requires OnScreen(g, c)
    ensures Linear(g, c) < g.Size()
  {
    RowBounds(g, c.row);
  }

  // ------------------------------------------------------------------------------------------
  // Moving the cursor
  // ------------------------------------------------------------------------------------------

  function RightOf(g: Geometry, c: Cursor): (r: Cursor)
    requires g.rows > 0
    ensures OnScreen(g, c) ==> OnScreen(g, r)
  {
    if c.col + 1 >= g.cols then Cursor(Min(g.rows - 1, c.row + 1), 0) else Cursor(c.row, c.col + 1)
  }

  function LeftOf(g: Geometry, c: Cursor): Cursor
    requires g.cols > 0
  {
    if c.col > 0 then Cursor(c.row, c.col - 1)
    else if c.row > 0 then Cursor(c.row - 1, g.cols - 1)
    else c
  }

  /** The cursor after `n` moves to the right. */
  function Moved(g: Geometry, c: Cursor, n: nat): (r: Cursor)
    requires g.rows > 0
    ensures OnScreen(g, c) ==> OnScreen(g, r)
  {
    if n == 0 then c else RightOf(g, Moved(g, c, n - 1))
  }

  /** One move on linear positions: on by one, and from the last cell back to the start of its row. */
  function Succ(g: Geometry, p: nat): nat
    requires g.rows > 0
  {
    if p + 1 < g.Size() then p + 1 else g.At(g.rows - 1, 0)
  }

  /** Where writing a character leaves the cursor: on by one, and from the last cell to the first. */
  function Advanced(g: Geometry, c: Cursor): (r: Cursor)
    requires g.Valid()
    ensures OnScreen(g, c) ==> OnScreen(g, r)
  {
    if c.col + 1 < g.cols then Cursor(c.row, c.col + 1)
    else if c.row + 1 < g.rows then Cursor(c.row + 1, 0)
    else Cursor(0, 0)
  }

  lemma RightIsSucc(g: Geometry, c: Cursor)
    requires g.Valid() && OnScreen(g, c)
    ensures OnScreen(g, RightOf(g, c)) && Linear(g, RightOf(g, c)) == Succ(g, Linear(g, c))
  {
    RowBounds(g, c.row);
    if c.row + 1 < g.rows {
      RowBounds(g, c.row + 1);
    }
  }

  /** Where `n` moves to the right lead from `p`: straight on, then round and round the last row. */
  function Orbit(g: Geometry, p: nat, n: nat): nat
    requires g.Valid()
  {
    if p + n < g.Size() then p + n else g.At(g.rows - 1, 0) + (p + n - g.Size()) % g.cols
  }

  lemma ModSucc(x: nat, m: nat)
    requires m > 0
    ensures (x + 1) % m == if x % m == m - 1 then 0 else x % m + 1
  {
    var q, r := x / m, x % m;
    assert x == q * m + r;
    if r == m - 1 {
      assert x + 1 == (q + 1) * m + 0;
      DivModUnique(x + 1, m, q + 1, 0);
    } else {
      DivModUnique(x + 1, m, q, r + 1);
    }
  }

  lemma DivModUnique(x: nat, m: nat, q: nat, r: nat)
    requires m > 0 && x == q * m + r && r < m
    ensures x % m == r
  {
    var q' := x / m;
    if q' > q {
      MulGap(q, q', m);
    } else if q' < q {
      MulGap(q', q, m);
    }
  }

  lemma OrbitStep(g: Geometry, p: nat, n: nat)
    requires g.Valid() && p < g.Size()
    ensures Orbit(g, p, n) < g.Size()
    ensures Orbit(g, p, n + 1) == Succ(g, Orbit(g, p, n))
  {
    var last := g.At(g.rows - 1, 0);
    RowBounds(g, g.rows - 1);
    if p + n >= g.Size() {
      ModSucc(p + n - g.Size(), g.cols);
    } else if p + n + 1 == g.Size() {
      assert 0 % g.cols == 0 by { DivModUnique(0, g.cols, 0, 0); }
    }
  }

  /** The cursor runs on to the last cell and then round the last row, like a lasso. */
  lemma {:induction false} CursorOrbit(g: Geometry, c: Cursor, n: nat)
    requires g.Valid() && OnScreen(g, c)
    ensures OnScreen(g, Moved(g, c, n)) && Linear(g, Moved(g, c, n)) == Orbit(g, Linear(g, c), n)
  {
    CursorBounds(g, c);
    if n > 0 {
      CursorOrbit(g, c, n - 1);
      RightIsSucc(g, Moved(g, c, n - 1));
      OrbitStep(g, Linear(g, c), n - 1);
    }
  }

  /** Moving left undoes moving right, and the other way round, exactly off the ends of the screen. */
  lemma LeftRight(g: Geometry, c: Cursor)
    requires g.Valid() && OnScreen(g, c)
    ensures LeftOf(g, RightOf(g, c)) == c <==> Linear(g, c) + 1 < g.Size() || g.Size() == 1
    ensures RightOf(g, LeftOf(g, c)) == c <==> Linear(g, c) > 0 || g.Size() == 1
  {
    LastAndFirst(g, c);
    LeftRightByRow(g, c);
  }

  /** A move left goes back by one position and stays on the first cell. */
  lemma LeftIsPred(g: Geometry, c: Cursor)
    requires g.Valid() && OnScreen(g, c)
    ensures OnScreen(g, LeftOf(g, c))
    ensures Linear(g, LeftOf(g, c)) == if Linear(g, c) == 0 then 0 else Linear(g, c) - 1
  {
    if c.row > 0 { RowBounds(g, c.row - 1); }
  }

  /** Writing moves the cursor on by one position, and from the last one to the first. */
  lemma AdvancedIsNext(g: Geometry, c: Cursor)
    requires g.Valid() && OnScreen(g, c)
    ensures Linear(g, Advanced(g, c)) == if Linear(g, c) + 1 == g.Size() then 0 else Linear(g, c) + 1
  {
    LastAndFirst(g, c);
    CursorBounds(g, c);
    RowBounds(g, c.row);
  }

  lemma LeftRightByRow(g: Geometry, c: Cursor)
    requires g.Valid() && OnScreen(g, c)
    ensures LeftOf(g, RightOf(g, c)) == c <==> c.row + 1 < g.rows || c.col + 1 < g.cols || (g.rows == 1 && g.cols == 1)
    ensures RightOf(g, LeftOf(g, c)) == c <==> c.row > 0 || c.col > 0 || (g.rows == 1 && g.cols == 1)
  {
  }

  /** Only the last cell of the screen has the last position, and only the first cell has position 0. */
  lemma LastAndFirst(g: Geometry, c: Cursor)
    requires g.Valid() && OnScreen(g, c)
    ensures Linear(g, c) + 1 < g.Size() <==> c.row + 1 < g.rows || c.col + 1 < g.cols
    ensures Linear(g, c) > 0 <==> c.row > 0 || c.col > 0
    ensures g.Size() == 1 <==> g.rows == 1 && g.cols == 1
  {
    RowBounds(g, c.row);
    if c.row + 1 < g.rows { RowBounds(g, c.row + 1); }
    if c.row > 0 { RowBounds(g, c.row - 1); }
    if g.rows > 1 { RowBounds(g, 1); }
  }

  // ------------------------------------------------------------------------------------------
  // Typing and deleting
  // ------------------------------------------------------------------------------------------

  /** Everything typing depends on besides cells and cursor. */
  datatype Mode = Mode(g: Geometry, shielded: seq<bool>, insert: bool, circumvent: bool)

  ghost predicate Fits(m: Mode, cells: seq<byte>) {
    m.g.Valid() && |cells| == |m.shielded| == m.g.Size()
  }

  /** The cells from `lo` on move right by one, up to `hi`, and the last one is lost. */
  function ShiftRight(cells: seq<byte>, lo: nat, hi: nat): (r: seq<byte>)
    requires lo < hi <= |cells|
    ensures |r| == |cells|
  {
    cells[..lo + 1] + cells[lo..hi - 1] + cells[hi..]
  }

  lemma SameAsShift(r: seq<byte>, cells: seq<byte>, lo: nat, hi: nat)
    requires lo < hi <= |cells| == |r|
    requires forall k {:trigger r[k]} :: 0 <= k < |r| ==> r[k] == if lo < k < hi then cells[k - 1] else cells[k]
    ensures r == ShiftRight(cells, lo, hi)
  {
    var s := ShiftRight(cells, lo, hi);
    forall k | 0 <= k < |r| ensures r[k] == s[k] {
      if lo < k < hi { assert s[k] == cells[lo..hi - 1][k - lo - 1]; }
    }
  }

  /** Type one byte at `lo`, in a row that ends at `hi`. A refused write leaves the shift in place. */
  function TypeOne(m: Mode, cells: seq<byte>, lo: nat, hi: nat, b: byte): (r: seq<byte>)
    requires lo < hi <= |cells| == |m.shielded|
    ensures |r| == |cells|
  {
    var shifted := if m.insert then ShiftRight(cells, lo, hi) else cells;
    if m.shielded[lo] && !m.circumvent then shifted else shifted[lo := b]
  }

  /** The cells after typing the first `n` bytes of `text` from `c` on. */
  function Typed(m: Mode, cells: seq<byte>, c: Cursor, text: seq<byte>, n: nat): (r: seq<byte>)
    requires Fits(m, cells) && OnScreen(m.g, c) && n <= |text|
    ensures |r| == |cells|
  {
    if n == 0 then cells
    else
      var at := Moved(m.g, c, n - 1);
      TypeOne(m, Typed(m, cells, c, text, n - 1), Linear(m.g, at), RowEnd(m.g, at.row), text[n - 1])
  }

  ghost predicate AllPermitted(m: Mode) {
    m.circumvent || forall k :: 0 <= k < |m.shielded| ==> !m.shielded[k]
  }

  /** No later byte among the first `n` lands on the cell the `k`-th lands on. */
  ghost predicate LastVisit(g: Geometry, p: nat, k: nat, n: nat)
    requires g.Valid()
  {
    forall j :: k < j < n ==> Orbit(g, p, j) != Orbit(g, p, k)
  }

  ghost predicate Visited(g: Geometry, p: nat, n: nat, q: nat)
    requires g.Valid()
  {
    exists k: nat :: k < n && Orbit(g, p, k) == q
  }

  /** `r` holds the last of the first `n` bytes typed on each cell, and `cells` everywhere else. */
  ghost predicate Overwritten(g: Geometry, p: nat, cells: seq<byte>, r: seq<byte>, text: seq<byte>, n: nat)
    requires g.Valid() && |r| == |cells| && n <= |text|
  {
    && (forall k: nat :: k < n && LastVisit(g, p, k, n) ==> Orbit(g, p, k) < |r| && r[Orbit(g, p, k)] == text[k])
    && (forall q :: 0 <= q < |r| && !Visited(g, p, n, q) ==> r[q] == cells[q])
  }

  /**
   * Overwriting: the cell of each byte holds the last byte typed on it, and every cell the cursor
   * does not pass is as it was.
   */
  lemma {:induction false} OverwriteExact(m: Mode, cells: seq<byte>, c: Cursor, text: seq<byte>, n: nat)
    requires Fits(m, cells) && OnScreen(m.g, c) && n <= |text| && !m.insert && AllPermitted(m)
    ensures Overwritten(m.g, Linear(m.g, c), cells, Typed(m, cells, c, text, n), text, n)
  {
    if n > 0 {
      OverwriteExact(m, cells, c, text, n - 1);
      OverwriteOne(m, cells, c, text, n);
      OverwriteTurn(m.g, Linear(m.g, c), cells, Typed(m, cells, c, text, n - 1), Typed(m, cells, c, text, n), text, n);
    }
  }

  /** The last byte typed replaces the cell under the cursor. */
  lemma OverwriteOne(m: Mode, cells: seq<byte>, c: Cursor, text: seq<byte>, n: nat)
    requires Fits(m, cells) && OnScreen(m.g, c) && 0 < n <= |text| && !m.insert && AllPermitted(m)
    ensures var at := Orbit(m.g, Linear(m.g, c), n - 1);
      at < |cells| && Typed(m, cells, c, text, n) == Typed(m, cells, c, text, n - 1)[at := text[n - 1]]
  {
    var at := Moved(m.g, c, n - 1);
    CursorOrbit(m.g, c, n - 1);
    TypedLast(m, cells, c, Linear(m.g, at), RowEnd(m.g, at.row), text, n);
    OverwritePermitted(m, Typed(m, cells, c, text, n - 1), Linear(m.g, at), RowEnd(m.g, at.row), text[n - 1]);
  }

  lemma OverwritePermitted(m: Mode, cells: seq<byte>, lo: nat, hi: nat, b: byte)
    requires lo < hi <= |cells| == |m.shielded| && !m.insert && AllPermitted(m)
    ensures TypeOne(m, cells, lo, hi, b) == cells[lo := b]
  {
  }

  lemma OverwriteTurn(g: Geometry, p: nat, cells: seq<byte>, before: seq<byte>, r: seq<byte>, text: seq<byte>, n: nat)
    requires g.Valid() && |cells| == |before| == |r| && 0 < n <= |text|
    requires Overwritten(g, p, cells, before, text, n - 1)
    requires Orbit(g, p, n - 1) < |r| && r == before[Orbit(g, p, n - 1) := text[n - 1]]
    ensures Overwritten(g, p, cells, r, text, n)
  {
    forall k: nat | k < n && LastVisit(g, p, k, n)
      ensures Orbit(g, p, k) < |r| && r[Orbit(g, p, k)] == text[k]
    {
      if k < n - 1 {
        assert LastVisit(g, p, k, n - 1);
        assert Orbit(g, p, n - 1) != Orbit(g, p, k);
      }
    }
    forall q | 0 <= q < |r| && !Visited(g, p, n, q) ensures r[q] == cells[q] {
      assert !Visited(g, p, n - 1, q);
    }
  }

  /** Text that ends before the screen does replaces just the cells it covers. */
  lemma OverwriteStraight(m: Mode, cells: seq<byte>, c: Cursor, p: nat, text: seq<byte>)
    requires Fits(m, cells) && OnScreen(m.g, c) && !m.insert && AllPermitted(m)
    requires p == Linear(m.g, c) && p + |text| <= m.g.Size()
    ensures Typed(m, cells, c, text, |text|) == cells[..p] + text + cells[p + |text|..]
  {
    OverwriteExact(m, cells, c, text, |text|);
    StraightOn(m.g, p, cells, Typed(m, cells, c, text, |text|), text);
  }

  lemma StraightOn(g: Geometry, p: nat, cells: seq<byte>, r: seq<byte>, text: seq<byte>)
    requires g.Valid() && |r| == |cells| && p + |text| <= |cells| && |cells| == g.Size()
    requires Overwritten(g, p, cells, r, text, |text|)
    ensures r == cells[..p] + text + cells[p + |text|..]
  {
    forall k: nat | k < |text| ensures Orbit(g, p, k) == p + k {}
    forall k: nat | k < |text| ensures r[p + k] == text[k] {
      assert LastVisit(g, p, k, |text|);
    }
    forall q | 0 <= q < |r| && !(p <= q < p + |text|) ensures r[q] == cells[q] {
      assert !Visited(g, p, |text|, q);
    }
    SameCells(r, cells, p, text);
  }

  lemma SameCells(r: seq<byte>, cells: seq<byte>, p: nat, text: seq<byte>)
    requires |r| == |cells| && p + |text| <= |r|
    requires forall k: nat :: k < |text| ==> r[p + k] == text[k]
    requires forall q :: 0 <= q < |r| && !(p <= q < p + |text|) ==> r[q] == cells[q]
    ensures r == cells[..p] + text + cells[p + |text|..]
  {
    forall q | p <= q < p + |text| ensures r[q] == text[q - p] {
      assert r[p + (q - p)] == text[q - p];
    }
  }

  /** Overwriting never changes a shielded cell, whatever is typed and however far the cursor runs. */
  lemma {:induction false} ShieldedCellsSurvive(m: Mode, cells: seq<byte>, c: Cursor, text: seq<byte>, n: nat, q: nat)
    requires Fits(m, cells) && OnScreen(m.g, c) && n <= |text| && !m.insert && !m.circumvent
    requires q < |cells| && m.shielded[q]
    ensures Typed(m, cells, c, text, n)[q] == cells[q]
  {
    if n > 0 {
      ShieldedCellsSurvive(m, cells, c, text, n - 1, q);
      var at := Moved(m.g, c, n - 1);
      TypedLast(m, cells, c, Linear(m.g, at), RowEnd(m.g, at.row), text, n);
    }
  }

  /**
   * One keystroke leaves every protected cell as it was exactly when no protected cell differs from
   * the one shifted onto it, and no different byte is written with protection circumvented.
   */
  lemma ShieldedExactly(m: Mode, cells: seq<byte>, lo: nat, hi: nat, b: byte)
    requires lo < hi <= |cells| == |m.shielded|
    ensures (forall k :: 0 <= k < |cells| && m.shielded[k] ==> TypeOne(m, cells, lo, hi, b)[k] == cells[k])
      <==> ((m.insert ==> forall k :: lo < k < hi && m.shielded[k] ==> cells[k - 1] == cells[k])
            && (m.circumvent && m.shielded[lo] ==> b == cells[lo]))
  {
    var r := TypeOne(m, cells, lo, hi, b);
    forall k | 0 <= k < |cells|
      ensures r[k] == if k == lo then (if m.shielded[lo] && !m.circumvent then cells[lo] else b)
                      else if m.insert && lo < k < hi then cells[k - 1] else cells[k]
    {
      ShiftedCell(cells, lo, hi, k);
    }
  }

  lemma ShiftedCell(cells: seq<byte>, lo: nat, hi: nat, k: nat)
    requires lo < hi <= |cells| && k < |cells|
    ensures ShiftRight(cells, lo, hi)[k] == if lo < k < hi then cells[k - 1] else cells[k]
  {
  }

  /** A refused write in insert mode still shifts the row, so protected cells can change. */
  lemma RefusedTypingExact(m: Mode, cells: seq<byte>, lo: nat, hi: nat, b: byte)
    requires lo < hi <= |cells| == |m.shielded| && m.shielded[lo] && !m.circumvent
    ensures TypeOne(m, cells, lo, hi, b) == cells
      <==> !m.insert || forall k :: lo < k < hi ==> cells[k] == cells[lo]
  {
    if m.insert {
      var r := ShiftRight(cells, lo, hi);
      assert forall k :: lo < k < hi ==> r[k] == cells[k - 1];
      if r == cells {
        ShiftedRun(cells, lo, hi - 1);
      }
    }
  }

  lemma {:induction false} ShiftedRun(cells: seq<byte>, lo: nat, k: nat)
    requires lo <= k < |cells| && forall j {:trigger cells[j]} :: lo < j <= k ==> cells[j] == cells[j - 1]
    ensures forall j :: lo < j <= k ==> cells[j] == cells[lo]
    decreases k
  {
    if lo < k {
      ShiftedRun(cells, lo, k - 1);
    }
  }

  /** Typing `n` bytes that stay within the row moves the cursor right by `n`. */
  lemma {:induction false} MovedWithinRow(g: Geometry, c: Cursor, n: nat)
    requires g.Valid() && OnScreen(g, c) && c.col + n < g.cols
    ensures Moved(g, c, n) == Cursor(c.row, c.col + n)
  {
    if n > 0 {
      MovedWithinRow(g, c, n - 1);
    }
  }

  /**
   * Inserting within a row: the text goes in at the cursor, the rest of the row moves right, what is
   * pushed past the end of the row is lost, and no other row changes.
   */
  lemma {:induction false} InsertExact(m: Mode, cells: seq<byte>, c: Cursor, lo: nat, hi: nat, text: seq<byte>, n: nat)
    requires Fits(m, cells) && OnScreen(m.g, c) && n <= |text| && m.insert && AllPermitted(m)
    requires c.col + n <= m.g.cols
    requires lo == Linear(m.g, c) && hi == RowEnd(m.g, c.row)
    ensures lo + n <= hi <= |cells|
    ensures Typed(m, cells, c, text, n) == Inserted(cells, lo, hi, text[..n])
  {
    RowBounds(m.g, c.row);
    if n == 0 {
      InsertedNothing(cells, lo, hi);
      assert text[..n] == [];
    } else {
      InsertExact(m, cells, c, lo, hi, text, n - 1);
      InsertOne(m, cells, c, lo, hi, text, n);
      InsertStep(cells, Typed(m, cells, c, text, n - 1), lo, hi, text, n);
    }
  }

  lemma InsertedNothing(cells: seq<byte>, lo: nat, hi: nat)
    requires lo <= hi <= |cells|
    ensures Inserted(cells, lo, hi, []) == cells
  {
  }

  /** The last byte typed goes in at the cursor. */
  lemma InsertOne(m: Mode, cells: seq<byte>, c: Cursor, lo: nat, hi: nat, text: seq<byte>, n: nat)
    requires Fits(m, cells) && OnScreen(m.g, c) && 0 < n <= |text| && m.insert && AllPermitted(m)
    requires c.col + n <= m.g.cols
    requires lo == Linear(m.g, c) && hi == RowEnd(m.g, c.row)
    ensures lo + n <= hi <= |cells|
    ensures Typed(m, cells, c, text, n)
         == ShiftRight(Typed(m, cells, c, text, n - 1), lo + (n - 1), hi)[lo + (n - 1) := text[n - 1]]
  {
    MovedWithinRow(m.g, c, n - 1);
    TypedLast(m, cells, c, lo + (n - 1), hi, text, n);
    InsertPermitted(m, Typed(m, cells, c, text, n - 1), lo + (n - 1), hi, text[n - 1]);
  }

  /** A row segment with `text` put in at `lo` and as much pushed past its end at `hi`. */
  function Inserted(cells: seq<byte>, lo: nat, hi: nat, text: seq<byte>): seq<byte>
    requires lo + |text| <= hi <= |cells|
  {
    cells[..lo] + text + cells[lo..hi - |text|] + cells[hi..]
  }

  lemma TypedLast(m: Mode, cells: seq<byte>, c: Cursor, lo: nat, hi: nat, text: seq<byte>, n: nat)
    requires Fits(m, cells) && OnScreen(m.g, c) && 0 < n <= |text|
    requires lo == Linear(m.g, Moved(m.g, c, n - 1)) && hi == RowEnd(m.g, Moved(m.g, c, n - 1).row)
    ensures lo < hi <= |cells|
    ensures Typed(m, cells, c, text, n) == TypeOne(m, Typed(m, cells, c, text, n - 1), lo, hi, text[n - 1])
  {
  }

  /** One turn of typing: the byte on the cell under the cursor, and the cursor on by one. */
  lemma TypedNext(m: Mode, cells: seq<byte>, c: Cursor, at: Cursor, text: seq<byte>, n: nat, before: seq<byte>, r: seq<byte>)
    requires Fits(m, cells) && OnScreen(m.g, c) && n < |text|
    requires at == Moved(m.g, c, n) && before == Typed(m, cells, c, text, n)
    requires Linear(m.g, at) < RowEnd(m.g, at.row) <= |before|
    requires r == TypeOne(m, before, Linear(m.g, at), RowEnd(m.g, at.row), text[n])
    ensures r == Typed(m, cells, c, text, n + 1) && RightOf(m.g, at) == Moved(m.g, c, n + 1)
  {
    TypedLast(m, cells, c, Linear(m.g, at), RowEnd(m.g, at.row), text, n + 1);
  }

  lemma InsertPermitted(m: Mode, cells: seq<byte>, lo: nat, hi: nat, b: byte)
    requires lo < hi <= |cells| == |m.shielded| && m.insert && AllPermitted(m)
    ensures TypeOne(m, cells, lo, hi, b) == ShiftRight(cells, lo, hi)[lo := b]
  {
  }

  lemma InsertStep(cells: seq<byte>, before: seq<byte>, lo: nat, hi: nat, text: seq<byte>, n: nat)
    requires 0 < n <= |text| && lo + n <= hi <= |cells|
    requires before == Inserted(cells, lo, hi, text[..n - 1])
    ensures ShiftRight(before, lo + (n - 1), hi)[lo + (n - 1) := text[n - 1]] == Inserted(cells, lo, hi, text[..n])
  {
    var at := lo + (n - 1);
    assert before[at..hi] == cells[lo..hi - (n - 1)];
    assert before[at..hi - 1] == before[at..hi][..hi - 1 - at] == cells[lo..hi - n];
    assert before[..at] == cells[..lo] + text[..n - 1];
    assert before[hi..] == cells[hi..];
    assert text[..n] == text[..n - 1] + [text[n - 1]];
  }

  /** The cells from `lo` on move left by one within the row that ends at `hi`, which gains a blank. */
  function DeleteOne(cells: seq<byte>, lo: nat, hi: nat): (r: seq<byte>)
    requires lo < hi <= |cells|
    ensures |r| == |cells|
  {
    cells[..lo] + cells[lo + 1..hi] + [EBCDIC_SPACE] + cells[hi..]
  }

  lemma SameAsDelete(r: seq<byte>, cells: seq<byte>, lo: nat, hi: nat)
    requires lo < hi <= |cells| == |r|
    requires forall k {:trigger r[k]} :: 0 <= k < |r| ==>
      r[k] == if lo <= k < hi - 1 then cells[k + 1] else if k == hi - 1 then EBCDIC_SPACE else cells[k]
    ensures r == DeleteOne(cells, lo, hi)
  {
    var s := DeleteOne(cells, lo, hi);
    forall k | 0 <= k < |r| ensures r[k] == s[k] {
      if lo <= k < hi - 1 { assert s[k] == cells[lo + 1..hi][k - lo]; }
    }
  }

  function Deleted(cells: seq<byte>, lo: nat, hi: nat, n: nat): (r: seq<byte>)
    requires lo < hi <= |cells|
    ensures |r| == |cells|
  {
    if n == 0 then cells else DeleteOne(Deleted(cells, lo, hi, n - 1), lo, hi)
  }

  function Blanks(n: nat): (r: seq<byte>)
    ensures |r| == n && forall k :: 0 <= k < n ==> r[k] == 0x40
  {
    seq(n, _ => EBCDIC_SPACE)
  }

  lemma {:induction false} DeleteExact(cells: seq<byte>, lo: nat, hi: nat, n: nat)
    requires lo < hi <= |cells| && n <= hi - lo
    ensures Deleted(cells, lo, hi, n) == cells[..lo] + cells[lo + n..hi] + Blanks(n) + cells[hi..]
  {
    if n > 0 {
      DeleteExact(cells, lo, hi, n - 1);
      var before := Deleted(cells, lo, hi, n - 1);
      assert before == cells[..lo] + cells[lo + (n - 1)..hi] + Blanks(n - 1) + cells[hi..];
      assert before[lo + 1..hi] == cells[lo + n..hi] + Blanks(n - 1);
      assert Blanks(n) == Blanks(n - 1) + [EBCDIC_SPACE];
      assert before[..lo] == cells[..lo] && before[hi..] == cells[hi..];
    }
  }

  /**
   * Deleting what was inserted restores the row, except for the cells the insertion pushed past its
   * end, which are blank now.
   */
  lemma DeleteUndoesInsert(m: Mode, cells: seq<byte>, c: Cursor, lo: nat, hi: nat, text: seq<byte>)
    requires Fits(m, cells) && OnScreen(m.g, c) && m.insert && AllPermitted(m)
    requires c.col + |text| <= m.g.cols
    requires lo == Linear(m.g, c) && hi == RowEnd(m.g, c.row)
    ensures lo < hi <= |cells| && |text| <= hi - lo
    ensures Deleted(Typed(m, cells, c, text, |text|), lo, hi, |text|)
         == cells[..hi - |text|] + Blanks(|text|) + cells[hi..]
  {
    RowBounds(m.g, c.row);
    InsertExact(m, cells, c, lo, hi, text, |text|);
    assert text[..|text|] == text;
    DeletingInserted(cells, Typed(m, cells, c, text, |text|), text, lo, hi);
  }

  lemma DeletingInserted(cells: seq<byte>, typed: seq<byte>, text: seq<byte>, lo: nat, hi: nat)
    requires lo + |text| <= hi <= |cells| && lo < hi
    requires typed == Inserted(cells, lo, hi, text)
    ensures Deleted(typed, lo, hi, |text|) == cells[..hi - |text|] + Blanks(|text|) + cells[hi..]
  {
    DeleteExact(typed, lo, hi, |text|);
    PartsOfInserted(cells, text, lo, hi);
    assert cells[..lo] + cells[lo..hi - |text|] == cells[..hi - |text|];
  }

  lemma PartsOfInserted(cells: seq<byte>, text: seq<byte>, lo: nat, hi: nat)
    requires lo + |text| <= hi <= |cells|
    ensures var r := Inserted(cells, lo, hi, text);
      r[..lo] == cells[..lo] && r[lo + |text|..hi] == cells[lo..hi - |text|] && r[hi..] == cells[hi..]
  {
  }
}
