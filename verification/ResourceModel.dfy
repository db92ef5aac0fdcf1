/** Resource definition files: continuation lines, comments and definitions. */
module ResourceModel {
  import opened Common

  /** The characters `str.strip` removes. */
  predicate IsSpace(c: char) {
    '\t' <= c <= '\r' || '\U{1C}' <= c <= ' ' || c == '\U{85}' || c == '\U{A0}' || c == '\U{1680}'
    || '\U{2000}' <= c <= '\U{200A}' || c == '\U{2028}' || c == '\U{2029}' || c == '\U{202F}'
    || c == '\U{205F}' || c == '\U{3000}'
  }

  predicate IsNewline(c: char) {
    c == '\n' || c == '\r'
  }

  function LStrip(s: string): (r: string)
    ensures |r| <= |s|
    ensures r != [] ==> !IsSpace(r[0])
  {
    if s != [] && IsSpace(s[0]) then LStrip(s[1..]) else s
  }

  function RStrip(s: string): (r: string)
    ensures |r| <= |s|
    ensures r != [] ==> !IsSpace(r[|r| - 1])
  {
    if s != [] && IsSpace(s[|s| - 1]) then RStrip(s[..|s| - 1]) else s
  }

  function Strip(s: string): string {
    RStrip(LStrip(s))
  }

  /** `rstrip` of line terminators. */
  function Chomp(s: string): (r: string)
    ensures |r| <= |s|
  {
    if s != [] && IsNewline(s[|s| - 1]) then Chomp(s[..|s| - 1]) else s
  }

  predicate IsComment(line: string) {
    var t := Strip(line);
    t != [] && (t[0] == '#' || t[0] == '!')
  }

  predicate Continued(line: string) {
    line != [] && line[|line| - 1] == '\\'
  }

  /** A continued line with the next physical line joined to it. */
  function Join(line: string, next: string): string
    requires Continued(line)
  {
    RStrip(line[..|line| - 1]) + " " + LStrip(Chomp(next))
  }

  /** How many of the following physical lines a line takes in. */
  function Used(line: string, rest: seq<string>): (n: nat)
    ensures n <= |rest|
    decreases |rest|
  {
    if Continued(line) && rest != [] then 1 + Used(Join(line, rest[0]), rest[1..]) else 0
  }

  /** The line with everything it takes in. */
  function Merged(line: string, rest: seq<string>): string
    decreases |rest|
  {
    if Continued(line) && rest != [] then Merged(Join(line, rest[0]), rest[1..]) else line
  }

  function LogicalLines(lines: seq<string>): seq<string>
    decreases |lines|
  {
    if lines == [] then []
    else
      var line := Chomp(lines[0]);
      if IsComment(line) then LogicalLines(lines[1..])
      else [Merged(line, lines[1..])] + LogicalLines(lines[1 + Used(line, lines[1..])..])
  }

  /** The part of a line before its first colon, if it has one, and the part after it. */
  function SplitColon(line: string): (r: Option<(string, string)>)
    ensures r.Some? <==> ':' in line
    ensures r.Some? ==> line == r.value.0 + ":" + r.value.1 && ':' !in r.value.0
  {
    if line == [] then None
    else if line[0] == ':' then Some(([], line[1..]))
    else
      match SplitColon(line[1..])
      case None => None
      case Some((a, b)) => Some(([line[0]] + a, b))
  }

  const PREFIX := "s3270."

  /** The resource a logical line defines. */
  function Definition(line: string): Option<(string, string)> {
    match SplitColon(line)
    case None => None
    case Some((a, b)) =>
      var key := Strip(a);
      if PREFIX <= key then Some((key[6..], Strip(b))) else None
  }

  type Update = Option<(string, string)>

  function Definitions(logical: seq<string>): (ds: seq<Update>)
    ensures |ds| == |logical| && forall i :: 0 <= i < |ds| ==> ds[i] == Definition(logical[i])
  {
    seq(|logical|, i requires 0 <= i < |logical| => Definition(logical[i]))
  }

  function Define(resources: map<string, string>, d: Update): map<string, string> {
    match d
    case None => resources
    case Some((key, value)) => resources[key := value]
  }

  function Updated(ds: seq<Update>): map<string, string> {
    if ds == [] then map[] else Define(Updated(ds[..|ds| - 1]), ds[|ds| - 1])
  }

  /** The resources a file defines. */
  function Resources(lines: seq<string>): map<string, string> {
    Updated(Definitions(LogicalLines(lines)))
  }

  predicate Sets(d: Update, key: string) {
    d.Some? && d.value.0 == key
  }

  /** A resource has the value its last definition gives it, and what is never defined is no resource. */
  lemma {:induction false} LastDefinitionWins(ds: seq<Update>, key: string)
    ensures var last := LastIndex(ds, d => Sets(d, key));
      && (key in Updated(ds) <==> last.Some?)
      && (last.Some? ==> key in Updated(ds) && ds[last.value] == Some((key, Updated(ds)[key])))
  {
    if ds != [] {
      var front := ds[..|ds| - 1];
      LastDefinitionWins(front, key);
      LastIndexStep(ds, d => Sets(d, key));
    }
  }

  /** The physical lines of the logical lines and comments of a file, in order. */
  function Groups(lines: seq<string>): (gs: seq<seq<string>>)
    ensures forall k :: 0 <= k < |gs| ==> gs[k] != []
    decreases |lines|
  {
    if lines == [] then []
    else
      var n := GroupLength(lines);
      [lines[..n]] + Groups(lines[n..])
  }

  /** How many physical lines the first logical line or comment takes. */
  function GroupLength(lines: seq<string>): (n: nat)
    requires lines != []
    ensures 0 < n <= |lines|
  {
    var line := Chomp(lines[0]);
    if IsComment(line) then 1 else 1 + Used(line, lines[1..])
  }

  /** Each physical line belongs to exactly one group: none is skipped and none is read twice. */
  lemma {:induction false} GroupsPartition(lines: seq<string>)
    ensures Flatten(Groups(lines)) == lines
    decreases |lines|
  {
    if lines != [] {
      var n := GroupLength(lines);
      GroupsPartition(lines[n..]);
      FlattenCons(lines[..n], Groups(lines[n..]));
    }
  }

  // ------------------------------------------------------------------------------------------
  // Folding
  // ------------------------------------------------------------------------------------------

  /** `s` ends with a character that is not white space. */
  predicate EndsSolid(s: string) {
    s != [] && !IsSpace(s[|s| - 1])
  }

  predicate StartsSolid(s: string) {
    s != [] && !IsSpace(s[0])
  }

  lemma RStripSolid(s: string)
    requires EndsSolid(s)
    ensures RStrip(s) == s
  {
  }

  lemma LStripSolid(s: string)
    requires StartsSolid(s)
    ensures LStrip(s) == s
  {
  }

  /** Stripping on the left stops in `a` when `a` has a character that is not white space. */
  lemma {:induction false} LStripFront(a: string, b: string)
    requires EndsSolid(a)
    ensures LStrip(a + b) == LStrip(a) + b && EndsSolid(LStrip(a))
  {
    if IsSpace(a[0]) {
      assert (a + b)[1..] == a[1..] + b;
      LStripFront(a[1..], b);
    }
  }

  lemma {:induction false} ChompBack(a: string, b: string)
    requires StartsSolid(b)
    ensures Chomp(a + b) == a + Chomp(b) && StartsSolid(Chomp(b))
    decreases |b|
  {
    assert IsNewline(b[|b| - 1]) ==> IsSpace(b[|b| - 1]);
    assert (a + b)[|a + b| - 1] == b[|b| - 1];
    if IsNewline(b[|b| - 1]) {
      assert (a + b)[..|a + b| - 1] == a + b[..|b| - 1];
      ChompBack(a, b[..|b| - 1]);
    }
  }

  /** Whether a line is a comment is decided by its first character that is not white space. */
  lemma CommentIsVisible(s: string)
    requires LStrip(s) != []
    ensures IsComment(s) <==> LStrip(s)[0] == '#' || LStrip(s)[0] == '!'
  {
    FirstSurvives(LStrip(s));
  }

  /** Whether a line is a comment shows in any front part of it that is not blank. */
  lemma CommentShowsEarly(a: string, b: string)
    requires EndsSolid(a)
    ensures IsComment(a + b) == IsComment(a)
  {
    LStripFront(a, b);
    CommentIsVisible(a);
    CommentIsVisible(a + b);
  }

  lemma {:induction false} FirstSurvives(s: string)
    requires StartsSolid(s)
    ensures RStrip(s) != [] && RStrip(s)[0] == s[0]
    decreases |s|
  {
    if IsSpace(s[|s| - 1]) {
      FirstSurvives(s[..|s| - 1]);
    }
  }

  /** The first physical line of a fold. */
  function FoldEnd(p: string): string {
    p + "\\\n"
  }

  lemma FoldEndChomped(p: string)
    ensures Chomp(FoldEnd(p)) == p + "\\"
  {
    assert FoldEnd(p)[..|p| + 1] == p + "\\";
    assert FoldEnd(p)[|p| + 1] == '\n';
    assert (p + "\\")[|p|] == '\\';
  }

  lemma JoinFirstHalf(line: string, p: string)
    requires Continued(line) && EndsSolid(p)
    ensures Join(line, FoldEnd(p)) == RStrip(line[..|line| - 1]) + " " + LStrip(p) + "\\"
    ensures EndsSolid(RStrip(line[..|line| - 1]) + " " + LStrip(p))
  {
    FoldEndChomped(p);
    LStripFront(p, "\\");
  }

  lemma JoinSecondHalf(x: string, q: string)
    requires EndsSolid(x) && StartsSolid(q)
    ensures Join(x + "\\", q) == x + " " + Chomp(q)
  {
    assert (x + "\\")[..|x|] == x;
    RStripSolid(x);
    ChompBack([], q);
    assert [] + q == q && [] + Chomp(q) == Chomp(q);
    LStripSolid(Chomp(q));
  }

  lemma ChompWhole(p: string, q: string)
    requires StartsSolid(q)
    ensures Chomp(p + " " + q) == p + " " + Chomp(q) == p + (" " + Chomp(q))
  {
    ChompBack(p + " ", q);
  }

  lemma JoinWhole(line: string, p: string, q: string)
    requires Continued(line) && EndsSolid(p) && StartsSolid(q)
    ensures Join(line, p + " " + q) == RStrip(line[..|line| - 1]) + " " + LStrip(p) + " " + Chomp(q)
  {
    ChompWhole(p, q);
    LStripFront(p, " " + Chomp(q));
    var front := RStrip(line[..|line| - 1]) + " ";
    assert front + (LStrip(p) + (" " + Chomp(q))) == front + LStrip(p) + " " + Chomp(q);
  }

  /** Joining the two halves of a fold gives back the whole, after any line being continued. */
  lemma JoinFold(line: string, p: string, q: string)
    requires Continued(line) && EndsSolid(p) && StartsSolid(q)
    ensures Continued(Join(line, FoldEnd(p)))
    ensures Join(Join(line, FoldEnd(p)), q) == Join(line, p + " " + q)
  {
    JoinFirstHalf(line, p);
    JoinSecondHalf(RStrip(line[..|line| - 1]) + " " + LStrip(p), q);
    JoinWhole(line, p, q);
  }

  /** The same at the beginning of a logical line. */
  lemma StartFold(p: string, q: string)
    requires EndsSolid(p) && StartsSolid(q)
    ensures Continued(Chomp(FoldEnd(p)))
    ensures Join(Chomp(FoldEnd(p)), q) == Chomp(p + " " + q)
  {
    FoldEndChomped(p);
    JoinSecondHalf(p, q);
    ChompWhole(p, q);
  }

  /** The physical lines with one of them cut in two. */
  function Cut(a: seq<string>, p: string, q: string, b: seq<string>): seq<string> {
    a + [FoldEnd(p), q] + b
  }

  function Uncut(a: seq<string>, p: string, q: string, b: seq<string>): seq<string> {
    a + [p + " " + q] + b
  }

  lemma DropBefore(a: seq<string>, p: string, q: string, b: seq<string>, n: nat)
    requires n <= |a|
    ensures Cut(a, p, q, b)[n..] == Cut(a[n..], p, q, b)
    ensures Uncut(a, p, q, b)[n..] == Uncut(a[n..], p, q, b)
    ensures n < |a| ==> Cut(a, p, q, b)[n] == Uncut(a, p, q, b)[n] == a[n]
  {
  }

  lemma DropAfter(a: seq<string>, p: string, q: string, b: seq<string>, n: nat)
    requires n <= |b|
    ensures Cut(a, p, q, b)[|a| + 2 + n..] == b[n..] == Uncut(a, p, q, b)[|a| + 1 + n..]
  {
  }

  lemma CutHere(p: string, q: string, b: seq<string>)
    ensures var cut := Cut([], p, q, b); cut[0] == FoldEnd(p) && cut[1..][0] == q && cut[1..][1..] == b
    ensures var uncut := Uncut([], p, q, b); uncut[0] == p + " " + q && uncut[1..] == b
  {
  }

  lemma MergedAtCut(line: string, p: string, q: string, b: seq<string>)
    requires Continued(line) && EndsSolid(p) && StartsSolid(q)
    ensures Merged(line, Cut([], p, q, b)) == Merged(line, Uncut([], p, q, b)) == Merged(Join(line, p + " " + q), b)
    ensures Used(line, Uncut([], p, q, b)) == 1 + Used(Join(line, p + " " + q), b)
    ensures Used(line, Cut([], p, q, b)) == 2 + Used(Join(line, p + " " + q), b)
  {
    CutHere(p, q, b);
    JoinFold(line, p, q);
    var cut, uncut := Cut([], p, q, b), Uncut([], p, q, b);
    MergedStep(line, cut);
    MergedStep(Join(line, FoldEnd(p)), cut[1..]);
    MergedStep(line, uncut);
  }

  lemma MergedStep(line: string, rest: seq<string>)
    requires Continued(line) && rest != []
    ensures Merged(line, rest) == Merged(Join(line, rest[0]), rest[1..])
    ensures Used(line, rest) == 1 + Used(Join(line, rest[0]), rest[1..])
  {
  }

  /** A line that runs into the cut merges to the same text, and uses one more line for it. */
  lemma {:induction false} MergedOverCut(line: string, a: seq<string>, p: string, q: string, b: seq<string>)
    requires EndsSolid(p) && StartsSolid(q)
    ensures Merged(line, Cut(a, p, q, b)) == Merged(line, Uncut(a, p, q, b))
    ensures var n := Used(line, Uncut(a, p, q, b));
      Used(line, Cut(a, p, q, b)) == if n <= |a| then n else n + 1
    decreases |a|
  {
    if Continued(line) {
      if a == [] {
        MergedAtCut(line, p, q, b);
      } else {
        DropBefore(a, p, q, b, 0);
        DropBefore(a, p, q, b, 1);
        MergedStep(line, Cut(a, p, q, b));
        MergedStep(line, Uncut(a, p, q, b));
        MergedOverCut(Join(line, a[0]), a[1..], p, q, b);
      }
    }
  }

  /** The logical lines of a file whose first line is not a comment. */
  lemma LogicalStep(lines: seq<string>, n: nat)
    requires lines != [] && !IsComment(Chomp(lines[0])) && n == Used(Chomp(lines[0]), lines[1..])
    ensures LogicalLines(lines) == [Merged(Chomp(lines[0]), lines[1..])] + LogicalLines(lines[1..][n..])
  {
    assert lines[1..][n..] == lines[1 + n..];
  }

  lemma LogicalSkip(lines: seq<string>)
    requires lines != [] && IsComment(Chomp(lines[0]))
    ensures LogicalLines(lines) == LogicalLines(lines[1..])
  {
  }

  /** Cutting a line that is not a comment at a single space leaves the logical lines as they were. */
  lemma {:induction false} CutKeepsLogicalLines(a: seq<string>, p: string, q: string, b: seq<string>)
    requires EndsSolid(p) && StartsSolid(q) && !IsComment(p)
    ensures LogicalLines(Cut(a, p, q, b)) == LogicalLines(Uncut(a, p, q, b))
    decreases |a|
  {
    var cut, uncut := Cut(a, p, q, b), Uncut(a, p, q, b);
    if a == [] {
      CutAtStart(p, q, b);
    } else {
      var line, tail := Chomp(a[0]), a[1..];
      DropBefore(a, p, q, b, 0);
      DropBefore(a, p, q, b, 1);
      if IsComment(line) {
        LogicalSkip(cut);
        LogicalSkip(uncut);
        CutKeepsLogicalLines(tail, p, q, b);
      } else {
        MergedOverCut(line, tail, p, q, b);
        var n := Used(line, uncut[1..]);
        if n <= |tail| {
          CutKeepsLogicalLines(tail[n..], p, q, b);
        }
        CutAfterLine(a, p, q, b, n);
      }
    }
  }

  /** Behind the first logical line there is the same, or the same but for the cut. */
  lemma CutAfterLine(a: seq<string>, p: string, q: string, b: seq<string>, n: nat)
    requires a != [] && !IsComment(Chomp(a[0])) && EndsSolid(p) && StartsSolid(q)
    requires n == Used(Chomp(a[0]), Uncut(a[1..], p, q, b))
    requires n <= |a[1..]| ==> LogicalLines(Cut(a[1..][n..], p, q, b)) == LogicalLines(Uncut(a[1..][n..], p, q, b))
    ensures LogicalLines(Cut(a, p, q, b)) == LogicalLines(Uncut(a, p, q, b))
  {
    var cut, uncut, tail := Cut(a, p, q, b), Uncut(a, p, q, b), a[1..];
    DropBefore(a, p, q, b, 0);
    DropBefore(a, p, q, b, 1);
    MergedOverCut(Chomp(a[0]), tail, p, q, b);
    if n <= |tail| {
      DropBefore(tail, p, q, b, n);
      SameLogical(cut, n, uncut, n);
    } else {
      DropAfter(tail, p, q, b, n - |tail| - 1);
      SameLogical(cut, n + 1, uncut, n);
    }
  }

  /** Two files with the same first logical line and the same lines behind it. */
  lemma SameLogical(x: seq<string>, m: nat, y: seq<string>, n: nat)
    requires x != [] && y != [] && x[0] == y[0] && !IsComment(Chomp(x[0]))
    requires m == Used(Chomp(x[0]), x[1..]) && n == Used(Chomp(y[0]), y[1..])
    requires Merged(Chomp(x[0]), x[1..]) == Merged(Chomp(y[0]), y[1..])
    requires LogicalLines(x[1..][m..]) == LogicalLines(y[1..][n..])
    ensures LogicalLines(x) == LogicalLines(y)
  {
    LogicalStep(x, m);
    LogicalStep(y, n);
  }

  lemma CutAtStart(p: string, q: string, b: seq<string>)
    requires EndsSolid(p) && StartsSolid(q) && !IsComment(p)
    ensures LogicalLines(Cut([], p, q, b)) == LogicalLines(Uncut([], p, q, b))
  {
    var cut, uncut := Cut([], p, q, b), Uncut([], p, q, b);
    var first, whole := Chomp(FoldEnd(p)), Chomp(p + " " + q);
    CutHere(p, q, b);
    StartFold(p, q);
    FoldEndChomped(p);
    CommentShowsEarly(p, "\\");
    ChompWhole(p, q);
    CommentShowsEarly(p, " " + Chomp(q));
    var n := Used(whole, b);
    assert Used(first, cut[1..]) == n + 1 && Merged(first, cut[1..]) == Merged(whole, b);
    LogicalStep(cut, n + 1);
    LogicalStep(uncut, n);
    assert cut[1..][n + 1..] == cut[1..][1..][n..];
  }

  // ------------------------------------------------------------------------------------------
  // Folding a whole file
  // ------------------------------------------------------------------------------------------

  /** The pieces of one line, written on one line. */
  function Whole(pieces: seq<string>): string
    requires pieces != []
  {
    if |pieces| == 1 then pieces[0]
    else Whole(pieces[..|pieces| - 1]) + " " + pieces[|pieces| - 1]
  }

  /** The pieces of one line, each on a line of its own. */
  function Folded(pieces: seq<string>): seq<string>
    requires pieces != []
  {
    if |pieces| == 1 then pieces
    else [FoldEnd(pieces[0])] + Folded(pieces[1..])
  }

  /**
   * Every cut is at a single space between characters that are not white space, and a line that is
   * cut is not a comment.
   */
  predicate WellCut(pieces: seq<string>) {
    && pieces != []
    && (forall i :: 0 <= i < |pieces| - 1 ==> EndsSolid(pieces[i]))
    && (forall i :: 1 <= i < |pieces| ==> StartsSolid(pieces[i]))
    && (|pieces| > 1 ==> !IsComment(pieces[0]))
  }

  lemma {:induction false} WholeEnds(pieces: seq<string>)
    requires pieces != [] && EndsSolid(pieces[0]) && EndsSolid(pieces[|pieces| - 1])
    ensures EndsSolid(Whole(pieces)) && IsComment(Whole(pieces)) == IsComment(pieces[0])
  {
    WholeStarts(pieces);
    var rest := Whole(pieces)[|pieces[0]|..];
    assert Whole(pieces) == pieces[0] + rest;
    CommentShowsEarly(pieces[0], rest);
  }

  lemma {:induction false} WholeStarts(pieces: seq<string>)
    requires pieces != []
    ensures pieces[0] <= Whole(pieces)
  {
    if |pieces| > 1 {
      var front := pieces[..|pieces| - 1];
      WholeStarts(front);
      assert Whole(pieces) == Whole(front) + (" " + pieces[|pieces| - 1]);
    }
  }

  /** The pieces with the last one joined into a physical line that is continued. */
  function Pushed(pieces: seq<string>): seq<string>
    requires pieces != []
  {
    pieces[..|pieces| - 1] + [FoldEnd(pieces[|pieces| - 1])]
  }

  lemma {:induction false} FoldedLast(pieces: seq<string>)
    requires |pieces| > 1
    ensures Folded(pieces) == Folded(Pushed(pieces[..|pieces| - 1])) + [pieces[|pieces| - 1]]
  {
    var front := pieces[..|pieces| - 1];
    if |pieces| > 2 {
      FoldedLast(pieces[1..]);
      assert pieces[1..][..|pieces| - 2] == front[1..];
      assert Pushed(front)[1..] == Pushed(front[1..]) && Pushed(front)[0] == front[0];
    } else {
      assert Pushed(front) == [FoldEnd(pieces[0])];
      assert pieces[1..] == [pieces[1]];
    }
  }

  lemma WholePushed(pieces: seq<string>)
    requires pieces != []
    ensures Whole(Pushed(pieces)) == FoldEnd(Whole(pieces))
  {
    var n := |pieces|;
    if n > 1 {
      assert Pushed(pieces)[..n - 1] == pieces[..n - 1];
      assert Pushed(pieces)[n - 1] == FoldEnd(pieces[n - 1]);
    } else {
      assert Pushed(pieces) == [FoldEnd(pieces[0])];
    }
  }

  lemma PushedWellCut(pieces: seq<string>)
    requires WellCut(pieces) && |pieces| > 1
    ensures WellCut(Pushed(pieces[..|pieces| - 1]))
    ensures EndsSolid(Whole(pieces[..|pieces| - 1])) && !IsComment(Whole(pieces[..|pieces| - 1]))
  {
    var front := pieces[..|pieces| - 1];
    WholeEnds(front);
    var pushed := Pushed(front);
    forall i | 1 <= i < |pushed| ensures StartsSolid(pushed[i]) {
      assert StartsSolid(pieces[i]);
    }
  }

  lemma {:induction false} FoldingOneLine(a: seq<string>, pieces: seq<string>, b: seq<string>)
    requires WellCut(pieces)
    ensures LogicalLines(a + Folded(pieces) + b) == LogicalLines(a + [Whole(pieces)] + b)
    decreases |pieces|
  {
    if |pieces| == 1 {
      assert Folded(pieces) == [Whole(pieces)];
    } else {
      var n := |pieces|;
      var front, last := pieces[..n - 1], pieces[n - 1];
      var pushed := Pushed(front);
      PushedWellCut(pieces);
      CutKeepsLogicalLines(a, Whole(front), last, b);
      FoldingOneLine(a, pushed, [last] + b);
      WholePushed(front);
      FoldedLast(pieces);
      Regroup(a, Folded(pushed), last, b);
      RegroupCut(a, Whole(front), last, b);
    }
  }

  lemma Regroup(a: seq<string>, x: seq<string>, last: string, b: seq<string>)
    ensures a + x + ([last] + b) == a + (x + [last]) + b
  {
  }

  lemma RegroupCut(a: seq<string>, p: string, last: string, b: seq<string>)
    ensures a + [FoldEnd(p)] + ([last] + b) == Cut(a, p, last, b)
  {
  }

  ghost predicate AllWellCut(file: seq<seq<string>>) {
    forall i :: 0 <= i < |file| ==> WellCut(file[i])
  }

  /** The physical lines of a file before and after folding. */
  ghost function WholeFile(file: seq<seq<string>>): seq<string>
    requires AllWellCut(file)
  {
    if file == [] then [] else [Whole(file[0])] + WholeFile(file[1..])
  }

  ghost function FoldedFile(file: seq<seq<string>>): seq<string>
    requires AllWellCut(file)
  {
    if file == [] then [] else Folded(file[0]) + FoldedFile(file[1..])
  }

  lemma {:induction false} FoldingAfter(a: seq<string>, file: seq<seq<string>>)
    requires AllWellCut(file)
    ensures LogicalLines(a + FoldedFile(file)) == LogicalLines(a + WholeFile(file))
    decreases |file|
  {
    if file != [] {
      var pieces := file[0];
      FoldingAfter(a + Folded(pieces), file[1..]);
      FoldingOneLine(a, pieces, WholeFile(file[1..]));
      Assoc(a, Folded(pieces), FoldedFile(file[1..]));
      Assoc(a, [Whole(pieces)], WholeFile(file[1..]));
    }
  }

  /**
   * Folding preserves meaning: cutting lines that are not comments at single spaces between
   * characters that are not white space, any number of times and anywhere in a file, and ending
   * every cut piece with a backslash, leaves the resources the file defines as they were.
   */
  lemma FoldingPreservesResources(file: seq<seq<string>>)
    requires AllWellCut(file)
    ensures Resources(FoldedFile(file)) == Resources(WholeFile(file))
  {
    FoldingAfter([], file);
    assert [] + FoldedFile(file) == FoldedFile(file) && [] + WholeFile(file) == WholeFile(file);
  }
}
