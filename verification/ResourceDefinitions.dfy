/** What the lines of a resource file mean, character by character. */
module ResourceDefinitions {
  import opened Common
  import opened ResourceModel

  // ------------------------------------------------------------------------------------------
  // White space
  // ------------------------------------------------------------------------------------------

  /** Among ASCII characters, white space is the six usual characters and four separators. */
  lemma SpaceExactly(c: char)
    requires c < 128 as char
    ensures IsSpace(c) <==> c in {' ', '\t', '\n', '\r', 11 as char, 12 as char, 28 as char, 29 as char, 30 as char, 31 as char}
  {
  }

  predicate Blank(s: string) {
    forall i :: 0 <= i < |s| ==> IsSpace(s[i])
  }

  /** `s` is `x` with white space around it, and `x` neither begins nor ends with any. */
  predicate Around(s: string, a: string, x: string, b: string) {
    s == a + x + b && Blank(a) && Blank(b) && (x == [] || (StartsSolid(x) && EndsSolid(x)))
  }

  /** `x` is `s` without the white space around it. */
  ghost predicate Trimmed(s: string, x: string) {
    exists a, b :: Around(s, a, x, b)
  }

  lemma {:induction false} LStripBlank(a: string, x: string)
    requires Blank(a) && (x == [] || StartsSolid(x))
    ensures LStrip(a + x) == x
    decreases |a|
  {
    if a == [] {
      assert a + x == x;
    } else {
      assert (a + x)[0] == a[0] && (a + x)[1..] == a[1..] + x;
      LStripBlank(a[1..], x);
    }
  }

  lemma {:induction false} RStripBlank(x: string, b: string)
    requires Blank(b) && (x == [] || EndsSolid(x))
    ensures RStrip(x + b) == x
    decreases |b|
  {
    if b == [] {
      assert x + b == x;
    } else {
      var last := |x + b| - 1;
      assert (x + b)[last] == b[|b| - 1] && (x + b)[..last] == x + b[..|b| - 1];
      RStripBlank(x, b[..|b| - 1]);
    }
  }

  lemma {:induction false} LStripParts(s: string) returns (a: string)
    ensures s == a + LStrip(s) && Blank(a)
    decreases |s|
  {
    if s != [] && IsSpace(s[0]) {
      var rest := LStripParts(s[1..]);
      a := [s[0]] + rest;
      assert s == [s[0]] + s[1..];
    } else {
      a := [];
    }
  }

  lemma {:induction false} RStripParts(s: string) returns (b: string)
    ensures s == RStrip(s) + b && Blank(b)
    decreases |s|
  {
    if s != [] && IsSpace(s[|s| - 1]) {
      var rest := RStripParts(s[..|s| - 1]);
      b := rest + [s[|s| - 1]];
      assert s == s[..|s| - 1] + [s[|s| - 1]];
    } else {
      b := [];
    }
  }

  /** Stripping takes the white space off both ends and nothing else. */
  lemma StripExactly(s: string, x: string)
    ensures Strip(s) == x <==> Trimmed(s, x)
  {
    if Trimmed(s, x) {
      var a, b :| Around(s, a, x, b);
      StripAround(s, a, x, b);
    }
    if Strip(s) == x {
      StripIsAround(s);
    }
  }

  lemma StripAround(s: string, a: string, x: string, b: string)
    requires Around(s, a, x, b)
    ensures Strip(s) == x
  {
    if x == [] {
      assert s == (a + b) + [];
      LStripBlank(a + b, []);
    } else {
      assert s == a + (x + b);
      LStripBlank(a, x + b);
      RStripBlank(x, b);
    }
  }

  lemma StripIsAround(s: string)
    ensures Trimmed(s, Strip(s))
  {
    var a := LStripParts(s);
    var b := RStripParts(LStrip(s));
    var x := Strip(s);
    if x != [] { assert x[0] == LStrip(s)[0]; }
    assert s == a + x + b;
    assert Around(s, a, x, b);
  }

  // ------------------------------------------------------------------------------------------
  // Definitions
  // ------------------------------------------------------------------------------------------

  /**
   * The line defines `name` as `value`: before its first colon it has "s3270." and the name, behind
   * it the value, each with any white space around it.
   */
  ghost predicate Defines(line: string, name: string, value: string) {
    exists a, b :: DefinesBy(line, a, b, name, value)
  }

  ghost predicate DefinesBy(line: string, a: string, b: string, name: string, value: string) {
    line == a + ":" + b && ':' !in a && Trimmed(a, "s3270." + name) && Trimmed(b, value)
  }

  lemma {:induction false} FirstColon(a: string, b: string)
    requires ':' !in a
    ensures SplitColon(a + ":" + b) == Some((a, b))
    decreases |a|
  {
    var line := a + ":" + b;
    if a == [] {
      assert line[0] == ':' && line[1..] == b;
    } else {
      assert a[0] in a && line[0] == a[0];
      assert line[1..] == a[1..] + ":" + b;
      FirstColon(a[1..], b);
      assert [a[0]] + a[1..] == a;
    }
  }

  lemma DefinitionExactly(line: string, name: string, value: string)
    ensures Definition(line) == Some((name, value)) <==> Defines(line, name, value)
  {
    if Definition(line) == Some((name, value)) {
      var (a, b) := SplitColon(line).value;
      StripExactly(a, Strip(a));
      StripExactly(b, Strip(b));
      assert Strip(a) == "s3270." + name;
      assert DefinesBy(line, a, b, name, value);
    }
    if Defines(line, name, value) {
      var a, b :| DefinesBy(line, a, b, name, value);
      FirstColon(a, b);
      StripExactly(a, "s3270." + name);
      StripExactly(b, value);
      assert ("s3270." + name)[6..] == name;
    }
  }

  /** A line defines nothing when no name and value fit it: it has no colon, or not the prefix before it. */
  lemma NoDefinitionExactly(line: string)
    ensures Definition(line) == None <==> forall name, value :: !Defines(line, name, value)
    ensures ':' !in line ==> Definition(line) == None
    ensures forall a, b, key :: line == a + ":" + b && ':' !in a && Trimmed(a, key) ==>
      (Definition(line).Some? <==> "s3270." <= key)
  {
    forall name, value ensures Definition(line) == Some((name, value)) <==> Defines(line, name, value) {
      DefinitionExactly(line, name, value);
    }
    if Definition(line).Some? {
      assert Defines(line, Definition(line).value.0, Definition(line).value.1);
    }
    forall a, b, key | line == a + ":" + b && ':' !in a && Trimmed(a, key)
      ensures Definition(line).Some? <==> "s3270." <= key
    {
      FirstColon(a, b);
      StripExactly(a, key);
    }
  }

  /** The logical line at `i` defines `name` as `value`, and no later one defines that name. */
  ghost predicate LastFor(logical: seq<string>, i: nat, name: string, value: string) {
    i < |logical| && Defines(logical[i], name, value) && NoneFrom(logical, i + 1, name)
  }

  ghost predicate NoneFrom(logical: seq<string>, from: nat, name: string) {
    forall j :: from <= j < |logical| ==> !DefinesAny(logical[j], name)
  }

  /** The last logical line that defines `name` defines it as `value`. */
  ghost predicate DefinedLast(logical: seq<string>, name: string, value: string) {
    exists i: nat :: LastFor(logical, i, name, value)
  }

  ghost predicate DefinesAny(line: string, name: string) {
    exists value :: Defines(line, name, value)
  }

  lemma DefinesAnyExactly(line: string, name: string)
    ensures DefinesAny(line, name) <==> Sets(Definition(line), name)
  {
    if DefinesAny(line, name) {
      var value :| Defines(line, name, value);
      DefinitionExactly(line, name, value);
    }
    if Sets(Definition(line), name) {
      DefinitionExactly(line, name, Definition(line).value.1);
    }
  }

  /**
   * The resources of a file: a name has a value exactly when the last logical line that defines the
   * name defines it as that value. No other name is a resource.
   */
  lemma ResourcesExactly(lines: seq<string>, name: string, value: string)
    ensures (name in Resources(lines) && Resources(lines)[name] == value) <==> DefinedLast(LogicalLines(lines), name, value)
  {
    NamesExactly(LogicalLines(lines), name, value);
  }

  predicate Names(logical: seq<string>, name: string, value: string) {
    var resources := Updated(Definitions(logical)); name in resources && resources[name] == value
  }

  /** The last line of a file changes the entry of the name it defines, and no other. */
  lemma LastLineDefines(logical: seq<string>, name: string, value: string)
    requires logical != []
    ensures var front, last := logical[..|logical| - 1], logical[|logical| - 1];
      Names(logical, name, value) <==>
        Defines(last, name, value) || (!DefinesAny(last, name) && Names(front, name, value))
  {
    var front, last := logical[..|logical| - 1], logical[|logical| - 1];
    assert Definitions(logical)[..|logical| - 1] == Definitions(front);
    DefinitionExactly(last, name, value);
    DefinesAnyExactly(last, name);
    assert Defines(last, name, value) ==> DefinesAny(last, name);
  }

  lemma LastLineIsLast(logical: seq<string>, name: string, value: string)
    requires logical != []
    ensures var front, last := logical[..|logical| - 1], logical[|logical| - 1];
      DefinedLast(logical, name, value) <==>
        Defines(last, name, value) || (!DefinesAny(last, name) && DefinedLast(front, name, value))
  {
    var at := |logical| - 1;
    var front, last := logical[..at], logical[at];
    if Defines(last, name, value) {
      assert LastFor(logical, at, name, value);
    }
    if !DefinesAny(last, name) && DefinedLast(front, name, value) {
      var i: nat :| LastFor(front, i, name, value);
      LaterLineKeeps(logical, front, i, name, value);
    }
    if DefinedLast(logical, name, value) && !Defines(last, name, value) {
      var i: nat :| LastFor(logical, i, name, value);
      EarlierLineKeeps(logical, front, i, name, value);
    }
  }

  lemma LaterLineKeeps(logical: seq<string>, front: seq<string>, i: nat, name: string, value: string)
    requires logical != [] && front == logical[..|logical| - 1]
    requires LastFor(front, i, name, value) && !DefinesAny(logical[|logical| - 1], name)
    ensures LastFor(logical, i, name, value)
  {
  }

  lemma EarlierLineKeeps(logical: seq<string>, front: seq<string>, i: nat, name: string, value: string)
    requires logical != [] && front == logical[..|logical| - 1]
    requires LastFor(logical, i, name, value) && !Defines(logical[|logical| - 1], name, value)
    ensures LastFor(front, i, name, value) && !DefinesAny(logical[|logical| - 1], name)
  {
  }

  lemma {:induction false} NamesExactly(logical: seq<string>, name: string, value: string)
    ensures Names(logical, name, value) <==> DefinedLast(logical, name, value)
    decreases |logical|
  {
    if logical != [] {
      NamesExactly(logical[..|logical| - 1], name, value);
      LastLineDefines(logical, name, value);
      LastLineIsLast(logical, name, value);
    }
  }

  // ------------------------------------------------------------------------------------------
  // Comments and continuations
  // ------------------------------------------------------------------------------------------

  /** A comment is a line whose first character that is not white space is a hash or an exclamation mark. */
  lemma CommentExactly(line: string)
    ensures IsComment(line) <==> exists i :: CommentAt(line, i)
  {
    var a := LStripParts(line);
    var x := LStrip(line);
    if x == [] {
      assert line == a;
    } else {
      CommentIsVisible(line);
      assert line[|a|] == x[0];
      assert CommentAt(line, |a|) <==> x[0] == '#' || x[0] == '!';
      forall i | CommentAt(line, i) ensures i == |a| {
        assert !(|a| < i) && !(i < |a|);
      }
    }
  }

  predicate CommentAt(line: string, i: int) {
    0 <= i < |line| && Blank(line[..i]) && (line[i] == '#' || line[i] == '!')
  }

  /**
   * A continued line is joined to the next one by a single space: its backslash and the white space
   * before it are dropped, and so are the line end and the leading white space of the next line.
   */
  lemma JoinExactly(u: string, blank: string, indent: string, v: string, ending: string)
    requires (u == [] || EndsSolid(u)) && Blank(blank) && Blank(indent) && (v == [] || StartsSolid(v))
    requires forall i :: 0 <= i < |ending| ==> ending[i] == '\r' || ending[i] == '\n'
    requires indent + v == [] || (indent + v)[|indent + v| - 1] !in {'\r', '\n'}
    ensures Continued(u + blank + "\\")
    ensures Join(u + blank + "\\", indent + v + ending) == u + " " + v
  {
    var line := u + blank + "\\";
    assert line[..|line| - 1] == u + blank && line[|line| - 1] == '\\';
    RStripBlank(u, blank);
    ChompEnding(indent + v, ending);
    LStripBlank(indent, v);
  }

  lemma {:induction false} ChompEnding(text: string, ending: string)
    requires forall i :: 0 <= i < |ending| ==> ending[i] == '\r' || ending[i] == '\n'
    requires text == [] || text[|text| - 1] !in {'\r', '\n'}
    ensures Chomp(text + ending) == text
    decreases |ending|
  {
    if ending == [] {
      assert text + ending == text;
    } else {
      var last := |text + ending| - 1;
      assert (text + ending)[last] == ending[|ending| - 1] && (text + ending)[..last] == text + ending[..|ending| - 1];
      ChompEnding(text, ending[..|ending| - 1]);
    }
  }

  /**
   * What the first physical line of a file amounts to. A comment is nothing, and a backslash at its end
   * continues nothing. Another line takes in the lines behind it as long as it ends with a backslash.
   */
  lemma FirstLineExactly(first: string, rest: seq<string>)
    ensures var lines := [first] + rest; var line := Chomp(first);
      && ((exists i :: CommentAt(line, i)) ==> LogicalLines(lines) == LogicalLines(rest))
      && (!(exists i :: CommentAt(line, i)) ==>
           var n := Used(line, rest); LogicalLines(lines) == [Merged(line, rest)] + LogicalLines(rest[n..]))
  {
    var lines := [first] + rest;
    assert lines[1..] == rest;
    CommentExactly(Chomp(first));
    if IsComment(Chomp(first)) { LogicalSkip(lines); } else { LogicalStep(lines, Used(Chomp(first), rest)); }
  }

  /** A line that ends with a backslash takes in the next one, if there is one; any other line is complete. */
  lemma TakesInExactly(line: string, rest: seq<string>)
    ensures line == [] || line[|line| - 1] != '\\' || rest == [] ==> Merged(line, rest) == line && Used(line, rest) == 0
    ensures line != [] && line[|line| - 1] == '\\' && rest != [] ==>
      var joined := RStrip(line[..|line| - 1]) + " " + LStrip(Chomp(rest[0]));
      Merged(line, rest) == Merged(joined, rest[1..]) && Used(line, rest) == 1 + Used(joined, rest[1..])
  {
  }
}
