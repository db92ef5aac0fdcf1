/** Loading resource definitions into a session. */
module ResourceLoading {
  import opened Common
  import opened ResourceModel

  datatype Loading = Loaded | Unchanged | Failed

  datatype Loader = Loader(resources: map<string, string>, mtime: real)

  /**
   * One load: `mtime` is the modification time of the file, None when it cannot be determined, and
   * `content` its lines, None when it cannot be read. A file whose time was seen last is not read.
   */
  function Load(l: Loader, mtime: Option<real>, content: Option<seq<string>>): (Loader, Loading) {
    match mtime
    case None => (l, Failed)
    case Some(t) =>
      if t == l.mtime then (l, Unchanged)
      else
        match content
        case None => (l.(mtime := t), Failed)
        case Some(lines) => (Loader(Resources(lines), t), Loaded)
  }

  const NEW := Loader(map[], 0.0)

  /** One call: which file, when it was last modified and what it holds, as far as that can be found out. */
  datatype Attempt = Attempt(path: string, mtime: Option<real>, content: Option<seq<string>>)

  /** The state of a new session after a run of loads. */
  function After(attempts: seq<Attempt>): Loader {
    if attempts == [] then NEW
    else
      var last := attempts[|attempts| - 1];
      Load(After(attempts[..|attempts| - 1]), last.mtime, last.content).0
  }

  /** The time of the last load whose time could be determined, and 0.0 before any. */
  function LastSeen(attempts: seq<Attempt>): real {
    match LastIndex(attempts, (a: Attempt) => a.mtime.Some?)
    case None => 0.0
    case Some(i) => attempts[i].mtime.value
  }

  /** What becomes of a load at the end of a run. */
  function Outcome(attempts: seq<Attempt>, next: Attempt): Loading {
    Load(After(attempts), next.mtime, next.content).1
  }

  lemma {:induction false} RemembersLastSeen(attempts: seq<Attempt>)
    ensures After(attempts).mtime == LastSeen(attempts)
  {
    if attempts != [] {
      RemembersLastSeen(attempts[..|attempts| - 1]);
      LastIndexStep(attempts, (a: Attempt) => a.mtime.Some?);
    }
  }

  /**
   * In every run of loads, of any files: a load is skipped exactly when its time is that of the last
   * load whose time could be determined, whatever file that was and whether or not it could be read;
   * otherwise it takes effect exactly when its file can be read.
   */
  lemma EveryLoadExactly(attempts: seq<Attempt>, next: Attempt)
    ensures Outcome(attempts, next) == Unchanged <==> next.mtime == Some(LastSeen(attempts))
    ensures Outcome(attempts, next) == Loaded <==>
      next.mtime.Some? && next.mtime.value != LastSeen(attempts) && next.content.Some?
  {
    RemembersLastSeen(attempts);
  }

  /** The load at position `i` of a run took effect. */
  predicate TookEffect(attempts: seq<Attempt>, i: nat)
    requires i < |attempts|
  {
    Outcome(attempts[..i], attempts[i]) == Loaded
  }

  lemma AfterStep(attempts: seq<Attempt>, n: nat)
    requires n < |attempts|
    ensures After(attempts[..n + 1]) == Load(After(attempts[..n]), attempts[n].mtime, attempts[n].content).0
  {
    assert attempts[..n + 1][..n] == attempts[..n];
  }

  /** After a load that took effect the resources are those of its file, until another one does. */
  lemma {:induction false} LastLoadCounts(attempts: seq<Attempt>, i: nat, n: nat)
    requires i < n <= |attempts| && TookEffect(attempts, i)
    requires forall j: nat :: i < j < n ==> !TookEffect(attempts, j)
    ensures attempts[i].content.Some? && After(attempts[..n]).resources == Resources(attempts[i].content.value)
  {
    var last := n - 1;
    AfterStep(attempts, last);
    if i < last {
      LastLoadCounts(attempts, i, last);
      assert !TookEffect(attempts, last);
    }
  }

  /** Until a load takes effect there are none. */
  lemma {:induction false} NoLoadNoResources(attempts: seq<Attempt>, n: nat)
    requires n <= |attempts| && forall j: nat :: j < n ==> !TookEffect(attempts, j)
    ensures After(attempts[..n]).resources == map[]
  {
    if n > 0 {
      var last := n - 1;
      AfterStep(attempts, last);
      NoLoadNoResources(attempts, last);
      assert !TookEffect(attempts, last);
    }
  }

  /** A new session loads its first file exactly when the file can be read and its time is not 0.0. */
  lemma FirstLoadExactly(t: real, lines: seq<string>)
    ensures var (l, r) := Load(NEW, Some(t), Some(lines));
      && (r == Loaded <==> t != 0.0)
      && l.resources == if t == 0.0 then map[] else Resources(lines)
  {
  }

  /**
   * The time is remembered before the file is read. So after a read that failed, and whatever was
   * loaded since, a load of the same file or another one takes effect exactly when its time is not
   * the one seen last.
   */
  lemma RetryExactly(before: seq<Attempt>, path: string, t: real, since: seq<Attempt>, path': string, t': real, lines: seq<string>)
    requires t != LastSeen(before)
    ensures var failed := Attempt(path, Some(t), None); var again := Attempt(path', Some(t'), Some(lines));
      && Outcome(before, failed) == Failed
      && (Outcome(before + [failed] + since, again) == Loaded <==>
            t' != if (exists a <- since :: a.mtime.Some?) then LastSeen(since) else t)
  {
    var failed := Attempt(path, Some(t), None);
    RemembersLastSeen(before);
    EveryLoadExactly(before + [failed] + since, Attempt(path', Some(t'), Some(lines)));
    LastSeenBehind(before + [failed], since);
    LastIndexStep(before + [failed], (a: Attempt) => a.mtime.Some?);
  }

  lemma {:induction false} LastSeenBehind(a: seq<Attempt>, b: seq<Attempt>)
    ensures LastSeen(a + b) == if (exists x <- b :: x.mtime.Some?) then LastSeen(b) else LastSeen(a)
  {
    if b == [] {
      assert a + b == a;
    } else {
      var front, last := b[..|b| - 1], b[|b| - 1];
      assert (a + b)[..|a + b| - 1] == a + front;
      LastSeenBehind(a, front);
      LastSeenStep(a + b);
      LastSeenStep(b);
      assert b == front + [last];
      assert (exists x <- b :: x.mtime.Some?) <==> last.mtime.Some? || exists x <- front :: x.mtime.Some?;
    }
  }

  lemma LastSeenStep(attempts: seq<Attempt>)
    requires attempts != []
    ensures var last := attempts[|attempts| - 1];
      LastSeen(attempts) == if last.mtime.Some? then last.mtime.value else LastSeen(attempts[..|attempts| - 1])
  {
    LastIndexStep(attempts, (a: Attempt) => a.mtime.Some?);
  }

  /** Another file with the time of the last one is skipped, whatever it holds. */
  lemma SameTimeIsSkipped(attempts: seq<Attempt>, path: string, t: real, lines: seq<string>, path': string, lines': seq<string>)
    ensures var first, second := Attempt(path, Some(t), Some(lines)), Attempt(path', Some(t), Some(lines'));
      Outcome(attempts + [first], second) == Unchanged
  {
    var first := Attempt(path, Some(t), Some(lines));
    EveryLoadExactly(attempts + [first], Attempt(path', Some(t), Some(lines')));
    LastSeenStep(attempts + [first]);
  }

  class AsyncSession {
    var resources: map<string, string>
    var resourceMtime: real

    function View(): Loader
      reads this
    {
      Loader(resources, resourceMtime)
    }

    constructor ()
      ensures View() == NEW
    {
      resources, resourceMtime := map[], 0.0;
    }

    method LoadResourceDefinitions(mtime: Option<real>, content: Option<seq<string>>) returns (r: Loading)
      modifies this
      ensures (View(), r) == Load(old(View()), mtime, content)
    {
      if mtime.None? {
        return Failed;
      }
      if resourceMtime == mtime.value {
        return Unchanged;
      }
      resourceMtime := mtime.value;
      if content.None? {
        return Failed;
      }
      ParseResources(content.value);
      return Loaded;
    }

    method DefineLine(line: string)
      modifies this`resources
      ensures resources == Define(old(resources), Definition(line))
    {
      var parts := SplitColon(line);
      if parts.None? {
        return;
      }
      var key, value := Strip(parts.value.0), Strip(parts.value.1);
      if PREFIX <= key {
        resources := resources[key[6..] := value];
      }
    }

    /** Read the physical lines once, joining continued ones, and collect the definitions. */
    method ParseResources(lines: seq<string>)
      modifies this`resources
      ensures resources == Resources(lines)
    {
      resources := map[];
      ghost var logical: seq<string> := [];
      var i := 0;
      while i < |lines|
        invariant 0 <= i <= |lines|
        invariant logical + LogicalLines(lines[i..]) == LogicalLines(lines)
        invariant resources == Updated(Definitions(logical))
      {
        ghost var rest := lines[i..];
        var line := Chomp(lines[i]);
        i := i + 1;
        assert rest[1..] == lines[i..];
        if IsComment(line) {
          LogicalSkip(rest);
          continue;
        }
        LogicalStep(rest, Used(line, lines[i..]));
        ghost var tail := lines[i..];
        line, i := JoinContinued(lines, line, i);
        assert tail[Used(Chomp(rest[0]), tail)..] == lines[i..];
        Assoc(logical, [line], LogicalLines(lines[i..]));
        DefinitionsSnoc(logical, line);
        logical := logical + [line];
        DefineLine(line);
      }
      assert lines[i..] == [];
      assert logical + [] == logical;
    }
  }

  /** The inner loop: join a continued line with the lines from position `from` on. */
  method JoinContinued(lines: seq<string>, first: string, from: nat) returns (line: string, i: nat)
    requires from <= |lines|
    ensures line == Merged(first, lines[from..])
    ensures from <= i == from + Used(first, lines[from..]) <= |lines|
  {
    line, i := first, from;
    while Continued(line) && i < |lines|
      invariant from <= i <= |lines|
      invariant Merged(line, lines[i..]) == Merged(first, lines[from..])
      invariant i + Used(line, lines[i..]) == from + Used(first, lines[from..])
    {
      MergedStep(line, lines[i..]);
      assert lines[i..][1..] == lines[i + 1..];
      line := Join(line, lines[i]);
      i := i + 1;
    }
  }

  lemma DefinitionsSnoc(logical: seq<string>, line: string)
    ensures Definitions(logical + [line]) == Definitions(logical) + [Definition(line)]
    ensures Updated(Definitions(logical + [line])) == Define(Updated(Definitions(logical)), Definition(line))
  {
    assert (Definitions(logical) + [Definition(line)])[..|logical|] == Definitions(logical);
  }
}
