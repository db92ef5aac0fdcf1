/**
 * What holds in every interleaving of `send`, `receive` and incoming IND$FILE messages.
 */
module IndFileRuns {
  import opened Common
  import opened IndFileMessages
  import opened IndFileWorld

  /** The state after a run. */
  ghost function Run(w: World, es: seq<Event>): (w': World)
    requires Inv(w)
    ensures Inv(w')
    decreases |es|
  {
    if es == [] then w
    else
      StepKeepsInv(w, es[0]);
      Run(Step(w, es[0]), es[1..])
  }

  lemma {:induction false} RunAppend(w: World, a: seq<Event>, b: seq<Event>)
    requires Inv(w)
    ensures Run(w, a + b) == Run(Run(w, a), b)
    decreases |a|
  {
    if a == [] {
      assert a + b == b;
    } else {
      assert (a + b)[1..] == a[1..] + b;
      StepKeepsInv(w, a[0]);
      RunAppend(Step(w, a[0]), a[1..], b);
    }
  }

  // ------------------------------------------------------------------------------------------
  // Safety
  // ------------------------------------------------------------------------------------------

  /** A finished transfer is never touched again, in any continuation of any run. */
  lemma {:induction false} FinishedStaysFinished(w: World, es: seq<Event>)
    requires Inv(w)
    ensures Settled(w, Run(w, es))
    decreases |es|
  {
    if es != [] {
      StepKeepsInv(w, es[0]);
      FinishedStaysFinished(Step(w, es[0]), es[1..]);
      SettledTransitive(w, Step(w, es[0]), Run(w, es));
    }
  }

  /**
   * At every suspension point of every run the slot is empty or holds an unfinished transfer, every
   * open handle belongs to the transfer in the slot, and a transfer whose call has ended is finished.
   */
  lemma EveryRunIsSafe(files: map<string, seq<byte>>, es: seq<Event>)
    ensures var w := Run(Start(files), es);
      && (w.slot.Some? ==> w.slot.value < |w.transfers| && w.transfers[w.slot.value].isActive)
      && (forall i :: 0 <= i < |w.transfers| && w.transfers[i].handleOpen ==> w.slot == Some(i))
      && (forall t :: 0 <= t < |w.tasks| && Exited(w.tasks[t]) && w.tasks[t].owner.Some? ==>
            var i := w.tasks[t].owner.value;
            i < |w.transfers| && !w.transfers[i].isActive && !w.transfers[i].handleOpen)
  {
    var w := Run(Start(files), es);
    forall t | 0 <= t < |w.tasks| && Exited(w.tasks[t]) && w.tasks[t].owner.Some?
      ensures var i := w.tasks[t].owner.value;
        i < |w.transfers| && !w.transfers[i].isActive && !w.transfers[i].handleOpen
    {
      assert TaskOk(w, w.tasks[t]);
    }
  }

  predicate Exited(task: Task) {
    task.pc.Returned? || task.pc.Raised?
  }

  // ------------------------------------------------------------------------------------------
  // What a sender hands over
  // ------------------------------------------------------------------------------------------

  /** The messages one call handed to the session, in order. */
  function SentBy(wire: seq<(nat, Message)>, t: nat): seq<Message> {
    if wire == [] then []
    else
      var last := wire[|wire| - 1];
      SentBy(wire[..|wire| - 1], t) + if last.0 == t then [last.1] else []
  }

  lemma SentBySnoc(wire: seq<(nat, Message)>, t: nat, u: nat, m: Message)
    ensures SentBy(wire + [(u, m)], t) == SentBy(wire, t) + if u == t then [m] else []
  {
    assert (wire + [(u, m)])[..|wire|] == wire;
  }

  lemma {:induction false} SentByNewcomer(wire: seq<(nat, Message)>, t: nat)
    requires forall p <- wire :: p.0 < t
    ensures SentBy(wire, t) == []
  {
    if wire != [] {
      assert wire[|wire| - 1] in wire;
      SentByNewcomer(wire[..|wire| - 1], t);
    }
  }

  /** What a sender may hand over as far as it has got. */
  function Bound(task: Task): seq<Message> {
    match task.content
    case None => UploadRequests(task.remoteName)
    case Some(c) => Plan(task.remoteName, c)
  }

  /** `sent` is a prefix of `bound`, followed by at most one error message. */
  ghost predicate Interrupted(bound: seq<Message>, sent: seq<Message>) {
    || sent <= bound
    || (sent != [] && sent[..|sent| - 1] <= bound && sent[|sent| - 1].subCommand == IND_FILE_ERROR)
  }

  ghost predicate Progress(task: Task, sent: seq<Message>) {
    if task.direction == Upload then
      match task.pc
      case AwaitUploadSent => Asked(task) && task.content.None? && sent == UploadRequests(task.remoteName)
      case AwaitDataSent(rest) =>
        Asked(task) && task.content.Some? && sent + DataMessages(rest) + [CreateEof()] == Bound(task)
      case AwaitEofSent => Asked(task) && task.content.Some? && sent == Bound(task)
      case Returned => Asked(task) && task.content.Some? && sent == Bound(task)
      case AwaitErrorSent => Interrupted(Bound(task), sent)
      case Raised => Interrupted(Bound(task), sent)
      case _ => false
    else
      match task.pc
      case AwaitDownloadSent => IsDownloadRequest(task, sent)
      case AwaitCompletion(_) => IsDownloadRequest(task, sent)
      case Returned => IsDownloadRequest(task, sent)
      case Raised => sent == [] || IsDownloadRequest(task, sent)
      case _ => false
  }

  /** A call gets past its request only with a name that can be encoded. */
  ghost predicate Asked(task: Task) {
    IsAscii(task.remoteName)
  }

  ghost predicate IsDownloadRequest(task: Task, sent: seq<Message>) {
    CreateDownloadRequest(task.remoteName).Some? && sent == [CreateDownloadRequest(task.remoteName).value]
  }

  ghost predicate ProgressInv(w: World) {
    && (forall p <- w.wire :: p.0 < |w.tasks|)
    && (forall t :: 0 <= t < |w.tasks| ==> Progress(w.tasks[t], SentBy(w.wire, t)))
  }

  /** Call `t` has handed over one more message. */
  ghost predicate HandedOne(before: seq<(nat, Message)>, after: seq<(nat, Message)>, t: nat) {
    |after| == |before| + 1 && after == before + [(t, after[|before|].1)]
  }

  /** A step that changes at most one call and hands over at most one message, on its behalf. */
  lemma OneTaskMoves(w: World, w': World, t: nat)
    requires ProgressInv(w) && t < |w'.tasks|
    requires if t < |w.tasks| then w'.tasks == w.tasks[t := w'.tasks[t]] else w'.tasks == w.tasks + [w'.tasks[t]]
    requires w'.wire == w.wire || HandedOne(w.wire, w'.wire, t)
    requires Progress(w'.tasks[t], SentBy(w'.wire, t))
    ensures ProgressInv(w')
  {
    forall u | 0 <= u < |w'.tasks| && u != t
      ensures SentBy(w'.wire, u) == SentBy(w.wire, u)
    {
      if w'.wire != w.wire {
        SentBySnoc(w.wire, u, t, w'.wire[|w.wire|].1);
      }
    }
  }

  lemma ErrorInterrupts(bound: seq<Message>, sent: seq<Message>, m: Message)
    requires sent <= bound && m.subCommand == IND_FILE_ERROR
    ensures Interrupted(bound, sent + [m])
  {
    assert (sent + [m])[..|sent|] == sent;
  }

  lemma FailSendMoves(w: World, t: nat, text: string)
    requires SlotInRange(w) && t < |w.tasks|
    ensures var w' := FailSend(w, t, text);
      && w'.tasks == w.tasks[t := w.tasks[t].(pc := w'.tasks[t].pc)]
      && (w'.tasks[t].pc.AwaitErrorSent? || w'.tasks[t].pc.Raised?)
      && (w'.wire == w.wire
          || (HandedOne(w.wire, w'.wire, t) && w'.wire[|w.wire|].1.subCommand == IND_FILE_ERROR))
  {
  }

  lemma FailSendProgress(w: World, w0: World, t: nat, text: string)
    requires SlotInRange(w) && ProgressInv(w0) && t < |w.tasks| && w.wire == w0.wire
    requires if t < |w0.tasks| then w.tasks == w0.tasks else w.tasks == w0.tasks + [w.tasks[t]]
    requires w.tasks[t].direction == Upload && SentBy(w.wire, t) <= Bound(w.tasks[t])
    ensures ProgressInv(FailSend(w, t, text))
  {
    var w' := FailSend(w, t, text);
    FailSendMoves(w, t, text);
    if w'.wire != w.wire {
      var m := w'.wire[|w.wire|].1;
      SentBySnoc(w.wire, t, t, m);
      ErrorInterrupts(Bound(w.tasks[t]), SentBy(w.wire, t), m);
    }
    assert Bound(w'.tasks[t]) == Bound(w.tasks[t]);
    OneTaskMoves(w0, w', t);
  }

  lemma SendNextProgress(w: World, w0: World, t: nat, rest: seq<byte>)
    requires ProgressInv(w0) && t < |w0.tasks| == |w.tasks| && w.wire == w0.wire
    requires w.tasks == w0.tasks[t := w.tasks[t]]
    requires w.tasks[t].direction == Upload && w.tasks[t].content.Some? && Asked(w.tasks[t])
    requires SentBy(w.wire, t) + DataMessages(rest) + [CreateEof()] == Bound(w.tasks[t])
    ensures ProgressInv(SendNext(w, t, rest))
  {
    var w' := SendNext(w, t, rest);
    var m := if rest == [] then CreateEof() else CreateData(FirstChunk(rest));
    NextOfPlan(SentBy(w.wire, t), rest);
    SentBySnoc(w.wire, t, t, m);
    assert w'.wire == w0.wire + [(t, m)];
    assert SentBy(w'.wire, t) == SentBy(w.wire, t) + [m];
    assert Bound(w'.tasks[t]) == Bound(w.tasks[t]);
    assert w'.tasks == w0.tasks[t := w'.tasks[t]];
    OneTaskMoves(w0, w', t);
  }

  lemma BeginSendProgress(w: World, localPath: string, remoteName: string)
    requires Inv(w) && ProgressInv(w)
    ensures ProgressInv(BeginSendStep(w, localPath, remoteName))
  {
    var t := |w.tasks|;
    var w' := BeginSendStep(w, localPath, remoteName);
    SentByNewcomer(w.wire, t);
    if w.slot.Some? || localPath !in w.files {
      OneTaskMoves(w, w', t);
    } else if CreateUploadRequest(remoteName).None? {
      var x := Transfer(Upload, remoteName, localPath, false, true, 0);
      var task := Task(Upload, remoteName, localPath, None, None, AwaitUploadSent);
      FailSendProgress(Create(w, x, task), w, t, CODEC_TEXT);
    } else {
      var m := CreateUploadRequest(remoteName).value;
      SentBySnoc(w.wire, t, t, m);
      assert w'.wire == w.wire + [(t, m)];
      assert Progress(w'.tasks[t], [m]);
      OneTaskMoves(w, w', t);
    }
  }

  lemma BeginReceiveProgress(w: World, remoteName: string, localPath: string, opens: bool)
    requires Inv(w) && ProgressInv(w)
    ensures ProgressInv(BeginReceiveStep(w, remoteName, localPath, opens))
  {
    var t := |w.tasks|;
    var w' := BeginReceiveStep(w, remoteName, localPath, opens);
    SentByNewcomer(w.wire, t);
    if w.slot.None? && opens && CreateDownloadRequest(remoteName).Some? {
      SentBySnoc(w.wire, t, t, CreateDownloadRequest(remoteName).value);
    }
    OneTaskMoves(w, w', t);
  }

  lemma OpeningProgress(w: World, t: nat, content: seq<byte>)
    requires ProgressInv(w) && t < |w.tasks| && w.tasks[t].direction == Upload && w.tasks[t].pc.AwaitUploadSent?
    ensures ProgressInv(SendNext(w.(tasks := w.tasks[t := w.tasks[t].(content := Some(content))]), t, content))
  {
    assert Progress(w.tasks[t], SentBy(w.wire, t));
    SendNextProgress(w.(tasks := w.tasks[t := w.tasks[t].(content := Some(content))]), w, t, content);
  }

  lemma ResumeProgress(w: World, t: nat, fault: Option<string>)
    requires Inv(w) && ProgressInv(w) && t < |w.tasks|
    ensures ProgressInv(ResumeStep(w, t, fault))
  {
    var task := w.tasks[t];
    var sent := SentBy(w.wire, t);
    assert Progress(task, sent);
    match task.pc
    case AwaitUploadSent =>
      if fault.Some? {
        FailSendProgress(w, w, t, fault.value);
      } else if task.localPath !in w.files {
        FailSendProgress(w, w, t, MissingFileText(task.localPath));
      } else {
        OpeningProgress(w, t, w.files[task.localPath]);
      }
    case AwaitDataSent(rest) =>
      if fault.Some? {
        assert sent <= sent + (DataMessages(rest) + [CreateEof()]) == Bound(task);
        FailSendProgress(w, w, t, fault.value);
      } else {
        SendNextProgress(w, w, t, rest);
      }
    case AwaitEofSent =>
      if fault.Some? { FailSendProgress(w, w, t, fault.value); } else { OneTaskMoves(w, ResumeStep(w, t, fault), t); }
    case _ => OneTaskMoves(w, ResumeStep(w, t, fault), t);
  }

  lemma CompletionProgress(w: World, e: Event, t: nat)
    requires Inv(w) && ProgressInv(w) && t < |w.tasks| && (e == Wake(t) || e == Expire(t))
    ensures ProgressInv(Step(w, e))
  {
    var w' := Step(w, e);
    assert Progress(w.tasks[t], SentBy(w.wire, t));
    assert w'.wire == w.wire && w'.tasks == w.tasks[t := w'.tasks[t]];
    OneTaskMoves(w, w', t);
  }

  lemma StepProgress(w: World, e: Event)
    requires Inv(w) && ProgressInv(w)
    ensures ProgressInv(Step(w, e))
  {
    match e
    case BeginSend(path, name) => BeginSendProgress(w, path, name);
    case BeginReceive(name, path, opens) => BeginReceiveProgress(w, name, path, opens);
    case Resume(t, fault) => if t < |w.tasks| { ResumeProgress(w, t, fault); }
    case Wake(t) => if t < |w.tasks| { CompletionProgress(w, e, t); }
    case Expire(t) => if t < |w.tasks| { CompletionProgress(w, e, t); }
    case Incoming(m, writeFails) =>
  }

  lemma {:induction false} RunProgress(w: World, es: seq<Event>)
    requires Inv(w) && ProgressInv(w)
    ensures ProgressInv(Run(w, es))
    decreases |es|
  {
    if es != [] {
      StepProgress(w, es[0]);
      StepKeepsInv(w, es[0]);
      RunProgress(Step(w, es[0]), es[1..]);
    }
  }

  /**
   * In every run, a `send` that returned handed over the request, the file it read in chunks and
   * the end of file, in this order and nothing else; one that raised handed over a prefix of that
   * and at most one error message.
   */
  lemma EverySendIsAPlan(files: map<string, seq<byte>>, es: seq<Event>, t: nat)
    requires t < |Run(Start(files), es).tasks| && Run(Start(files), es).tasks[t].direction == Upload
    ensures var w := Run(Start(files), es); var task := w.tasks[t];
      && (task.pc.Returned? ==> IsAscii(task.remoteName) && task.content.Some?)
      && (task.pc.Returned? ==> SentBy(w.wire, t) == Plan(task.remoteName, task.content.value))
      && (task.pc.Raised? ==> Interrupted(Bound(task), SentBy(w.wire, t)))
  {
    RunProgress(Start(files), es);
    var w := Run(Start(files), es);
    assert Progress(w.tasks[t], SentBy(w.wire, t));
  }
}
