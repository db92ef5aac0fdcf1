/** What one segment of a call or one message from the host does to the transfer, the files and the session. */
module IndFileOutcomes {
  import opened Common
  import opened IndFileMessages
  import opened IndFileWorld
  import opened IndFileRuns
  import opened IndFileDelivery

  // ------------------------------------------------------------------------------------------
  // The chunks of a file
  // ------------------------------------------------------------------------------------------

  /** A file is cut at every 4096 bytes, and nowhere else. */
  lemma {:induction false} ChunksExactly(content: seq<byte>, k: nat)
    ensures |DataMessages(content)| == (|content| + 4095) / 4096
    ensures k < |DataMessages(content)| ==>
      4096 * k < |content|
      && DataMessages(content)[k] == Message(0x02, content[4096 * k..Min(4096 * k + 4096, |content|)])
    decreases |content|
  {
    if content != [] {
      var rest := content[|FirstChunk(content)|..];
      ChunksExactly(rest, if k > 0 then k - 1 else 0);
      assert DataMessages(content) == [CreateData(FirstChunk(content))] + DataMessages(rest);
      if 0 < k < |DataMessages(content)| {
        SameSlice(content, 4096 * (k - 1), Min(4096 * (k - 1) + 4096, |rest|));
      }
    }
  }

  lemma SameSlice(content: seq<byte>, lo: nat, hi: nat)
    requires 4096 <= |content| && lo <= hi <= |content| - 4096
    ensures content[4096..][lo..hi] == content[4096 + lo..4096 + hi]
  {
  }

  // ------------------------------------------------------------------------------------------
  // What ends a download without completing it
  // ------------------------------------------------------------------------------------------

  /** Transfer `i` is over, and its local file, as the only one, is gone. */
  ghost predicate Lost(w: World, w': World, i: nat)
    requires i < |w.transfers|
  {
    && w'.slot.None? && |w'.transfers| == |w.transfers|
    && !w'.transfers[i].isActive && !w'.transfers[i].handleOpen
    && w.transfers[i].localPath !in w'.files
    && forall path :: path != w.transfers[i].localPath ==>
         (path in w'.files <==> path in w.files) && (path in w.files ==> w'.files[path] == w.files[path])
  }

  /** The event a receiver stored, and no other, is set. */
  ghost predicate Signalled(w: World, w': World) {
    w'.completion == w.completion
    && forall e :: e in w'.fired <==> e in w.fired || w.completion == Some(e)
  }

  /** The host reports an error, or a write fails. */
  predicate Breaks(m: Message, writeFails: bool) {
    m.subCommand == 0x04 || (m.subCommand == 0x02 && writeFails)
  }

  lemma BreakingStep(w: World, m: Message, writeFails: bool)
    requires Downloading(w) && Breaks(m, writeFails)
    ensures var w' := Step(w, Incoming(m, writeFails)); Lost(w, w', w.slot.value) && Signalled(w, w') && w'.wire == w.wire
  {
    assert TransferOk(w.transfers[w.slot.value], true, w.files);
  }

  /**
   * An error from the host, or a write that fails, in whatever state a run has brought the download:
   * the handle is closed, what was received is removed, the slot is free and a waiting call is told.
   */
  lemma BreakingEndsDownload(w: World, es: seq<Event>, m: Message, writeFails: bool)
    requires Downloading(w) && Run(w, es).slot == w.slot && Breaks(m, writeFails)
    ensures var before, after := Run(w, es), Run(w, es + [Incoming(m, writeFails)]); var i := w.slot.value;
      && i < |before.transfers| && before.transfers[i].localPath == w.transfers[i].localPath
      && Lost(before, after, i) && Signalled(before, after)
  {
    DownloadConservesData(w, es);
    FinishedStaysFinished(w, es);
    BreakingStep(Run(w, es), m, writeFails);
    RunSnoc(w, es, Incoming(m, writeFails));
  }

  /** With an upload in the slot no message touches a file; the end of file and an error end the upload. */
  lemma UploadsTouchNoFile(w: World, m: Message, writeFails: bool)
    requires Inv(w) && w.slot.Some? && w.transfers[w.slot.value].direction == Upload
    ensures var w' := Step(w, Incoming(m, writeFails)); var i := w.slot.value;
      && w'.files == w.files && w'.wire == w.wire && w'.tasks == w.tasks
      && (if m.subCommand == 0x03 || m.subCommand == 0x04
          then w'.slot.None? && !w'.transfers[i].isActive && Signalled(w, w')
          else w' == w)
  {
    assert TransferOk(w.transfers[w.slot.value], true, w.files);
    assert w.transfers == w.transfers[w.slot.value := w.transfers[w.slot.value]];
  }

  // ------------------------------------------------------------------------------------------
  // How a call begins
  // ------------------------------------------------------------------------------------------

  /** While a transfer is active a further call raises at once and does nothing else. */
  lemma BusyRefuses(w: World, localPath: string, remoteName: string, opens: bool)
    requires SlotInRange(w) && w.slot.Some?
    ensures RefusedOnly(w, Step(w, BeginSend(localPath, remoteName)))
    ensures RefusedOnly(w, Step(w, BeginReceive(remoteName, localPath, opens)))
  {
  }

  /** So does a `send` of a file that is not there. */
  lemma MissingFileRefuses(w: World, localPath: string, remoteName: string)
    requires SlotInRange(w) && localPath !in w.files
    ensures RefusedOnly(w, Step(w, BeginSend(localPath, remoteName)))
  {
  }

  ghost predicate RefusedOnly(w: World, w': World) {
    && |w'.tasks| == |w.tasks| + 1 && w'.tasks[..|w.tasks|] == w.tasks
    && w'.tasks[|w.tasks|].pc.Raised? && w'.tasks[|w.tasks|].owner.None?
    && w' == w.(tasks := w'.tasks)
  }

  /** `m` asks for the download of the file whose name is `name` up to its first NUL. */
  ghost predicate AsksFor(m: Message, name: string) {
    && m.subCommand == 0x01 && GetFilename(m).Some?
    && var asked := GetFilename(m).value;
       asked <= name && 0 as char !in asked && (asked == name || name[|asked|] == 0 as char)
  }

  lemma DownloadRequestAsks(name: string)
    requires IsAscii(name)
    ensures AsksFor(CreateDownloadRequest(name).value, name)
  {
    var bs := EncodeAscii(name).value;
    var p := bs + [0];
    assert p[|bs|] == 0;
    UpToNul(bs);
    var before := Before(p, 0);
    var asked := DecodeAscii(before);
    forall i | 0 <= i < |asked| ensures asked[i] == name[i] && asked[i] != 0 as char {
      assert before[i] == bs[i] != 0;
    }
    assert asked == name[..|asked|];
    if |asked| < |name| { assert bs[|asked|] == 0; }
  }

  /** The bytes before the terminator, or before an earlier NUL. */
  lemma UpToNul(bs: seq<byte>)
    ensures var before := Before(bs + [0], 0);
      && before <= bs && (forall i :: 0 <= i < |before| ==> before[i] != 0)
      && (|before| < |bs| ==> bs[|before|] == 0)
  {
    if bs != [] {
      assert (bs + [0])[1..] == bs[1..] + [0];
      UpToNul(bs[1..]);
    }
  }

  /**
   * `receive` on a free slot, when its local file opens: for an ASCII name it asks for that download
   * and for nothing else, has created the file empty and awaits the session. Another name raises at
   * once, with nothing sent and the file removed again.
   */
  lemma ReceiveAsksExactly(w: World, name: string, path: string)
    requires Inv(w) && w.slot.None?
    ensures var w' := Step(w, BeginReceive(name, path, true)); var t, i := |w.tasks|, |w.transfers|;
      if IsAscii(name) then
        && |w'.wire| == |w.wire| + 1 && w'.wire[..|w.wire|] == w.wire
        && w'.wire[|w.wire|].0 == t && AsksFor(w'.wire[|w.wire|].1, name)
        && w'.slot == Some(i) && w'.files == w.files[path := []] && w'.tasks[t].pc == AwaitDownloadSent
      else
        w'.wire == w.wire && w'.slot.None? && w'.files == w.files - {path} && w'.tasks[t].pc == Raised
  {
    if IsAscii(name) { DownloadRequestAsks(name); }
  }

  /** When its local file cannot be opened nothing is sent, and a file of that name is removed. */
  lemma UnopenedReceiveRaises(w: World, name: string, path: string)
    requires Inv(w) && w.slot.None?
    ensures var w' := Step(w, BeginReceive(name, path, false));
      w'.wire == w.wire && w'.slot.None? && w'.files == w.files - {path} && w'.tasks[|w.tasks|].pc == Raised
  {
  }

  /** In every run a call of `receive` hands over its request once, and nothing else ever. */
  lemma EveryReceiveAsksOnce(files: map<string, seq<byte>>, es: seq<Event>, t: nat)
    requires t < |Run(Start(files), es).tasks| && Run(Start(files), es).tasks[t].direction == Download
    ensures var w := Run(Start(files), es); var task := w.tasks[t]; var sent := SentBy(w.wire, t);
      && |sent| <= 1 && (forall m <- sent :: AsksFor(m, task.remoteName))
      && (!task.pc.Raised? ==> |sent| == 1)
  {
    RunProgress(Start(files), es);
    var w := Run(Start(files), es);
    var task := w.tasks[t];
    assert Progress(task, SentBy(w.wire, t));
    if IsDownloadRequest(task, SentBy(w.wire, t)) {
      RequestsExactly(task.remoteName);
      DownloadRequestAsks(task.remoteName);
    }
  }

  // ------------------------------------------------------------------------------------------
  // How a call ends
  // ------------------------------------------------------------------------------------------

  /** A receiver that fails or times out removes the file of the download in the slot, and raises. */
  lemma FailedReceiveLosesFile(w: World, t: nat, e: Event)
    requires Downloading(w) && t < |w.tasks|
    requires (e == Expire(t) && w.tasks[t].pc.AwaitCompletion?)
      || (e.Resume? && e.task == t && e.fault.Some? && w.tasks[t].pc.AwaitDownloadSent?)
    ensures var w' := Step(w, e);
      && Lost(w, w', w.slot.value) && w'.wire == w.wire && w'.fired == w.fired
      && w'.completion.None? && |w'.tasks| == |w.tasks| && w'.tasks[t].pc == Raised
  {
    assert TransferOk(w.transfers[w.slot.value], true, w.files);
  }

  /** Without a download in the slot it touches no file. */
  lemma FailedReceiveAlone(w: World, t: nat, e: Event)
    requires Inv(w) && t < |w.tasks| && (w.slot.Some? ==> w.transfers[w.slot.value].direction == Upload)
    requires (e == Expire(t) && w.tasks[t].pc.AwaitCompletion?)
      || (e.Resume? && e.task == t && e.fault.Some? && w.tasks[t].pc.AwaitDownloadSent?)
    ensures var w' := Step(w, e);
      && w'.files == w.files && w'.slot.None? && w'.wire == w.wire
      && w'.completion.None? && |w'.tasks| == |w.tasks| && w'.tasks[t].pc == Raised
  {
  }

  /** A sender that has sent its end of file, or its error message, finishes what is in the slot and touches no file. */
  lemma SenderCleansUp(w: World, t: nat, fault: Option<string>)
    requires Inv(w) && t < |w.tasks|
    requires (w.tasks[t].pc.AwaitEofSent? && fault.None?) || w.tasks[t].pc.AwaitErrorSent?
    ensures var w' := Step(w, Resume(t, fault));
      && w'.slot.None? && w'.files == w.files && w'.wire == w.wire && w'.fired == w.fired && w'.completion == w.completion
      && |w'.tasks| == |w.tasks| && w'.tasks[t].pc == (if w.tasks[t].pc.AwaitEofSent? then Returned else Raised)
      && forall i :: 0 <= i < |w.transfers| ==> i < |w'.transfers| && !w'.transfers[i].isActive && !w'.transfers[i].handleOpen
  {
    forall i | 0 <= i < |w.transfers| ensures TransferOk(w.transfers[i], w.slot == Some(i), w.files) {}
  }

  predicate IsSending(pc: Pc) {
    pc.AwaitUploadSent? || pc.AwaitDataSent? || pc.AwaitEofSent?
  }

  /** A call that has failed, whatever it still has to send. */
  predicate HasFailed(pc: Pc) {
    pc.AwaitErrorSent? || pc.Raised?
  }

  /** A failing segment ends an upload: the error goes out when its text is ASCII, and the call is going to raise. */
  lemma FaultFails(w: World, t: nat, text: string)
    requires Inv(w) && t < |w.tasks| && IsSending(w.tasks[t].pc)
    ensures var w' := Step(w, Resume(t, Some(text)));
      && w'.slot.None? && |w'.tasks| == |w.tasks|
      && w'.tasks[t].pc == (if IsAscii(text) then AwaitErrorSent else Raised)
      && (if IsAscii(text)
          then |w'.wire| == |w.wire| + 1 && w'.wire[|w.wire|].1.subCommand == 0x04 && SpellsOut(w'.wire[|w.wire|].1.payload, text)
          else w'.wire == w.wire)
  {
    if IsAscii(text) { FailureIsSent(w, t, text); }
  }

  /** So does a local file that is gone by the time the host has been asked. */
  lemma VanishedFileFails(w: World, t: nat)
    requires Inv(w) && t < |w.tasks| && w.tasks[t].pc.AwaitUploadSent? && w.tasks[t].localPath !in w.files
    ensures var w' := Step(w, Resume(t, None)); w'.slot.None? && |w'.tasks| == |w.tasks| && HasFailed(w'.tasks[t].pc)
  {
    FailSendMoves(w, t, MissingFileText(w.tasks[t].localPath));
  }

  lemma FailedStep(w: World, e: Event, t: nat)
    requires Inv(w) && t < |w.tasks| && HasFailed(w.tasks[t].pc)
    ensures t < |Step(w, e).tasks| && HasFailed(Step(w, e).tasks[t].pc)
  {
    match e
    case Resume(u, fault) =>
      if u == t { FailedResumes(w, t, fault); } else if u < |w.tasks| { OthersMoveAlone(w, u, fault, t); }
    case BeginSend(path, name) => BeginningMovesNone(w, e, t);
    case BeginReceive(name, path, opens) => BeginningMovesNone(w, e, t);
    case Wake(u) =>
    case Expire(u) =>
    case Incoming(m, writeFails) =>
  }

  lemma BeginningMovesNone(w: World, e: Event, t: nat)
    requires Inv(w) && t < |w.tasks| && (e.BeginSend? || e.BeginReceive?)
    ensures t < |Step(w, e).tasks| && Step(w, e).tasks[t] == w.tasks[t]
  {
  }

  lemma FailedResumes(w: World, t: nat, fault: Option<string>)
    requires Inv(w) && t < |w.tasks| && HasFailed(w.tasks[t].pc)
    ensures |ResumeStep(w, t, fault).tasks| == |w.tasks| && ResumeStep(w, t, fault).tasks[t].pc == Raised
  {
  }

  /** Continuing one call does not move another. */
  lemma OthersMoveAlone(w: World, u: nat, fault: Option<string>, t: nat)
    requires Inv(w) && u < |w.tasks| && t < |w.tasks| && u != t
    ensures OnlyMoves(w, ResumeStep(w, u, fault), u)
    ensures ResumeStep(w, u, fault).tasks[t] == w.tasks[t]
  {
    forall text ensures OnlyMoves(w, FailSend(w, u, text), u) {
      FailSendMoves(w, u, text);
    }
  }

  predicate OnlyMoves(w: World, w': World, u: nat) {
    |w'.tasks| == |w.tasks| && forall t :: 0 <= t < |w.tasks| && t != u ==> w'.tasks[t] == w.tasks[t]
  }

  /** A call that has failed never returns, in any continuation. */
  lemma {:induction false} FailedNeverReturns(w: World, es: seq<Event>, t: nat)
    requires Inv(w) && t < |w.tasks| && HasFailed(w.tasks[t].pc)
    ensures t < |Run(w, es).tasks| && HasFailed(Run(w, es).tasks[t].pc)
    decreases |es|
  {
    if es != [] {
      FailedStep(w, es[0], t);
      StepKeepsInv(w, es[0]);
      FailedNeverReturns(Step(w, es[0]), es[1..], t);
    }
  }

  /** A `send` one of whose messages could not be handed over raises, however the run goes on. */
  lemma FaultedSendNeverReturns(w: World, t: nat, text: string, es: seq<Event>)
    requires Inv(w) && t < |w.tasks| && IsSending(w.tasks[t].pc)
    ensures var w' := Run(w, [Resume(t, Some(text))] + es); t < |w'.tasks| && HasFailed(w'.tasks[t].pc)
  {
    var e := Resume(t, Some(text));
    FaultFails(w, t, text);
    StepKeepsInv(w, e);
    assert ([e] + es)[1..] == es;
    FailedNeverReturns(Step(w, e), es, t);
  }
}
