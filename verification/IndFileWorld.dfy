/**
 * The states an IND$FILE endpoint goes through, as values.
 *
 * `send` and `receive` are coroutines: between two suspension points a coroutine runs without
 * interruption, and incoming messages are handled in one piece. A run is therefore a sequence of
 * events, each standing for one such uninterrupted segment.
 */
module IndFileWorld {
  import opened Common
  import opened IndFileMessages

  const CHUNK_SIZE := 4096

  datatype Direction = Upload | Download

  /** One transfer object. `handleOpen` stands for a file handle that is present and not closed. */
  datatype Transfer = Transfer(
    direction: Direction,
    remoteName: string,
    localPath: string,
    handleOpen: bool,
    isActive: bool,
    bytesTransferred: nat)

  /** Where a coroutine is suspended, or how it ended. */
  datatype Pc =
    | AwaitUploadSent
    | AwaitDataSent(rest: seq<byte>)
    | AwaitEofSent
    | AwaitErrorSent
    | AwaitDownloadSent
    | AwaitCompletion(event: nat)
    | Returned
    | Raised

  /**
   * One call of `send` or `receive`. `owner` is the transfer it created, if it got that far, and
   * `content` what a sender found in its local file when it opened it.
   */
  datatype Task = Task(
    direction: Direction,
    remoteName: string,
    localPath: string,
    owner: Option<nat>,
    content: Option<seq<byte>>,
    pc: Pc)

  /**
   * Everything the endpoint can see: all transfers ever created, the active one, the completion
   * event attribute, the events that were set, all calls, the local files and the messages handed
   * to the session, each with the call that handed it.
   */
  datatype World = World(
    transfers: seq<Transfer>,
    slot: Option<nat>,
    completion: Option<nat>,
    fired: set<nat>,
    nextEvent: nat,
    tasks: seq<Task>,
    files: map<string, seq<byte>>,
    wire: seq<(nat, Message)>)

  /** `fault` is the text of an exception raised in the segment by the session or by file access. */
  datatype Event =
    | BeginSend(localPath: string, remoteName: string)
    | BeginReceive(remoteName: string, localPath: string, opens: bool)
    | Resume(task: nat, fault: Option<string>)
    | Wake(task: nat)
    | Expire(task: nat)
    | Incoming(message: Message, writeFails: bool)

  /** The cut of a file into reads of at most 4096 bytes. */
  function DataMessages(content: seq<byte>): seq<Message> {
    if content == [] then []
    else [CreateData(FirstChunk(content))] + DataMessages(content[|FirstChunk(content)|..])
  }

  function FirstChunk(content: seq<byte>): (c: seq<byte>)
    ensures content != [] ==> 0 < |c|
    ensures |c| <= |content| && |c| <= CHUNK_SIZE && c == content[..|c|]
  {
    content[..Min(CHUNK_SIZE, |content|)]
  }

  function UploadRequests(name: string): seq<Message> {
    match CreateUploadRequest(name)
    case None => []
    case Some(m) => [m]
  }

  /** The messages of a complete upload. */
  function Plan(name: string, content: seq<byte>): seq<Message> {
    UploadRequests(name) + DataMessages(content) + [CreateEof()]
  }

  /** What reading one chunk and handing it over leaves of a plan. */
  lemma NextOfPlan(sent: seq<Message>, rest: seq<byte>)
    ensures rest == [] ==> sent + DataMessages(rest) + [CreateEof()] == sent + [CreateEof()]
    ensures rest != [] ==>
      sent + DataMessages(rest) + [CreateEof()]
      == sent + [CreateData(FirstChunk(rest))] + DataMessages(rest[|FirstChunk(rest)|..]) + [CreateEof()]
  {
    if rest != [] {
      var m := CreateData(FirstChunk(rest));
      var tail := DataMessages(rest[|FirstChunk(rest)|..]);
      assert DataMessages(rest) == [m] + tail;
      Assoc(sent, [m], tail);
    } else {
      assert sent + [] == sent;
    }
  }

  // ------------------------------------------------------------------------------------------
  // The pieces segments are made of
  // ------------------------------------------------------------------------------------------

  function Finished(t: Transfer): Transfer {
    t.(handleOpen := false, isActive := false)
  }

  /** Finish the active transfer, if there is one, and free the slot. */
  function FinishSlot(w: World): World
    requires SlotInRange(w)
  {
    match w.slot
    case None => w
    case Some(i) => w.(transfers := w.transfers[i := Finished(w.transfers[i])], slot := None)
  }

  /** Finish the active transfer, drop what a download wrote, and free the slot. */
  function AbortSlot(w: World): World
    requires SlotInRange(w)
  {
    match w.slot
    case None => w
    case Some(i) =>
      var t := w.transfers[i];
      FinishSlot(w).(files := if t.direction == Download then w.files - {t.localPath} else w.files)
  }

  predicate SlotInRange(w: World) {
    w.slot.Some? ==> w.slot.value < |w.transfers|
  }

  /** Set the completion event when the attribute holds one. */
  function Signal(w: World): World {
    match w.completion
    case None => w
    case Some(e) => w.(fired := w.fired + {e})
  }

  function SetPc(w: World, t: nat, pc: Pc): World
    requires t < |w.tasks|
  {
    w.(tasks := w.tasks[t := w.tasks[t].(pc := pc)])
  }

  function Hand(w: World, t: nat, m: Message): World {
    w.(wire := w.wire + [(t, m)])
  }

  function AddTask(w: World, task: Task): World {
    w.(tasks := w.tasks + [task])
  }

  /** The exception handler of `send`: the error message is sent when its text is ASCII. */
  function FailSend(w: World, t: nat, text: string): World
    requires SlotInRange(w) && t < |w.tasks|
  {
    var w1 := AbortSlot(w);
    match CreateError(text)
    case None => SetPc(w1, t, Raised)
    case Some(m) => SetPc(Hand(w1, t, m), t, AwaitErrorSent)
  }

  /** The exception handler of `receive`, with the removal of the completion event attribute. */
  function FailReceive(w: World, t: nat): World
    requires SlotInRange(w) && t < |w.tasks|
  {
    SetPc(AbortSlot(w).(completion := None), t, Raised)
  }

  const CODEC_TEXT := "'ascii' codec can't encode character"

  function MissingFileText(path: string): string {
    "[Errno 2] No such file or directory: '" + path + "'"
  }

  /** A new transfer in the slot, for a call suspended at `task.pc`. */
  function Create(w: World, x: Transfer, task: Task): World {
    w.(transfers := w.transfers + [x], slot := Some(|w.transfers|),
       files := if x.handleOpen then w.files[x.localPath := []] else w.files,
       tasks := w.tasks + [task.(owner := Some(|w.transfers|))])
  }

  // ------------------------------------------------------------------------------------------
  // Segments
  // ------------------------------------------------------------------------------------------

  function BeginSendStep(w: World, localPath: string, remoteName: string): World
    requires SlotInRange(w)
  {
    var t := |w.tasks|;
    var refused := Task(Upload, remoteName, localPath, None, None, Raised);
    if w.slot.Some? || localPath !in w.files then AddTask(w, refused)
    else
      var w1 := Create(w, Transfer(Upload, remoteName, localPath, false, true, 0), refused.(pc := AwaitUploadSent));
      AskUpload(w1, t, remoteName)
  }

  function AskUpload(w: World, t: nat, remoteName: string): World
    requires SlotInRange(w) && t < |w.tasks|
  {
    match CreateUploadRequest(remoteName)
    case None => FailSend(w, t, CODEC_TEXT)
    case Some(m) => Hand(w, t, m)
  }

  function BeginReceiveStep(w: World, remoteName: string, localPath: string, opens: bool): World
    requires SlotInRange(w)
  {
    var t := |w.tasks|;
    var refused := Task(Download, remoteName, localPath, None, None, Raised);
    if w.slot.Some? then AddTask(w, refused)
    else
      var w1 := Create(w, Transfer(Download, remoteName, localPath, opens, opens, 0), refused.(pc := AwaitDownloadSent));
      if !opens then FailReceive(w1, t) else AskDownload(w1, t, remoteName)
  }

  function AskDownload(w: World, t: nat, remoteName: string): World
    requires SlotInRange(w) && t < |w.tasks|
  {
    match CreateDownloadRequest(remoteName)
    case None => FailReceive(w, t)
    case Some(m) => Hand(w, t, m)
  }

  /** Read the next chunk: hand it over, or hand over the end of file when there is none. */
  function SendNext(w: World, t: nat, rest: seq<byte>): World
    requires t < |w.tasks|
  {
    if rest == [] then SetPc(Hand(w, t, CreateEof()), t, AwaitEofSent)
    else
      var chunk := FirstChunk(rest);
      SetPc(Hand(w, t, CreateData(chunk)), t, AwaitDataSent(rest[|chunk|..]))
  }

  function ResumeStep(w: World, t: nat, fault: Option<string>): World
    requires SlotInRange(w)
  {
    if t >= |w.tasks| then w
    else
      var task := w.tasks[t];
      match task.pc
      case AwaitUploadSent =>
        if fault.Some? then FailSend(w, t, fault.value)
        else if task.localPath !in w.files then FailSend(w, t, MissingFileText(task.localPath))
        else
          var content := w.files[task.localPath];
          SendNext(w.(tasks := w.tasks[t := task.(content := Some(content))]), t, content)
      case AwaitDataSent(rest) =>
        if fault.Some? then FailSend(w, t, fault.value) else SendNext(w, t, rest)
      case AwaitEofSent =>
        if fault.Some? then FailSend(w, t, fault.value) else SetPc(FinishSlot(w), t, Returned)
      case AwaitErrorSent => SetPc(FinishSlot(w), t, Raised)
      case AwaitDownloadSent =>
        if fault.Some? then FailReceive(w, t)
        else SetPc(w.(completion := Some(w.nextEvent), nextEvent := w.nextEvent + 1), t, AwaitCompletion(w.nextEvent))
      case _ => w
  }

  function WakeStep(w: World, t: nat): World {
    if t < |w.tasks| && w.tasks[t].pc.AwaitCompletion? && w.tasks[t].pc.event in w.fired
    then SetPc(w.(completion := None), t, Returned)
    else w
  }

  function ExpireStep(w: World, t: nat): World
    requires SlotInRange(w)
  {
    if t < |w.tasks| && w.tasks[t].pc.AwaitCompletion? then FailReceive(w, t) else w
  }

  /** What a path names after data was written through an open handle: nothing if it was removed since. */
  function Appended(files: map<string, seq<byte>>, path: string, data: seq<byte>): map<string, seq<byte>> {
    if path in files then files[path := files[path] + data] else files
  }

  function WriteData(w: World, data: seq<byte>): World
    requires SlotInRange(w) && w.slot.Some?
  {
    var i := w.slot.value;
    var x := w.transfers[i];
    if x.handleOpen && x.direction == Download then
      w.(files := Appended(w.files, x.localPath, data),
         transfers := w.transfers[i := x.(bytesTransferred := x.bytesTransferred + |data|)])
    else w
  }

  function IncomingStep(w: World, m: Message, writeFails: bool): World
    requires SlotInRange(w)
  {
    if w.slot.None? then w
    else if m.subCommand == IND_FILE_DATA then
      if writeFails && w.transfers[w.slot.value].handleOpen then Signal(AbortSlot(w)) else WriteData(w, m.payload)
    else if m.subCommand == IND_FILE_EOF then Signal(FinishSlot(w))
    else if m.subCommand == IND_FILE_ERROR then Signal(AbortSlot(w))
    else w
  }

  function Step(w: World, e: Event): World
    requires SlotInRange(w)
  {
    match e
    case BeginSend(path, name) => BeginSendStep(w, path, name)
    case BeginReceive(name, path, opens) => BeginReceiveStep(w, name, path, opens)
    case Resume(t, fault) => ResumeStep(w, t, fault)
    case Wake(t) => WakeStep(w, t)
    case Expire(t) => ExpireStep(w, t)
    case Incoming(m, writeFails) => IncomingStep(w, m, writeFails)
  }

  /** The state an endpoint starts from: no transfer, no call, some local files. */
  function Start(files: map<string, seq<byte>>): (w: World)
    ensures Inv(w)
  {
    World([], None, None, {}, 0, [], files, [])
  }

  // ------------------------------------------------------------------------------------------
  // The invariant
  // ------------------------------------------------------------------------------------------

  ghost predicate TransfersOk(w: World) {
    && SlotInRange(w)
    && (forall i :: 0 <= i < |w.transfers| ==> TransferOk(w.transfers[i], w.slot == Some(i), w.files))
  }

  /**
   * A transfer that is active or holds a handle is the one in the slot; the one in the slot is
   * active; a handle is open on a local file that holds the bytes counted so far.
   */
  ghost predicate TransferOk(x: Transfer, inSlot: bool, files: map<string, seq<byte>>) {
    && (x.isActive <==> inSlot)
    && (x.handleOpen <==> inSlot && x.direction == Download)
    && (x.handleOpen ==> x.localPath in files && |files[x.localPath]| == x.bytesTransferred)
  }

  ghost predicate OwnerDone(w: World, task: Task) {
    task.owner.Some? ==> task.owner.value < |w.transfers| && !w.transfers[task.owner.value].isActive
  }

  ghost predicate OwnerOk(w: World, task: Task) {
    task.owner.Some? ==>
      task.owner.value < |w.transfers| && w.transfers[task.owner.value].direction == task.direction
  }

  /** A call that has left its try block, or whose event was set, owns no active transfer. */
  ghost predicate TaskOk(w: World, task: Task) {
    && OwnerOk(w, task)
    && (task.pc.Returned? || task.pc.Raised? || task.pc.AwaitErrorSent? ==> OwnerDone(w, task))
    && (task.pc.AwaitCompletion? ==> task.pc.event < w.nextEvent && (task.pc.event in w.fired ==> OwnerDone(w, task)))
  }

  ghost predicate Inv(w: World) {
    && TransfersOk(w)
    && (forall t :: 0 <= t < |w.tasks| ==> TaskOk(w, w.tasks[t]))
    && (forall e <- w.fired :: e < w.nextEvent)
    && (w.completion.Some? ==> w.completion.value < w.nextEvent)
  }

  /**
   * No transfer that was finished in `a` differs in `b`, and none appears, disappears or changes
   * hands: what an event may do to the history of transfers.
   */
  ghost predicate Settled(a: World, b: World) {
    && |a.transfers| <= |b.transfers|
    && (forall i {:trigger b.transfers[i]} :: 0 <= i < |a.transfers| ==>
         (!a.transfers[i].isActive ==> b.transfers[i] == a.transfers[i])
         && b.transfers[i].direction == a.transfers[i].direction
         && b.transfers[i].localPath == a.transfers[i].localPath)
  }

  /**
   * What holds inside a segment, when the transfer just created may not have opened its file: only
   * the transfer in the slot can be active or hold a handle, and names refer to what exists.
   */
  ghost predicate Sound(w: World) {
    && SlotInRange(w)
    && (forall i :: 0 <= i < |w.transfers| ==> w.transfers[i].handleOpen ==> w.transfers[i].isActive)
    && (forall i :: 0 <= i < |w.transfers| && w.slot != Some(i) ==> !w.transfers[i].isActive)
    && (forall t :: 0 <= t < |w.tasks| ==> OwnerOk(w, w.tasks[t]))
    && (forall t :: 0 <= t < |w.tasks| && w.tasks[t].pc.AwaitCompletion? ==> w.tasks[t].pc.event < w.nextEvent)
    && (forall e <- w.fired :: e < w.nextEvent)
    && (w.completion.Some? ==> w.completion.value < w.nextEvent)
  }

  lemma InvIsSound(w: World)
    requires Inv(w)
    ensures Sound(w)
  {
  }

  /** When no transfer is active every call is in order, whatever point it has reached. */
  lemma FreeIsInv(w: World)
    requires Sound(w) && w.slot.None?
    ensures Inv(w)
  {
  }

  /** Finishing or aborting the transfer in the slot leaves no active transfer and no handle. */
  lemma FreeingTheSlot(w: World)
    requires Sound(w)
    ensures Sound(FinishSlot(w)) && FinishSlot(w).slot.None?
    ensures Sound(AbortSlot(w)) && AbortSlot(w).slot.None?
    ensures Settled(w, FinishSlot(w)) && Settled(w, AbortSlot(w))
  {
  }

  lemma SettledTransitive(a: World, b: World, c: World)
    requires Settled(a, b) && Settled(b, c)
    ensures Settled(a, c)
  {
  }

  lemma CreateKeeps(w: World, x: Transfer, task: Task)
    requires Inv(w) && w.slot.None?
    requires x.direction == task.direction && (x.handleOpen ==> x.isActive)
    requires task.pc.AwaitUploadSent? || task.pc.AwaitDownloadSent?
    ensures Sound(Create(w, x, task)) && Settled(w, Create(w, x, task))
    ensures x.isActive && x.handleOpen == (x.direction == Download) && x.bytesTransferred == 0 ==>
      Inv(Create(w, x, task))
  {
  }

  lemma FailSendKeeps(w: World, t: nat, text: string)
    requires Sound(w) && t < |w.tasks|
    ensures Inv(FailSend(w, t, text)) && Settled(w, FailSend(w, t, text))
  {
    FreeingTheSlot(w);
    FreeIsInv(FailSend(w, t, text));
  }

  lemma FailReceiveKeeps(w: World, t: nat)
    requires Sound(w) && t < |w.tasks|
    ensures Inv(FailReceive(w, t)) && Settled(w, FailReceive(w, t))
  {
    FreeingTheSlot(w);
    FreeIsInv(FailReceive(w, t));
  }

  lemma BeginSendKeepsInv(w: World, localPath: string, remoteName: string)
    requires Inv(w)
    ensures Inv(BeginSendStep(w, localPath, remoteName)) && Settled(w, BeginSendStep(w, localPath, remoteName))
  {
    if w.slot.None? && localPath in w.files {
      var x := Transfer(Upload, remoteName, localPath, false, true, 0);
      var task := Task(Upload, remoteName, localPath, None, None, AwaitUploadSent);
      var w1 := Create(w, x, task);
      CreateKeeps(w, x, task);
      if CreateUploadRequest(remoteName).None? {
        FailSendKeeps(w1, |w.tasks|, CODEC_TEXT);
        SettledTransitive(w, w1, FailSend(w1, |w.tasks|, CODEC_TEXT));
      }
    }
  }

  lemma BeginReceiveKeepsInv(w: World, remoteName: string, localPath: string, opens: bool)
    requires Inv(w)
    ensures Inv(BeginReceiveStep(w, remoteName, localPath, opens))
    ensures Settled(w, BeginReceiveStep(w, remoteName, localPath, opens))
  {
    if w.slot.None? {
      var x := Transfer(Download, remoteName, localPath, opens, opens, 0);
      var task := Task(Download, remoteName, localPath, None, None, AwaitDownloadSent);
      var w1 := Create(w, x, task);
      CreateKeeps(w, x, task);
      if !opens || CreateDownloadRequest(remoteName).None? {
        FailReceiveKeeps(w1, |w.tasks|);
        SettledTransitive(w, w1, FailReceive(w1, |w.tasks|));
      }
    }
  }

  lemma SendNextKeepsInv(w: World, t: nat, rest: seq<byte>)
    requires Inv(w) && t < |w.tasks|
    ensures Inv(SendNext(w, t, rest)) && Settled(w, SendNext(w, t, rest))
  {
  }

  lemma ReturnKeepsInv(w: World, t: nat, pc: Pc)
    requires Inv(w) && t < |w.tasks| && !pc.AwaitCompletion?
    ensures Inv(SetPc(FinishSlot(w), t, pc)) && Settled(w, SetPc(FinishSlot(w), t, pc))
  {
    FreeingTheSlot(w);
    FreeIsInv(SetPc(FinishSlot(w), t, pc));
  }

  lemma OpeningKeepsInv(w: World, t: nat, content: seq<byte>)
    requires Inv(w) && t < |w.tasks|
    ensures var w1 := w.(tasks := w.tasks[t := w.tasks[t].(content := Some(content))]);
      Inv(SendNext(w1, t, content)) && Settled(w, SendNext(w1, t, content))
  {
    var w1 := w.(tasks := w.tasks[t := w.tasks[t].(content := Some(content))]);
    assert Inv(w1);
    SendNextKeepsInv(w1, t, content);
  }

  lemma ResumeKeepsInv(w: World, t: nat, fault: Option<string>)
    requires Inv(w)
    ensures Inv(ResumeStep(w, t, fault)) && Settled(w, ResumeStep(w, t, fault))
  {
    InvIsSound(w);
    if t < |w.tasks| {
      var task := w.tasks[t];
      match task.pc
      case AwaitUploadSent =>
        if fault.Some? {
          FailSendKeeps(w, t, fault.value);
        } else if task.localPath !in w.files {
          FailSendKeeps(w, t, MissingFileText(task.localPath));
        } else {
          OpeningKeepsInv(w, t, w.files[task.localPath]);
        }
      case AwaitDataSent(rest) =>
        if fault.Some? { FailSendKeeps(w, t, fault.value); } else { SendNextKeepsInv(w, t, rest); }
      case AwaitEofSent =>
        if fault.Some? { FailSendKeeps(w, t, fault.value); } else { ReturnKeepsInv(w, t, Returned); }
      case AwaitErrorSent => ReturnKeepsInv(w, t, Raised);
      case AwaitDownloadSent =>
        if fault.Some? { FailReceiveKeeps(w, t); }
      case _ =>
    }
  }

  lemma IncomingKeepsInv(w: World, m: Message, writeFails: bool)
    requires Inv(w)
    ensures Inv(IncomingStep(w, m, writeFails)) && Settled(w, IncomingStep(w, m, writeFails))
  {
    if w.slot.Some? {
      FreeingKeepsInv(w);
      DataKeepsInv(w, m.payload);
    }
  }

  /** The host, or a failing write, ends the active transfer. */
  lemma FreeingKeepsInv(w: World)
    requires Inv(w)
    ensures Inv(Signal(FinishSlot(w))) && Settled(w, Signal(FinishSlot(w)))
    ensures Inv(Signal(AbortSlot(w))) && Settled(w, Signal(AbortSlot(w)))
  {
    InvIsSound(w);
    FreeingTheSlot(w);
    FreeIsInv(Signal(FinishSlot(w)));
    FreeIsInv(Signal(AbortSlot(w)));
  }

  lemma DataKeepsInv(w: World, data: seq<byte>)
    requires Inv(w) && w.slot.Some?
    ensures Inv(WriteData(w, data)) && Settled(w, WriteData(w, data))
  {
  }

  /** Every event keeps the invariant and leaves finished transfers as they are. */
  lemma StepKeepsInv(w: World, e: Event)
    requires Inv(w)
    ensures Inv(Step(w, e)) && Settled(w, Step(w, e))
  {
    match e
    case BeginSend(path, name) => BeginSendKeepsInv(w, path, name);
    case BeginReceive(name, path, opens) => BeginReceiveKeepsInv(w, name, path, opens);
    case Resume(t, fault) => ResumeKeepsInv(w, t, fault);
    case Wake(t) =>
    case Expire(t) =>
      InvIsSound(w);
      if t < |w.tasks| { FailReceiveKeeps(w, t); }
    case Incoming(m, writeFails) => IncomingKeepsInv(w, m, writeFails);
  }
}
