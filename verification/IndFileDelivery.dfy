/**
 * What a download receives: conservation of data over every interleaving, the end-to-end delivery
 * of a file, and exactly when other calls can take the active transfer away.
 */
module IndFileDelivery {
  import opened Common
  import opened IndFileMessages
  import opened IndFileWorld
  import opened IndFileRuns

  /** The payloads of the DATA messages that arrive in a run, joined. */
  function Received(es: seq<Event>): seq<byte> {
    if es == [] then []
    else (if es[0].Incoming? && es[0].message.subCommand == IND_FILE_DATA then es[0].message.payload else [])
         + Received(es[1..])
  }

  ghost predicate Downloading(w: World) {
    && Inv(w)
    && w.slot.Some?
    && w.transfers[w.slot.value].direction == Download
  }

  /** The local file of the active download. */
  ghost function LocalFile(w: World): seq<byte>
    requires Downloading(w)
  {
    w.files[w.transfers[w.slot.value].localPath]
  }

  /** A segment of a call that does not free the slot changes no existing transfer and no file. */
  lemma CallsLeaveFilesAlone(w: World, e: Event)
    requires Inv(w) && w.slot.Some? && !e.Incoming? && Step(w, e).slot == w.slot
    ensures Step(w, e).files == w.files && Step(w, e).transfers == w.transfers
  {
    if e.Resume? && e.task < |w.tasks| {
      ResumeLeavesFilesAlone(w, e.task, e.fault);
    }
  }

  lemma ResumeLeavesFilesAlone(w: World, t: nat, fault: Option<string>)
    requires Inv(w) && w.slot.Some? && t < |w.tasks| && ResumeStep(w, t, fault).slot == w.slot
    ensures ResumeStep(w, t, fault).files == w.files && ResumeStep(w, t, fault).transfers == w.transfers
  {
    forall text ensures FailSend(w, t, text).slot.None? {}
    var task := w.tasks[t];
    match task.pc
    case AwaitUploadSent =>
      if fault.None? && task.localPath in w.files {
        var w1 := w.(tasks := w.tasks[t := task.(content := Some(w.files[task.localPath]))]);
        assert SendNext(w1, t, w.files[task.localPath]).files == w.files;
      }
    case AwaitDataSent(rest) => assert SendNext(w, t, rest).files == w.files;
    case _ =>
  }

  lemma StepConserves(w: World, e: Event)
    requires Downloading(w) && Step(w, e).slot == w.slot
    ensures Downloading(Step(w, e))
    ensures LocalFile(Step(w, e)) == LocalFile(w) + Received([e])
  {
    StepKeepsInv(w, e);
    assert Received([e][1..]) == [];
    var i := w.slot.value;
    assert TransferOk(w.transfers[i], true, w.files);
    if e.Incoming? {
      var w1 := IncomingStep(w, e.message, e.writeFails);
      assert e.message.subCommand == IND_FILE_DATA ==> w1 == WriteData(w, e.message.payload);
      assert e.message.subCommand != IND_FILE_DATA ==> w1 == w;
    } else {
      CallsLeaveFilesAlone(w, e);
    }
  }

  /** A slot that was freed never comes back to a transfer that existed before. */
  lemma {:induction false} SlotNeverReturns(w: World, es: seq<Event>, i: nat)
    requires Inv(w) && i < |w.transfers| && w.slot != Some(i)
    ensures Run(w, es).slot != Some(i)
  {
    FinishedStaysFinished(w, es);
    var w' := Run(w, es);
    assert TransferOk(w.transfers[i], false, w.files);
    assert w'.transfers[i] == w.transfers[i];
  }

  /**
   * Conservation: whatever else happened in a run, as long as the download is still active its
   * local file has grown by exactly the data that arrived, in order.
   */
  lemma {:induction false} DownloadConservesData(w: World, es: seq<Event>)
    requires Downloading(w) && Run(w, es).slot == w.slot
    ensures Downloading(Run(w, es))
    ensures LocalFile(Run(w, es)) == LocalFile(w) + Received(es)
    ensures Run(w, es).transfers[w.slot.value].bytesTransferred
         == w.transfers[w.slot.value].bytesTransferred + |Received(es)|
    decreases |es|
  {
    var i := w.slot.value;
    if es != [] {
      var w1 := Step(w, es[0]);
      StepKeepsInv(w, es[0]);
      if w1.slot != w.slot {
        SlotNeverReturns(w1, es[1..], i);
      }
      StepConserves(w, es[0]);
      DownloadConservesData(w1, es[1..]);
      assert [es[0]][0] == es[0] && [es[0]][1..] == [];
      assert Received([es[0]]) + Received(es[1..]) == Received(es);
    }
    FinishedStaysFinished(w, es);
    CountIsLength(w);
    CountIsLength(Run(w, es));
  }

  lemma CountIsLength(w: World)
    requires Downloading(w)
    ensures w.transfers[w.slot.value].bytesTransferred == |LocalFile(w)|
  {
    assert TransferOk(w.transfers[w.slot.value], true, w.files);
  }

  /** The end of file closes the download and leaves the file as it was received. */
  lemma EofCompletesDownload(w: World, es: seq<Event>, eof: Message, fails: bool)
    requires Downloading(w) && Run(w, es).slot == w.slot && eof.subCommand == IND_FILE_EOF
    ensures var w' := Run(w, es + [Incoming(eof, fails)]); var i := w.slot.value;
      && w'.slot.None? && i < |w'.transfers|
      && !w'.transfers[i].isActive && !w'.transfers[i].handleOpen
      && w'.transfers[i].bytesTransferred == w.transfers[i].bytesTransferred + |Received(es)|
      && w'.transfers[i].localPath == w.transfers[i].localPath
      && w'.transfers[i].localPath in w'.files
      && w'.files[w'.transfers[i].localPath] == LocalFile(w) + Received(es)
  {
    DownloadConservesData(w, es);
    var w1 := Run(w, es);
    var e := Incoming(eof, fails);
    FinishedStaysFinished(w, es);
    StepKeepsInv(w1, e);
    RunAppend(w, es, [e]);
    assert Run(w1, [e]) == Step(w1, e) by {
      assert [e][1..] == [] && [e][0] == e;
      assert Run(Step(w1, e), []) == Step(w1, e);
    }
    var i := w.slot.value;
    assert TransferOk(w1.transfers[i], true, w1.files);
  }

  // ------------------------------------------------------------------------------------------
  // End to end
  // ------------------------------------------------------------------------------------------

  predicate Significant(m: Message) {
    m.subCommand == IND_FILE_DATA || m.subCommand == IND_FILE_EOF || m.subCommand == IND_FILE_ERROR
  }

  /** The messages a receiver acts on: data, end of file and error. */
  function SignificantOnly(ms: seq<Message>): seq<Message> {
    if ms == [] then []
    else (if Significant(ms[0]) then [ms[0]] else []) + SignificantOnly(ms[1..])
  }

  /** The messages arriving one after another, every write succeeding. */
  function Arrivals(ms: seq<Message>): (es: seq<Event>)
    ensures |es| == |ms|
  {
    if ms == [] then [] else [Incoming(ms[0], false)] + Arrivals(ms[1..])
  }

  lemma {:induction false} SignificantAppend(a: seq<Message>, b: seq<Message>)
    ensures SignificantOnly(a + b) == SignificantOnly(a) + SignificantOnly(b)
  {
    if a == [] {
      assert a + b == b;
    } else {
      assert (a + b)[1..] == a[1..] + b;
      SignificantAppend(a[1..], b);
      Assoc(if Significant(a[0]) then [a[0]] else [], SignificantOnly(a[1..]), SignificantOnly(b));
    }
  }

  lemma {:induction false} SignificantPlan(name: string, content: seq<byte>)
    ensures SignificantOnly(Plan(name, content)) == DataMessages(content) + [CreateEof()]
  {
    SignificantAppend(UploadRequests(name) + DataMessages(content), [CreateEof()]);
    SignificantAppend(UploadRequests(name), DataMessages(content));
    SignificantData(content);
    assert SignificantOnly([CreateEof()]) == [CreateEof()] + SignificantOnly([]);
    assert SignificantOnly(UploadRequests(name)) == [] by {
      if UploadRequests(name) != [] { assert UploadRequests(name)[1..] == []; }
    }
    assert [] + DataMessages(content) == DataMessages(content);
  }

  lemma {:induction false} SignificantData(content: seq<byte>)
    ensures SignificantOnly(DataMessages(content)) == DataMessages(content)
    decreases |content|
  {
    if content != [] {
      var rest := content[|FirstChunk(content)|..];
      SignificantData(rest);
      assert DataMessages(content)[1..] == DataMessages(rest);
    }
  }

  lemma DataArrives(w: World, data: seq<byte>)
    requires Downloading(w)
    ensures var w' := IncomingStep(w, CreateData(data), false); var i := w.slot.value;
      && Downloading(w') && w'.slot == w.slot
      && w'.transfers[i] == w.transfers[i].(bytesTransferred := w.transfers[i].bytesTransferred + |data|)
      && w'.files == w.files[w.transfers[i].localPath := LocalFile(w) + data]
  {
    StepKeepsInv(w, Incoming(CreateData(data), false));
    assert TransferOk(w.transfers[w.slot.value], true, w.files);
  }

  lemma EofArrives(w: World)
    requires Downloading(w)
    ensures var w' := IncomingStep(w, CreateEof(), false); var i := w.slot.value;
      && Inv(w') && w'.slot.None? && i < |w'.transfers|
      && w'.transfers[i] == w.transfers[i].(handleOpen := false, isActive := false)
      && w'.files == w.files[w.transfers[i].localPath := LocalFile(w)]
  {
    StepKeepsInv(w, Incoming(CreateEof(), false));
    assert TransferOk(w.transfers[w.slot.value], true, w.files);
    assert w.files == w.files[w.transfers[w.slot.value].localPath := LocalFile(w)];
  }

  /**
   * Data messages with any number of messages a receiver ignores in between, then the end of file,
   * then anything: the active download ends up complete and the slot free.
   */
  lemma {:induction false} ArrivalsDeliver(w: World, ms: seq<Message>, content: seq<byte>)
    requires Downloading(w)
    requires SignificantOnly(ms) == DataMessages(content) + [CreateEof()]
    ensures var w' := Run(w, Arrivals(ms)); var i := w.slot.value;
      && w'.slot.None? && i < |w'.transfers|
      && w'.transfers[i] == w.transfers[i].(handleOpen := false, isActive := false,
           bytesTransferred := w.transfers[i].bytesTransferred + |content|)
      && w'.files == w.files[w.transfers[i].localPath := LocalFile(w) + content]
    decreases |ms|
  {
    var m := ms[0];
    var es := Arrivals(ms);
    var i := w.slot.value;
    assert es[0] == Incoming(m, false) && es[1..] == Arrivals(ms[1..]);
    assert TransferOk(w.transfers[i], true, w.files);
    StepKeepsInv(w, es[0]);
    var w1 := IncomingStep(w, m, false);
    NextSignificant(ms, content);
    if !Significant(m) {
      assert w1 == w;
      ArrivalsDeliver(w, ms[1..], content);
    } else if content == [] {
      EofArrives(w);
      ArrivalsIgnored(w1, ms[1..]);
      assert LocalFile(w) + content == LocalFile(w);
    } else {
      var chunk := FirstChunk(content);
      var rest := content[|chunk|..];
      DataArrives(w, chunk);
      ArrivalsDeliver(w1, ms[1..], rest);
      Assoc(LocalFile(w), chunk, rest);
      assert chunk + rest == content;
    }
  }

  /** What comes next among messages whose significant ones are those of an upload. */
  lemma NextSignificant(ms: seq<Message>, content: seq<byte>)
    requires SignificantOnly(ms) == DataMessages(content) + [CreateEof()]
    ensures ms != []
    ensures !Significant(ms[0]) ==> SignificantOnly(ms[1..]) == SignificantOnly(ms)
    ensures Significant(ms[0]) && content == [] ==> ms[0] == CreateEof()
    ensures Significant(ms[0]) && content != [] ==>
      && ms[0] == CreateData(FirstChunk(content))
      && SignificantOnly(ms[1..]) == DataMessages(content[|FirstChunk(content)|..]) + [CreateEof()]
  {
    var head := if Significant(ms[0]) then [ms[0]] else [];
    var tail := SignificantOnly(ms[1..]);
    assert SignificantOnly(ms) == head + tail;
    assert (head + tail)[|head|..] == tail;
    if Significant(ms[0]) {
      assert ms[0] == (DataMessages(content) + [CreateEof()])[0];
      if content != [] {
        var rest := DataMessages(content[|FirstChunk(content)|..]);
        assert DataMessages(content) + [CreateEof()] == [CreateData(FirstChunk(content))] + (rest + [CreateEof()]);
      }
    }
  }

  lemma {:induction false} ArrivalsIgnored(w: World, ms: seq<Message>)
    requires Inv(w) && w.slot.None?
    ensures Run(w, Arrivals(ms)) == w
    decreases |ms|
  {
    if ms != [] {
      assert Arrivals(ms)[1..] == Arrivals(ms[1..]);
      ArrivalsIgnored(w, ms[1..]);
    }
  }

  lemma {:induction false} DataMessagesFit(content: seq<byte>)
    ensures AllFit(DataMessages(content)) && forall m <- DataMessages(content) :: m.subCommand == IND_FILE_DATA
    decreases |content|
  {
    if content != [] {
      DataMessagesFit(content[|FirstChunk(content)|..]);
    }
  }

  /** Everything an upload sends fits its frames exactly when the name is at most 65530 characters. */
  lemma PlanFits(name: string, content: seq<byte>)
    requires IsAscii(name)
    ensures AllFit(Plan(name, content)) <==> |name| < MAX_PAYLOAD
  {
    DataMessagesFit(content);
    var request := CreateUploadRequest(name).value;
    assert request in UploadRequests(name) && request in Plan(name, content);
    assert |request.payload| == |name| + 1;
    forall m <- Plan(name, content) ensures m in UploadRequests(name) || m in DataMessages(content) || m == CreateEof() {}
  }

  /** Of the messages a call hands over in any run, other than errors, only a request can be too long. */
  lemma OnlyNamesOverflow(files: map<string, seq<byte>>, es: seq<Event>, t: nat, m: Message)
    requires t < |Run(Start(files), es).tasks| && m in SentBy(Run(Start(files), es).wire, t)
    requires m.subCommand != IND_FILE_ERROR
    ensures Fits(m) <==>
      |Run(Start(files), es).tasks[t].remoteName| < MAX_PAYLOAD || m.subCommand == IND_FILE_DATA || m.subCommand == IND_FILE_EOF
  {
    RunProgress(Start(files), es);
    var w := Run(Start(files), es);
    var task := w.tasks[t];
    var sent := SentBy(w.wire, t);
    assert Progress(task, sent);
    if task.direction == Upload {
      UploadHandsOver(task, sent);
      InBound(task, m);
      if task.content.Some? { DataMessagesFit(task.content.value); }
    } else {
      assert m == CreateDownloadRequest(task.remoteName).value;
    }
  }

  /** Everything a sender handed over is part of what it may hand over, or an error message. */
  lemma UploadHandsOver(task: Task, sent: seq<Message>)
    requires task.direction == Upload && Progress(task, sent)
    ensures forall m <- sent :: m in Bound(task) || m.subCommand == IND_FILE_ERROR
  {
    if task.pc.AwaitDataSent? {
      assert sent + (DataMessages(task.pc.rest) + [CreateEof()]) == Bound(task);
    }
    if Interrupted(Bound(task), sent) && !(sent <= Bound(task)) {
      forall m <- sent ensures m in Bound(task) || m.subCommand == IND_FILE_ERROR {
        assert m in sent[..|sent| - 1] || m == sent[|sent| - 1];
      }
    }
  }

  /** The error message of a sender fits exactly when the text of what went wrong is short enough. */
  lemma ErrorOverflow(w: World, t: nat, text: string)
    requires Inv(w) && t < |w.tasks| && IsAscii(text)
    requires w.tasks[t].pc.AwaitUploadSent? || w.tasks[t].pc.AwaitDataSent? || w.tasks[t].pc.AwaitEofSent?
    ensures var w' := Step(w, Resume(t, Some(text)));
      && |w'.wire| == |w.wire| + 1 && w'.wire[|w.wire|].1.subCommand == IND_FILE_ERROR
      && (Fits(w'.wire[|w.wire|].1) <==> |text| <= MAX_PAYLOAD)
  {
    FailureIsSent(w, t, text);
  }

  lemma InBound(task: Task, m: Message)
    requires m in Bound(task)
    ensures m in UploadRequests(task.remoteName) || m == CreateEof()
      || (task.content.Some? && m in DataMessages(task.content.value))
  {
  }

  /** The active download has received the rest of its file: nothing else has changed but the slot. */
  ghost predicate Completed(v: World, v': World, content: seq<byte>)
    requires Downloading(v)
  {
    var i := v.slot.value;
    && v'.slot.None?
    && v'.transfers == v.transfers[i := v.transfers[i].(handleOpen := false, isActive := false,
         bytesTransferred := v.transfers[i].bytesTransferred + |content|)]
    && v'.files == v.files[v.transfers[i].localPath := LocalFile(v) + content]
  }

  /**
   * End to end. In any run of a sending endpoint take a `send` that returned: cutting its frames at
   * their length fields recovers what it sent exactly when the name is at most 65530 characters;
   * and what was recovered, arriving at an endpoint with an active download with ignorable messages
   * inserted anywhere, completes the download: the local file grows by the content that was read,
   * the count by its length, the handle is closed and the slot is free.
   */
  lemma SendDeliversFile(files: map<string, seq<byte>>, es: seq<Event>, t: nat, v: World, ms: seq<Message>)
    requires t < |Run(Start(files), es).tasks|
    requires Run(Start(files), es).tasks[t].direction == Upload
    requires Run(Start(files), es).tasks[t].pc.Returned?
    requires Downloading(v)
    ensures var w := Run(Start(files), es); var task := w.tasks[t];
      var frames := FrameAll(SentBy(w.wire, t));
      && task.content.Some?
      && (CutAll(frames) == Success(SentBy(w.wire, t)) <==> |task.remoteName| < MAX_PAYLOAD)
      && (|task.remoteName| < MAX_PAYLOAD && SignificantOnly(ms) == SignificantOnly(CutAll(frames).value) ==>
            Completed(v, Run(v, Arrivals(ms)), task.content.value))
  {
    EverySendIsAPlan(files, es, t);
    var task := Run(Start(files), es).tasks[t];
    PlanArrives(SentBy(Run(Start(files), es).wire, t), task.remoteName, task.content.value, v, ms);
  }

  /** The messages of a complete upload, as frames, arriving at an active download. */
  lemma PlanArrives(sent: seq<Message>, name: string, content: seq<byte>, v: World, ms: seq<Message>)
    requires IsAscii(name) && sent == Plan(name, content) && Downloading(v)
    ensures CutAll(FrameAll(sent)) == Success(sent) <==> |name| < MAX_PAYLOAD
    ensures |name| < MAX_PAYLOAD && SignificantOnly(ms) == SignificantOnly(CutAll(FrameAll(sent)).value) ==>
      Completed(v, Run(v, Arrivals(ms)), content)
  {
    CutAllExact(FrameAll(sent), sent);
    PlanFits(name, content);
    if |name| < MAX_PAYLOAD && SignificantOnly(ms) == SignificantOnly(sent) {
      PlanDelivers(v, ms, name, content);
    }
  }

  lemma PlanDelivers(v: World, ms: seq<Message>, name: string, content: seq<byte>)
    requires Downloading(v) && SignificantOnly(ms) == SignificantOnly(Plan(name, content))
    ensures Completed(v, Run(v, Arrivals(ms)), content)
  {
    SignificantPlan(name, content);
    ArrivalsDeliver(v, ms, content);
    ArrivalsTouchOne(v, ms);
  }

  /** Arrivals create no transfer and change only the active one. */
  lemma {:induction false} ArrivalsTouchOne(v: World, ms: seq<Message>)
    requires Downloading(v)
    ensures |Run(v, Arrivals(ms)).transfers| == |v.transfers|
    ensures Run(v, Arrivals(ms)).transfers
         == v.transfers[v.slot.value := Run(v, Arrivals(ms)).transfers[v.slot.value]]
    decreases |ms|
  {
    FinishedStaysFinished(v, Arrivals(ms));
    ArrivalsKeepCount(v, ms);
    var v' := Run(v, Arrivals(ms));
    forall i | 0 <= i < |v.transfers| && i != v.slot.value ensures v'.transfers[i] == v.transfers[i] {
      assert TransferOk(v.transfers[i], false, v.files);
    }
  }

  lemma IncomingKeepsCount(v: World, m: Message)
    requires SlotInRange(v)
    ensures |IncomingStep(v, m, false).transfers| == |v.transfers|
  {
  }

  lemma {:induction false} ArrivalsKeepCount(v: World, ms: seq<Message>)
    requires Inv(v)
    ensures |Run(v, Arrivals(ms)).transfers| == |v.transfers|
    decreases |ms|
  {
    if ms != [] {
      var e := Incoming(ms[0], false);
      assert Arrivals(ms)[0] == e && Arrivals(ms)[1..] == Arrivals(ms[1..]);
      StepKeepsInv(v, e);
      IncomingKeepsCount(v, ms[0]);
      ArrivalsKeepCount(Step(v, e), ms[1..]);
    }
  }

  // ------------------------------------------------------------------------------------------
  // Who can take the active transfer away
  // ------------------------------------------------------------------------------------------

  /** An event that is neither a segment of call `d` nor the end the host or the disk puts to a transfer. */
  predicate Foreign(e: Event, d: nat) {
    match e
    case BeginSend(_, _) => true
    case BeginReceive(_, _, _) => true
    case Resume(t, _) => t != d
    case Wake(t) => t != d
    case Expire(t) => t != d
    case Incoming(m, writeFails) =>
      m.subCommand != IND_FILE_EOF && m.subCommand != IND_FILE_ERROR
      && !(writeFails && m.subCommand == IND_FILE_DATA)
  }

  predicate AllForeign(es: seq<Event>, d: nat) {
    forall e <- es :: Foreign(e, d)
  }

  ghost predicate OthersExited(w: World, d: nat) {
    forall t :: 0 <= t < |w.tasks| && t != d ==> Exited(w.tasks[t])
  }

  lemma ForeignStepKeepsSlot(w: World, e: Event, d: nat)
    requires Inv(w) && w.slot.Some? && OthersExited(w, d) && Foreign(e, d) && d < |w.tasks|
    ensures Step(w, e).slot == w.slot && OthersExited(Step(w, e), d) && d < |Step(w, e).tasks|
  {
  }

  lemma {:induction false} ForeignRunKeepsSlot(w: World, es: seq<Event>, d: nat)
    requires Inv(w) && w.slot.Some? && OthersExited(w, d) && d < |w.tasks|
    requires AllForeign(es, d)
    ensures Run(w, es).slot == w.slot
    decreases |es|
  {
    if es != [] {
      assert es[0] in es;
      ForeignStepKeepsSlot(w, es[0], d);
      StepKeepsInv(w, es[0]);
      ForeignRunKeepsSlot(Step(w, es[0]), es[1..], d);
    }
  }

  /** The one event by which a suspended call takes away whatever transfer is in the slot. */
  function Interference(w: World, t: nat): Event
    requires t < |w.tasks|
  {
    if w.tasks[t].pc.AwaitCompletion? then Expire(t) else Resume(t, Some(""))
  }

  lemma InterferenceFreesSlot(w: World, t: nat)
    requires Inv(w) && t < |w.tasks| && !Exited(w.tasks[t])
    ensures Step(w, Interference(w, t)).slot.None?
  {
  }

  /**
   * Every call cleans up whatever transfer is in the slot, not the one it created. So the active
   * transfer of call `d` is safe from other calls, in every interleaving, exactly when no other
   * call is suspended; a caller can check that before starting `d`.
   */
  lemma SlotSafeExactly(w: World, d: nat)
    requires Inv(w) && w.slot.Some? && d < |w.tasks|
    ensures (forall es :: AllForeign(es, d) ==> Run(w, es).slot == w.slot) <==> OthersExited(w, d)
  {
    if OthersExited(w, d) {
      forall es | AllForeign(es, d) ensures Run(w, es).slot == w.slot {
        ForeignRunKeepsSlot(w, es, d);
      }
    } else {
      var t :| 0 <= t < |w.tasks| && t != d && !Exited(w.tasks[t]);
      var e := Interference(w, t);
      InterferenceFreesSlot(w, t);
      StepKeepsInv(w, e);
      assert Run(w, [e]) == Step(w, e) by {
        assert [e][1..] == [] && [e][0] == e;
        assert Run(Step(w, e), []) == Step(w, e);
      }
      var es := [e];
      assert AllForeign(es, d) && Run(w, es).slot != w.slot;
    }
  }

  // ------------------------------------------------------------------------------------------
  // A download that nothing takes away
  // ------------------------------------------------------------------------------------------

  /** Call `d` owns the active transfer and is on its way to wait for it, or waiting. */
  ghost predicate Awaiting(w: World, d: nat) {
    && d < |w.tasks| && w.slot.Some? && w.tasks[d].owner == w.slot
    && (w.tasks[d].pc.AwaitDownloadSent?
        || (w.tasks[d].pc.AwaitCompletion? && w.completion == Some(w.tasks[d].pc.event)))
  }

  /**
   * Anything but a failure or a timeout of call `d` itself and the end the host or the disk puts to
   * a transfer. What the other calls do, and that call `d` goes on, is all included.
   */
  predicate Harmless(e: Event, d: nat) {
    match e
    case Resume(t, fault) => t == d ==> fault.None?
    case Expire(t) => t != d
    case Wake(_) => true
    case _ => Foreign(e, d)
  }

  predicate AllHarmless(es: seq<Event>, d: nat) {
    forall e <- es :: Harmless(e, d)
  }

  lemma HarmlessStep(w: World, e: Event, d: nat)
    requires Inv(w) && Awaiting(w, d) && OthersExited(w, d) && Harmless(e, d)
    ensures var w' := Step(w, e); Awaiting(w', d) && OthersExited(w', d) && w'.slot == w.slot
  {
    assert TaskOk(w, w.tasks[d]);
    if Foreign(e, d) {
      ForeignStepKeepsSlot(w, e, d);
      ForeignStepKeepsWait(w, e, d);
    }
  }

  lemma ForeignStepKeepsWait(w: World, e: Event, d: nat)
    requires Inv(w) && Awaiting(w, d) && OthersExited(w, d) && Foreign(e, d)
    ensures Step(w, e).tasks[..|w.tasks|] == w.tasks && Step(w, e).completion == w.completion
  {
  }

  lemma {:induction false} HarmlessRun(w: World, es: seq<Event>, d: nat)
    requires Inv(w) && Awaiting(w, d) && OthersExited(w, d) && AllHarmless(es, d)
    ensures Awaiting(Run(w, es), d) && Run(w, es).slot == w.slot
    decreases |es|
  {
    if es != [] {
      assert es[0] in es;
      HarmlessStep(w, es[0], d);
      StepKeepsInv(w, es[0]);
      HarmlessRun(Step(w, es[0]), es[1..], d);
    }
  }

  /** The end of file arrives: a call that waits can return, and one that does not wait yet is not told. */
  lemma EofWakes(w: World, d: nat, eof: Message)
    requires Inv(w) && Awaiting(w, d) && eof.subCommand == IND_FILE_EOF
    ensures var w' := Step(w, Incoming(eof, false));
      Inv(w') && (Step(w', Wake(d)).tasks[d].pc.Returned? <==> w.tasks[d].pc.AwaitCompletion?)
  {
    StepKeepsInv(w, Incoming(eof, false));
  }

  /** Call `d` received `data`: its transfer is over and its local file holds just that. */
  ghost predicate Delivered(w: World, i: nat, data: seq<byte>) {
    && w.slot.None? && i < |w.transfers| && !w.transfers[i].handleOpen
    && w.transfers[i].localPath in w.files && w.files[w.transfers[i].localPath] == data
    && w.transfers[i].bytesTransferred == |data|
  }

  /**
   * A download started while no other call is suspended receives its file in every interleaving in
   * which its own call neither fails nor times out: what arrives before the end of file is what the
   * local file holds. The call can return then exactly when it had got as far as waiting.
   */
  lemma UndisturbedDownload(w: World, es: seq<Event>, d: nat, eof: Message)
    requires Downloading(w) && Awaiting(w, d) && OthersExited(w, d) && LocalFile(w) == []
    requires AllHarmless(es, d) && eof.subCommand == IND_FILE_EOF
    ensures var w' := Run(w, es + [Incoming(eof, false)]);
      && Delivered(w', w.slot.value, Received(es))
      && d < |w'.tasks| && d < |Run(w, es).tasks|
      && (Step(w', Wake(d)).tasks[d].pc.Returned? <==> Run(w, es).tasks[d].pc.AwaitCompletion?)
  {
    HarmlessRun(w, es, d);
    EofCompletesDownload(w, es, eof, false);
    assert TransferOk(w.transfers[w.slot.value], true, w.files);
    assert [] + Received(es) == Received(es);
    EofWakes(Run(w, es), d, eof);
    RunSnoc(w, es, Incoming(eof, false));
  }

  /** The same from the beginning of the call: `receive` is called while no call is suspended. */
  lemma ReceiveDelivers(w0: World, name: string, path: string, es: seq<Event>, eof: Message)
    requires Inv(w0) && w0.slot.None? && IsAscii(name)
    requires forall t :: 0 <= t < |w0.tasks| ==> Exited(w0.tasks[t])
    requires AllHarmless(es, |w0.tasks|) && eof.subCommand == IND_FILE_EOF
    ensures var d := |w0.tasks|; var w := Run(Requested(w0, name, path), es);
      var w' := Run(Requested(w0, name, path), es + [Incoming(eof, false)]);
      && Delivered(w', |w0.transfers|, Received(es))
      && d < |w'.tasks| && d < |w.tasks|
      && (Step(w', Wake(d)).tasks[d].pc.Returned? <==> w.tasks[d].pc.AwaitCompletion?)
  {
    UndisturbedDownload(Requested(w0, name, path), es, |w0.tasks|, eof);
  }

  /** The state once `receive` has sent its request. */
  ghost function Requested(w0: World, name: string, path: string): (w: World)
    requires Inv(w0) && w0.slot.None? && IsAscii(name)
    requires forall t :: 0 <= t < |w0.tasks| ==> Exited(w0.tasks[t])
    ensures Downloading(w) && Awaiting(w, |w0.tasks|) && OthersExited(w, |w0.tasks|)
    ensures w.slot == Some(|w0.transfers|) && LocalFile(w) == []
  {
    StepKeepsInv(w0, BeginReceive(name, path, true));
    Step(w0, BeginReceive(name, path, true))
  }

  /** The messages that arrive in a run, in order. */
  function Arriving(es: seq<Event>): seq<Message> {
    if es == [] then [] else (if es[0].Incoming? then [es[0].message] else []) + Arriving(es[1..])
  }

  function Payloads(ms: seq<Message>): seq<byte> {
    if ms == [] then []
    else (if ms[0].subCommand == IND_FILE_DATA then ms[0].payload else []) + Payloads(ms[1..])
  }

  lemma {:induction false} ReceivedPayloads(es: seq<Event>)
    ensures Received(es) == Payloads(SignificantOnly(Arriving(es)))
  {
    if es != [] {
      ReceivedPayloads(es[1..]);
      if es[0].Incoming? {
        SignificantAppend([es[0].message], Arriving(es[1..]));
        OneSignificant(es[0].message, SignificantOnly(Arriving(es[1..])));
      } else {
        assert Arriving(es) == Arriving(es[1..]);
      }
    }
  }

  lemma OneSignificant(m: Message, rest: seq<Message>)
    ensures Payloads(SignificantOnly([m]) + rest)
         == (if m.subCommand == IND_FILE_DATA then m.payload else []) + Payloads(rest)
  {
    assert [m][1..] == [];
    if Significant(m) {
      assert SignificantOnly([m]) == [m] + [];
      assert ([m] + rest)[1..] == rest;
    } else {
      assert SignificantOnly([m]) + rest == rest;
    }
  }

  lemma {:induction false} PayloadsOfContent(content: seq<byte>)
    ensures Payloads(DataMessages(content)) == content
    decreases |content|
  {
    if content != [] {
      var chunk := FirstChunk(content);
      PayloadsOfContent(content[|chunk|..]);
      PayloadsBehind(chunk, DataMessages(content[|chunk|..]));
      assert chunk + content[|chunk|..] == content;
    }
  }

  lemma PayloadsBehind(chunk: seq<byte>, rest: seq<Message>)
    ensures Payloads([CreateData(chunk)] + rest) == chunk + Payloads(rest)
  {
    assert ([CreateData(chunk)] + rest)[1..] == rest;
  }

  /**
   * From `send` on one side to `receive` on the other, with everything else going on at both. Take a
   * `send` that returned in any run, and any run that begins with a call of `receive` while no call is
   * suspended and in which that call neither fails nor times out. If what arrives there, up to the end
   * of file, is what cutting the sender's frames recovers, with ignorable messages anywhere, the
   * download ends with the content the sender read.
   */
  lemma SendReachesReceive(files: map<string, seq<byte>>, sending: seq<Event>, t: nat,
                           w0: World, name: string, path: string, es: seq<Event>, eof: Message)
    requires t < |Run(Start(files), sending).tasks|
    requires Run(Start(files), sending).tasks[t].direction == Upload
    requires Run(Start(files), sending).tasks[t].pc.Returned?
    requires |Run(Start(files), sending).tasks[t].remoteName| < MAX_PAYLOAD
    requires Inv(w0) && w0.slot.None? && IsAscii(name)
    requires forall t :: 0 <= t < |w0.tasks| ==> Exited(w0.tasks[t])
    requires AllHarmless(es, |w0.tasks|) && eof.subCommand == IND_FILE_EOF
    requires var frames := FrameAll(SentBy(Run(Start(files), sending).wire, t));
      CutAll(frames).Success? ==> SignificantOnly(Arriving(es)) + [eof] == SignificantOnly(CutAll(frames).value)
    ensures var task := Run(Start(files), sending).tasks[t];
      && task.content.Some?
      && Delivered(Run(Requested(w0, name, path), es + [Incoming(eof, false)]), |w0.transfers|, task.content.value)
  {
    EverySendIsAPlan(files, sending, t);
    var task := Run(Start(files), sending).tasks[t];
    PlanIsReceived(SentBy(Run(Start(files), sending).wire, t), task.remoteName, task.content.value, es, eof);
    ReceiveDelivers(w0, name, path, es, eof);
  }

  lemma PlanIsReceived(sent: seq<Message>, name: string, content: seq<byte>, es: seq<Event>, eof: Message)
    requires IsAscii(name) && |name| < MAX_PAYLOAD && sent == Plan(name, content)
    requires CutAll(FrameAll(sent)).Success? ==>
      SignificantOnly(Arriving(es)) + [eof] == SignificantOnly(CutAll(FrameAll(sent)).value)
    ensures Received(es) == content
  {
    PlanFits(name, content);
    CutAllExact(FrameAll(sent), sent);
    SignificantPlan(name, content);
    var ms := SignificantOnly(Arriving(es));
    assert (ms + [eof])[..|ms|] == ms;
    assert (DataMessages(content) + [CreateEof()])[..|DataMessages(content)|] == DataMessages(content);
    ReceivedPayloads(es);
    PayloadsOfContent(content);
  }

  // ------------------------------------------------------------------------------------------
  // Runs in which the design fails
  // ------------------------------------------------------------------------------------------

  lemma RunSnoc(w: World, es: seq<Event>, e: Event)
    requires Inv(w)
    ensures Run(w, es + [e]) == Step(Run(w, es), e)
  {
    var w1 := Run(w, es);
    RunAppend(w, es, [e]);
    StepKeepsInv(w1, e);
    assert [e][0] == e && [e][1..] == [];
    assert Run(Step(w1, e), []) == Step(w1, e);
  }

  /** An upload the host ends early, a download started before the upload notices, and the upload failing. */
  function StolenDownload(): seq<Event> {
    [BeginSend("up", "U")] + [Incoming(CreateEof(), false)] + [BeginReceive("D", "down", true)]
    + [Resume(1, None)] + [Resume(0, Some("reset"))]
  }

  /**
   * A send whose upload the host has already ended cleans up a download that started meanwhile: the
   * local file is removed, the call is left waiting for an event nothing has set, and whatever the
   * host sends from then on is dropped.
   */
  lemma CleanupStealsDownload(ms: seq<Message>)
    ensures var w := Run(Start(map["up" := [1]]), StolenDownload());
      && |w.transfers| == 2 && w.transfers[1].direction == Download && !w.transfers[1].isActive
      && "down" !in w.files
      && |w.tasks| == 2 && w.tasks[1].pc.AwaitCompletion? && w.tasks[1].pc.event !in w.fired
      && Run(w, Arrivals(ms)) == w
  {
    var w0 := Start(map["up" := [1]]);
    var es1 := [BeginSend("up", "U")];
    var es2 := es1 + [Incoming(CreateEof(), false)];
    var es3 := es2 + [BeginReceive("D", "down", true)];
    var es4 := es3 + [Resume(1, None)];
    assert IsAscii("U") && IsAscii("D");
    assert [] + es1 == es1;
    RunSnoc(w0, [], es1[0]);
    var w1 := Run(w0, es1);
    assert w1.slot == Some(0) && |w1.tasks| == |w1.transfers| == 1 && w1.tasks[0].pc == AwaitUploadSent;
    RunSnoc(w0, es1, Incoming(CreateEof(), false));
    var w2 := Run(w0, es2);
    assert w2.slot == None && w2.tasks == w1.tasks && |w2.transfers| == 1 && w2.fired == {} && w2.nextEvent == 0;
    RunSnoc(w0, es2, BeginReceive("D", "down", true));
    var w3 := Run(w0, es3);
    StealingStep(w2, w3);
    RunSnoc(w0, es3, Resume(1, None));
    var w4 := Run(w0, es4);
    RunSnoc(w0, es4, Resume(0, Some("reset")));
    FailingStep(w3, w4, Run(w0, StolenDownload()));
    ArrivalsIgnored(Run(w0, StolenDownload()), ms);
  }

  lemma FailingStep(w3: World, w4: World, w5: World)
    requires SlotInRange(w3) && w3.slot == Some(1) && |w3.tasks| == |w3.transfers| == 2 && w3.fired == {}
    requires w3.tasks[0].pc == AwaitUploadSent && w3.tasks[1].pc == AwaitDownloadSent
    requires w3.transfers[1] == Transfer(Download, "D", "down", true, true, 0)
    requires w4 == Step(w3, Resume(1, None)) && SlotInRange(w4) && w5 == Step(w4, Resume(0, Some("reset")))
    ensures |w5.transfers| == 2 && w5.transfers[1].direction == Download && !w5.transfers[1].isActive
    ensures "down" !in w5.files && w5.slot.None?
    ensures |w5.tasks| == 2 && w5.tasks[1].pc.AwaitCompletion? && w5.tasks[1].pc.event !in w5.fired
  {
    assert w4.slot == Some(1) && w4.transfers == w3.transfers && w4.fired == {};
    assert w4.tasks[0].pc == AwaitUploadSent && w4.tasks[1].pc.AwaitCompletion?;
    assert w5.slot.None? && w5.tasks[1] == w4.tasks[1];
  }

  lemma StealingStep(w2: World, w3: World)
    requires Inv(w2) && w2.slot == None && |w2.tasks| == |w2.transfers| == 1 && w2.tasks[0].pc == AwaitUploadSent
    requires w2.fired == {} && w3 == Step(w2, BeginReceive("D", "down", true))
    ensures w3.slot == Some(1) && |w3.tasks| == |w3.transfers| == 2 && w3.fired == {}
    ensures w3.tasks[0] == w2.tasks[0] && w3.tasks[1].pc == AwaitDownloadSent
    ensures w3.transfers[1] == Transfer(Download, "D", "down", true, true, 0)
  {
    assert IsAscii("D");
  }

  // ------------------------------------------------------------------------------------------
  // Which receivers can still be woken
  // ------------------------------------------------------------------------------------------

  lemma {:induction false} ForgottenEventNeverFires(w: World, es: seq<Event>, e: nat)
    requires Inv(w) && e < w.nextEvent && e !in w.fired && w.completion != Some(e)
    ensures e !in Run(w, es).fired
    decreases |es|
  {
    if es != [] {
      StepForgets(w, es[0], e);
      StepKeepsInv(w, es[0]);
      ForgottenEventNeverFires(Step(w, es[0]), es[1..], e);
    }
  }

  lemma StepForgets(w: World, x: Event, e: nat)
    requires Inv(w) && e < w.nextEvent && e !in w.fired && w.completion != Some(e)
    ensures var w' := Step(w, x); e < w'.nextEvent && e !in w'.fired && w'.completion != Some(e)
  {
    if x.Resume? && x.task < |w.tasks| {
      ResumeForgets(w, x.task, x.fault, e);
    }
  }

  lemma ResumeForgets(w: World, t: nat, fault: Option<string>, e: nat)
    requires Inv(w) && t < |w.tasks| && e < w.nextEvent && e !in w.fired && w.completion != Some(e)
    ensures var w' := ResumeStep(w, t, fault); e < w'.nextEvent && e !in w'.fired && w'.completion != Some(e)
  {
    ResumeSetsNothing(w, t, fault);
  }

  /** Continuing a call sets no event, and stores one only when it is new. */
  lemma ResumeSetsNothing(w: World, t: nat, fault: Option<string>)
    requires SlotInRange(w) && t < |w.tasks|
    ensures var w' := ResumeStep(w, t, fault);
      && w'.fired == w.fired && w.nextEvent <= w'.nextEvent
      && (w'.completion == w.completion || w'.completion == None || w'.completion == Some(w.nextEvent))
  {
    forall text ensures SameEvents(w, FailSend(w, t, text)) {}
  }

  predicate SameEvents(w: World, w': World) {
    w'.fired == w.fired && w'.nextEvent == w.nextEvent && w'.completion == w.completion
  }

  /** The run `es` sets event `e`. */
  ghost predicate Fires(w: World, es: seq<Event>, e: nat)
    requires Inv(w)
  {
    e in Run(w, es).fired
  }

  /**
   * Whether a receiver waiting for event `e` can still return is decided by the one attribute that
   * holds the completion event: some continuation sets `e` exactly when it is set already or the
   * attribute still holds it. A receiver that has lost the attribute can only time out.
   */
  lemma CanWakeExactly(w: World, e: nat)
    requires Inv(w) && e < w.nextEvent
    ensures (exists es :: Fires(w, es, e)) <==> e in w.fired || w.completion == Some(e)
  {
    if e in w.fired {
      var none: seq<Event> := [];
      assert Fires(w, none, e);
    } else if w.completion == Some(e) {
      var arrive := Incoming(CreateEof(), false);
      if w.slot.Some? {
        RunSnoc(w, [], arrive);
        assert Fires(w, [] + [arrive], e);
      } else {
        var begin := BeginReceive("", "", true);
        RunSnoc(w, [], begin);
        RunSnoc(w, [] + [begin], arrive);
        assert IsAscii("");
        assert Run(w, [] + [begin]).slot.Some? && Run(w, [] + [begin]).completion == Some(e);
        assert Fires(w, [] + [begin] + [arrive], e);
      }
    } else {
      forall es ensures !Fires(w, es, e) {
        ForgottenEventNeverFires(w, es, e);
      }
    }
  }

  /**
   * A receiver that returns takes the attribute with it, whoever it belongs to: from then on no
   * other waiting receiver whose event is not set yet can ever return, even when its download
   * completes.
   */
  lemma ReturningSilencesOthers(w: World, t: nat, u: nat, es: seq<Event>)
    requires Inv(w) && t < |w.tasks| && u < |w.tasks|
    requires w.tasks[t].pc.AwaitCompletion? && w.tasks[t].pc.event in w.fired
    requires w.tasks[u].pc.AwaitCompletion? && w.tasks[u].pc.event !in w.fired
    ensures w.tasks[u].pc.event !in Run(w, [Wake(t)] + es).fired
  {
    StepKeepsInv(w, Wake(t));
    assert ([Wake(t)] + es)[1..] == es;
    assert TaskOk(w, w.tasks[u]);
    ForgottenEventNeverFires(Step(w, Wake(t)), es, w.tasks[u].pc.event);
  }

  /**
   * A name outside ASCII makes `send` hand over an error message although it never asked for an
   * upload, which the comments in the code rule out.
   */
  lemma ErrorWithoutRequest(w: World, localPath: string, remoteName: string)
    requires Inv(w) && w.slot.None? && localPath in w.files
    ensures var w' := Step(w, BeginSend(localPath, remoteName)); var t := |w.tasks|;
      |w'.wire| == |w.wire| + 1
      && (w'.wire[|w.wire|].1.subCommand == IND_FILE_UPLOAD <==> IsAscii(remoteName))
      && (w'.wire[|w.wire|].1.subCommand == IND_FILE_ERROR <==> !IsAscii(remoteName))
  {
    var x := Transfer(Upload, remoteName, localPath, false, true, 0);
    var task := Task(Upload, remoteName, localPath, None, None, AwaitUploadSent);
    AskedOrFailed(Create(w, x, task), |w.tasks|, remoteName);
  }

  lemma AskedOrFailed(w: World, t: nat, remoteName: string)
    requires SlotInRange(w) && t < |w.tasks|
    ensures var w' := AskUpload(w, t, remoteName);
      |w'.wire| == |w.wire| + 1
      && w'.wire[|w.wire|].1.subCommand == if IsAscii(remoteName) then IND_FILE_UPLOAD else IND_FILE_ERROR
  {
    if !IsAscii(remoteName) {
      FailureIsSent(w, t, CODEC_TEXT);
    }
  }

  /** What went wrong is sent when its text is ASCII. */
  lemma FailureIsSent(w: World, t: nat, text: string)
    requires SlotInRange(w) && t < |w.tasks| && IsAscii(text)
    ensures var w' := FailSend(w, t, text);
      |w'.wire| == |w.wire| + 1 && w'.wire[|w.wire|].1 == Message(IND_FILE_ERROR, EncodeAscii(text).value)
  {
  }
}
