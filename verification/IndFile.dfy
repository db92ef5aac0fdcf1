/**
 * The IND$FILE endpoint as the objects that hold its state. Every uninterrupted segment of `send`,
 * `receive` and `handle_incoming_message` is a method, proved to take the step of `IndFileWorld`
 * that the properties of runs are about.
 */
module IndFileEndpoint {
  import opened Common
  import opened IndFileMessages
  import opened IndFileWorld

  /** The local files, as contents by path. */
  class LocalFiles {
    var files: map<string, seq<byte>>

    constructor (files: map<string, seq<byte>>)
      ensures this.files == files
    {
      this.files := files;
    }
  }

  function Messages(wire: seq<(nat, Message)>): (ms: seq<Message>)
    ensures |ms| == |wire|
  {
    if wire == [] then [] else Messages(wire[..|wire| - 1]) + [wire[|wire| - 1].1]
  }

  /** The session as IND$FILE uses it: bytes are appended to what was sent. */
  class Session {
    var output: seq<byte>
    ghost var wire: seq<(nat, Message)>

    ghost predicate Valid()
      reads this
    {
      output == FrameAll(Messages(wire))
    }

    constructor ()
      ensures Valid() && wire == [] && output == []
    {
      output, wire := [], [];
    }

    method SendIndFileMessage(ghost t: nat, m: Message)
      requires Valid()
      modifies this
      ensures Valid() && wire == old(wire) + [(t, m)] && output == old(output) + Frame(m)
    {
      var messageData := ToBytes(m);
      var length := |messageData| + 3;
      var header: seq<byte> := [SF_ID, (length / 256) % 256, length % 256, IND_FILE_SF_TYPE];
      output := output + (header + messageData);
      wire := wire + [(t, m)];
      MessagesSnoc(old(wire), t, m);
      FrameAllAppend(Messages(old(wire)), [m]);
      assert FrameAll([m]) == Frame(m) + [] by { assert [m][1..] == []; }
    }
  }

  /** One transfer and the file handle it owns. */
  class IndFileTransfer {
    const direction: Direction
    const remoteName: string
    const localPath: string
    var handleOpen: bool
    var isActive: bool
    var bytesTransferred: nat

    function View(): Transfer
      reads this
    {
      Transfer(direction, remoteName, localPath, handleOpen, isActive, bytesTransferred)
    }

    constructor (direction: Direction, remoteName: string, localPath: string)
      ensures View() == Transfer(direction, remoteName, localPath, false, true, 0)
    {
      this.direction, this.remoteName, this.localPath := direction, remoteName, localPath;
      handleOpen, isActive, bytesTransferred := false, true, 0;
    }

    /** Open the local file of a download; `opens` says whether the file system lets it. */
    method Start(disk: LocalFiles, opens: bool) returns (ok: bool)
      modifies this, disk
      ensures ok == (direction == Upload || opens)
      ensures View() == if direction == Upload then old(View()) else old(View()).(handleOpen := old(handleOpen) || opens, isActive := old(isActive) && opens)
      ensures disk.files == if direction == Download && opens then old(disk.files)[localPath := []] else old(disk.files)
    {
      ok := true;
      if direction == Download {
        if opens {
          disk.files := disk.files[localPath := []];
          handleOpen := true;
        } else {
          isActive := false;
          ok := false;
        }
      }
    }

    method WriteData(disk: LocalFiles, data: seq<byte>)
      modifies this, disk
      ensures if handleOpen && direction == Download
        then disk.files == Appended(old(disk.files), localPath, data)
          && View() == old(View()).(bytesTransferred := old(bytesTransferred) + |data|)
        else disk.files == old(disk.files) && View() == old(View())
    {
      if handleOpen && direction == Download {
        if localPath in disk.files {
          disk.files := disk.files[localPath := disk.files[localPath] + data];
        }
        bytesTransferred := bytesTransferred + |data|;
      }
    }

    method Finish()
      modifies this
      ensures View() == Finished(old(View()))
    {
      if handleOpen {
        handleOpen := false;
      }
      isActive := false;
    }

    method Abort(disk: LocalFiles)
      modifies this, disk
      ensures View() == Finished(old(View()))
      ensures disk.files == if direction == Download then old(disk.files) - {localPath} else old(disk.files)
    {
      Finish();
      if localPath in disk.files && direction == Download {
        disk.files := disk.files - {localPath};
      }
    }
  }

  ghost function Views(ts: seq<IndFileTransfer>): (vs: seq<Transfer>)
    reads ts
    ensures |vs| == |ts| && forall i :: 0 <= i < |ts| ==> vs[i] == ts[i].View()
  {
    seq(|ts|, i requires 0 <= i < |ts| reads ts => ts[i].View())
  }

  class IndFile {
    const session: Session
    const disk: LocalFiles
    var activeTransfer: IndFileTransfer?
    var completion: Option<nat>
    var fired: set<nat>
    var nextEvent: nat
    ghost var tasks: seq<Task>
    ghost var created: seq<IndFileTransfer>
    ghost var slot: Option<nat>

    ghost function Repr(): set<object>
      reads this
    {
      {this, session, disk} + set x <- created
    }

    ghost predicate Valid()
      reads Repr()
    {
      && session.Valid()
      && (forall i, j :: 0 <= i < j < |created| ==> created[i] != created[j])
      && (activeTransfer == null <==> slot.None?)
      && (slot.Some? ==> slot.value < |created| && activeTransfer == created[slot.value])
    }

    ghost function View(): World
      reads Repr()
    {
      World(Views(created), slot, completion, fired, nextEvent, tasks, disk.files, session.wire)
    }

    constructor (session: Session, disk: LocalFiles)
      requires session.Valid() && session.wire == []
      ensures Valid() && View() == Start(disk.files)
      ensures this.session == session && this.disk == disk && created == []
    {
      this.session, this.disk := session, disk;
      activeTransfer, completion, fired, nextEvent, tasks := null, None, {}, 0, [];
      created, slot := [], None;
    }

    // ----------------------------------------------------------------------------------------
    // Pieces
    // ----------------------------------------------------------------------------------------

    method FinishActive()
      requires Valid()
      modifies Repr()
      ensures Valid() && created == old(created) && View() == FinishSlot(old(View()))
    {
      if activeTransfer != null {
        activeTransfer.Finish();
        activeTransfer := null;
        slot := None;
        assert Views(created) == old(Views(created))[old(slot).value := Finished(old(created[slot.value].View()))];
      }
    }

    method AbortActive()
      requires Valid()
      modifies Repr()
      ensures Valid() && created == old(created) && View() == AbortSlot(old(View()))
    {
      if activeTransfer != null {
        activeTransfer.Abort(disk);
        activeTransfer := null;
        slot := None;
        assert Views(created) == old(Views(created))[old(slot).value := Finished(old(created[slot.value].View()))];
      }
    }

    method SignalCompletion()
      requires Valid()
      modifies this
      ensures Valid() && created == old(created) && View() == Signal(old(View()))
    {
      if completion.Some? {
        fired := fired + {completion.value};
      }
    }

    method SendMessage(ghost t: nat, m: Message)
      requires Valid()
      modifies Repr()
      ensures Valid() && created == old(created) && View() == Hand(old(View()), t, m)
      ensures session.output == old(session.output) + Frame(m)
    {
      session.SendIndFileMessage(t, m);
      assert Views(created) == old(Views(created));
    }

    /** The call that is running stops at `pc`; its frame is kept by the event loop. */
    ghost method SuspendAt(t: nat, pc: Pc)
      requires Valid() && t < |tasks|
      modifies this
      ensures Valid() && created == old(created) && View() == SetPc(old(View()), t, pc)
    {
      tasks := tasks[t := tasks[t].(pc := pc)];
    }

    method FailSending(ghost t: nat, text: string) returns (pc: Pc)
      requires Valid() && t < |tasks|
      modifies Repr()
      ensures Valid() && created == old(created) && |tasks| == |old(tasks)| && tasks[t].pc == pc
      ensures View() == FailSend(old(View()), t, text)
    {
      AbortActive();
      var message := CreateError(text);
      match message {
        case None => pc := Raised;
        case Some(m) =>
          SendMessage(t, m);
          pc := AwaitErrorSent;
      }
      SuspendAt(t, pc);
    }

    method FailReceiving(ghost t: nat)
      requires Valid() && t < |tasks|
      modifies Repr()
      ensures Valid() && created == old(created) && View() == FailReceive(old(View()), t)
    {
      AbortActive();
      completion := None;
      SuspendAt(t, Raised);
    }

    /** Make a new transfer the active one. */
    method Open(direction: Direction, remoteName: string, localPath: string, opens: bool, ghost pc: Pc) returns (ok: bool)
      requires Valid() && activeTransfer == null
      modifies Repr()
      ensures Valid() && ok == (direction == Upload || opens)
      ensures |created| == |old(created)| + 1 && created[..|old(created)|] == old(created) && fresh(created[|old(created)|])
      ensures View() == Create(old(View()),
        Transfer(direction, remoteName, localPath, direction == Download && opens, ok, 0),
        Task(direction, remoteName, localPath, None, None, pc))
    {
      var x := new IndFileTransfer(direction, remoteName, localPath);
      ok := x.Start(disk, opens);
      tasks := tasks + [Task(direction, remoteName, localPath, Some(|created|), None, pc)];
      activeTransfer := x;
      slot := Some(|created|);
      created := created + [x];
      assert Views(created) == old(Views(created)) + [x.View()];
      assert View().files == Create(old(View()),
        Transfer(direction, remoteName, localPath, direction == Download && opens, ok, 0),
        Task(direction, remoteName, localPath, None, None, pc)).files;
    }

    // ----------------------------------------------------------------------------------------
    // Segments
    // ----------------------------------------------------------------------------------------

    /** `send`, up to its first suspension; `pc` says where that is, or how the call ended. */
    method BeginSend(localPath: string, remoteName: string) returns (pc: Pc)
      requires Valid()
      modifies Repr()
      ensures Valid() && fresh(Repr() - old(Repr()))
      ensures |tasks| == |old(tasks)| + 1 && tasks[|old(tasks)|].pc == pc
      ensures View() == Step(old(View()), Event.BeginSend(localPath, remoteName))
    {
      ghost var t := |tasks|;
      if activeTransfer != null || localPath !in disk.files {
        pc := Raised;
        tasks := tasks + [Task(Upload, remoteName, localPath, None, None, Raised)];
      } else {
        ghost var x := Transfer(Upload, remoteName, localPath, false, true, 0);
        ghost var task := Task(Upload, remoteName, localPath, None, None, AwaitUploadSent);
        var _ := Open(Upload, remoteName, localPath, false, AwaitUploadSent);
        assert View() == Create(old(View()), x, task);
        pc := SendUploadRequest(t, remoteName);
      }
    }

    /** `receive`, up to its first suspension. */
    method BeginReceive(remoteName: string, localPath: string, opens: bool) returns (pc: Pc)
      requires Valid()
      modifies Repr()
      ensures Valid() && fresh(Repr() - old(Repr()))
      ensures |tasks| == |old(tasks)| + 1 && tasks[|old(tasks)|].pc == pc
      ensures View() == Step(old(View()), Event.BeginReceive(remoteName, localPath, opens))
    {
      ghost var t := |tasks|;
      if activeTransfer != null {
        pc := Raised;
        tasks := tasks + [Task(Download, remoteName, localPath, None, None, Raised)];
      } else {
        ghost var x := Transfer(Download, remoteName, localPath, opens, opens, 0);
        ghost var task := Task(Download, remoteName, localPath, None, None, AwaitDownloadSent);
        var ok := Open(Download, remoteName, localPath, opens, AwaitDownloadSent);
        assert View() == Create(old(View()), x, task) && ok == opens;
        pc := GoOnReceiving(t, remoteName, ok);
      }
    }

    /** The request of a download goes out if its local file could be opened. */
    method GoOnReceiving(ghost t: nat, remoteName: string, isOpen: bool) returns (pc: Pc)
      requires Valid() && t < |tasks| && tasks[t].pc == AwaitDownloadSent
      modifies Repr()
      ensures Valid() && created == old(created) && |tasks| == |old(tasks)| && tasks[t].pc == pc
      ensures View() == if isOpen then AskDownload(old(View()), t, remoteName) else FailReceive(old(View()), t)
    {
      if isOpen {
        pc := SendDownloadRequest(t, remoteName);
      } else {
        FailReceiving(t);
        pc := Raised;
      }
    }

    method SendUploadRequest(ghost t: nat, remoteName: string) returns (pc: Pc)
      requires Valid() && t < |tasks| && tasks[t].pc == AwaitUploadSent
      modifies Repr()
      ensures Valid() && created == old(created) && |tasks| == |old(tasks)| && tasks[t].pc == pc
      ensures View() == AskUpload(old(View()), t, remoteName)
    {
      var request := CreateUploadRequest(remoteName);
      match request {
        case None => pc := FailSending(t, CODEC_TEXT);
        case Some(m) =>
          SendMessage(t, m);
          pc := AwaitUploadSent;
      }
    }

    method SendDownloadRequest(ghost t: nat, remoteName: string) returns (pc: Pc)
      requires Valid() && t < |tasks| && tasks[t].pc == AwaitDownloadSent
      modifies Repr()
      ensures Valid() && created == old(created) && |tasks| == |old(tasks)| && tasks[t].pc == pc
      ensures View() == AskDownload(old(View()), t, remoteName)
    {
      var request := CreateDownloadRequest(remoteName);
      match request {
        case None =>
          FailReceiving(t);
          pc := Raised;
        case Some(m) =>
          SendMessage(t, m);
          pc := AwaitDownloadSent;
      }
    }

    /** One turn of the chunk loop of `send`. */
    method ReadAndSend(ghost t: nat, rest: seq<byte>) returns (pc: Pc)
      requires Valid() && t < |tasks|
      modifies Repr()
      ensures Valid() && created == old(created) && |tasks| == |old(tasks)| && tasks[t].pc == pc
      ensures View() == SendNext(old(View()), t, rest)
      ensures session.output == old(session.output)
        + Frame(if rest == [] then CreateEof() else CreateData(FirstChunk(rest)))
    {
      if rest == [] {
        SendMessage(t, CreateEof());
        pc := AwaitEofSent;
      } else {
        var chunk := FirstChunk(rest);
        SendMessage(t, CreateData(chunk));
        pc := AwaitDataSent(rest[|chunk|..]);
      }
      SuspendAt(t, pc);
    }

    /** `send` opens the local file and reads its first chunk. */
    method OpenAndSend(ghost t: nat, localPath: string) returns (pc: Pc)
      requires Valid() && t < |tasks| && localPath in disk.files
      modifies Repr()
      ensures Valid() && created == old(created) && |tasks| == |old(tasks)| && tasks[t].pc == pc
      ensures var w := old(View()); var content := w.files[localPath];
        View() == SendNext(w.(tasks := w.tasks[t := w.tasks[t].(content := Some(content))]), t, content)
    {
      var content := disk.files[localPath];
      ghost var w := View();
      tasks := tasks[t := tasks[t].(content := Some(content))];
      assert View() == w.(tasks := tasks);
      pc := ReadAndSend(t, content);
    }

    /** The `finally` clause of `send`. */
    method CleanUp(ghost t: nat, ghost outcome: Pc)
      requires Valid() && t < |tasks|
      modifies Repr()
      ensures Valid() && created == old(created) && View() == SetPc(FinishSlot(old(View())), t, outcome)
    {
      FinishActive();
      SuspendAt(t, outcome);
    }

    /** `receive` stores a new completion event and waits for it. */
    method AwaitEvent(ghost t: nat) returns (pc: Pc)
      requires Valid() && t < |tasks|
      modifies Repr()
      ensures Valid() && created == old(created) && |tasks| == |old(tasks)| && tasks[t].pc == pc
      ensures var w := old(View());
        View() == SetPc(w.(completion := Some(w.nextEvent), nextEvent := w.nextEvent + 1), t, AwaitCompletion(w.nextEvent))
    {
      var event := nextEvent;
      nextEvent := nextEvent + 1;
      completion := Some(event);
      pc := AwaitCompletion(event);
      SuspendAt(t, pc);
    }

    /** A call suspended at `pc` continues because the session is done with its message, or has failed. */
    method Resume(ghost t: nat, pc: Pc, localPath: string, fault: Option<string>) returns (next: Pc)
      requires Valid() && t < |tasks| && tasks[t].pc == pc && tasks[t].localPath == localPath
      modifies Repr()
      ensures Valid() && created == old(created) && |tasks| == |old(tasks)| && tasks[t].pc == next
      ensures View() == Step(old(View()), Event.Resume(t, fault))
    {
      next := pc;
      match pc {
        case AwaitUploadSent =>
          if fault.Some? {
            next := FailSending(t, fault.value);
          } else if localPath !in disk.files {
            next := FailSending(t, MissingFileText(localPath));
          } else {
            next := OpenAndSend(t, localPath);
          }
        case AwaitDataSent(rest) =>
          if fault.Some? { next := FailSending(t, fault.value); } else { next := ReadAndSend(t, rest); }
        case AwaitEofSent =>
          if fault.Some? {
            next := FailSending(t, fault.value);
          } else {
            CleanUp(t, Returned);
            next := Returned;
          }
        case AwaitErrorSent =>
          CleanUp(t, Raised);
          next := Raised;
        case AwaitDownloadSent =>
          if fault.Some? {
            FailReceiving(t);
            next := Raised;
          } else {
            next := AwaitEvent(t);
          }
        case _ =>
      }
    }

    /** A receiver waiting for `event` continues if that was set. */
    method Wake(ghost t: nat, event: nat) returns (woken: bool)
      requires Valid() && t < |tasks| && tasks[t].pc == AwaitCompletion(event)
      modifies Repr()
      ensures Valid() && created == old(created) && View() == Step(old(View()), Event.Wake(t))
      ensures woken <==> event in old(fired)
    {
      woken := event in fired;
      if woken {
        completion := None;
        SuspendAt(t, Returned);
      }
    }

    /** A waiting receiver continues because its timeout ran out. */
    method Expire(ghost t: nat)
      requires Valid() && t < |tasks| && tasks[t].pc.AwaitCompletion?
      modifies Repr()
      ensures Valid() && created == old(created) && View() == Step(old(View()), Event.Expire(t))
    {
      FailReceiving(t);
    }

    method HandleIncomingMessage(m: Message, writeFails: bool)
      requires Valid()
      modifies Repr()
      ensures Valid() && created == old(created) && View() == Step(old(View()), Incoming(m, writeFails))
    {
      if m.subCommand == IND_FILE_DATA {
        if activeTransfer != null {
          if writeFails && activeTransfer.handleOpen {
            AbortActive();
            SignalCompletion();
          } else {
            ghost var x := activeTransfer.View();
            activeTransfer.WriteData(disk, m.payload);
            assert Views(created) == old(Views(created))[slot.value := activeTransfer.View()];
          }
        }
      } else if m.subCommand == IND_FILE_EOF {
        if activeTransfer != null {
          FinishActive();
          SignalCompletion();
        }
      } else if m.subCommand == IND_FILE_ERROR {
        if activeTransfer != null {
          AbortActive();
          SignalCompletion();
        }
      }
    }

    /** The entry point of the structured field parser: undecodable data is dropped. */
    method HandleIncomingData(data: seq<byte>, writeFails: bool)
      requires Valid()
      modifies Repr()
      ensures Valid() && created == old(created)
      ensures View() == if data == [] then old(View())
                        else Step(old(View()), Incoming(FromBytes(data).value, writeFails))
    {
      var message := FromBytes(data);
      if message.Success? {
        HandleIncomingMessage(message.value, writeFails);
      }
    }

    /**
     * A whole `send` that nothing interferes with: the session accepts every message and no other
     * call or incoming message comes in between. It ends, and unless it is refused at once or the
     * name cannot be encoded, the request, the file in chunks and the end of file are what it sent.
     */
    method Send(localPath: string, remoteName: string) returns (ok: bool)
      requires Valid() && Inv(View())
      modifies Repr()
      ensures Valid() && Inv(View())
      ensures ok <==> old(activeTransfer) == null && localPath in old(disk.files) && IsAscii(remoteName)
      ensures ok ==>
        && activeTransfer == null && disk.files == old(disk.files)
        && session.output == old(session.output) + FrameAll(Plan(remoteName, old(disk.files)[localPath]))
      ensures var t := |old(tasks)|;
        |tasks| == t + 1 && tasks[..t] == old(tasks) && tasks[t].pc == if ok then Returned else Raised
    {
      ghost var w0 := View();
      ghost var t := |tasks|;
      StepKeepsInv(w0, Event.BeginSend(localPath, remoteName));
      UndisturbedBegins(w0, localPath, remoteName);
      var pc := BeginSend(localPath, remoteName);
      while !pc.Returned? && !pc.Raised?
        invariant Valid() && Inv(View()) && fresh(Repr() - old(Repr()))
        invariant Undisturbed(View(), w0, localPath, remoteName) && tasks[t].pc == pc
        decreases Stage(pc), Unread(pc)
      {
        StepKeepsInv(View(), Event.Resume(t, None));
        UndisturbedResumes(View(), w0, localPath, remoteName);
        pc := Resume(t, pc, localPath, None);
      }
      ok := pc.Returned?;
      if ok {
        FrameAllAppend(Messages(w0.wire), Plan(remoteName, w0.files[localPath]));
      }
    }
  }

  /** How many stages an undisturbed sender has left, and how much of its file in the longest one. */
  ghost function Stage(pc: Pc): nat {
    match pc
    case AwaitUploadSent => 3
    case AwaitDataSent(_) => 2
    case AwaitEofSent => 1
    case AwaitErrorSent => 1
    case _ => 0
  }

  ghost function Unread(pc: Pc): nat {
    if pc.AwaitDataSent? then |pc.rest| else 0
  }

  /** The send is accepted: the slot is free, the file is there and its name can be encoded. */
  ghost predicate Accepted(w0: World, localPath: string, remoteName: string) {
    w0.slot.None? && localPath in w0.files && IsAscii(remoteName)
  }

  /** What an undisturbed sender has sent at each of its suspension points. */
  ghost predicate Underway(pc: Pc, sent: seq<Message>, before: seq<Message>, name: string, content: seq<byte>) {
    match pc
    case AwaitUploadSent => sent == before + UploadRequests(name)
    case AwaitDataSent(rest) => sent + DataMessages(rest) + [CreateEof()] == before + Plan(name, content)
    case AwaitEofSent => sent == before + Plan(name, content)
    case Returned => sent == before + Plan(name, content)
    case _ => false
  }

  /** A state an undisturbed send begun in `w0` goes through. */
  ghost predicate Undisturbed(w: World, w0: World, localPath: string, remoteName: string) {
    var t := |w0.tasks|;
    && |w.tasks| == t + 1 && w.tasks[..t] == w0.tasks
    && w.tasks[t].localPath == localPath
    && if Accepted(w0, localPath, remoteName) then
         && w.files == w0.files
         && (w.tasks[t].pc.Returned? ==> w.slot.None?)
         && Underway(w.tasks[t].pc, Messages(w.wire), Messages(w0.wire), remoteName, w0.files[localPath])
       else w.tasks[t].pc.AwaitErrorSent? || w.tasks[t].pc.Raised?
  }

  lemma UndisturbedBegins(w0: World, localPath: string, remoteName: string)
    requires Inv(w0)
    ensures Undisturbed(Step(w0, Event.BeginSend(localPath, remoteName)), w0, localPath, remoteName)
  {
    if Accepted(w0, localPath, remoteName) {
      MessagesSnoc(w0.wire, |w0.tasks|, CreateUploadRequest(remoteName).value);
    }
  }

  lemma UndisturbedResumes(w: World, w0: World, localPath: string, remoteName: string)
    requires Inv(w) && Undisturbed(w, w0, localPath, remoteName) && Stage(w.tasks[|w0.tasks|].pc) > 0
    ensures var t := |w0.tasks|; var w' := Step(w, Event.Resume(t, None));
      && Undisturbed(w', w0, localPath, remoteName)
      && (Stage(w'.tasks[t].pc) < Stage(w.tasks[t].pc)
          || (Stage(w'.tasks[t].pc) == Stage(w.tasks[t].pc) && Unread(w'.tasks[t].pc) < Unread(w.tasks[t].pc)))
  {
    var t := |w0.tasks|;
    var task := w.tasks[t];
    if Accepted(w0, localPath, remoteName) && !task.pc.AwaitEofSent? {
      var content := w0.files[localPath];
      if task.pc.AwaitUploadSent? {
        assert Messages(w.wire) + DataMessages(content) + [CreateEof()] == Messages(w0.wire) + Plan(remoteName, content);
        NextUnderway(w.(tasks := w.tasks[t := task.(content := Some(content))]), t, content, Messages(w0.wire), remoteName, content);
      } else {
        NextUnderway(w, t, task.pc.rest, Messages(w0.wire), remoteName, content);
      }
    }
  }

  /** Handing over the next message of a plan. */
  lemma NextUnderway(w: World, t: nat, rest: seq<byte>, before: seq<Message>, name: string, content: seq<byte>)
    requires t < |w.tasks| && Messages(w.wire) + DataMessages(rest) + [CreateEof()] == before + Plan(name, content)
    ensures var w' := SendNext(w, t, rest); Underway(w'.tasks[t].pc, Messages(w'.wire), before, name, content)
  {
    NextOfPlan(Messages(w.wire), rest);
    MessagesSnoc(w.wire, t, if rest == [] then CreateEof() else CreateData(FirstChunk(rest)));
  }

  lemma MessagesSnoc(wire: seq<(nat, Message)>, t: nat, m: Message)
    ensures Messages(wire + [(t, m)]) == Messages(wire) + [m]
  {
    assert (wire + [(t, m)])[..|wire|] == wire;
  }
}
