# Verified models of the pure3270 protocols and editors

This project models the parts of pure3270 that keep state, count bytes or loop over buffers, and proves
what they promise. `dafny verify dfyconfig.toml` checks everything.

- **IND$FILE transfer.** `IndFileMessages` holds messages, structured fields and their 16-bit lengths.
  `IndFileWorld` is the state machine of an endpoint: `send` and `receive` are coroutines, and every
  uninterrupted segment of one, and every incoming message, is one event. `IndFileRuns` proves safety of
  all interleavings and what a sender hands over; `IndFileDelivery` proves conservation and delivery
  from end to end, and says exactly when a transfer is safe from other calls; `IndFileOutcomes` says how
  each call and each message begins and ends. `IndFileEndpoint` has the
  classes that update their fields, each method proved to take the step of the state machine.
- **Connection pool.** `PoolModel` and `PoolRuns` describe the operations under the pool's lock and the
  callers holding its sessions; `ConnectionPools` is the class, including the loop that removes from the
  list it iterates over.
- **Trace reassembly.** `TraceModel` shows that the parser's answer is the only list of records a trace
  can stand for; `TraceFragments` derives the round trip and the agreement with the simpler grouping;
  `TraceProcessors` has the loops.
- **Screen editing.** `ScreenModel` and `ScreenEditing`: typing in both modes, deleting, moving the
  cursor, reading and blanking fields, in place on the buffer.
- **Reconnection** (`Reconnection`) and **resource files** (`ResourceModel` for folding, `ResourceDefinitions`
  for what lines mean, `ResourceLoading`).
- **Data streams.** `DataStreamModel` and `DataStream`: the menu builder and the analyzer as printer
  and parser.
- **LU-LU sessions** (`LuLuSessions`) and the **screen cache** (`ScreenCaches`).

Classes and methods follow the source's own objects and loops. Their contracts equate the new state with
a function of the old one; what the source promises is proved about those functions.

## Where the code does not do what is expected of it

Each of these is proved, with the exact condition under which the code does behave.

- Every cleanup in `send` and `receive` finishes whatever transfer is in the slot, not the one its own call
  created. An active transfer is safe from other calls exactly when no other call is suspended
  (`SlotSafeExactly`); `CleanupStealsDownload` is a run that loses a download.
- There is one attribute for the completion event. A receiver whose event is no longer in it, and is not
  set, can never return (`CanWakeExactly`); every receiver that returns removes the attribute
  (`ReturningSilencesOthers`).
- A comment in `send` says that no error message goes out unless an upload was requested. For a name
  outside ASCII one does (`ErrorWithoutRequest`).
- The repository's own parser takes the first byte of a record for a control character unless it is a write
  command, which has one behind it. So a record that is only a frame, as `send` hands it over, loses its
  identifier, and no message read from it is the one that was framed (`BareFrameIsLost`). Behind a control
  character an IND$FILE message is read as it was framed exactly when nothing follows it in the record and
  the high byte of its length is not 0x88 (`RecordReadExactly`): the sender's length and the reader's differ
  by two, and the reader drops a second identifier byte (`TolerantReadExact`). The shortest payload that
  goes wrong there has 34812 bytes (`ShortestMisread`).
- Lengths wrap above a payload of 65531 bytes (`CutAllExact`). Data and the end of file always fit; a
  request fits exactly when its name has at most 65530 characters (`OnlyNamesOverflow`), and an error
  message when its text has at most 65531 (`ErrorOverflow`). A NUL in a name cuts it short
  (`FilenameRoundTrip`).
- Acquiring a pooled session looks at every other session only: healthy sessions at odd positions
  are passed over (`ReuseExactly`). The limit error is nevertheless exact (`LimitExactly`).
- Acquiring does not ask whether the pool runs, so a stopped pool stays empty exactly when no acquisition
  makes a new session (`StaysEmptyExactly`), and stopping again does not close one (`StoppedPoolLends`).
- In insert mode a write that protection refuses still shifts the row (`RefusedTypingExact`), and any
  write shifts protected cells; `ShieldedExactly` says when they all survive a keystroke.
- `reconnect` documents a cap on each wait; the first wait is not capped (`CapExactly`). With fewer than one
  attempt allowed it returns without a connection (`Reconnect`).
- A session remembers one modification time, before the file is read and whatever file it is. A load is
  skipped exactly when its time is that of the last load whose time could be determined, or 0.0 before any
  (`EveryLoadExactly`). So a file whose read failed is not tried again until another time was seen
  (`RetryExactly`), another file with the same time is skipped (`SameTimeIsSkipped`), and a new session
  loads a readable file exactly when its time is not 0.0 (`FirstLoadExactly`).
- The analyzer reads a menu back exactly when all addresses fit twelve bits and no text holds a byte it
  takes for a command or an order (`MenuParsesExactly`); of the printable characters that is the equals
  sign alone (`PrintableMenuExactly`). It computes rows with width 80, so a row is reported as it was built
  exactly on a screen of that width, and the first row on any (`RowReported`).
- The two groupings of a trace differ exactly when, at some sent fragment, one of them goes on with what it
  is collecting and the other does not (`GroupingExactly`); received lines in between make them differ
  (`InterruptionDisagrees`).
- The cache agrees with a log of its puts, for all operations at given clock readings, exactly when no
  reading 5 seconds or more after an earlier one is followed by one less than 5 seconds after it
  (`AgreesExactly`).

## Model

| member | source | states |
|---|---|---|
| IndFileMessages.AsciiRoundTrip | pure3270/ind_file.py:30-42 | an ASCII name survives encoding and decoding |
| IndFileMessages.RequestsExactly | pure3270/ind_file.py:30-42 | the bytes of an upload and of a download request: 0x00 or 0x01, the name, a NUL; there is none for a name outside ASCII |
| IndFileMessages.MessagesExactly | pure3270/ind_file.py:44-60 | the bytes of data, end of file and error messages |
| IndFileMessages.FrameExactly | pure3270/ind_file.py:318-332 | a frame byte by byte: identifier, low sixteen bits of the length, type, message |
| IndFileMessages.FilenameRoundTrip | pure3270/ind_file.py:71-76 | the host reads back the requested name exactly when it holds no NUL |
| IndFileMessages.MessageRoundTrip | pure3270/ind_file.py:58-69 | `from_bytes` and `to_bytes` are inverse in both directions; only empty data is refused |
| IndFileMessages.CutFrame | pure3270/ind_file.py:318-332 | the length field delimits a frame, whatever follows, exactly when the payload is at most 65531 bytes |
| IndFileMessages.CutSound | pure3270/ind_file.py:318-332 | whatever is accepted as a frame is the framing of a message within the bound |
| IndFileMessages.CutAllExact | pure3270/ind_file.py:318-332 | a stream decodes to a list of messages exactly when it is their framing and all are within the bound: streams decode uniquely |
| IndFileMessages.ReadsTooFar | pure3270/protocol/data_stream.py:2953-3094 | the repository's reader takes up to two bytes of what follows a frame into the message, unless the high byte of the length is an identifier byte |
| IndFileMessages.ReadsOneOff | pure3270/protocol/data_stream.py:2958-2968 | in that case it reads the field one byte off, and no message whose sub-command is not the field type reaches the handler |
| IndFileMessages.TolerantReadExact | pure3270/protocol/data_stream.py:2953-3094 | the reader returns the framed message exactly when nothing follows and the length's high byte is not the identifier; the one exception, frames of nothing but type bytes, is spelt out and is no IND$FILE message |
| IndFileMessages.ShortestMisread | pure3270/protocol/data_stream.py:2958-2968 | of the fields that end their record, met by the order loop, one with a payload of at most 34812 bytes is read as framed exactly when it is shorter than that; at 34812 nothing is read |
| IndFileMessages.OrdersExactly | pure3270/protocol/data_stream.py:1399-1426 | the order loop meets a field first exactly when a control character comes before it, with a write command or without |
| IndFileMessages.HeadsExactly | pure3270/protocol/data_stream.py:1399-1426 | what is left behind either kind of head, for every first byte |
| IndFileMessages.RecordReadExactly | pure3270/protocol/data_stream.py:1399-1513 | in a record with such a head the message is read as framed exactly when nothing follows and the high byte of its length is not the identifier |
| IndFileMessages.BareFrameIsLost | pure3270/protocol/data_stream.py:1399-1513 | a record of one frame and nothing else loses its identifier, and no message read from anywhere in it is the one that was framed |
| IndFileMessages.SendersRecordExactly | pure3270/ind_file.py:318-332 | what the sender hands over, bare or behind a head, is read as its message exactly when there is a head and the length's high byte is not the identifier |
| IndFileWorld.StepKeepsInv | pure3270/ind_file.py:142-302 | every segment of every call and every incoming message keeps the invariant, and no event touches a finished transfer |
| IndFileWorld.CreateKeeps | pure3270/ind_file.py:153-156 | a new transfer takes an empty slot without disturbing the others |
| IndFileWorld.FreeingTheSlot | pure3270/ind_file.py:117-132 | finishing or aborting leaves the slot empty, no handle open, and finished transfers as they were |
| IndFileRuns.FinishedStaysFinished | pure3270/ind_file.py:85-132 | in every continuation of every run a finished transfer is never changed again |
| IndFileRuns.EveryRunIsSafe | pure3270/ind_file.py:142-302 | in every interleaving: the slot is empty or holds an unfinished transfer, every open handle belongs to it, a transfer whose call has ended is finished |
| IndFileRuns.EverySendIsAPlan | pure3270/ind_file.py:142-191 | in every run a `send` that returned handed over request, chunks and end of file and nothing else; one that raised, a prefix of it and at most one error |
| IndFileRuns.RunProgress | pure3270/ind_file.py:142-232 | at every suspension point of every run each call has handed over exactly what its place in the protocol says |
| IndFileDelivery.DownloadConservesData | pure3270/ind_file.py:110-115 | while a download stays active its local file grows by exactly the data that arrived, in order, and the count by its length |
| IndFileDelivery.EofCompletesDownload | pure3270/ind_file.py:247-257 | the end of file frees the slot, closes the handle and leaves the file as received |
| IndFileDelivery.ArrivalsDeliver | pure3270/ind_file.py:234-290 | chunks with ignorable messages anywhere between them, then the end of file, then anything: the download is complete |
| IndFileDelivery.PlanFits | pure3270/ind_file.py:158-173 | everything an upload sends is within the frame bound exactly when its name has at most 65530 characters |
| IndFileDelivery.OnlyNamesOverflow | pure3270/ind_file.py:142-205 | what a call hands over in any run, errors apart, fits its frame unless it is a request whose name is too long |
| IndFileDelivery.ErrorOverflow | pure3270/ind_file.py:177-187 | the error message of a failed upload fits exactly when its text has at most 65531 characters |
| IndFileDelivery.SendDeliversFile | pure3270/ind_file.py:142-191 | end to end: the frames of a completed `send`, in any run, decode to what was sent, and an active download that receives them ends with the sender's content, its length and a free slot |
| IndFileDelivery.SlotSafeExactly | pure3270/ind_file.py:177-191 | no interleaving of other calls can take an active transfer away exactly when no other call is suspended |
| IndFileDelivery.UndisturbedDownload | pure3270/ind_file.py:193-290 | while no other call is suspended, a download whose own call neither fails nor times out receives its whole file, whatever other calls are made and whenever its own goes on; the call can then return exactly when it had reached its wait |
| IndFileDelivery.ReceiveDelivers | pure3270/ind_file.py:193-290 | the same for every run that begins with the call of `receive` |
| IndFileDelivery.SendReachesReceive | pure3270/ind_file.py:142-290 | a `send` that returned in any run, and any run that begins with a `receive` whose call neither fails nor times out: when what arrives is what cutting the sender's frames recovers, the local file is the content the sender read |
| IndFileDelivery.CleanupStealsDownload | pure3270/ind_file.py:188-191 | a run in which the cleanup of an ended upload removes another call's download, for good |
| IndFileDelivery.CanWakeExactly | pure3270/ind_file.py:207-216 | some continuation sets a receiver's event exactly when it is set or still stored in the attribute |
| IndFileDelivery.ReturningSilencesOthers | pure3270/ind_file.py:229-232 | once a receiver returned, another that still waits is never signalled |
| IndFileDelivery.ErrorWithoutRequest | pure3270/ind_file.py:147-187 | the first message of an accepted `send` is the request for an ASCII name and an error message for any other |
| IndFileOutcomes.ChunksExactly | pure3270/ind_file.py:163-169 | a file is sent in chunks of 4096 bytes, the last one shorter, in order |
| IndFileOutcomes.BreakingEndsDownload | pure3270/ind_file.py:261-299 | after any run, an error from the host or a failing write closes the handle, removes what was received and no other file, frees the slot and signals exactly the stored event |
| IndFileOutcomes.UploadsTouchNoFile | pure3270/ind_file.py:234-302 | with an upload in the slot no message touches a file, and the end of file and an error end the upload |
| IndFileOutcomes.BusyRefuses | pure3270/ind_file.py:144-196 | a call made while a transfer is active raises and does nothing else |
| IndFileOutcomes.MissingFileRefuses | pure3270/ind_file.py:147-151 | so does a `send` of a file that does not exist |
| IndFileOutcomes.ReceiveAsksExactly | pure3270/ind_file.py:193-205 | a `receive` whose file opens hands over one message, a download request for its name up to the first NUL, exactly when the name is ASCII; else it hands over none and removes the file |
| IndFileOutcomes.UnopenedReceiveRaises | pure3270/ind_file.py:96-108 | one whose file does not open hands over nothing and raises |
| IndFileOutcomes.EveryReceiveAsksOnce | pure3270/ind_file.py:193-232 | in every run a `receive` hands over at most that request, and exactly that unless it raised |
| IndFileOutcomes.FailedReceiveLosesFile | pure3270/ind_file.py:217-232 | a `receive` that times out or whose request fails removes the download's file and no other, deletes the completion attribute and raises |
| IndFileOutcomes.FailedReceiveAlone | pure3270/ind_file.py:217-232 | without a download in the slot it touches no file |
| IndFileOutcomes.SenderCleansUp | pure3270/ind_file.py:171-191 | a sender past its last message finishes what is in the slot, touches no file, and returns, or raises if that was an error message |
| IndFileOutcomes.FaultFails | pure3270/ind_file.py:177-187 | a failing segment of an upload frees the slot and sends the text of what failed exactly when it is ASCII |
| IndFileOutcomes.VanishedFileFails | pure3270/ind_file.py:162-187 | so does a local file that has gone when it is opened |
| IndFileOutcomes.FaultedSendNeverReturns | pure3270/ind_file.py:177-187 | a `send` that has failed once never returns, in any continuation |
| IndFileEndpoint.Session.SendIndFileMessage | pure3270/ind_file.py:318-332 | appends exactly the frame of the message to the output |
| IndFileEndpoint.IndFileTransfer.Start | pure3270/ind_file.py:96-108 | activates the transfer; a download creates its file empty, and fails when it cannot open it |
| IndFileEndpoint.IndFileTransfer.WriteData | pure3270/ind_file.py:110-115 | counts the bytes of an open download and appends them to its file, if that was not removed; otherwise changes nothing |
| IndFileEndpoint.IndFileTransfer.Abort | pure3270/ind_file.py:124-132 | closes the transfer and removes the file of a download |
| IndFileEndpoint.IndFile.BeginSend | pure3270/ind_file.py:142-160 | the first segment of `send` takes the step of the state machine |
| IndFileEndpoint.IndFile.BeginReceive | pure3270/ind_file.py:193-205 | the first segment of `receive` takes the step of the state machine |
| IndFileEndpoint.IndFile.ReadAndSend | pure3270/ind_file.py:164-173 | one turn of the chunk loop hands over one frame and suspends |
| IndFileEndpoint.IndFile.Resume | pure3270/ind_file.py:160-232 | every later segment takes the step of the state machine, on success and on failure |
| IndFileEndpoint.IndFile.Wake | pure3270/ind_file.py:215-232 | a signalled receiver returns and removes the completion attribute |
| IndFileEndpoint.IndFile.Expire | pure3270/ind_file.py:217-232 | a receiver that times out aborts the transfer in the slot and raises |
| IndFileEndpoint.IndFile.HandleIncomingMessage | pure3270/ind_file.py:234-302 | every incoming message takes the step of the state machine |
| IndFileEndpoint.IndFile.HandleIncomingData | pure3270/ind_file.py:310-316 | decodes and handles a message; data without a sub-command is ignored |
| IndFileEndpoint.IndFile.Send | pure3270/ind_file.py:142-191 | left alone, `send` terminates; it returns exactly when the slot was free, the file exists and the name is ASCII, and then the output has grown by the frames of the whole plan |
| IndFileEndpoint.UndisturbedResumes | pure3270/ind_file.py:162-173 | each turn of an undisturbed sender keeps sent plus unsent messages equal to the plan and makes progress |
| PoolModel.ScanExact | examples/example_connection_management.py:115-125 | the loop that removes while iterating takes the first healthy session among every other one, closes those before it, and keeps as many as are left |
| PoolModel.ScanKeeps | examples/example_connection_management.py:115-125 | what is kept is the list without the sessions looked at, in order |
| PoolModel.ScanPartitions | examples/example_connection_management.py:115-125 | what the loop keeps, closes and takes is what the pool had, each session once; only unhealthy ones are closed |
| PoolModel.AcquireKeepsInv | examples/example_connection_management.py:109-140 | acquiring keeps the pool invariant; a session handed out was neither lent out nor closed |
| PoolModel.LimitExactly | examples/example_connection_management.py:127-132 | the limit error is raised exactly when nothing was idle and all allowed sessions were lent out |
| PoolModel.ReuseExactly | examples/example_connection_management.py:114-121 | an idle session is reused exactly when one at an even position is healthy, and it is the first of those |
| PoolModel.ReleaseKeepsInv | examples/example_connection_management.py:142-155 | releasing keeps the invariant and takes exactly the released session out of use |
| PoolModel.KeepExact | examples/example_connection_management.py:184-204 | a health check keeps exactly the sessions used recently enough and healthy |
| PoolModel.HealthCheckKeepsInv | examples/example_connection_management.py:184-204 | a health check keeps the invariant and never reopens a session |
| PoolModel.StopKeepsInv | examples/example_connection_management.py:66-91 | stopping keeps the invariant |
| PoolModel.AcquireExactly | examples/example_connection_management.py:109-140 | the whole outcome of acquiring, entry by entry: which session, what is closed, what is made, last-used times, and every error |
| PoolModel.ReleaseExactly | examples/example_connection_management.py:142-155 | a healthy session goes to the end of the pool with a new last-used time; an unhealthy one is closed; an unknown one changes nothing |
| PoolModel.HealthCheckExactly | examples/example_connection_management.py:184-204 | what stays, in order, and what is closed, by last-used time and health |
| PoolModel.StopExactly | examples/example_connection_management.py:66-91 | everything idle or lent out is closed and forgotten, if the pool ran |
| PoolRuns.StepKeepsInv | examples/example_connection_management.py:57-204 | every operation, by any caller, keeps the invariant of pool and holders |
| PoolRuns.EveryRunIsSafe | examples/example_connection_management.py:57-204 | in every run: no duplicates, idle and lent sessions disjoint and within the maximum, each with a last-used time, no session held twice, every session ever created in exactly one place |
| PoolRuns.ClosedStaysOut | examples/example_connection_management.py:142-171 | a closed session never re-enters the pool, in any continuation of any run |
| PoolRuns.StopClosesEverything | examples/example_connection_management.py:66-91 | stopping closes every session that connected, also those held, and a later release changes nothing |
| PoolRuns.StaysEmptyExactly | examples/example_connection_management.py:66-140 | an emptied pool stays empty throughout a run exactly when no acquisition in it makes a new session |
| PoolRuns.StoppedPoolLends | examples/example_connection_management.py:66-140 | a session made after stopping is lent out, and stopping again leaves it open |
| PoolRuns.ReleasedIsReused | examples/example_connection_management.py:109-155 | a session released in good health into an empty pool is what the next acquisition returns, and none is made |
| PoolRuns.UnhealthyStaysOut | examples/example_connection_management.py:142-155 | a session released in bad health is closed and never lent out again, in any continuation |
| PoolRuns.RestartedPoolStops | examples/example_connection_management.py:57-91 | a pool started again can be stopped again |
| ConnectionPools.ConnectionPool.FindHealthy | examples/example_connection_management.py:115-125 | the loop, on the list it changes, computes the scan |
| ConnectionPools.ConnectionPool.AcquireConnection | examples/example_connection_management.py:109-140 | acquires as the state machine does, including its errors |
| ConnectionPools.ConnectionPool.ReleaseConnection | examples/example_connection_management.py:142-155 | releases as the state machine does |
| ConnectionPools.ConnectionPool.PerformHealthChecks | examples/example_connection_management.py:184-204 | collecting the unhealthy sessions and removing them one by one keeps the others, in order |
| ConnectionPools.ConnectionPool.Stop | examples/example_connection_management.py:66-91 | stops as the state machine does, once |
| ConnectionPools.RemovingDroppedKeeps | examples/example_connection_management.py:187-203 | removing the collected sessions one at a time leaves exactly the kept ones |
| TraceModel.BytesConserved | examples/compare_trace_processing.py:113-149 | the bytes of the records, with direction and offset, are those of the well-formed lines, in order |
| TraceModel.SeparatedUnique | examples/compare_trace_processing.py:126-147 | a list of records none of which continues another is determined by its bytes |
| TraceModel.ParsedExactly | examples/compare_trace_processing.py:90-149 | without breaks the parser returns a list exactly when it is that unique list for the trace's bytes |
| TraceModel.BreakSplits | examples/compare_trace_processing.py:107-124 | a break cuts a trace into two that are parsed independently |
| TraceModel.EventsInOrder | examples/compare_trace_processing.py:75-149 | every event points at the line it starts on, in increasing order; touching neighbours in one direction have a break between them |
| TraceModel.LineExactly | examples/compare_trace_processing.py:90-147 | what each kind of line does to the record under construction |
| TraceModel.EndExactly | examples/compare_trace_processing.py:149-152 | the end of the trace completes that record |
| TraceFragments.FragmentationRoundTrip | examples/compare_trace_processing.py:56-149 | records cut into any fragments, with blank lines and comments anywhere, come back exactly when no record continues the one before it |
| TraceFragments.GroupingExactly | scripts/diagnose_marker_grouped.py:14-41 | the diagnostic groups exactly the data of the parser's send events if and only if, at every sent fragment, the parser goes on with its record exactly when the diagnostic goes on with its packet |
| TraceFragments.SentNextExact | examples/compare_trace_processing.py:126-147 | where the parser's sent record goes on can be told from the last line it did not pass over |
| TraceFragments.CollectingExact | scripts/diagnose_marker_grouped.py:16-39 | whether the diagnostic has a packet open can be told from the lines since the last sent fragment |
| TraceFragments.GroupingAgrees | scripts/diagnose_marker_grouped.py:14-41 | they agree when sent records are traced from offset 0 without interruption |
| TraceFragments.InterruptionDisagrees | scripts/diagnose_marker_grouped.py:19-34 | they disagree on every trace in which received lines come between two sent fragments and the second is not at offset 0 |
| TraceFragments.GroupLineExactly | scripts/diagnose_marker_grouped.py:14-39 | what each kind of line does to the diagnostic's packet |
| TraceFragments.PacketsConserve | scripts/diagnose_marker_grouped.py:14-41 | the diagnostic's packets joined are the bytes sent, in order |
| TraceProcessors.RowsExactly | examples/compare_trace_processing.py:95-104 | the number of rows is that of the last row directive |
| TraceProcessors.ColumnsExactly | examples/compare_trace_processing.py:95-104 | the number of columns is that of the last column directive |
| TraceProcessors.SizeStays | examples/compare_trace_processing.py:95-104 | without a directive the size stays |
| TraceProcessors.S3270TraceProcessor.Parse | examples/compare_trace_processing.py:56-152 | the loop computes the events and the screen size; an unreadable size directive fails and leaves earlier events |
| TraceProcessors.GroupPackets | scripts/diagnose_marker_grouped.py:10-41 | the loop computes the packets, which are the send events' data under exactly that condition |
| ScreenModel.CursorOrbit | pure3270/session.py:2196-2203 | `n` moves right lead straight to the last cell, then round the last row |
| ScreenModel.LeftRight | pure3270/session.py:2186-2203 | left and right undo each other exactly off the two ends of the screen |
| ScreenModel.LeftIsPred | pure3270/session.py:2186-2194 | on linear positions left goes from p to p - 1 and from 0 to 0 |
| ScreenModel.AdvancedIsNext | pure3270/emulation/screen_buffer.py:649-665 | writing moves the cursor to the next position, and from the last to the first |
| ScreenModel.OverwriteExact | pure3270/session.py:1826-1850 | overwriting: each cell visited holds the last byte typed on it, all others are unchanged, however far the cursor runs |
| ScreenModel.OverwriteStraight | pure3270/session.py:1826-1850 | text that ends on the screen replaces just the cells it covers |
| ScreenModel.ShieldedCellsSurvive | pure3270/emulation/screen_buffer.py:619-623 | overwriting never changes a protected cell |
| ScreenModel.ShieldedExactly | pure3270/session.py:1833-1844 | one keystroke leaves all protected cells alone exactly when none is shifted onto by a different byte and none is overwritten by circumvention |
| ScreenModel.RefusedTypingExact | pure3270/session.py:1833-1844 | a refused write changes nothing exactly in overwrite mode or when the rest of the row is uniform |
| ScreenModel.InsertExact | pure3270/session.py:1833-1844 | inserting within a row puts the text in, moves the rest right, and changes no other row |
| ScreenModel.DeleteExact | pure3270/session.py:2172-2181 | `n` deletions close the gap and leave `n` blanks at the end of the row |
| ScreenModel.DeleteUndoesInsert | pure3270/session.py:2172-2181 | deleting what was inserted restores the row but for what was pushed past its end |
| ScreenEditing.ScreenBuffer.SetPosition | pure3270/emulation/screen_buffer.py:514-553 | positions are clamped to the screen |
| ScreenEditing.ScreenBuffer.WriteChar | pure3270/emulation/screen_buffer.py:555-680 | stores one byte and moves the cursor on, wherever it is, unless the position is off the screen or the cell is protected and protection is not circumvented |
| ScreenEditing.AsyncSession.ShiftRowRight | pure3270/session.py:1833-1838 | the backwards loop moves the row's tail right by one, in place |
| ScreenEditing.AsyncSession.InsertText | pure3270/session.py:1826-1850 | the loop leaves cells and cursor as typing byte by byte says |
| ScreenEditing.AsyncSession.Delete | pure3270/session.py:2172-2181 | the loop moves the row's tail left by one and blanks the last cell, in place |
| ScreenEditing.AsyncSession.Right | pure3270/session.py:2196-2203 | moves to the next position, from the last cell to the start of its row |
| ScreenEditing.AsyncSession.Left | pure3270/session.py:2186-2194 | moves to the position before, and stays on the first cell |
| ScreenEditing.AsyncSession.AsciiField | pure3270/session.py:1788-1802 | for any field, the row and column loops collect the existing cells of its rows, in order |
| ScreenEditing.AsyncSession.DeleteField | pure3270/session.py:1811-1824 | for any field, exactly the cells of its rows become blank |
| ScreenEditing.FieldIsInterval | pure3270/session.py:1788-1802 | with its columns on the screen a field's rows are the interval from its first to its last position, each once and in order, and nothing when the two are out of order |
| ScreenEditing.BlankedIsInterval | pure3270/session.py:1811-1824 | what is blanked is the same interval |
| Reconnection.WaitClosedForm | pure3270/session.py:2398-2421 | the k-th wait is the initial one doubled k-1 times, cut to the cap, but for a first one beyond it |
| Reconnection.CapExactly | pure3270/session.py:2374-2394 | all waits are within the cap exactly when the first is, or there is none |
| Reconnection.WaitsGrow | pure3270/session.py:2420-2421 | waits never get shorter when the first is within the cap |
| Reconnection.AttemptsCounted | pure3270/session.py:2400-2421 | every connect follows a close, and there is one sleep fewer |
| Reconnection.AttemptsBackOff | pure3270/session.py:2397-2421 | in the actions made, attempts and sleeps alternate; the first sleep is the initial one and each further one twice the one before, cut to the cap |
| Reconnection.AttemptsDouble | pure3270/session.py:2397-2421 | the k-th sleep made is the initial one doubled k - 1 times, cut to the cap from the second on |
| Reconnection.SleepsCapped | pure3270/session.py:2374-2394 | all sleeps made are within the cap exactly when the first is or there is none |
| Reconnection.Reconnect | pure3270/session.py:2395-2430 | connects up to the first success or the maximum, returns exactly when one succeeded, else raises the last failure; its own actions are 3n - 1, each attempt a close and a connect, with sleeps that double up to the cap; with no attempt allowed it just returns |
| ResourceModel.LastDefinitionWins | pure3270/session.py:2740-2752 | a resource has the value of its last definition, and nothing else is defined |
| ResourceModel.GroupsPartition | pure3270/session.py:2725-2738 | the nested loops consume every physical line exactly once |
| ResourceModel.CutKeepsLogicalLines | pure3270/session.py:2729-2738 | cutting one line at a single space, anywhere in a file, leaves the logical lines as they were |
| ResourceModel.FoldingPreservesResources | pure3270/session.py:2723-2752 | folding any lines that are not comments, any number of times, leaves the resource map as it was |
| ResourceDefinitions.StripExactly | pure3270/session.py:2747-2748 | stripping takes white space off both ends and nothing else |
| ResourceDefinitions.DefinitionExactly | pure3270/session.py:2740-2752 | a line defines a name as a value exactly when it has "s3270." and the name before its first colon and the value behind it, with any white space around either |
| ResourceDefinitions.NoDefinitionExactly | pure3270/session.py:2740-2752 | any other line defines nothing: without a colon, or without the prefix |
| ResourceDefinitions.ResourcesExactly | pure3270/session.py:2723-2752 | a name is a resource with a value exactly when the last logical line that defines it says so |
| ResourceDefinitions.CommentExactly | pure3270/session.py:2729-2730 | a comment is a line whose first character that is not white space is a hash or an exclamation mark |
| ResourceDefinitions.JoinExactly | pure3270/session.py:2732-2736 | a continued line loses its backslash and the white space around the join, which becomes one space |
| ResourceDefinitions.FirstLineExactly | pure3270/session.py:2725-2738 | the first physical line is a comment and amounts to nothing, or begins a logical line |
| ResourceDefinitions.TakesInExactly | pure3270/session.py:2732-2738 | a line takes in the next one exactly when it ends with a backslash and there is one |
| ResourceLoading.EveryLoadExactly | pure3270/session.py:2708-2721 | in every run of loads, of any files, a load is skipped exactly when its time is the one seen last, and takes effect exactly when it is not skipped and its file can be read |
| ResourceLoading.LastLoadCounts | pure3270/session.py:2712-2723 | the resources are those of the last load that took effect |
| ResourceLoading.NoLoadNoResources | pure3270/session.py:2712-2723 | and there are none before any |
| ResourceLoading.RetryExactly | pure3270/session.py:2708-2721 | after a failed read, and whatever was loaded since, a load takes effect exactly when its time is not the one seen last |
| ResourceLoading.SameTimeIsSkipped | pure3270/session.py:2712-2714 | another file with the time of the last one is skipped |
| ResourceLoading.FirstLoadExactly | pure3270/session.py:2708-2715 | a new session loads a readable file exactly when its modification time is not 0.0 |
| ResourceLoading.AsyncSession.LoadResourceDefinitions | pure3270/session.py:2704-2755 | loads, skips or fails, and remembers the time, as specified |
| ResourceLoading.AsyncSession.ParseResources | pure3270/session.py:2723-2752 | the outer loop collects the resources of the logical lines |
| ResourceLoading.JoinContinued | pure3270/session.py:2732-2738 | the inner loop joins a continued line and advances by the lines it takes in |
| DataStreamModel.AddressRoundTrip | mock_server/screen_builders.py:9-14 | decoding an address order gives the address modulo 4096, so the address exactly below 4096 |
| DataStreamModel.AddressBytesExactly | mock_server/screen_builders.py:9-14 | both address bytes lie between 0x40 and 0x7F and hold the low twelve bits |
| DataStreamModel.MenuExactly | mock_server/screen_builders.py:36-49 | the bytes of a menu: control character, title at the first position, options with order and attribute |
| DataStreamModel.StopBytesExactly | examples/trace_analyzer.py:254-263 | the eight bytes that end a run of data |
| DataStreamModel.ReportGoesOn | examples/trace_analyzer.py:161-273 | the report on an item is followed by that on what lies behind it |
| DataStreamModel.CommandReported | examples/trace_analyzer.py:164-238 | a command and its control character, and the cursor order: what is reported and how far it goes |
| DataStreamModel.RepeatReported | examples/trace_analyzer.py:208-223 | a repetition, complete or cut off |
| DataStreamModel.AddressReported | examples/trace_analyzer.py:193-206 | an address order, complete or cut off |
| DataStreamModel.FieldsReported | examples/trace_analyzer.py:225-248 | a field and its attribute; an extended field and the pairs it skips |
| DataStreamModel.RunReported | examples/trace_analyzer.py:250-271 | a run of data: its length and at most eight of its bytes |
| DataStreamModel.DetailsOfText | examples/trace_analyzer.py:156-273 | text before an order is reported as one run exactly when it holds no stop byte |
| DataStreamModel.OptionExact | mock_server/screen_builders.py:22-49 | one option is reported as built exactly when its address fits and its text is free of stop bytes |
| DataStreamModel.MenuParsesExactly | examples/trace_analyzer.py:156-273 | parsing undoes building for a whole menu exactly when all addresses fit and all texts are free of stop bytes |
| DataStreamModel.RowReported | examples/trace_analyzer.py:193-206 | the start of a row is reported as that row exactly at width 80, and for the first row at any |
| DataStreamModel.PrintableMenuExactly | pure3270/emulation/ebcdic.py:609-611 | a menu of printable text in code page 037 is read back as built exactly when no text has an equals sign and all addresses fit |
| DataStream.BuildMenuScreen | mock_server/screen_builders.py:22-49 | the loop builds the menu, which the analyzer reports as built under that condition |
| DataStream.Parse3270Stream | examples/trace_analyzer.py:156-273 | the loop terminates on every input and reports its commands, orders and runs |
| DataStream.ReportNext | examples/trace_analyzer.py:170-273 | one turn reports the next command, order or run, complete or truncated |
| LuLuSessions.StepKeepsInv | pure3270/lu_lu_session.py:24-178 | every segment keeps: inactive means empty, and accepted is returned plus queued |
| LuLuSessions.EveryRunIsFifo | pure3270/lu_lu_session.py:24-178 | in every run an inactive session has an empty queue and returned data is a prefix of accepted data |
| LuLuSessions.ActiveLosesNothing | pure3270/lu_lu_session.py:71-178 | until it is ended an active session accepts everything and has returned or queued it, in order |
| LuLuSessions.ReturnsOnce | pure3270/lu_lu_session.py:71-178 | whatever a run returns was queued before or is accepted in it, each datum once |
| LuLuSessions.EndDropsTheRest | pure3270/lu_lu_session.py:41-59 | after an end no continuation returns anything but what it accepts itself |
| LuLuSessions.StartExactly | pure3270/lu_lu_session.py:24-39 | a start names the session at once and makes it active once the BIND was sent |
| LuLuSessions.EndExactly | pure3270/lu_lu_session.py:41-59 | an end leaves it inactive, unnamed and empty once the UNBIND was sent, and else as it was |
| LuLuSessions.StartedReceives | pure3270/lu_lu_session.py:24-178 | what arrives after a start is accepted, and the first datum is returned first |
| LuLuSessions.InactiveAndTimeOut | pure3270/lu_lu_session.py:71-178 | an inactive session accepts nothing, and a timeout loses nothing |
| LuLuSessions.LuLuSession.FinishEnd | pure3270/lu_lu_session.py:49-57 | the drain loop empties the queue as the state machine says |
| LuLuSessions.OutboundExact | pure3270/lu_lu_session.py:150-167 | the length delimits an outbound field exactly when its data is at most 65531 bytes |
| LuLuSessions.OutboundBytes | pure3270/lu_lu_session.py:150-167 | an outbound field byte by byte; its length counts all of it |
| ScreenCaches.EveryRunRepresents | examples/example_performance_optimization.py:340-361 | in every run, whatever the clock does, the cache is what the log of puts says but for entries some operation found expired |
| ScreenCaches.AgreesExactly | examples/example_performance_optimization.py:333-361 | for given clock readings the cache answers all operations as the log does if and only if nothing that has expired by one reading is fresh again at a later one |
| ScreenCaches.ClockForward | examples/example_performance_optimization.py:333-361 | in particular under a clock that does not go back |
| ScreenCaches.CleanupUnobservable | examples/example_performance_optimization.py:352-361 | leaving a cleanup out of a run changes no other answer, before or after it, under that condition |
| ScreenCaches.ScreenCache.Get | examples/example_performance_optimization.py:340-347 | returns what was last put for the key when it is fresh, and drops it otherwise; the log's answer under that condition |
| ScreenCaches.ScreenCache.Put | examples/example_performance_optimization.py:349-350 | remembers content and time |
| ScreenCaches.ScreenCache.Cleanup | examples/example_performance_optimization.py:352-361 | the loop deletes exactly the expired entries |

## Left out

- Sockets, asyncio transports, TLS, logging and printing. A send appends to an output; what a connection attempt, a health check or opening a file yields is a parameter of the step.
- Task cancellation, and time other than as a step that may happen at any point.
- Local files change only through transfers, a sender reads the content its file had when it was opened, and removing an aborted download's file succeeds.
- IndFileEndpoint.IndFile.HandleIncomingMessage: does not model a close that fails, as it does when a write failed and its data is still buffered; the source then leaves the slot taken and signals nothing until the next message for the transfer.
- Texts of exceptions are shortened to the part that decides whether an error message can be encoded.
- IndFileDelivery.SendDeliversFile: recovers messages by the length the sender writes; the repository's own reader does not, as `RecordReadExactly` and `BareFrameIsLost` say.
- IndFileEndpoint.IndFile.Send: describes a call that nothing interleaves with and no exception interrupts; the interleavings are the subject of the runs.
- Failures while closing a pooled session, which the pool swallows, and the timing of its background task. A session that failed to connect is never closed by the pool; the model only keeps it apart.
- Rounding: clock readings and waits are real numbers.
- The regular expression for trace lines: a line comes already classified. Not covered are lines that only the diagnostic's looser splitting takes for packets, such as hex digits with spaces in them.
- ScreenEditing.ScreenBuffer.WriteChar: does not model attribute bytes other than protection, double-byte character sets, caches and field bookkeeping. Characters are bytes already encoded.
- ScreenEditing.ScreenBuffer.SetPosition: models the default mode, the one the editing operations use, and not wrapping and strict mode.
- ScreenEditing.AsyncSession.AsciiField: takes the EBCDIC decoder as a parameter.
- ScreenEditing.AsyncSession.DeleteField: takes the field at the cursor as a parameter.
- ResourceLoading.AsyncSession.LoadResourceDefinitions: does not apply the loaded resources to the session.
- The contents of BIND and UNBIND fields, and the session's own checks before sending.
- The command line client, the mock servers, fuzzers, simulators and demo scripts, which would add only easy members.
