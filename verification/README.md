# Verification of deviceconnect

Deviceconnect relays messages between Mender users and their devices. This Dafny project models four
of its mechanisms and proves what they promise:

- **Session recording and playback.** `terminal.dfy` and `recorder.dfy` are the recording side,
  `control_store.dfy` says how control messages end up in records, `control_reader.dfy`,
  `recording_reader.dfy`, `playback.dfy` and `merge.dfy` are the playback side, `control.dfy` the binary form
  of control messages, and `round_trip.dfy` joins them end to end.
- **File transfer.** `download.dfy` is the receiver and `upload.dfy` the sender with its sliding window.
  `server.dfy` interleaves the sender with the goroutine that handles acknowledgements and the channel of
  capacity one between them, `window.dfy` studies the window, and `transfer.dfy` closes the loop with a
  device that acknowledges as the repository's own receiver does.
- **Session lifecycle.** `session.dfy` and `terminal.dfy` cover the byte limit and forwarding, `audit.dfy`,
  `app.dfy` and `management.dfy` the audit logs and the three cleanup paths, `device_status.dfy` and
  `device_connection.dfy` the versioned status of devices.
- **The tenant migration**, a batched copy, in `migration.dfy`.

Code that updates state in place is modelled by classes and loops, and each method is proved to refine
functions on values (`Run`, `WriterAfter`, `Messages`, `Step`, ...). The promises are lemmas about those
functions. Where goroutines or connections compete, each of them is a set of atomic steps, and the lemmas
hold of every interleaving. Bytes are integers below 256. A compressed record is abstract: decompressing it
gives back the bytes that were compressed, in portions of the decompressor's choosing.

## What the proofs found

- The upload writer waits for one acknowledgement when its window is over, not until it is back inside.
  The window bound fails in general (`WindowBoundCanFail`); it holds exactly when each such acknowledgement
  leaves room for the next piece (`WindowBoundExactly`).
- Playback reads only the first control record of a session, in fills of 4096 bytes. Messages are lost
  exactly when there is a second record or one of them straddles a multiple of 4096 (`RecordedExactly`); for
  delays alone that is from the 586th on (`DelaysReadBack`). There is a second record exactly when the
  messages exceed the buffer of 16384 bytes, or when some were recorded before and some after the first of
  the writer and the message loop ended, since each flushes the recorder they share (`ControlRecords`,
  `LateResizeIsLost`).
- A playback slices its buffer out of range exactly when a control message lies more than 1024 bytes beyond
  the end of the recording (`PlaybackExactly`). Recorded sessions never reach that case
  (`RecordedSessionPlaysBack`).
- A control message may be played up to 1023 bytes before its offset (1024 if the recording ends before it),
  never after it. It comes early when the staged bytes or the record at hand end before the offset
  (`PlayLast`, `EarlyDelay`).
- The error of the last copy of a playback is not returned, because the variable is shadowed: nil says that
  all control messages were sent, and bytes are missing exactly when a write failed (`WriteSessionRecords`,
  `LostCopy`).
- A recording is played only up to its first empty record that precedes a nonempty one
  (`PlayableExactly`); the buffered recorders never store an empty record.
- Once a session is over its limit, nothing is forwarded, the prepared error message included. If the
  limit handler frees a session before its other type is opened, that open log never gets its close log
  (`EarlyFreeLeavesOpen`). Nor do the types that are open when the submission of another open log fails
  (`FailedOpenLeavesOpen`).
- Only resize messages that lack both size fields are recorded, so every recorded size is 0 by 0.
- The entry of a session in a device connection is reset by every message, so only the users whose session
  spawned a shell with its very last message are told that the device disconnected.
- The asynchronous API documents an acknowledgement for every chunk; the receiver of the repository sends
  one for every tenth chunk and one at the end. The model follows the code.

## Model

| member | source | states |
|---|---|---|
| Download.DownloadFile | api/http/management_filetransfer.go:458-551 | for every inbound sequence, every number of messages that can still be published, and either end of the wait, the receiving loop ends with what `Run` describes; the first message that needs one publication too many ends it, with the bytes of that message written and its acknowledgement not sent |
| Download.RunningExactlyInOrder | api/http/management_filetransfer.go:504-537 | the receiver goes on if and only if every message so far is in order, each chunk's offset being the length before it; then it wrote exactly the bodies and acknowledged every tenth chunk with the length at that moment |
| Download.AckScheduleLength | api/http/management_filetransfer.go:528-537 | k chunks in order are answered by floor(k/10) acknowledgements before the end |
| Download.AckScheduleAt | api/http/management_filetransfer.go:528-537 | the j-th of them names the length of the first 10(j+1) chunks |
| Download.FinishedExactly | api/http/management_filetransfer.go:491-519 | the first message out of order decides, and it is a malformed message, an error, or a chunk: the download succeeds if and only if it is the end chunk, and then k chunks were answered by floor(k/10)+1 acknowledgements; every other outcome has its error and its status; either way every ping before it was answered |
| Download.FirstOutOfOrder | api/http/management_filetransfer.go:478-550 | every inbound sequence is in order throughout or has a first message that is not, so the two lemmas above cover all downloads |
| Download.PongPerPing | api/http/management_filetransfer.go:539-545 | as many pongs as pings while the download goes on |
| Download.AcksNondecreasing | api/http/management_filetransfer.go:529-537 | acknowledged offsets never decrease and never exceed the bytes written (with lines 505-511) |
| Upload.UploadFileResponseWriter | api/http/management_filetransfer.go:816-901 | for every file, every content of the channels at its selects and every number of messages that can still be published, the writer ends, and its outcome, its published chunks and the acknowledgements it took are those of `WriterAfter`, cut off by the first failure to publish |
| Upload.AfterChunk | api/http/management_filetransfer.go:862-885 | the wait or the poll after a chunk changes the writer's state as `Select` does |
| Upload.GivenAnswers | api/http/management_filetransfer.go:865-895 | the selects find the answers given, in order, and then nothing |
| Upload.Int64Wraps | api/http/management_filetransfer.go:863 | the sum compared with the offset wraps around at 64 bits |
| Upload.WriterKeepsInv | api/http/management_filetransfer.go:828-898 | at every select: published chunks are in order and with the unread pieces make up the file, the end chunk comes last and once, the window is over whenever the writer waits for it |
| Upload.WaitsExactly | api/http/management_filetransfer.go:863 | after a chunk the writer waits if and only if more than 20*4096 bytes are unacknowledged, as long as the sum does not overflow (with lines 74-76) |
| Upload.TakenExactly | api/http/management_filetransfer.go:862-898 | the acknowledgements taken are exactly those found while one was awaited, and the last of them is the one held |
| Upload.CreatedMeansDelivered | api/http/management_filetransfer.go:841-900 | 201 means: contiguous offsets from 0, bodies that make up the file, exactly one empty end chunk at its length, and an acknowledgement of at least that length |
| Upload.DeliveredExactly | api/http/management_filetransfer.go:841-857 | when only some messages can be published, as much of the stream is delivered as can be, and 201 still means that the whole file was |
| Upload.AbortedHasCause | api/http/management_filetransfer.go:864-884 | a failure to publish aborts the upload; otherwise an error at a select after a chunk or a silence where an acknowledgement is awaited aborts it with its status, and an aborted upload has such a cause or failed to read the file (with lines 829-840, 842-857, 890-897) |
| Upload.PublishedIsPrefix | api/http/management_filetransfer.go:851-860 | at any moment what was published is a prefix of the full delivery |
| Upload.CompleteStreamReceived | api/http/management_filetransfer.go:504-537 | a complete chunk stream passes every offset check of the receiver, which writes the identical file and acknowledges its length last (with lines 163-194) |
| Upload.SenderReceiverRoundTrip | api/http/management_filetransfer.go:841-860 | what a finished upload published is received by the repository's receiver as the identical file, with floor(k/10)+1 acknowledgements (with lines 163-194, 504-537) |
| Window.WindowBound | api/http/management_filetransfer.go:862-875 | at most (20+1)*4096 bytes are unacknowledged at every select, if each acknowledgement that ends a wait before another piece is one buffer further or brings the writer back inside its window |
| Window.WindowBoundExactly | api/http/management_filetransfer.go:862-875 | for every file: the bound holds if and only if each acknowledgement that ends a wait before another piece leaves room for that piece within it |
| Window.FullBuffersBoundExactly | api/http/management_filetransfer.go:862-875 | for a file read in full buffers that is when each of them brings the writer back inside its window |
| Window.WindowBoundCanFail | api/http/management_filetransfer.go:863-870 | 22 full buffers and one acknowledgement of a single byte exceed the bound |
| Server.ConflationLosesNothing | api/http/management_filetransfer.go:619-631 | over all interleavings: the acknowledgements processed and pending are those the device sent; the writer took strictly increasing ones of them; whenever the inbound side is idle its maximum is in the channel or, if that is empty, is the writer's latest (with lines 863-870, 889-892) |
| Server.StepKeepsChannelInv | api/http/management_filetransfer.go:619-631 | each step of either goroutine keeps the relation between the channel and its two ends |
| Server.ResendNeverBlocks | api/http/management_filetransfer.go:625-630 | the send after draining the channel never blocks |
| Server.WriterRefines | api/http/management_filetransfer.go:828-898 | in every interleaving the writer is the sequential writer that finds the same answers (with lines 804-813) |
| Server.FoundExactly | api/http/management_filetransfer.go:828-898 | the interleavings lead the writer through exactly the answers of this kind: acknowledgements only where one is awaited, each above the one held, and errors only after a chunk (with lines 604-631) |
| Server.SentExactly | api/http/management_filetransfer.go:620-622 | the device may send exactly the acknowledgements of 64 bits, in any number and order |
| Server.UploadSuccessMeansFullDelivery | api/http/management_filetransfer.go:828-900 | in every interleaving 201 means full delivery and an acknowledgement of at least the file's length that the device really sent (with lines 620-631) |
| Server.FoundIncreasing | api/http/management_filetransfer.go:623-631 | the acknowledgements the writer finds in any interleaving are increasing |
| Server.WindowBoundOverRuns | api/http/management_filetransfer.go:859-885 | over all interleavings, under the condition of `WindowBound` on each acknowledgement, at most (20+1)*4096 bytes are unacknowledged (with lines 620-631) |
| Transfer.SystemKeepsInv | api/http/management_filetransfer.go:828-898 | in the closed loop the device is the receiver after a prefix of the published chunks, and the server has processed or will process exactly its acknowledgements (with lines 504-537, 620-631) |
| Transfer.MeasureDecreases | api/http/management_filetransfer.go:828-898 | every move of the closed loop decreases a measure (with lines 504-537, 620-631) |
| Transfer.RunsAreShort | api/http/management_filetransfer.go:828-898 | a run of the closed loop has at most 7*(pieces+1) moves, by a measure every move decreases (with lines 504-537, 620-631) |
| Transfer.UnscheduledRest | api/http/management_filetransfer.go:528-537 | bytes received since the last acknowledgement are at most 9*4096 (with lines 74-76) |
| Transfer.NothingToWaitFor | api/http/management_filetransfer.go:863-870 | when the device has consumed everything and no acknowledgement is on its way, the writer has no reason to wait (with lines 74-76, 889-892) |
| Transfer.NoDeadlock | api/http/management_filetransfer.go:828-898 | for every file in pieces of 1 to 4096 bytes, every reachable state before 201 has a move that is not a timeout (with lines 74-76, 504-537, 620-631) |
| Transfer.CreatedMeansReassembled | api/http/management_filetransfer.go:828-900 | 201 in the closed loop means that the device has written the identical file (with lines 504-537) |
| Transfer.EveryRunEndsInCreated | api/http/management_filetransfer.go:828-900 | every run of the closed loop is bounded, and one that cannot go on has ended in 201 with the identical file on a finished receiver (with lines 74-76, 504-537, 620-631) |
| Control.RoundTrip | app/control.go:40-99 | what an encoded message decodes to, whatever follows it: the same message with its offset modulo 2^32 and without the fields its type does not carry |
| Control.RoundTripExactly | app/control.go:40-99 | a message of known type survives the round trip if and only if its offset fits in 32 bits and it has no foreign fields |
| Control.DecodeInverts | app/control.go:66-99 | bytes that decode are the encoding of what they decode to |
| Control.EncodedBytes | app/control.go:40-64 | the bytes of a message: type, offset modulo 2^32 in four bytes, then delay or width and height in two each, least byte first |
| Control.Control.MarshalBinary | app/control.go:40-64 | fills the slice with the encoding of the message; an unknown type gives no bytes |
| Control.Control.UnmarshalBinary | app/control.go:66-99 | sets the fields the message type carries and no other; fails exactly on unknown types and on fewer than 9 or 7 bytes, without changing anything |
| Gzip.Read | store/mongo/recording_reader.go:59-76 | the assumption on the decompressor: at least one byte while data remains, then an end of file of its own |
| ControlReader.ControlMessageReader.New | store/mongo/control_reader.go:46-81 | prepares the messages of the first control record only, none if there is no record |
| ControlReader.ControlMessageReader.Pop | store/mongo/control_reader.go:83-139 | returns the messages of `Messages` one by one, never indexing outside the filled region, and null for good after the last |
| ControlReader.ControlMessageReader.Refill | store/mongo/control_reader.go:88-94 | reading into the buffer changes neither the messages left nor their order (with lines 73-75) |
| ControlReader.ControlMessageReader.Parse | store/mongo/control_reader.go:99-138 | takes the next message of `Messages` off the filled region, or finds that there is none |
| ControlReader.PopsWhole | store/mongo/control_reader.go:107-137 | canonical messages that lie wholly in a fill are popped unchanged, before anything after them |
| ControlReader.StopsInsideMessage | store/mongo/control_reader.go:110-121 | a fill that ends inside a message ends the reading there |
| ControlReader.ReadsBackExactly | store/mongo/control_reader.go:83-139 | from an encoded list of canonical messages always a prefix is read, and all of it if and only if none straddles a multiple of 4096 bytes |
| ControlReader.OneFillReadsBack | store/mongo/control_reader.go:83-139 | canonical messages that fit in one fill are returned unchanged |
| ControlReader.PrefixReadsPrefix | store/mongo/control_reader.go:46-139 | from any prefix of an encoded list only a prefix of the messages is read |
| ControlReader.DelaysReadBack | store/mongo/control_reader.go:73-94 | a list of delays alone comes back in full if and only if it has at most 585 of them (with lines 109-118) |
| RecordingReader.RecordingReader.Read | store/mongo/recording_reader.go:48-155 | for any buffer, empty ones included, the bytes returned and those staged, undecoded or unread are those that were left before; end of file comes exactly when nothing is staged or undecoded and the next record is missing or empty; staged bytes are given as far as they fit; otherwise a nonempty buffer gets at least one byte |
| RecordingReader.RecordingReader.Deliver | store/mongo/recording_reader.go:78-86 | gives what fits and stages the other bytes |
| RecordingReader.PlayableExactly | store/mongo/recording_reader.go:91-130 | reading to the first end of file gives the whole recording if and only if no empty record precedes a nonempty one |
| RecordingReader.PlayableUpTo | store/mongo/recording_reader.go:91-130 | what is read to the first end of file is the records before the first empty one |
| Playback.SendRecordingMessage | store/mongo/recording_writer.go:37-58 | one shell message with these bytes, or an error and none |
| Playback.SendControlMessage | store/mongo/datastore_mongo.go:379-411 | a delay message with the delay of the control message, or a resize message with its height and width, of this session; or an error and nothing sent; an unknown type is an error |
| Playback.RecordingWriterWrite | store/mongo/recording_writer.go:60-66 | every failure, and an empty write, is reported as a short write |
| Playback.PlacedEverywhere | store/mongo/datastore_mongo.go:476-553 | a placed playback has every control message in its order, with the session and the delay or the sizes of the recorded one, and in its place: never after its offset, less than 1024 bytes before it; every chunk is of this session |
| Playback.PlacedMeansPrefix | store/mongo/datastore_mongo.go:456-553 | the control messages of a placed playback are the first of those recorded, each with its delay or its sizes |
| Merge.WriteSessionRecords | store/mongo/datastore_mongo.go:414-558 | for all stored records and any failures of the sink, the playback ends; it sends a prefix of the recording and of the control messages, each with the delay or the sizes recorded, all placed; it returns nil if and only if all control messages were sent, and then all bytes were sent if and only if no write failed; every other outcome has its cause |
| Merge.PlayControls | store/mongo/datastore_mongo.go:454-554 | the loop over the control messages: a playback either comes to its end, bytes missing if and only if the last copy failed, or stops before a control message for one of three causes |
| Merge.PlayNext | store/mongo/datastore_mongo.go:477-552 | plays up to the next control message; one whose offset was passed is an error, and only unordered offsets are |
| Merge.PlayControl | store/mongo/datastore_mongo.go:546-552 | sends the delay or the sizes of the control message in its place, or stops with nothing sent |
| Merge.PlayUpTo | store/mongo/datastore_mongo.go:485-552 | plays the recording up to a control message and then the message, in its place; the buffer is sliced out of range only if the recording ended more than 1024 bytes before |
| Merge.PlayBuffers | store/mongo/datastore_mongo.go:497-518 | sends whole reads, each while the offset is more than 1024 bytes away, until it is within that or the recording ends, and loses none of the bytes read |
| Merge.PlayLast | store/mongo/datastore_mongo.go:520-545 | the last read ends in an admissible place; with staged bytes the message comes exactly at its offset if and only if they reach it; if the bytes or the record at hand end before the offset, it comes early |
| Merge.CopyRest | store/mongo/datastore_mongo.go:458-475 | copies the rest of the recording; without a failure all of it |
| Merge.ReadAndSend | store/mongo/datastore_mongo.go:498-514 | one read of the recording gives one message of exactly the bytes read, or an error and none |
| Merge.MessagesCanonical | store/mongo/control_reader.go:107-131 | whatever the stored bytes, messages read back are of known type with offsets of 32 bits |
| Merge.PlaybackExactly | store/mongo/datastore_mongo.go:456-557 | with nondecreasing offsets and a sink that accepts everything: the playback panics if and only if an offset lies more than 1024 bytes beyond the recording, and otherwise returns nil having sent exactly the recording and all control messages, each with its delay or its sizes |
| Merge.LostCopy | store/mongo/datastore_mongo.go:458-475 | a playback to a closed sink that returns nil having sent nothing |
| Merge.EarlyDelay | store/mongo/datastore_mongo.go:534-552 | a delay of offset 2 that is shown after one byte, because the record ends there |
| Recorder.Collection.Insert | store/mongo/datastore_mongo.go:561-578 | appends one record to those of its session and touches no other session |
| Recorder.BufferedRecorder.StoreRecord | app/recorder.go:52-79 | one stored record a call, of exactly these bytes; none without a session identifier |
| Recorder.BufferedRecorder.Write | api/http/management.go:644-650 | a write to the buffered writer of 16384 bytes acts as `Written`, and stored records and buffer together hold exactly what was written (with app/control_recorder.go lines 54-85) |
| Recorder.WriteKeepsContents | app/recorder.go:52-79 | however writes are cut into records, nothing is lost or moved and no stored record is empty |
| Recorder.SmallWrite | app/recorder.go:33-39 | a write that fits stores nothing; a small one that does not stores one record and holds back a rest |
| Recorder.RecordsOfWrite | app/recorder.go:33-39 | a write stores at most two records, none if and only if everything fits in 16384 bytes; the first is a full buffer if something was held back |
| Recorder.BufferedRecorder.Flush | api/http/management.go:369-370 | afterwards the stored records alone hold everything written (with lines 646 and 650) |
| Session.RecorderKeepsInv | api/http/management.go:483-530 | in every run: offsets of control messages never decrease and never pass the bytes recorded; delays lie in 1500..65535 ms without wrap-around; recorded sizes are zero (with lines 66-70, 751-791) |
| Session.DelayMs | api/http/management.go:501-511 | the delay recorded for a pause is its whole number of milliseconds, 65535 if that is longer; it is at least 1500 |
| Session.RecordedBelow | api/http/management.go:396-398 | the recorded bytes stay below 8 MiB plus one message (with line 524; app/limits.go line 25) |
| Session.RecordedCanonical | api/http/management.go:507-527 | with messages of at most the limit, recorded control messages lose nothing when encoded (with lines 777-785) |
| Session.WhileAllPasses | api/http/management.go:371-448 | as long as no event is over the limit and no write fails: all messages are forwarded, the recorded bytes are those of the shell commands, and the control messages are the delays after long pauses and the resizes without sizes, each at the number of bytes before it (with lines 719-732) |
| Session.CommandRecorded | api/http/management.go:483-530 | every shell command that passes adds its bytes, is forwarded, and adds one delay message at the bytes before it if and only if at least 1500 ms passed since the command before or the start; its delay is that pause in whole milliseconds, at most 65535 (with lines 388-413) |
| Session.MessageForwarded | api/http/management.go:383-436 | every message of the device that passes is forwarded, and only shell commands are recorded |
| Session.ResizeRecorded | api/http/management.go:719-731 | in any run a resize adds a 0 by 0 control message at the bytes recorded so far if and only if it has neither size, the user is still there, and less than 8 MiB of resizes were recorded (with lines 751-791) |
| Session.LimitCutsAt | api/http/management.go:371-448 | the first event that does not pass cuts the session: only what came before is forwarded; over the limit nothing more of the shell is recorded, the device is stopped and the session freed exactly once; after a failed write at most that one body is recorded; only resizes of the user are recorded after the cut, until the user leaves (with lines 451-481; app/limits.go line 25) |
| Terminal.TerminalSession.WriteControl | api/http/management.go:507-519 | the control recorder gets the binary form of the message (with lines 778-789) |
| Terminal.TerminalSession.RecordSession | api/http/management.go:483-530 | updates recorders and counters in place as `Record` does; the body goes through the buffered recorder |
| Terminal.TerminalSession.RecordDelay | api/http/management.go:502-520 | one delay message at the bytes recorded so far, with the delay of `DelayMs`, counted with its length |
| Terminal.TerminalSession.HandleSessLimit | api/http/management.go:451-481 | stops the device and frees the session once, however often it is called |
| Terminal.TerminalSession.FromDevice | api/http/management.go:383-436 | one round of the writer's loop acts as `HandleDevice`; a stop message flushes the recording |
| Terminal.TerminalSession.FromUser | api/http/management.go:719-731 | a resize message of the user acts as `HandleResize`: from the limit on it is ignored for good |
| Terminal.TerminalSession.SendResizeMessage | api/http/management.go:751-791 | records a 0 by 0 resize if and only if the message lacks both sizes |
| Terminal.TerminalSession.StopWriter | api/http/management.go:369-370 | the writer flushes both recorders when it ends |
| Terminal.TerminalSession.StopLoop | api/http/management.go:644-650 | so does the message loop |
| Terminal.TerminalSession.Serve | api/http/management.go:378-448 | for any interleaving of what the two loops meet, the store holds exactly what the run of module Session recorded, in nonempty records, and exactly the control records of that run (with lines 644-650, 682-749) |
| ControlStore.RunCounted | api/http/management.go:644-663 | in every run the shared control recorder holds exactly the encoded control messages, and its records are counted by what was written before and after the first of the two loops ended (with lines 369-370) |
| ControlStore.ControlRecords | api/http/management.go:644-663 | when both loops have ended there is at most one control record if and only if the messages fit in 16384 bytes and all lie on one side of the first end (with lines 369-370) |
| RoundTrip.RecordedExactly | store/mongo/control_reader.go:46-139 | control messages cut into nonempty records in any way are read back in full if and only if there is at most one record and no message straddles a multiple of 4096 bytes |
| RoundTrip.SecondRecordIsLost | store/mongo/control_reader.go:55-75 | of any two messages stored as a record each only the first comes back |
| RoundTrip.RecordedSessionPlaysBack | store/mongo/datastore_mongo.go:450-557 | for every run and every cutting into nonempty records, playback returns nil and sends exactly the recorded bytes and a placed prefix of the control messages, each with the delay recorded, all of them if and only if there is at most one control record and no message straddles a multiple of 4096 bytes (with api/http/management.go lines 483-530) |
| RoundTrip.ShortSessionPlaysBack | store/mongo/datastore_mongo.go:450-557 | control messages stored as one record of at most 4096 bytes all come back, in order, with their delays (with store/mongo/control_reader.go lines 83-139) |
| RoundTrip.ShortSessionComesBack | api/http/management.go:644-663 | control messages of at most 4096 bytes on one side of the first end of a loop all come back |
| RoundTrip.LateResizeIsLost | api/http/management.go:369-370 | a run of three events that loses one: resize, end of the writer, resize |
| RoundTrip.RecordAndPlayBack | api/http/management.go:378-448 | serving a session, storing it and playing it back shows, unless the sink fails, exactly the recorded bytes and a placed prefix of the control messages, each with the delay or the sizes recorded; it shows all of them if and only if they fit in 16384 bytes, lie on one side of the first end of a loop, and none straddles a multiple of 4096 bytes (with store/mongo/datastore_mongo.go lines 414-558) |
| Audit.EveryRunKeepsInv | app/app.go:189-278 | over all interleavings of the message loop, the limit handler and the deferred free: opens follow the session types, closes are a prefix of the types given to whoever deleted the session, and each cleanup ends only after the session is deleted (with api/http/management.go lines 187-192, 471-477, 703-741) |
| Audit.StateFollowsRun | app/app.go:226-275 | who deleted the session, how many closes failed and how many types came too late can be read off the steps of any interleaving |
| Audit.AuditPairing | app/app.go:189-278 | over all interleavings: at most one open and one close log a type, and never a close without an earlier open (with api/http/management.go lines 187-192, 471-477, 703-741) |
| Audit.MatchedExactly | app/app.go:244-275 | when all is over, opens and closes match if and only if nothing was opened, or a free deleted the session, no type was noted after it was called, and no close failed (with lines 226-234; api/http/management.go lines 187-192, 471-477) |
| Audit.FailedOpenEndsSession | app/app.go:226-234 | after a failed open nothing opens any more; when the loop has returned it has cleaned up and the session is deleted; and only a failed open makes it clean up (with api/http/management.go lines 703-741) |
| Audit.LoopDeletesExactly | app/app.go:226-234 | the loop is the one that deletes the session if and only if its clean-up, after a failed open, comes before any free deletes it |
| Audit.EveryRunEnds | app/app.go:189-278 | every interleaving ends within 17 steps, and one that cannot go on has ended all three activities and deleted the session (with api/http/management.go lines 187-192, 471-477, 703-741) |
| Audit.QuietSessionMatches | app/app.go:244-275 | without failures and without the limit handler everything opened is closed (with api/http/management.go lines 187-192) |
| Audit.EarlyFreeLeavesOpen | api/http/management.go:471-477 | a run without failures in which a terminal opens, the limit handler frees the session, and port forwarding opened afterwards is never closed (with lines 734-741) |
| Audit.FailedOpenLeavesOpen | app/app.go:226-234 | a run in which a terminal opens and port forwarding fails to: the session is deleted by the clean-up, so the free logs no close for the terminal (with lines 244-247) |
| Audit.FailingRun | app/app.go:189-236 | a run that opens any distinct types and then fails to open another, and ends with exactly those opens |
| Audit.ClosingRun | app/app.go:244-275 | a run that opens any distinct types and closes any first part of them, all unless the next close fails |
| App.App.PrepareUserSession | app/app.go:153-186 | a session is allocated if and only if it has an identifier, a user, a device and a start time, its device is connected and its identifier is new; otherwise nothing changes, and the error names the first of these that fails (with model/session.go lines 80-87) |
| App.App.DeleteSession | store/mongo/datastore_mongo.go:329-350 | the row is gone afterwards, and an error says that it was not there |
| App.App.LogUserSession | app/app.go:189-236 | one open log of the type named, or an error and none; a failed submission deletes the session, and a name other than "terminal" or "portforward" is an error |
| App.App.FreeUserSession | app/app.go:239-278 | the row is gone; close logs are written, in order and up to the first failure, if and only if the row was there |
| App.CloseLogsExactly | app/app.go:249-275 | a session type gets as many close logs as its name occurs among the types given; unknown names get none |
| Management.TypesExactly | api/http/management.go:705-712 | "terminal" is a session type if and only if there is a shell message, "portforward" if and only if there is a port forwarding message; each is listed once and nothing else is (with lines 676-677, 734-741) |
| Management.OpenLogsExactly | api/http/management.go:705-712 | a session type gets as many open logs as its name occurs among the types |
| Management.LogType | api/http/management.go:705-712 | a type becomes a session type if and only if its open log was submitted |
| Management.ProcessMessages | api/http/management.go:682-749 | the first message of each type is logged, once; a failed log ends the loop at a first message of its type and deletes the session; a failure to publish ends it after the type was noted |
| Management.Connect | api/http/management.go:168-192 | a connection is admitted if and only if its session is complete, its device connected and its identifier new; it leaves no session row behind, whatever fails; its log is that of a complete run of module Audit with as many failed submissions; it reports a failure if and only if a submission failed, and otherwise the types opened are exactly those closed (with lines 682-749) |
| Management.FailingLogsRun | api/http/management.go:703-741 | the log of a connection that fails to open a type is that of an interleaving of module Audit (with app/app.go lines 226-234) |
| Management.ClosingLogsRun | api/http/management.go:187-192 | so is the log of one that closes its types, up to the first failure (with app/app.go lines 244-275) |
| DeviceStatus.DeviceStore.SetDeviceConnected | store/mongo/datastore_mongo.go:247-281 | an atomic upsert: connected, with the version it returns one higher than before |
| DeviceStatus.DeviceStore.SetDeviceDisconnected | store/mongo/datastore_mongo.go:282-309 | disconnects only a device that still has this version, keeps the version, and never creates a device |
| DeviceStatus.DeviceStore.ProvisionDevice | store/mongo/datastore_mongo.go:196-216 | creates a device of unknown status, and leaves an existing one alone |
| DeviceStatus.OpenThenClose | store/mongo/datastore_mongo.go:247-309 | a connection without another in between leaves its device disconnected with one version more, and every other document alone |
| DeviceStatus.RunExactly | store/mongo/datastore_mongo.go:247-309 | the interleavings are all sequences in which a connection opens once and closes at most once after that |
| DeviceStatus.VersionedStatus | store/mongo/datastore_mongo.go:247-309 | for any interleaving of any connections: versions are distinct, each open adds one, and after the first open the device is connected if and only if the connection with the highest version has not closed (with api/http/device.go lines 293-331) |
| DeviceStatus.NeverOpened | store/mongo/datastore_mongo.go:196-216 | a device that no connection opened keeps its document, and one that was only provisioned has an unknown status |
| DeviceStatus.LateCloseChangesNothing | store/mongo/datastore_mongo.go:291-307 | a close changes the documents if and only if no connection of its device has opened with a higher version (with api/http/device.go lines 323-330) |
| DeviceStatus.LaterOpenIsLarger | store/mongo/datastore_mongo.go:264-280 | a later open of the same device has a larger version |
| DeviceConnection.HandleMessages | api/http/device.go:333-368 | the loop ends at the first message that is malformed or is a shell message without a session, or at the first that cannot be published, and otherwise with the connection; a session is marked if and only if its last message spawned a shell |
| DeviceConnection.SpawnedExactly | api/http/device.go:344-357 | the last message of a session spawned a shell if and only if some message of it did and no later message is of this session |
| DeviceConnection.EndIsFixed | api/http/device.go:333-368 | the messages and the number that can be published fix how the connection ends and how many messages are published |
| DeviceConnection.ConnectServeWS | api/http/device.go:285-369 | publishes the messages before the first that ends the connection, for exactly its reason; tells exactly the sessions whose last message spawned a shell; leaves the device disconnected with one version more than before |
| Migration.Client.Send | store/mongo/migration_2_0_1.go:146 | a bulk write is its replacements in order (with line 154) |
| Migration.Client.CopyCollection | store/mongo/migration_2_0_1.go:127-158 | for every number of documents, the batches put every document into the main collection with its fields and this tenant, and change nothing else |
| Migration.WritesAddSelected | store/mongo/migration_2_0_1.go:140-144 | upserts one by one put the documents in place, with their fields and this tenant, whatever was there |
| Migration.Client.UpMain | store/mongo/migration_2_0_1.go:104-123 | main documents without a tenant get the empty one; others keep theirs; no other collection changes |
| Migration.Client.UpTenant | store/mongo/migration_2_0_1.go:98-159 | in any order of the collections, each gets every document of the tenant with its fields and this tenant, and nothing else changes |
| Migration.Client.Migrate | store/mongo/migrations.go:59-81 | main database first, then every tenant's: in each of the four collections a document ends up with the fields and the tenant of the last database that has its identifier (with store/mongo/migration_2_0_1.go lines 98-159) |
| Migration.MigratedOwned | store/mongo/migration_2_0_1.go:127-158 | a document comes from the last tenant that has its identifier, with its fields there and that tenant |
| Migration.MigratedUnowned | store/mongo/migration_2_0_1.go:111-118 | no other document appears or disappears; it has the empty tenant if it had none |
| Migration.EveryTenantDocumentTagged | store/mongo/migration_2_0_1.go:96-159 | with disjoint identifiers every tenant document ends up in the main database with its own fields and its tenant |
| Migration.AllHaveTenant | store/mongo/migration_2_0_1.go:96-159 | afterwards every document has a tenant |
| Migration.MigrationIsIdempotent | store/mongo/migration_2_0_1.go:96-159 | running the migration again changes nothing |

## Left out

- Transfer.NoDeadlock: requires that the file and one window fit in 63 bits, because the window comparison
  wraps around beyond. In modules Server and Transfer no message fails to be published.
- Gzip.Read: assumes that the end of a compressed record is reported by a read of its own, and that the one
  read of the control reader fills its slice or drains the record. Corrupt records are not modelled.
- Recorder.BufferedRecorder.Write: failures of the store are not modelled.
- Session.DelayMs: divides integers where the source multiplies floats.
- Server.ConflationLosesNothing: an error message of the device appears as an error the writer may find at
  any poll or wait; that the inbound goroutine stops after it is not modelled.
- DeviceStatus.VersionedStatus: no device is deleted while its connections last, and versions are unbounded.
- Management.Connect: the limit handler competes only in module Audit.
- Data races finer than one call of `recordSession` or `sendResizeMessage`, or than one write to the control
  recorder that the two loops of a session share.
- The order of records by creation time is taken to be the order of insertion.
- Wall-clock time: timers, ping and pong deadlines, and the pauses of a playback. Timeouts are answers a
  select may find, or ends of a loop that may come at any time.
- HTTP routing, identities, request validation, multipart parsing, the handshake and `statFile` before a
  transfer, commands to the Mender client, inventory and workflow clients, shutdown.
- Index creation and the version check of the migration; tenant scoping of session rows.
