# AESD assignments: device, server and queues

A Dafny model of the state-carrying parts of the AESD assignments repository, with proofs.

* **The character device** (`aesd-char-driver/`). `Device.Write` accumulates chunks in a pending
  entry and, when a chunk contains a newline, hands the entry to `Ring`, which keeps the ten most
  recent and gives back the payload that leaves it. Payloads are heap arrays with an explicit set of
  live blocks. It is proved that the entries of the ring and the pending entry own exactly the live
  blocks, that only live blocks are freed, and that every record the model's operations read lies in
  a live block. `OpenFile` holds the file position and reads, seeks and runs the seek command on the
  device.
* **The socket server's worker** (`server/aesdsocket.c`), once as a class for one connection in file
  mode, once for one connection in device mode, and once as a step machine with any number of
  workers, one file, one mutex, and the timestamp alarm, whose handler runs on whatever thread the
  signal interrupts.
* **The intrusive queues** (`server/queue.h`). A head and an element's entry are the same kind of
  object, `Link { next, back }`, and "the address of a next cell" is the link that holds it.

The simple thing all of the first two are measured against is `Framing.Frame`: how a list of chunks
is cut into messages. `Device.Valid` and `FileWorker.Valid` tie the concrete state to `Frame` of
everything written or received, so what is proved about `Frame` holds in every reachable state.

Files: `Bytes` and `Reading` (byte strings, positions, reading piece by piece), `Framing`,
`CircularBuffer`, `CharDriver`, `SeekCommand` (what a seek command outputs), `FileOperations`,
`History` (runs of writes), `FileServer`, `DeviceServer`, `SharedDevice` (several clients on one
device), `InterleavedDump` (a dump while others write), `WorkerProtocol`, `WorkerTheorems` and
`WorkerProgress` (the step machine, its safety, and when it can go on), `WorkerService` (every list
of arrivals can be served), `Queues`, `TailQueues`, `Lists`, `SinglyTailQueues`. Check all of it with
`dafny verify dfyconfig.toml`.

## Where the code does less than it promises

The model keeps these as the code has them and proves exactly what happens:

* The alarm handler locks the mutex of the file on the thread it interrupts. If that thread holds the
  mutex itself, nobody gets the mutex again. A run is stuck if and only if an alarm has hit the
  thread that was holding the mutex (`RunStuck`; `AlarmDuringDump` is such a run), and exactly then
  the mutex cannot be released and no busy worker can finish (`MutexReleasable`, `RunCanFinish`).
* A failed copy from user space in `aesd_write` and a rejected command in `aesd_ioctl` return with
  the lock held (`Device.Write`, `OpenFile.SeekTo`: the lock is free afterwards exactly if it was
  free before and the call was interrupted, or its copy complete, or its command at most 10). A
  later call then only returns by a signal.
* `aesd_llseek` means to reject negative positions but tests an unsigned number; every target is
  accepted, and a negative one behaves as past the end (`OpenFile.LlSeek`, `OpenFile.Read`).
* A seek command does not carry an offset beyond the chosen record over into the following ones.
  `SeekExact` says for every command exactly when the output is what lies behind the place asked
  for: with an offset within a stored record, for the last record, for a slot that is not in use,
  and from the total length on; otherwise never for a record that is neither first nor last, and
  for the first one only if some record ends as many bytes behind it as were asked for and the
  bytes there are the same. Command 10 is accepted and means command 0
  (`SeekPastRecords`), although no record is numbered 10 and so none of its bytes were asked for.
* In device mode the sending loop takes no lock. It sends everything from the first byte held at its
  start to the last one held at its end if and only if no record is lost meanwhile (`CompletePass`);
  otherwise it skips, after each read, as many bytes as were lost before the next one (`PassSkips`,
  `PassEnds`; `SkippedRecord` misses a whole record).
* The device frames in order of arrival, whoever writes. Its records are the messages that separate
  workers would make exactly if no chunk completes a message while another client is in the middle
  of one (`SharedDeviceFrames`, `SharedDeviceHolds`, `MergedMessage`).
* The worker offers the next receive a room computed from the last chunk only; `RoomOffered` says
  exactly when that is the real room, and two short chunks already exceed it (`RoomOverstated`),
  as does a full buffer after a long message (`SizeStaysLarge`). Chunks are taken to fit the real room.
* The entry struct of every record is never freed, and cleanup leaves the pending payload allocated
  (`Device.Valid` counts the structs, `Device.Cleanup` says what stays).

## Model

| member | source | states |
|---|---|---|
| Bytes.LocateSound | aesd-char-driver/aesd-circular-buffer.c:22-36 | a position search succeeds exactly below the total, with sizes before the found record plus offset equal to the position |
| Bytes.LocateUnique | aesd-char-driver/aesd-circular-buffer.c:22-36 | only one (record, offset) pair names a position |
| Bytes.LocateByte | aesd-char-driver/aesd-circular-buffer.c:22-36 | the byte found is the byte of the records concatenated end to end at the position asked for |
| CircularBuffer.InsertRefines | aesd-char-driver/aesd-circular-buffer.c:102-121 | the offset and wrap-around arithmetic of an insertion keeps the ring well formed and appends the entry, dropping the oldest only when all ten slots are taken |
| CircularBuffer.OverwriteOldest | aesd-char-driver/aesd-circular-buffer.c:102-121 | overwriting the oldest slot and starting one slot later drops the oldest entry and appends the new one |
| CircularBuffer.Ring.constructor | aesd-char-driver/aesd-circular-buffer.c:137-140 | an initialised ring is valid and empty |
| CircularBuffer.Ring.AddEntry | aesd-char-driver/aesd-circular-buffer.c:85-132 | the ring holds the last ten of its entries and the new one, and the pointer returned is exactly the one leaving the ring |
| CircularBuffer.Ring.FindEntryOffsetForFpos | aesd-char-driver/aesd-circular-buffer.c:37-76 | for empty, partial and full rings the wrap-around search ends and gives the slot and offset of the position, or nothing exactly at or past the total |
| CircularBuffer.Ring.SlotsTotal | aesd-char-driver/aesd-circular-buffer.c:137-140 | unused slots have size 0, so all ten slots sum to what is stored |
| CircularBuffer.Ring.RawTotal | aesd-char-driver/aesd-circular-buffer.c:166-176 | the sum in array order equals the sum in logical order, wherever the ring starts |
| CircularBuffer.Ring.LengthOfAllEntries | aesd-char-driver/aesd-circular-buffer.c:166-176 | the loop over all slots computes the total length of the stored entries |
| Framing.FrameConserves | aesd-char-driver/main.c:211-263 | the messages followed by the pending bytes are exactly the chunks, in order |
| Framing.FrameDelimited | aesd-char-driver/main.c:235-263 | every message contains a newline and the pending bytes contain none |
| Framing.FrameMonotone | aesd-char-driver/main.c:248-263 | further chunks only add messages at the end |
| Framing.FrameUnique | aesd-char-driver/main.c:235-263 | framing is the only way to cut the chunks into groups closed by their only chunk with a newline and a rest without one |
| Framing.FrameExists | aesd-char-driver/main.c:235-263 | every list of chunks can be cut that way |
| Framing.FrameResumes | aesd-char-driver/main.c:248-263 | after a complete message framing starts afresh |
| CharDriver.Device.constructor | aesd-char-driver/main.c:287-292 | a device that is set up is valid, unlocked, has an empty pending entry, and nothing has been written |
| CharDriver.Device.Write | aesd-char-driver/main.c:194-272 | a successful write extends what was written by the chunk and keeps the device valid: the ring holds the last ten messages, the pending entry the rest, every payload has one owner; a failed one changes no contents and an interrupted one nothing at all; the lock is left held exactly if the call took it and some bytes could not be copied, and the pending entry is handed over exactly by a complete chunk with a newline |
| CharDriver.Device.GrowPending | aesd-char-driver/main.c:206-225 | makes room in a fresh block owned by the pending entry alone, with contents unchanged |
| CharDriver.Device.ScanNewBytes | aesd-char-driver/main.c:235-247 | counts the chunk into the pending bytes and detects a newline anywhere in it |
| CharDriver.Device.Publish | aesd-char-driver/main.c:248-263 | the pending entry becomes the newest of the last ten records and the payload that leaves the ring is the one freed |
| CharDriver.OwnsLastTen | aesd-char-driver/main.c:254-259 | giving up the block of the oldest of eleven entries leaves the other ten owning exactly the live blocks |
| CharDriver.Device.Cleanup | aesd-char-driver/main.c:353-356 | every slot's payload is freed once and only the pending payload stays allocated |
| CharDriver.Device.SlotsApart | aesd-char-driver/main.c:353-356 | every payload pointer in the array is live and occurs in no other slot |
| CharDriver.Device.SlotsAndPending | aesd-char-driver/main.c:353-359 | apart from the payloads in the array only the pending payload is allocated |
| CharDriver.Device.AtMostElevenLive | aesd-char-driver/main.c:248-263 | at most eleven payload blocks are allocated between operations |
| CharDriver.Device.PositionAt | aesd-char-driver/main.c:141-148 | a position found by sizes lies in the record of that index, held in a live block |
| History.DeviceConserves | aesd-char-driver/main.c:194-272 | evicted records, ring contents and pending bytes are together exactly what was written; records have newlines, pending bytes none; nothing is evicted before the ring is full |
| History.LastTenSuffix | aesd-char-driver/aesd-circular-buffer.c:85-132 | the ring's bytes are the end of all messages' bytes |
| History.HistoryConserves | aesd-char-driver/main.c:194-272 | the same for the lists of messages alone, for every run of writes |
| History.FullRingShifts | aesd-char-driver/aesd-circular-buffer.c:106-111 | a record arriving at a full ring shifts the concatenation by the oldest record's length, and a search finds the same byte that much earlier |
| History.PartialRingKeeps | aesd-char-driver/aesd-circular-buffer.c:102-121 | a record arriving at a ring with room leaves earlier search results as they were |
| Reading.ReadAtIsPrefix | aesd-char-driver/main.c:122-166 | a read gives the next bytes of the concatenation, at most as many as asked for, and none exactly past the end |
| Reading.ReadAtExact | aesd-char-driver/main.c:141-166 | a read gives exactly the bytes asked for, or all that the record at the position has left if those are fewer, and nothing exactly at a negative position, past the end, or if nothing is asked for |
| Reading.ReadFileExact | server/aesdsocket.c:214-220 | a read of the file gives exactly the bytes asked for, or all that are left if those are fewer |
| Reading.ReadOutIsRest | aesd-char-driver/main.c:106-167 | repeated reads of any positive size yield the rest of the concatenation |
| Reading.ReadsFromStep | aesd-char-driver/main.c:151-158 | each non-empty 100-byte read brings the end one read closer |
| Reading.StagedAll | aesd-char-driver/main.c:405-428 | with an offset within the first slot the threshold never stops the staging loop early |
| Reading.StagedWhole | aesd-char-driver/main.c:405-428 | staging stops only between slots, at the first point where the limit is reached |
| Reading.StagedBounded | aesd-char-driver/main.c:405-428 | staging outputs at most the bytes of the slots |
| FileOperations.OpenFile.LlSeek | aesd-char-driver/main.c:73-102 | the position becomes the offset counted from the start, from the position or from the total length, according to the origin, wrapped into signed 64 bits and exact for the start; only an unknown origin is rejected |
| FileOperations.OpenFile.Read | aesd-char-driver/main.c:106-167 | a read gives exactly the bytes asked for or all that the record at the position has left, advances by as many, and gives nothing exactly at negative positions, past the end, or if nothing is asked for |
| FileOperations.ClampedRead | aesd-char-driver/main.c:122-132 | replacing a count above the total and reading the position as unsigned does not change what is read |
| FileOperations.OpenFile.SeekTo | aesd-char-driver/main.c:369-445 | an accepted seek command whose output fits the 500-byte staging buffer outputs `SeekOutput`; one above 10 is rejected and leaves the lock held |
| FileOperations.OpenFile.StageSlots | aesd-char-driver/main.c:401-428 | the nested copy loops visit each slot at most once, end at the slot to read first, and stage exactly the specified bytes |
| FileOperations.OpenFile.CopySlot | aesd-char-driver/main.c:406-415 | the inner loop appends the slot's bytes from the offset on, and nothing for an offset beyond it |
| SeekCommand.SeekServes | aesd-char-driver/main.c:384-432 | for a stored record and an offset within it, the output is everything from that byte to the end of the concatenation |
| SeekCommand.SeekAgreesWithReading | aesd-char-driver/main.c:384-432 | the output equals repeated reads from that position until one gives nothing, for every read size |
| SeekCommand.SeekPastRecords | aesd-char-driver/main.c:389-393 | commands past the stored records output nothing, and command 10 is command 0 |
| SeekCommand.SeekBeyondRecord | aesd-char-driver/main.c:395-428 | an offset beyond the record outputs whole following records up to the first point where the threshold is reached |
| SeekCommand.SeekExact | aesd-char-driver/main.c:384-432 | for non-empty records and every accepted command and offset: the number of bytes output is that asked for if and only if `RightCount` holds, and the bytes are those asked for if and only if `ServedAsAsked` holds |
| SeekCommand.LaterRecordMissed | aesd-char-driver/main.c:395-428 | beyond a record that is neither first nor last, and below the total, more bytes come out than were asked for |
| SeekCommand.FirstRecordServed | aesd-char-driver/main.c:395-428 | beyond the first record the right number of bytes comes out exactly if a record ends there, and the right bytes exactly if moreover they repeat |
| FileOperations.OpenFile.DeviceSeekExact | aesd-char-driver/main.c:369-445 | the same condition is exact for the records of every device, which are never empty |
| SeekCommand.SeekMissesFarOffset | aesd-char-driver/main.c:395-428 | an instance where the output differs from the bytes at the record's start plus the offset |
| SeekCommand.SeekBounded | aesd-char-driver/main.c:391-428 | for every accepted command and offset no more bytes are staged than the ring holds |
| FileOperations.OpenFile.Dump | server/aesdsocket.c:212-230 | on a device nobody writes to meanwhile the 100-byte seek-and-read loop ends, sends exactly the records concatenated, and makes one non-empty read per started 100 bytes of each record |
| FileServer.FindDelimiterPosition | server/aesdsocket.c:183-193 | the first newline in the range, or -1 if there is none |
| FileServer.FileWorker.DumpFileToSocket | server/aesdsocket.c:212-230 | reading the file in 100-byte pieces sends exactly the file, in one non-empty read per started 100 bytes |
| FileServer.FileWorker.OnChunk | server/aesdsocket.c:269-320 | a chunk that fits the real buffer extends the stream received; buffer and file stay the pending bytes and the concatenated messages behind what the file held before; a delimited chunk is answered with the whole file; the buffer, its supposed size and the room offered change as the code has it, the supposed size never shrinking |
| FileServer.FileWorker.KeepAccumulating | server/aesdsocket.c:281-294 | without a newline the bytes stay buffered, in a larger buffer once the old one is full |
| FileServer.RoomOffered | server/aesdsocket.c:284-292 | the room offered is never too small, and is the real room exactly after a reset, after enlarging, or for a first chunk with an up-to-date buffer size |
| FileServer.RoomOverstated | server/aesdsocket.c:284-292 | after any two one-byte chunks without a newline the room offered exceeds the real one |
| FileServer.SizeStaysLarge | server/aesdsocket.c:284-320 | after a message that needed a larger buffer, filling the initial buffer does not enlarge it, and the next room offered is all of it with nothing behind |
| FileServer.ShortMessagesFit | server/aesdsocket.c:240-320 | chunks of messages shorter than the initial buffer always fit |
| FileServer.ShortMessagesServed | server/aesdsocket.c:240-320 | every list of non-empty chunks whose messages and rest are shorter than the initial buffer fits |
| FileServer.ConnectionWorker | server/aesdsocket.c:261-325 | over any list of chunks that fit the real buffer, whatever the file held before, each message is answered with the file up to and including it |
| DeviceServer.EchoIfDelimited | server/aesdsocket.c:357-363 | after a write, a chunk with a newline is answered with what the device holds, another one with nothing |
| DeviceServer.CommandIsTaken | server/aesdsocket.c:42-50 | the command text with 4 to 8 bytes behind it is taken for a seek command |
| DeviceServer.OtherTextIsOrdinary | server/aesdsocket.c:42-52 | chunks of other lengths or without a colon are not |
| DeviceServer.ConnectionWorker | server/aesdsocket.c:330-366 | over any list of chunks that are no seek commands, on a device with any earlier writes, everything is written and each delimited chunk is answered with what the device holds then |
| DeviceServer.ModesAgree | server/aesdsocket.c:269-363 | for the same chunks after the same messages, both modes have the same pending bytes and the device the last ten of the file's messages if and only if earlier connections left nothing pending on the device; likewise file and buffer are all that was written; its bytes are then a suffix of the file |
| DeviceServer.StreamsAgree | server/aesdsocket.c:269-363 | file and buffer lack what earlier connections left pending, and nothing else if that is nothing |
| DeviceServer.EchoesAgree | server/aesdsocket.c:308-363 | message by message the device-mode echo is a suffix of the file-mode echo, and equal up to the tenth message written |
| DeviceServer.BothModes | server/aesdsocket.c:261-366 | serving the same chunks in both modes after the same complete messages serves both connections and gives such echoes |
| SharedDevice.SharedDeviceFrames | aesd-char-driver/main.c:204-263 | with several clients the messages framed, and the last ten of them, are at every point those of separate workers if and only if no chunk completes a message while another client has bytes pending |
| SharedDevice.SharedDeviceHolds | aesd-char-driver/main.c:204-263 | a device written to without such a chunk holds the last ten of the separate workers' messages, and its pending bytes are a client's own exactly if no other client has any |
| SharedDevice.PendingMatchesAlways | aesd-char-driver/main.c:214-225 | the shared pending entry is one client's exactly if no other client has bytes pending, and longer otherwise |
| SharedDevice.MergedMessage | aesd-char-driver/main.c:214-263 | two clients whose bytes end up in one record |
| InterleavedDump.RoundContinues | server/aesdsocket.c:214-222 | after any writes in between, the next read starts in the stream of messages where the last one ended, shifted by the bytes the ring has lost since |
| InterleavedDump.UndisturbedPass | server/aesdsocket.c:357-363 | a finished pass during which no record was lost has sent exactly what the device holds at its end |
| InterleavedDump.CompletePass | server/aesdsocket.c:357-363 | a finished pass has sent everything from the first byte held at its start to the last held at its end if and only if no record was lost meanwhile |
| InterleavedDump.PassSkips | server/aesdsocket.c:212-230 | what a pass sends, one piece per read, is the stream less gaps, one after each read, each as long as what was lost before the next read |
| InterleavedDump.PassEnds | server/aesdsocket.c:212-230 | a finished pass's reads, the gaps behind them and the part the last loss put out of reach are together everything from the first byte held at its start |
| InterleavedDump.SkippedRecord | server/aesdsocket.c:212-230 | with ten records, the second as long as the first, a message arriving after the first read makes the pass miss the second record |
| InterleavedDump.DumpAmongWrites | server/aesdsocket.c:212-230 | the sending loop on the device ends and goes through such a pass, with all the writes of each round made between its two reads, for as many rounds as it has non-empty reads |
| WorkerProtocol.StepKeepsInv | server/aesdsocket.c:127-180 | every step of every worker and of every alarm handler keeps the invariant |
| WorkerProtocol.RunKeepsInv | server/aesdsocket.c:261-325 | the invariant holds in every state of every run |
| WorkerProtocol.Undisturbed | server/aesdsocket.c:153-180 | bytes appended by others leave a worker's stream and echoes as they were |
| WorkerTheorems.InputIsPossible | server/aesdsocket.c:261-275 | exactly when a chunk can arrive, a client connect or hang up, and an alarm hit a thread: nothing but a handler on the thread holds input up |
| WorkerTheorems.InputIsTaken | server/aesdsocket.c:269-276 | a chunk is taken in whole and by nothing but its arrival, and only connecting and hanging up make a worker come and go |
| WorkerTheorems.ChunksAreReceived | server/aesdsocket.c:261-276 | over every run a worker's chunks are exactly those that arrived from its client |
| WorkerTheorems.ComesAndGoes | server/aesdsocket.c:261-275 | over every run a worker is there exactly once its client has connected, and gone exactly if it has hung up |
| WorkerTheorems.StampsAreWritten | server/aesdsocket.c:127-146 | over every run the timestamp lines of the file are those the handlers wrote, with prefix, whole text and newline, in order |
| WorkerTheorems.MutualExclusion | server/aesdsocket.c:127-180 | in every run at most one worker or handler is inside a critical section, and it holds the mutex |
| WorkerTheorems.FileIsWholeItems | server/aesdsocket.c:127-180 | whenever the mutex is free the file is a concatenation of whole messages and whole timestamp lines |
| WorkerTheorems.StreamIsKept | server/aesdsocket.c:269-320 | the file restricted to a client, then its unflushed bytes, is what arrived from the client, and its messages are those of framing what arrived |
| WorkerTheorems.PassFreezesFile | server/aesdsocket.c:200-230 | while a worker is in a sending pass nobody changes the file |
| WorkerTheorems.PassSendsOneFile | server/aesdsocket.c:195-232 | a completed pass has sent exactly the file as it stood throughout the pass |
| WorkerTheorems.EchoIsFileAtPass | server/aesdsocket.c:308-310 | each echo is the file when its pass began, with the client's own messages in it exactly those of framing what arrived, up to the one answered |
| WorkerTheorems.EchoContainsMessage | server/aesdsocket.c:308-310 | each echo contains the message it answers as one contiguous block |
| WorkerTheorems.EchoInFile | server/aesdsocket.c:195-232 | each echo to a client is a prefix of the file |
| WorkerTheorems.EchoesGrow | server/aesdsocket.c:195-232 | each echo to a client is a prefix of its later echoes, and those of the file |
| WorkerTheorems.FileGrows | server/aesdsocket.c:138-175 | over every run the file is only ever appended to |
| WorkerProgress.StepStuck | server/aesdsocket.c:127-132 | a step makes the protocol stuck if and only if it is an alarm on the thread holding the mutex |
| WorkerProgress.RunStuck | server/aesdsocket.c:127-132 | a run ends stuck if and only if an alarm has hit the thread that was holding the mutex |
| WorkerProgress.StuckForever | server/aesdsocket.c:127-232 | whatever happens in a stuck protocol, mutex, file and busy workers stay as they are |
| WorkerProgress.AlarmDuringDump | server/aesdsocket.c:132-157 | a run of four steps that is stuck |
| WorkerProgress.HolderEnabled | server/aesdsocket.c:127-232 | the thread holding the mutex can step if and only if the protocol is not stuck |
| WorkerProgress.HolderAdvances | server/aesdsocket.c:127-232 | whatever the thread holding the mutex does, other than being hit by an alarm in its own code, brings the release one step closer, with any timestamp text |
| WorkerProgress.OthersDoNotDelay | server/aesdsocket.c:127-232 | steps of other threads leave the holder's remaining steps as they were |
| WorkerProgress.EverySchedule | server/aesdsocket.c:127-232 | along any list of actions with no alarm on the holder in its own code, its thread takes at most its remaining steps before the release, and the mutex has been given back if and only if it took exactly that many |
| WorkerProgress.GivenBackMeans | server/aesdsocket.c:127-232 | given back along a list of actions means that at some point of it the holder no longer has the mutex |
| WorkerProgress.HolderReleases | server/aesdsocket.c:214-230 | from every state of a run that is not stuck, the holder's remaining steps, all by its own thread and none of them input, free the mutex |
| WorkerProgress.MutexReleasable | server/aesdsocket.c:127-232 | some steps free the mutex if and only if the protocol is not stuck |
| WorkerProgress.NoOtherDeadlock | server/aesdsocket.c:127-232 | while a worker is in the middle of a message, some step other than input is possible if and only if the protocol is not stuck |
| WorkerProgress.CanFinish | server/aesdsocket.c:261-325 | unless the protocol is stuck, some steps without input to anyone lead to the worker waiting for its next chunk with an echo for every message it received |
| WorkerProgress.BusyCanFinish | server/aesdsocket.c:261-325 | a busy worker can still get its echo if and only if the protocol is not stuck |
| WorkerProgress.RunCanFinish | server/aesdsocket.c:261-325 | after any run some steps give a busy worker's client an echo for every message that arrived if and only if no alarm has hit the thread that was holding the mutex |
| WorkerProgress.CanBeAnswered | server/aesdsocket.c:261-325 | those steps need no input to anyone |
| WorkerService.EveryoneCanBeServed | server/aesdsocket.c:261-325 | however non-empty chunks arrive from any number of clients, there is a run in which exactly they arrive, the file becomes the messages of separate workers in the order of their completion, and every message has its echo |
| Queues.ContentsUnique | server/queue.h:650-653 | a head determines the sequence of its elements |
| Queues.BackLinksKeepApart | server/queue.h:635-644 | well-formed queues with different heads that are not elements share no element |
| Queues.Foreach | server/queue.h:650-653 | the forward walk visits exactly the elements in order |
| Queues.ChainInserted | server/queue.h:696-742 | redirecting one cell to a new element that points on inserts it into the chain at that place |
| Queues.BackInserted | server/queue.h:696-742 | with the new element and its successor naming their cells, all back links are right after an insertion |
| Queues.ChainRemoved | server/queue.h:752-764 | redirecting the cell before an element to its successor removes it from the chain |
| Queues.BackRemoved | server/queue.h:752-764 | with the successor naming the cell before, all back links are right after a removal |
| Queues.ChainJoined | server/queue.h:635-644 | redirecting the last cell of one chain to the first element of another joins them |
| TailQueues.Init | server/queue.h:690-694 | an empty well-formed queue |
| TailQueues.InsertHead | server/queue.h:721-732 | keeps the link invariant and inserts in front |
| TailQueues.InsertTail | server/queue.h:734-742 | keeps the link invariant and appends |
| TailQueues.InsertAfter | server/queue.h:696-709 | keeps the link invariant and inserts behind the given element |
| TailQueues.InsertBefore | server/queue.h:711-719 | keeps the link invariant and inserts before the given element, without the head |
| TailQueues.Remove | server/queue.h:752-768 | keeps the link invariant and removes the given element, touching only the cell before it and the element or head after it |
| TailQueues.Concat | server/queue.h:635-644 | gives both sequences joined and an empty second queue, either possibly empty |
| TailQueues.Swap | server/queue.h:770-785 | exchanges two queues, either possibly empty |
| TailQueues.Last | server/queue.h:744-745 | the double indirection gives the last element, or null for an empty queue |
| TailQueues.Prev | server/queue.h:749-750 | the double indirection gives the predecessor, or null for the first element |
| TailQueues.ForeachReverse | server/queue.h:670-673 | the reverse walk visits exactly the reversed sequence |
| TailQueues.RemoveWhileWalking | server/queue.h:660-663 | a safe walk whose body removes elements still visits all, and exactly the kept ones stay |
| TailQueues.Drain | server/aesdsocket.c:408-414 | the drain loop ends, frees every node once in insertion order, and leaves the queue empty and well formed |
| Lists.InsertHead | server/queue.h:529-535 | keeps the link invariant and inserts in front |
| Lists.InsertAfter | server/queue.h:512-519 | keeps the link invariant and inserts behind the given element |
| Lists.InsertBefore | server/queue.h:521-527 | keeps the link invariant and inserts before the given element, without the head |
| Lists.Remove | server/queue.h:544-555 | keeps the link invariant and removes the given element, without the head |
| Lists.Prev | server/queue.h:539-542 | the predecessor, or null for the first element |
| Lists.Concat | server/queue.h:467-482 | the walk to the last element ends and the sequences are joined, either possibly empty |
| Lists.Swap | server/queue.h:557-565 | exchanges two lists, either possibly empty |
| SinglyTailQueues.InsertHead | server/queue.h:351-355 | keeps the tail pointer and inserts in front |
| SinglyTailQueues.InsertTail | server/queue.h:357-361 | keeps the tail pointer and appends |
| SinglyTailQueues.InsertAfter | server/queue.h:345-349 | keeps the tail pointer and inserts behind the given element |
| SinglyTailQueues.RemoveHead | server/queue.h:390-394 | keeps the tail pointer and removes the first element |
| SinglyTailQueues.RemoveAfter | server/queue.h:384-388 | keeps the tail pointer and removes the element behind the given one |
| SinglyTailQueues.Remove | server/queue.h:370-382 | the search for the predecessor ends and the given element is removed |
| SinglyTailQueues.Last | server/queue.h:363-366 | the last element, or null for an empty queue |
| SinglyTailQueues.Concat | server/queue.h:308-314 | gives both sequences joined and an empty second queue |
| SinglyTailQueues.Swap | server/queue.h:396-407 | exchanges two queues, either possibly empty |

## Left out

- Sockets, `accept`, `bind`, `fork`, signals other than the alarm, syslog, `open`/`close` and their failures: a receive is an arbitrary non-empty chunk, a file write an atomic append, and a send appends to what the client got.
- The other calls in the alarm handler that are not safe in one (`malloc`, `localtime`): the handler is its lock, its two appends and its unlock.
- `create_node`'s hand-over of the list mutex and the shutdown through `should_quit`.
- DeviceServer.ConnectionWorker: runs over chunks that are no seek commands, with less than 2^63 bytes written in all; of `handle_ioctl_commainds` only which chunks it takes for commands is modelled (`IsSeekCommand`), not the parsing of the two numbers or the sending of the result.
- Failing allocations, and partial user copies when reading; `krealloc` always moves the block in the model, while the kernel may also grow it in place.
- FileOperations.OpenFile.SeekTo: requires the output to fit the 500-byte staging buffer, which the code does not check; the release of that buffer, which the rejecting branch skips, is not modelled.
- FileServer.FileWorker.OnChunk: requires the chunk to fit the real buffer (`Fits`), because the room the code offers can exceed it, as `RoomOffered` and `RoomOverstated` say.
- FileServer.ConnectionWorker: requires all chunks to fit the real buffer (`FitAll`), for the same reason; the file has this one writer during the connection, other writers are the subject of the worker protocol.
- DeviceServer.BothModes: has the conditions of both workers, and a device without pending bytes, since otherwise the messages differ (`ModesAgree`).
- FileOperations.OpenFile.Read: `aesd_read` takes no lock, and each read is one atomic step here; sums of sizes are taken to fit a signed 64-bit number.
- FileOperations.OpenFile.Dump: is over a device that nobody writes to meanwhile; `InterleavedDump` has the writes in between.
- InterleavedDump.DumpAmongWrites: interleaves whole reads and writes.
- The mutex of the device is a flag; concurrent calls on the device are not interleaved inside each other.
- Open, release, device numbers, registration and debug printing; the helpers used only for debug output; the unused `copy_data_between_endpoints_to_user`.
- The SLIST macros, which are the forward half of the STAILQ ones, the `_FROM` walks, and the trace fields of `QUEUE_MACRO_DEBUG`.
