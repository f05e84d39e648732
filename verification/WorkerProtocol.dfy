/** Any number of file-mode workers, interleaved step by step on one output file guarded by
    one mutex, and the alarm handler that writes timestamps, which runs on whatever thread
    the signal interrupts. */
module WorkerProtocol {
  import opened Bytes
  import opened Framing
  import opened Reading

  /** What was appended to the file, in order: a client's message or a timestamp line. */
  datatype Item = Message(client: nat, bytes: seq<byte>) | Stamp(bytes: seq<byte>)

  datatype Thread = MainThread | WorkerThread(c: nat)

  /** Who locked the mutex: a worker in its own code, or the alarm handler on some thread. */
  datatype Owner = Free | Client(id: nat) | Handler(host: Thread)

  /** Where a worker is in its loop.  It holds the mutex from `Dumping` to `Dumped` and from
      `Sending` to `Sent`. */
  datatype Pc = Absent | Receiving | WantsToDump | Dumping | Dumped | WantsToSend | Sending | Sent | Closed

  /** A worker: the chunks received, the buffer, the reading offset and the bytes sent in the
      current pass, the echoes completed so far, and for each of them (and for the current
      pass) the items that were in the file when the pass began. */
  datatype Worker = Worker(pc: Pc, chunks: seq<seq<byte>>, buffer: seq<byte>, offset: nat, sent: seq<byte>,
                           echoes: seq<seq<byte>>, seen: seq<seq<Item>>)

  datatype HandlerPc = Idle | WantsLock | Locked | WroteText | WroteLine

  /** `handlers` says where the alarm handler is on the threads it interrupted, and `part` is
      the part of a timestamp line written before its newline. */
  datatype State = State(workers: map<nat, Worker>, handlers: map<Thread, HandlerPc>, part: seq<byte>, lock: Owner,
                         file: seq<byte>, log: seq<Item>)

  datatype Action =
    | Connect(c: nat)
    | Recv(c: nat, chunk: seq<byte>)
    | Hangup(c: nat)
    | LockToDump(c: nat)
    | Append(c: nat)
    | UnlockDump(c: nat)
    | LockToSend(c: nat)
    | Read(c: nat)
    | UnlockSend(c: nat)
    | AlarmFires(host: Thread)
    | AlarmLock(host: Thread)
    | AlarmText(host: Thread, text: seq<byte>)
    | AlarmNewline(host: Thread)
    | AlarmUnlock(host: Thread)

  const NEWCOMER: Worker := Worker(Absent, [], [], 0, [], [], [])

  const INITIAL: State := State(map[], map[], [], Free, [], [])

  /** The bytes of the text timestamp: that every timestamp line starts with. */
  const STAMP_PREFIX: seq<byte> := [116, 105, 109, 101, 115, 116, 97, 109, 112, 58]

  function WorkerOf(s: State, c: nat): Worker {
    if c in s.workers then s.workers[c] else NEWCOMER
  }

  predicate Critical(pc: Pc) {
    pc in {Dumping, Dumped, Sending, Sent}
  }

  function HandlerOf(s: State, h: Thread): HandlerPc {
    if h in s.handlers then s.handlers[h] else Idle
  }

  predicate HandlerCritical(pc: HandlerPc) {
    pc in {Locked, WroteText, WroteLine}
  }

  /** The thread an action is a step of; the main thread accepts connections. */
  function ThreadOf(a: Action): Thread {
    match a
    case Connect(_) => MainThread
    case Recv(c, _) => WorkerThread(c)
    case Hangup(c) => WorkerThread(c)
    case LockToDump(c) => WorkerThread(c)
    case Append(c) => WorkerThread(c)
    case UnlockDump(c) => WorkerThread(c)
    case LockToSend(c) => WorkerThread(c)
    case Read(c) => WorkerThread(c)
    case UnlockSend(c) => WorkerThread(c)
    case AlarmFires(h) => h
    case AlarmLock(h) => h
    case AlarmText(h, _) => h
    case AlarmNewline(h) => h
    case AlarmUnlock(h) => h
  }

  predicate IsAlarm(a: Action) {
    a.AlarmFires? || a.AlarmLock? || a.AlarmText? || a.AlarmNewline? || a.AlarmUnlock?
  }

  /** A thread runs its own code only while the handler is not running on it. */
  predicate Enabled(s: State, a: Action) {
    && (!IsAlarm(a) ==> HandlerOf(s, ThreadOf(a)) == Idle)
    && match a
       case Connect(c) => WorkerOf(s, c).pc == Absent
       case Recv(c, chunk) => WorkerOf(s, c).pc == Receiving && chunk != []
       case Hangup(c) => WorkerOf(s, c).pc == Receiving
       case LockToDump(c) => WorkerOf(s, c).pc == WantsToDump && s.lock == Free
       case Append(c) => WorkerOf(s, c).pc == Dumping
       case UnlockDump(c) => WorkerOf(s, c).pc == Dumped
       case LockToSend(c) => WorkerOf(s, c).pc == WantsToSend && s.lock == Free
       case Read(c) => WorkerOf(s, c).pc == Sending
       case UnlockSend(c) => WorkerOf(s, c).pc == Sent
       case AlarmFires(h) =>
         HandlerOf(s, h) == Idle && (h.WorkerThread? ==> WorkerOf(s, h.c).pc !in {Absent, Closed})
       case AlarmLock(h) => HandlerOf(s, h) == WantsLock && s.lock == Free
       case AlarmText(h, text) => HandlerOf(s, h) == Locked && NEWLINE !in text
       case AlarmNewline(h) => HandlerOf(s, h) == WroteText
       case AlarmUnlock(h) => HandlerOf(s, h) == WroteLine
  }

  function PutHandler(s: State, h: Thread, pc: HandlerPc): State {
    s.(handlers := s.handlers[h := pc])
  }

  function Put(s: State, c: nat, w: Worker): State {
    s.(workers := s.workers[c := w])
  }

  function Next(s: State, a: Action): State
    requires Enabled(s, a)
  {
    match a
    case Connect(c) => Put(s, c, NEWCOMER.(pc := Receiving))
    case Recv(c, chunk) =>
      var w := WorkerOf(s, c);
      Put(s, c, w.(pc := if NEWLINE in chunk then WantsToDump else Receiving,
                   chunks := w.chunks + [chunk], buffer := w.buffer + chunk))
    case Hangup(c) => Put(s, c, WorkerOf(s, c).(pc := Closed))
    case LockToDump(c) => Put(s, c, WorkerOf(s, c).(pc := Dumping)).(lock := Client(c))
    case Append(c) =>
      var w := WorkerOf(s, c);
      Put(s, c, w.(pc := Dumped)).(file := s.file + w.buffer, log := s.log + [Message(c, w.buffer)])
    case UnlockDump(c) => Put(s, c, WorkerOf(s, c).(pc := WantsToSend)).(lock := Free)
    case LockToSend(c) =>
      var w := WorkerOf(s, c);
      Put(s, c, w.(pc := Sending, offset := 0, sent := [], seen := w.seen + [s.log])).(lock := Client(c))
    case Read(c) =>
      var w := WorkerOf(s, c);
      var data := ReadFile(s.file, w.offset, 100);
      if data != [] then Put(s, c, w.(offset := w.offset + |data|, sent := w.sent + data))
      else Put(s, c, w.(pc := Sent, echoes := w.echoes + [w.sent]))
    case UnlockSend(c) => Put(s, c, WorkerOf(s, c).(pc := Receiving, buffer := [])).(lock := Free)
    case AlarmFires(h) => PutHandler(s, h, WantsLock)
    case AlarmLock(h) => PutHandler(s, h, Locked).(lock := Handler(h))
    case AlarmText(h, text) =>
      PutHandler(s, h, WroteText).(part := STAMP_PREFIX + text, file := s.file + STAMP_PREFIX + text)
    case AlarmNewline(h) =>
      PutHandler(s, h, WroteLine).(part := [], file := s.file + [NEWLINE],
                                   log := s.log + [Stamp(s.part + [NEWLINE])])
    case AlarmUnlock(h) => PutHandler(s, h, Idle).(lock := Free)
  }

  /** A run performs any list of actions; one that is not enabled when its turn comes does
      nothing, as when a thread waits. */
  function Perform(s: State, a: Action): State {
    if Enabled(s, a) then Next(s, a) else s
  }

  function Run(actions: seq<Action>): State {
    if actions == [] then INITIAL
    else Perform(Run(actions[..|actions| - 1]), actions[|actions| - 1])
  }

  function Contents(log: seq<Item>): seq<byte> {
    if log == [] then [] else Contents(log[..|log| - 1]) + log[|log| - 1].bytes
  }

  /** The messages of one client, in the order they were appended. */
  function MessagesOf(log: seq<Item>, c: nat): seq<Record> {
    if log == [] then []
    else
      var last := log[|log| - 1];
      MessagesOf(log[..|log| - 1], c) + if last.Message? && last.client == c then [last.bytes] else []
  }

  // The invariant.

  ghost predicate LockOk(s: State) {
    && (forall c: nat :: Critical(WorkerOf(s, c).pc) <==> s.lock == Client(c))
    && (forall h: Thread :: HandlerCritical(HandlerOf(s, h)) <==> s.lock == Handler(h))
  }

  predicate IsStampText(part: seq<byte>) {
    STAMP_PREFIX <= part && NEWLINE !in part
  }

  /** A handler is between the two writes of a timestamp line. */
  predicate InLine(s: State) {
    s.lock.Handler? && HandlerOf(s, s.lock.host) == WroteText
  }

  ghost predicate FileOk(s: State) {
    && s.file == Contents(s.log) + s.part
    && (if InLine(s) then IsStampText(s.part) else s.part == [])
    && StampsOk(s.log)
  }

  /** Every timestamp line is well formed. */
  ghost predicate StampsOk(log: seq<Item>) {
    forall i :: 0 <= i < |log| && log[i].Stamp? ==> IsStampLine(log[i].bytes)
  }

  ghost predicate IsStampLine(line: seq<byte>) {
    line != [] && line[|line| - 1] == NEWLINE && IsStampText(line[..|line| - 1])
  }

  /** The messages logged for a client and its buffer are what framing its chunks gives. */
  ghost predicate StreamOk(w: Worker, logged: seq<Record>) {
    var f := Frame(w.chunks);
    match w.pc
    case Absent => w == NEWCOMER && logged == []
    case Receiving | Closed => f == Framed(logged, w.buffer)
    case WantsToDump | Dumping => f == Framed(logged + [w.buffer], [])
    case Dumped | WantsToSend | Sending | Sent =>
      f == Framed(logged, []) && logged != [] && logged[|logged| - 1] == w.buffer
  }

  /** A pass in progress has sent what lies before its offset; each completed echo is the
      file as it was when its pass began. */
  ghost predicate EchoOk(w: Worker, c: nat, log: seq<Item>, file: seq<byte>) {
    && (w.pc in {Sending, Sent} ==> w.offset <= |file| && w.sent == file[..w.offset])
    && (w.pc in {Sending, Sent} ==> w.seen != [] && w.seen[|w.seen| - 1] == log)
    && (w.pc == Sent ==> w.offset == |file|)
    && |w.seen| == |w.echoes| + (if w.pc == Sending then 1 else 0)
    && |Frame(w.chunks).messages|
       == |w.seen| + (if w.pc in {WantsToDump, Dumping, Dumped, WantsToSend} then 1 else 0)
    && (forall i {:trigger SeenOk(w, c, log, i)} :: 0 <= i < |w.seen| ==> SeenOk(w, c, log, i))
    && (forall i {:trigger w.echoes[i]} :: 0 <= i < |w.echoes| ==> w.echoes[i] == Contents(w.seen[i]))
  }

  /** What was in the file when a pass began is still its beginning, and the client's own
      messages among it are exactly those up to the one the pass answers. */
  ghost predicate SeenOk(w: Worker, c: nat, log: seq<Item>, i: nat)
    requires i < |w.seen|
  {
    && w.seen[i] <= log
    && i < |Frame(w.chunks).messages|
    && MessagesOf(w.seen[i], c) == Frame(w.chunks).messages[..i + 1]
  }

  ghost predicate Inv(s: State) {
    && LockOk(s)
    && FileOk(s)
    && (forall c: nat :: ClientOk(WorkerOf(s, c), c, s.log, s.file))
  }

  ghost predicate ClientOk(w: Worker, c: nat, log: seq<Item>, file: seq<byte>) {
    StreamOk(w, MessagesOf(log, c)) && EchoOk(w, c, log, file)
  }

  lemma LogSnoc(log: seq<Item>, item: Item, c: nat)
    ensures Contents(log + [item]) == Contents(log) + item.bytes
    ensures MessagesOf(log + [item], c)
            == MessagesOf(log, c) + if item.Message? && item.client == c then [item.bytes] else []
  {
    assert (log + [item])[..|log|] == log;
  }

  /** A client that is not sending does not care about bytes written by others. */
  lemma Undisturbed(w: Worker, c: nat, log: seq<Item>, file: seq<byte>, item: Item, file': seq<byte>)
    requires ClientOk(w, c, log, file) && w.pc !in {Sending, Sent}
    requires item.Message? ==> item.client != c
    ensures ClientOk(w, c, log + [item], file')
  {
    LogSnoc(log, item, c);
    SeenStays(w, w, c, log, log + [item]);
  }

  /** Passes that have begun stay as they were when the log and the messages grow. */
  lemma SeenStays(w: Worker, w': Worker, c: nat, log: seq<Item>, log': seq<Item>)
    requires forall i :: 0 <= i < |w.seen| ==> SeenOk(w, c, log, i)
    requires w'.seen == w.seen && log <= log' && Frame(w.chunks).messages <= Frame(w'.chunks).messages
    ensures forall i :: 0 <= i < |w'.seen| ==> SeenOk(w', c, log', i)
  {
    forall i | 0 <= i < |w'.seen|
      ensures SeenOk(w', c, log', i)
    {
      assert SeenOk(w, c, log, i);
      assert Frame(w'.chunks).messages[..i + 1] == Frame(w.chunks).messages[..i + 1];
    }
  }

  lemma RecvKeeps(w: Worker, c: nat, log: seq<Item>, file: seq<byte>, chunk: seq<byte>)
    requires ClientOk(w, c, log, file) && w.pc == Receiving
    ensures ClientOk(w.(pc := if NEWLINE in chunk then WantsToDump else Receiving,
                        chunks := w.chunks + [chunk], buffer := w.buffer + chunk), c, log, file)
  {
    FrameSnoc(w.chunks, chunk);
    var w' := w.(pc := if NEWLINE in chunk then WantsToDump else Receiving,
                 chunks := w.chunks + [chunk], buffer := w.buffer + chunk);
    SeenStays(w, w', c, log, log);
  }

  lemma AppendKeeps(w: Worker, c: nat, log: seq<Item>, file: seq<byte>)
    requires ClientOk(w, c, log, file) && w.pc == Dumping
    ensures ClientOk(w.(pc := Dumped), c, log + [Message(c, w.buffer)], file + w.buffer)
  {
    LogSnoc(log, Message(c, w.buffer), c);
    SeenStays(w, w.(pc := Dumped), c, log, log + [Message(c, w.buffer)]);
  }

  lemma LockToSendKeeps(w: Worker, c: nat, log: seq<Item>, file: seq<byte>)
    requires ClientOk(w, c, log, file) && w.pc == WantsToSend
    ensures ClientOk(w.(pc := Sending, offset := 0, sent := [], seen := w.seen + [log]), c, log, file)
  {
    var w' := w.(pc := Sending, offset := 0, sent := [], seen := w.seen + [log]);
    var messages := Frame(w.chunks).messages;
    assert messages[..|messages|] == messages;
    forall i | 0 <= i < |w'.seen|
      ensures SeenOk(w', c, log, i)
    {
      assert i < |w.seen| ==> SeenOk(w, c, log, i);
    }
  }

  lemma ReadKeeps(w: Worker, c: nat, log: seq<Item>, file: seq<byte>, data: seq<byte>)
    requires ClientOk(w, c, log, file) && w.pc == Sending
    requires data == ReadFile(file, w.offset, 100)
    ensures ClientOk(w.(offset := w.offset + |data|, sent := w.sent + data), c, log, file)
  {
    assert file[..w.offset] + data == file[..w.offset + |data|];
    SeenStays(w, w.(offset := w.offset + |data|, sent := w.sent + data), c, log, log);
  }

  lemma LastReadKeeps(w: Worker, c: nat, log: seq<Item>, file: seq<byte>)
    requires ClientOk(w, c, log, file) && w.pc == Sending && file == Contents(log)
    requires ReadFile(file, w.offset, 100) == []
    ensures ClientOk(w.(pc := Sent, echoes := w.echoes + [w.sent]), c, log, file)
  {
    assert file[..w.offset] == file;
    SeenStays(w, w.(pc := Sent, echoes := w.echoes + [w.sent]), c, log, log);
  }

  /** Steps that change only where the worker is. */
  lemma MoveKeeps(w: Worker, w': Worker, c: nat, log: seq<Item>, file: seq<byte>)
    requires ClientOk(w, c, log, file)
    requires || (w.pc == Absent && w' == NEWCOMER.(pc := Receiving))
             || (w.pc == Receiving && w' == w.(pc := Closed))
             || (w.pc == WantsToDump && w' == w.(pc := Dumping))
             || (w.pc == Dumped && w' == w.(pc := WantsToSend))
             || (w.pc == Sent && w' == w.(pc := Receiving, buffer := []))
    ensures ClientOk(w', c, log, file)
  {
    SeenStays(w, w', c, log, log);
  }

  lemma ClientHolds(s: State, c: nat)
    requires LockOk(s)
    ensures Critical(WorkerOf(s, c).pc) <==> s.lock == Client(c)
  {
  }

  lemma HandlerHolds(s: State, h: Thread)
    requires LockOk(s)
    ensures HandlerCritical(HandlerOf(s, h)) <==> s.lock == Handler(h)
  {
  }

  lemma LockKeeps(s: State, a: Action)
    requires LockOk(s) && Enabled(s, a)
    ensures LockOk(Next(s, a))
  {
    forall c: nat
      ensures Critical(WorkerOf(Next(s, a), c).pc) <==> Next(s, a).lock == Client(c)
    {
      ClientLockKeeps(s, a, c);
    }
    forall h: Thread
      ensures HandlerCritical(HandlerOf(Next(s, a), h)) <==> Next(s, a).lock == Handler(h)
    {
      HandlerLockKeeps(s, a, h);
    }
  }

  /** A step of one worker leaves the others as they are. */
  lemma OthersSame(s: State, a: Action, c: nat)
    requires Enabled(s, a) && !ActsFor(a, c)
    ensures WorkerOf(Next(s, a), c) == WorkerOf(s, c)
  {
  }

  lemma ClientLockKeeps(s: State, a: Action, c: nat)
    requires LockOk(s) && Enabled(s, a)
    ensures Critical(WorkerOf(Next(s, a), c).pc) <==> Next(s, a).lock == Client(c)
  {
    ClientHolds(s, c);
    if IsAlarm(a) {
      OthersSame(s, a, c);
      HandlerHolds(s, a.host);
    } else if !ActsFor(a, c) {
      OthersSame(s, a, c);
      ClientHolds(s, a.c);
    }
  }

  lemma HandlerLockKeeps(s: State, a: Action, h: Thread)
    requires LockOk(s) && Enabled(s, a)
    ensures HandlerCritical(HandlerOf(Next(s, a), h)) <==> Next(s, a).lock == Handler(h)
  {
    HandlerHolds(s, h);
    if IsAlarm(a) {
      HandlerHolds(s, a.host);
    } else {
      ClientHolds(s, a.c);
    }
  }

  /** A message goes behind the items of the file. */
  lemma MessageLogged(log: seq<Item>, message: Item)
    requires StampsOk(log) && message.Message?
    ensures Contents(log) + message.bytes == Contents(log + [message])
    ensures StampsOk(log + [message])
  {
    LogSnoc(log, message, 0);
    StampsSnoc(log, message);
  }

  lemma AppendKeepsFile(s: State, c: nat)
    requires s.lock == Client(c) && FileOk(s) && Enabled(s, Append(c))
    ensures FileOk(Next(s, Append(c)))
  {
    MessageLogged(s.log, Message(c, WorkerOf(s, c).buffer));
    assert s.part == [] && s.file == Contents(s.log);
  }

  lemma AlarmTextKeepsFile(s: State, h: Thread, text: seq<byte>)
    requires s.lock == Handler(h) && FileOk(s) && Enabled(s, AlarmText(h, text))
    ensures FileOk(Next(s, AlarmText(h, text)))
  {
    assert s.file == Contents(s.log);
    assert s.file + STAMP_PREFIX + text == Contents(s.log) + (STAMP_PREFIX + text);
  }

  /** A newline turns the text of a timestamp into a line. */
  lemma LineFinished(file: seq<byte>, log: seq<Item>, part: seq<byte>)
    requires file == Contents(log) + part && StampsOk(log) && IsStampText(part)
    ensures file + [NEWLINE] == Contents(log + [Stamp(part + [NEWLINE])])
    ensures StampsOk(log + [Stamp(part + [NEWLINE])])
  {
    LogSnoc(log, Stamp(part + [NEWLINE]), 0);
    assert (part + [NEWLINE])[..|part|] == part;
    StampsSnoc(log, Stamp(part + [NEWLINE]));
    assert file + [NEWLINE] == Contents(log) + (part + [NEWLINE]);
  }

  lemma StampsSnoc(log: seq<Item>, item: Item)
    requires StampsOk(log) && (item.Stamp? ==> IsStampLine(item.bytes))
    ensures StampsOk(log + [item])
  {
  }

  lemma AlarmNewlineKeepsFile(s: State, h: Thread)
    requires s.lock == Handler(h) && FileOk(s) && Enabled(s, AlarmNewline(h))
    ensures FileOk(Next(s, AlarmNewline(h)))
  {
    LineFinished(s.file, s.log, s.part);
  }

  lemma AlarmKeepsFile(s: State, a: Action)
    requires LockOk(s) && FileOk(s) && Enabled(s, a) && (a.AlarmFires? || a.AlarmLock? || a.AlarmUnlock?)
    ensures FileOk(Next(s, a))
  {
    assert HandlerCritical(HandlerOf(s, a.host)) <==> s.lock == Handler(a.host);
  }

  lemma FileKeeps(s: State, a: Action)
    requires LockOk(s) && FileOk(s) && Enabled(s, a)
    ensures FileOk(Next(s, a))
  {
    match a {
      case Append(c) =>
        ClientHolds(s, c);
        AppendKeepsFile(s, c);
      case AlarmText(h, text) =>
        HandlerHolds(s, h);
        AlarmTextKeepsFile(s, h, text);
      case AlarmNewline(h) =>
        HandlerHolds(s, h);
        AlarmNewlineKeepsFile(s, h);
      case AlarmFires(_) => AlarmKeepsFile(s, a);
      case AlarmLock(_) => AlarmKeepsFile(s, a);
      case AlarmUnlock(_) => AlarmKeepsFile(s, a);
      case LockToDump(c) => assert !InLine(s);
      case UnlockDump(c) => assert s.lock == Client(c);
      case LockToSend(c) => assert !InLine(s);
      case UnlockSend(c) => assert s.lock == Client(c);
      case _ =>
    }
  }

  /** The client that acts. */
  predicate ActsFor(a: Action, c: nat) {
    match a
    case Connect(d) => c == d
    case Recv(d, _) => c == d
    case Hangup(d) => c == d
    case LockToDump(d) => c == d
    case Append(d) => c == d
    case UnlockDump(d) => c == d
    case LockToSend(d) => c == d
    case Read(d) => c == d
    case UnlockSend(d) => c == d
    case _ => false
  }

  lemma ActorKeeps(s: State, a: Action, c: nat)
    requires Inv(s) && Enabled(s, a) && ActsFor(a, c)
    ensures ClientOk(WorkerOf(Next(s, a), c), c, Next(s, a).log, Next(s, a).file)
  {
    var w := WorkerOf(s, c);
    assert ClientOk(w, c, s.log, s.file);
    if a.Recv? {
      RecvKeeps(w, c, s.log, s.file, a.chunk);
    } else if a.Append? {
      AppendKeeps(w, c, s.log, s.file);
    } else if a.LockToSend? {
      LockToSendKeeps(w, c, s.log, s.file);
    } else if a.Read? {
      assert s.lock == Client(c) && s.part == [];
      var data := ReadFile(s.file, w.offset, 100);
      if data != [] {
        ReadKeeps(w, c, s.log, s.file, data);
      } else {
        LastReadKeeps(w, c, s.log, s.file);
      }
    } else {
      MoveKeeps(w, WorkerOf(Next(s, a), c), c, s.log, s.file);
    }
  }

  /** A client that is not sending does not care what the file is. */
  lemma FileUnseen(w: Worker, c: nat, log: seq<Item>, file: seq<byte>, file': seq<byte>)
    requires ClientOk(w, c, log, file) && w.pc !in {Sending, Sent}
    ensures ClientOk(w, c, log, file')
  {
  }

  /** What the other steps do to the file while the mutex is not the client's. */
  lemma OthersKeepClient(s: State, a: Action, c: nat, w: Worker)
    requires ClientOk(w, c, s.log, s.file) && w.pc !in {Sending, Sent}
    requires Enabled(s, a) && !ActsFor(a, c) && (a.Append? || a.AlarmText? || a.AlarmNewline?)
    ensures ClientOk(w, c, Next(s, a).log, Next(s, a).file)
  {
    match a {
      case Append(d) => Undisturbed(w, c, s.log, s.file, Message(d, WorkerOf(s, d).buffer), Next(s, a).file);
      case AlarmText(_, _) => FileUnseen(w, c, s.log, s.file, Next(s, a).file);
      case AlarmNewline(_) => Undisturbed(w, c, s.log, s.file, Stamp(s.part + [NEWLINE]), Next(s, a).file);
    }
  }

  lemma OthersKeep(s: State, a: Action, c: nat)
    requires Inv(s) && Enabled(s, a) && !ActsFor(a, c)
    ensures ClientOk(WorkerOf(Next(s, a), c), c, Next(s, a).log, Next(s, a).file)
  {
    var w := WorkerOf(s, c);
    assert ClientOk(w, c, s.log, s.file);
    OthersSame(s, a, c);
    if a.Append? || a.AlarmText? || a.AlarmNewline? {
      ClientHolds(s, c);
      if a.Append? {
        ClientHolds(s, a.c);
      } else {
        HandlerHolds(s, a.host);
      }
      OthersKeepClient(s, a, c, w);
    } else {
      SameFile(s, a);
    }
  }

  lemma SameFile(s: State, a: Action)
    requires Enabled(s, a) && !(a.Append? || a.AlarmText? || a.AlarmNewline?)
    ensures Next(s, a).log == s.log && Next(s, a).file == s.file
  {
  }

  lemma StepKeepsInv(s: State, a: Action)
    requires Inv(s) && Enabled(s, a)
    ensures Inv(Next(s, a))
  {
    LockKeeps(s, a);
    FileKeeps(s, a);
    forall c: nat
      ensures ClientOk(WorkerOf(Next(s, a), c), c, Next(s, a).log, Next(s, a).file)
    {
      if ActsFor(a, c) {
        ActorKeeps(s, a, c);
      } else {
        OthersKeep(s, a, c);
      }
    }
  }

  /** The invariant holds in every state of every run. */
  lemma {:induction false} RunKeepsInv(actions: seq<Action>)
    ensures Inv(Run(actions))
  {
    if actions == [] {
      forall c: nat
        ensures ClientOk(WorkerOf(INITIAL, c), c, INITIAL.log, INITIAL.file)
      {
        assert WorkerOf(INITIAL, c) == NEWCOMER;
      }
    } else {
      var s, a := Run(actions[..|actions| - 1]), actions[|actions| - 1];
      RunKeepsInv(actions[..|actions| - 1]);
      if Enabled(s, a) {
        StepKeepsInv(s, a);
      }
    }
  }
}
