/** Every way in which chunks can arrive can be served: a run of the worker protocol in which
    each message is appended and echoed before the next chunk arrives. */
module WorkerService {
  import opened Bytes
  import opened Framing
  import opened Reading
  import opened SharedDevice
  import opened WorkerProtocol
  import opened WorkerTheorems
  import opened WorkerProgress

  /** The log consists of these messages. */
  ghost predicate ItemsAre(log: seq<Item>, messages: seq<Record>) {
    && |log| == |messages|
    && forall i :: 0 <= i < |log| ==> log[i].Message? && log[i].bytes == messages[i]
  }

  lemma {:induction false} ContentsAre(log: seq<Item>, messages: seq<Record>)
    requires ItemsAre(log, messages)
    ensures Contents(log) == Concat(messages)
  {
    if log != [] {
      var n := |log| - 1;
      ContentsAre(log[..n], messages[..n]);
      ConcatSnoc(messages[..n], messages[n]);
      assert messages == messages[..n] + [messages[n]];
    }
  }

  /** The clients have sent these chunks, the messages are logged, and no handler runs. */
  ghost predicate IsServing(s: State, chunks: nat -> seq<seq<byte>>, messages: seq<Record>) {
    && Inv(s) && s.handlers == map[] && ItemsAre(s.log, messages)
    && forall d: nat :: WorkerOf(s, d).chunks == chunks(d)
  }

  /** All workers but that of `c` wait for input, or are not there. */
  ghost predicate OthersWait(s: State, c: nat) {
    forall d: nat :: d != c ==> WorkerOf(s, d).pc in {Absent, Receiving}
  }

  ghost predicate IsAtPc(s: State, c: nat, pc: Pc, lock: Owner) {
    OthersWait(s, c) && WorkerOf(s, c).pc == pc && s.lock == lock
  }

  /** Steps of the worker that neither take a chunk nor append to the file. */
  predicate IsMove(c: nat, a: Action, from: Pc, held: Owner, to: Pc, next: Owner) {
    || (a == Connect(c) && from == Absent && held == next == Free && to == Receiving)
    || (a == LockToDump(c) && from == WantsToDump && held == Free && to == Dumping && next == Client(c))
    || (a == UnlockDump(c) && from == Dumped && held == Client(c) && to == WantsToSend && next == Free)
    || (a == LockToSend(c) && from == WantsToSend && held == Free && to == Sending && next == Client(c))
    || (a == UnlockSend(c) && from == Sent && held == Client(c) && to == Receiving && next == Free)
  }

  lemma Move(s: State, c: nat, a: Action, from: Pc, held: Owner, to: Pc, next: Owner,
             chunks: nat -> seq<seq<byte>>, messages: seq<Record>)
    requires IsServing(s, chunks, messages) && IsAtPc(s, c, from, held) && IsMove(c, a, from, held, to, next)
    ensures IsServing(Perform(s, a), chunks, messages) && IsAtPc(Perform(s, a), c, to, next)
  {
    StepKeepsInv(s, a);
    ClientOnlyMoves(s, c, a);
  }

  /** A step of one worker leaves the others where they are. */
  lemma ClientOnlyMoves(s: State, c: nat, a: Action)
    requires Inv(s) && Enabled(s, a) && ActsFor(a, c)
    ensures Next(s, a).handlers == s.handlers
    ensures forall d: nat :: d != c ==> WorkerOf(Next(s, a), d) == WorkerOf(s, d)
    ensures !a.Recv? ==> WorkerOf(Next(s, a), c).chunks == WorkerOf(s, c).chunks
  {
    InputIsTaken(s, a, c);
    HandlersSame(s, a);
    forall d: nat | d != c
      ensures WorkerOf(Next(s, a), d) == WorkerOf(s, d)
    {
      OthersSame(s, a, d);
    }
  }

  lemma HandlersSame(s: State, a: Action)
    requires Enabled(s, a) && !IsAlarm(a)
    ensures Next(s, a).handlers == s.handlers
  {
  }

  /** The message is appended. */
  lemma Appended(s: State, c: nat, chunks: nat -> seq<seq<byte>>, messages: seq<Record>)
    requires IsServing(s, chunks, messages) && IsAtPc(s, c, Dumping, Client(c))
    ensures var s' := Perform(s, Append(c));
            IsServing(s', chunks, messages + [WorkerOf(s, c).buffer]) && IsAtPc(s', c, Dumped, Client(c))
  {
    StepKeepsInv(s, Append(c));
    ClientOnlyMoves(s, c, Append(c));
  }

  lemma ReadOn(s: State, c: nat, chunks: nat -> seq<seq<byte>>, messages: seq<Record>)
    requires IsServing(s, chunks, messages) && IsAtPc(s, c, Sending, Client(c))
    ensures var s' := Perform(s, Read(c));
            && IsServing(s', chunks, messages)
            && (IsAtPc(s', c, Sent, Client(c))
                || (IsAtPc(s', c, Sending, Client(c)) && s'.file == s.file
                    && WorkerOf(s, c).offset < WorkerOf(s', c).offset <= |s.file|))
  {
    StepKeepsInv(s, Read(c));
    ClientOnlyMoves(s, c, Read(c));
  }

  /** The file is sent to its end. */
  lemma {:induction false} SendAll(s: State, c: nat, chunks: nat -> seq<seq<byte>>, messages: seq<Record>)
    returns (steps: seq<Action>)
    requires IsServing(s, chunks, messages) && IsAtPc(s, c, Sending, Client(c))
    ensures var s' := PerformAll(s, steps);
            IsServing(s', chunks, messages) && IsAtPc(s', c, Sent, Client(c))
    decreases |s.file| - WorkerOf(s, c).offset
  {
    ReadOn(s, c, chunks, messages);
    var s' := Perform(s, Read(c));
    var rest := [];
    if WorkerOf(s', c).pc == Sending {
      rest := SendAll(s', c, chunks, messages);
    }
    StepBefore(s, Read(c), rest);
    steps := [Read(c)] + rest;
  }

  lemma {:induction false} PerformAppend(s: State, steps: seq<Action>, more: seq<Action>)
    ensures PerformAll(s, steps + more) == PerformAll(PerformAll(s, steps), more)
    decreases |steps|
  {
    if steps == [] {
      assert steps + more == more;
    } else {
      PerformAppend(Perform(s, steps[0]), steps[1..], more);
      assert (steps + more)[0] == steps[0] && (steps + more)[1..] == steps[1..] + more;
    }
  }

  lemma OneMore(s: State, steps: seq<Action>, a: Action)
    ensures PerformAll(s, steps + [a]) == Perform(PerformAll(s, steps), a)
  {
    PerformAppend(s, steps, [a]);
  }

  /** A message that has been received is appended and answered. */
  lemma ServeMessage(s: State, c: nat, chunks: nat -> seq<seq<byte>>, messages: seq<Record>)
    returns (steps: seq<Action>)
    requires IsServing(s, chunks, messages) && IsAtPc(s, c, WantsToDump, Free)
    ensures var s' := PerformAll(s, steps);
            IsServing(s', chunks, messages + [WorkerOf(s, c).buffer]) && IsAtPc(s', c, Receiving, Free)
  {
    var longer := messages + [WorkerOf(s, c).buffer];
    Move(s, c, LockToDump(c), WantsToDump, Free, Dumping, Client(c), chunks, messages);
    var s1 := Perform(s, LockToDump(c));
    assert WorkerOf(s1, c).buffer == WorkerOf(s, c).buffer;
    Appended(s1, c, chunks, messages);
    var s2 := Perform(s1, Append(c));
    Move(s2, c, UnlockDump(c), Dumped, Client(c), WantsToSend, Free, chunks, longer);
    var s3 := Perform(s2, UnlockDump(c));
    Move(s3, c, LockToSend(c), WantsToSend, Free, Sending, Client(c), chunks, longer);
    var s4 := Perform(s3, LockToSend(c));
    var sending := SendAll(s4, c, chunks, longer);
    Move(PerformAll(s4, sending), c, UnlockSend(c), Sent, Client(c), Receiving, Free, chunks, longer);
    OneMore(s4, sending, UnlockSend(c));
    var rest := sending + [UnlockSend(c)];
    StepBefore(s3, LockToSend(c), rest);
    StepBefore(s2, UnlockDump(c), [LockToSend(c)] + rest);
    StepBefore(s1, Append(c), [UnlockDump(c)] + ([LockToSend(c)] + rest));
    steps := [Append(c)] + ([UnlockDump(c)] + ([LockToSend(c)] + rest));
    StepBefore(s, LockToDump(c), steps);
    steps := [LockToDump(c)] + steps;
  }

  function ChunksBy(arrivals: seq<Arrival>): nat -> seq<seq<byte>> {
    (c: nat) => ChunksOf(arrivals, c)
  }

  /** Everything that has arrived is served, and the messages are those of separate workers. */
  ghost predicate IsServed(s: State, arrivals: seq<Arrival>) {
    && IsServing(s, ChunksBy(arrivals), SeparateMessages(arrivals))
    && s.lock == Free && forall d: nat :: WorkerOf(s, d).pc in {Absent, Receiving}
  }

  /** A chunk arrives at a worker that waits for it. */
  lemma Arrives(s: State, arrivals: seq<Arrival>, a: Arrival)
    requires IsServed(s, arrivals) && WorkerOf(s, a.client).pc == Receiving && a.chunk != []
    ensures var s' := Perform(s, Recv(a.client, a.chunk));
            && IsServing(s', ChunksBy(arrivals + [a]), SeparateMessages(arrivals))
            && IsAtPc(s', a.client, if NEWLINE in a.chunk then WantsToDump else Receiving, Free)
            && WorkerOf(s', a.client).buffer == PendingOf(arrivals, a.client) + a.chunk
  {
    var c := a.client;
    assert ClientOk(WorkerOf(s, c), c, s.log, s.file);
    StepKeepsInv(s, Recv(c, a.chunk));
    ClientOnlyMoves(s, c, Recv(c, a.chunk));
    forall d: nat
      ensures WorkerOf(Perform(s, Recv(c, a.chunk)), d).chunks == ChunksBy(arrivals + [a])(d)
    {
      ArrivalSnoc(arrivals, a, d);
    }
  }

  /** The first chunk of a client makes it connect. */
  lemma Connects(s: State, arrivals: seq<Arrival>, c: nat) returns (steps: seq<Action>)
    requires IsServed(s, arrivals)
    ensures IsServed(PerformAll(s, steps), arrivals) && WorkerOf(PerformAll(s, steps), c).pc == Receiving
  {
    if WorkerOf(s, c).pc == Receiving {
      return [];
    }
    Move(s, c, Connect(c), Absent, Free, Receiving, Free, ChunksBy(arrivals), SeparateMessages(arrivals));
    StepBefore(s, Connect(c), []);
    return [Connect(c)] + [];
  }

  lemma ServeArrival(s: State, arrivals: seq<Arrival>, a: Arrival) returns (steps: seq<Action>)
    requires IsServed(s, arrivals) && a.chunk != []
    ensures IsServed(PerformAll(s, steps), arrivals + [a])
  {
    var first := Connects(s, arrivals, a.client);
    var s1 := PerformAll(s, first);
    Arrives(s1, arrivals, a);
    ArrivalSnoc(arrivals, a, a.client);
    var s2 := Perform(s1, Recv(a.client, a.chunk));
    OneMore(s, first, Recv(a.client, a.chunk));
    steps := first + [Recv(a.client, a.chunk)];
    if NEWLINE in a.chunk {
      var rest := ServeMessage(s2, a.client, ChunksBy(arrivals + [a]), SeparateMessages(arrivals));
      PerformAppend(s, steps, rest);
      steps := steps + rest;
    }
  }

  lemma NobodyIsServed()
    ensures IsServed(INITIAL, [])
  {
    RunKeepsInv([]);
    assert ItemsAre(INITIAL.log, SeparateMessages([]));
  }

  lemma {:induction false} ServeAll(arrivals: seq<Arrival>) returns (actions: seq<Action>)
    requires forall i :: 0 <= i < |arrivals| ==> arrivals[i].chunk != []
    ensures IsServed(Run(actions), arrivals)
  {
    if arrivals == [] {
      NobodyIsServed();
      return [];
    }
    var init, a := arrivals[..|arrivals| - 1], arrivals[|arrivals| - 1];
    var before := ServeAll(init);
    var steps := ServeArrival(Run(before), init, a);
    RunAppend(before, steps);
    assert arrivals == init + [a];
    actions := before + steps;
  }

  lemma ServedMeans(actions: seq<Action>, arrivals: seq<Arrival>, c: nat)
    requires IsServed(Run(actions), arrivals)
    ensures Run(actions).file == Concat(SeparateMessages(arrivals))
    ensures Received(actions, c) == ChunksOf(arrivals, c)
    ensures |WorkerOf(Run(actions), c).echoes| == |Frame(ChunksOf(arrivals, c)).messages|
    ensures MessagesOf(Run(actions).log, c) == Frame(ChunksOf(arrivals, c)).messages
  {
    var s := Run(actions);
    assert ClientOk(WorkerOf(s, c), c, s.log, s.file);
    ChunksAreReceived(actions, c);
    ContentsAre(s.log, SeparateMessages(arrivals));
    assert WorkerOf(s, c).chunks == ChunksBy(arrivals)(c);
  }

  /** However non-empty chunks arrive from however many clients, there is a run in which exactly
      they arrive, the file becomes the messages of separate workers in the order of their
      completion, each client's among them, and every message has its echo. */
  lemma EveryoneCanBeServed(arrivals: seq<Arrival>) returns (actions: seq<Action>)
    requires forall i :: 0 <= i < |arrivals| ==> arrivals[i].chunk != []
    ensures Run(actions).file == Concat(SeparateMessages(arrivals))
    ensures forall c: nat :: Received(actions, c) == ChunksOf(arrivals, c)
    ensures forall c: nat :: |WorkerOf(Run(actions), c).echoes| == |Frame(ChunksOf(arrivals, c)).messages|
    ensures forall c: nat :: MessagesOf(Run(actions).log, c) == Frame(ChunksOf(arrivals, c)).messages
  {
    actions := ServeAll(arrivals);
    forall c: nat {
      ServedMeans(actions, arrivals, c);
    }
    ServedMeans(actions, arrivals, 0);
  }
}
