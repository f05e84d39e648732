/** What never goes wrong in any run of the worker protocol. */
module WorkerTheorems {
  import opened Bytes
  import opened Framing
  import opened WorkerProtocol

  // What was done in a run.

  /** Input is held up by nothing but a handler on the thread it is for: a chunk of any contents can
      arrive at a worker that waits for one, it can hang up, any new client can connect, and
      an alarm can hit any thread there is. */
  lemma InputIsPossible(s: State, c: nat, chunk: seq<byte>, h: Thread)
    ensures var waits := HandlerOf(s, WorkerThread(c)) == Idle && WorkerOf(s, c).pc == Receiving;
            (Enabled(s, Recv(c, chunk)) <==> waits && chunk != []) && (Enabled(s, Hangup(c)) <==> waits)
    ensures Enabled(s, Connect(c)) <==> HandlerOf(s, MainThread) == Idle && WorkerOf(s, c).pc == Absent
    ensures Enabled(s, AlarmFires(h))
            <==> HandlerOf(s, h) == Idle && (h.WorkerThread? ==> WorkerOf(s, h.c).pc !in {Absent, Closed})
  {
  }

  /** Chunks are taken in whole and by nothing but their arrival; only connecting and hanging
      up make a worker come and go. */
  lemma InputIsTaken(s: State, a: Action, c: nat)
    requires Inv(s)
    ensures WorkerOf(Perform(s, a), c).chunks
            == WorkerOf(s, c).chunks + if a.Recv? && a.c == c && Enabled(s, a) then [a.chunk] else []
    ensures WorkerOf(Perform(s, a), c).pc == Absent
            <==> WorkerOf(s, c).pc == Absent && !(a == Connect(c) && Enabled(s, a))
    ensures WorkerOf(Perform(s, a), c).pc == Closed
            <==> WorkerOf(s, c).pc == Closed || (a == Hangup(c) && Enabled(s, a))
  {
    assert ClientOk(WorkerOf(s, c), c, s.log, s.file);
    if Enabled(s, a) && !ActsFor(a, c) {
      OthersSame(s, a, c);
    }
  }

  /** The chunks that arrived from a client in a run. */
  function Received(actions: seq<Action>, c: nat): seq<seq<byte>> {
    if actions == [] then []
    else
      var init, a := actions[..|actions| - 1], actions[|actions| - 1];
      Received(init, c) + if a.Recv? && a.c == c && Enabled(Run(init), a) then [a.chunk] else []
  }

  /** A worker's chunks are exactly those that arrived. */
  lemma {:induction false} ChunksAreReceived(actions: seq<Action>, c: nat)
    ensures WorkerOf(Run(actions), c).chunks == Received(actions, c)
  {
    if actions != [] {
      var init, a := actions[..|actions| - 1], actions[|actions| - 1];
      ChunksAreReceived(init, c);
      RunKeepsInv(init);
      InputIsTaken(Run(init), a, c);
    }
  }

  ghost predicate PerformedAt(actions: seq<Action>, i: nat, a: Action)
    requires i < |actions|
  {
    actions[i] == a && Enabled(Run(actions[..i]), a)
  }

  /** The action was performed at some point of the run. */
  ghost predicate Happened(actions: seq<Action>, a: Action) {
    exists i :: 0 <= i < |actions| && PerformedAt(actions, i, a)
  }

  lemma PerformedAtSnoc(init: seq<Action>, b: Action, i: nat, a: Action)
    requires i <= |init|
    ensures PerformedAt(init + [b], i, a)
            <==> if i < |init| then PerformedAt(init, i, a) else a == b && Enabled(Run(init), a)
  {
    assert (init + [b])[..i] == init[..i];
    assert init[..|init|] == init;
  }

  lemma HappenedSnoc(init: seq<Action>, b: Action, a: Action)
    ensures Happened(init + [b], a) <==> Happened(init, a) || (a == b && Enabled(Run(init), a))
  {
    forall i | 0 <= i <= |init|
      ensures PerformedAt(init + [b], i, a)
              <==> if i < |init| then PerformedAt(init, i, a) else a == b && Enabled(Run(init), a)
    {
      PerformedAtSnoc(init, b, i, a);
    }
    PerformedAtSnoc(init, b, |init|, a);
  }

  /** A worker is there from its connection on, and is gone exactly if its client hung up. */
  lemma {:induction false} ComesAndGoes(actions: seq<Action>, c: nat)
    ensures WorkerOf(Run(actions), c).pc != Absent <==> Happened(actions, Connect(c))
    ensures WorkerOf(Run(actions), c).pc == Closed <==> Happened(actions, Hangup(c))
  {
    if actions != [] {
      var init, a := actions[..|actions| - 1], actions[|actions| - 1];
      assert actions == init + [a];
      ComesAndGoes(init, c);
      RunKeepsInv(init);
      InputIsTaken(Run(init), a, c);
      HappenedSnoc(init, a, Connect(c));
      HappenedSnoc(init, a, Hangup(c));
    }
  }

  /** The timestamp lines that handlers wrote in a run, and the one begun. */
  datatype Clock = Clock(lines: seq<seq<byte>>, begun: seq<byte>)

  function ClockOf(actions: seq<Action>): Clock {
    if actions == [] then Clock([], [])
    else
      var init, a := actions[..|actions| - 1], actions[|actions| - 1];
      var k := ClockOf(init);
      if !Enabled(Run(init), a) then k
      else if a.AlarmText? then k.(begun := STAMP_PREFIX + a.text)
      else if a.AlarmNewline? then Clock(k.lines + [k.begun + [NEWLINE]], [])
      else k
  }

  function StampsOf(log: seq<Item>): seq<seq<byte>> {
    if log == [] then []
    else
      var last := log[|log| - 1];
      StampsOf(log[..|log| - 1]) + if last.Stamp? then [last.bytes] else []
  }

  lemma ClockStep(s: State, a: Action)
    requires Enabled(s, a)
    ensures StampsOf(Next(s, a).log) == StampsOf(s.log) + if a.AlarmNewline? then [s.part + [NEWLINE]] else []
    ensures Next(s, a).part == if a.AlarmText? then STAMP_PREFIX + a.text else if a.AlarmNewline? then [] else s.part
  {
    if a.Append? {
      assert Next(s, a).log[..|s.log|] == s.log;
    } else if a.AlarmNewline? {
      assert Next(s, a).log[..|s.log|] == s.log;
    }
  }

  /** The file's timestamp lines are those the handlers wrote, each with the prefix, its whole
      text and a newline, in their order. */
  lemma {:induction false} StampsAreWritten(actions: seq<Action>)
    ensures StampsOf(Run(actions).log) == ClockOf(actions).lines && Run(actions).part == ClockOf(actions).begun
  {
    if actions != [] {
      var init, a := actions[..|actions| - 1], actions[|actions| - 1];
      StampsAreWritten(init);
      if Enabled(Run(init), a) {
        ClockStep(Run(init), a);
      }
    }
  }

  // What never goes wrong.

  /** The mutex has at most one holder, and only it is inside a critical section. */
  lemma MutualExclusion(actions: seq<Action>, c: nat, d: nat, g: Thread, h: Thread)
    ensures var s := Run(actions);
            && (Critical(WorkerOf(s, c).pc) && Critical(WorkerOf(s, d).pc) ==> c == d)
            && (HandlerCritical(HandlerOf(s, g)) && HandlerCritical(HandlerOf(s, h)) ==> g == h)
            && (Critical(WorkerOf(s, c).pc) ==> s.lock == Client(c) && !HandlerCritical(HandlerOf(s, h)))
            && (s.lock == Free ==> !Critical(WorkerOf(s, c).pc) && !HandlerCritical(HandlerOf(s, h)))
  {
    RunKeepsInv(actions);
  }

  /** Whenever the mutex is free, the file is a concatenation of whole messages, each with a
      newline, and whole timestamp lines. */
  lemma FileIsWholeItems(actions: seq<Action>)
    ensures var s := Run(actions);
            && (s.lock == Free ==> s.file == Contents(s.log))
            && forall i :: 0 <= i < |s.log| ==>
                 if s.log[i].Stamp? then IsStampLine(s.log[i].bytes) else NEWLINE in s.log[i].bytes
  {
    RunKeepsInv(actions);
    forall i | 0 <= i < |Run(actions).log| && Run(actions).log[i].Message?
      ensures NEWLINE in Run(actions).log[i].bytes
    {
      LoggedHasNewline(Run(actions), i);
    }
  }

  lemma LoggedHasNewline(s: State, i: nat)
    requires Inv(s) && i < |s.log| && s.log[i].Message?
    ensures NEWLINE in s.log[i].bytes
  {
    var c := s.log[i].client;
    var logged := MessagesOf(s.log, c);
    assert ClientOk(WorkerOf(s, c), c, s.log, s.file);
    FrameDelimited(WorkerOf(s, c).chunks);
    var j := LoggedIsListed(s.log, i);
    assert logged[j] == Frame(WorkerOf(s, c).chunks).messages[j];
  }

  lemma {:induction false} LoggedIsListed(log: seq<Item>, i: nat) returns (j: nat)
    requires i < |log| && log[i].Message?
    ensures j < |MessagesOf(log, log[i].client)| && MessagesOf(log, log[i].client)[j] == log[i].bytes
  {
    if i == |log| - 1 {
      j := |MessagesOf(log[..i], log[i].client)|;
    } else {
      j := LoggedIsListed(log[..|log| - 1], i);
    }
  }

  /** The bytes a worker has accumulated but not yet appended. */
  function Unflushed(w: Worker): seq<byte> {
    if w.pc in {Dumped, WantsToSend, Sending, Sent} then [] else w.buffer
  }

  lemma WorkerStream(w: Worker, logged: seq<Record>)
    requires StreamOk(w, logged)
    ensures Concat(logged) + Unflushed(w) == Concat(w.chunks)
    ensures logged <= Frame(w.chunks).messages && |Frame(w.chunks).messages| <= |logged| + 1
  {
    FrameConserves(w.chunks);
    if w.pc in {WantsToDump, Dumping} {
      ConcatSnoc(logged, w.buffer);
    }
  }

  /** The file restricted to one client, followed by what the client has not yet flushed, is
      what arrived from the client; and its messages are those of framing what arrived. */
  lemma StreamIsKept(actions: seq<Action>, c: nat)
    ensures var s := Run(actions);
            var arrived := Received(actions, c);
            && Concat(MessagesOf(s.log, c)) + Unflushed(WorkerOf(s, c)) == Concat(arrived)
            && MessagesOf(s.log, c) <= Frame(arrived).messages
            && |Frame(arrived).messages| <= |MessagesOf(s.log, c)| + 1
  {
    var s := Run(actions);
    RunKeepsInv(actions);
    ChunksAreReceived(actions, c);
    assert ClientOk(WorkerOf(s, c), c, s.log, s.file);
    WorkerStream(WorkerOf(s, c), MessagesOf(s.log, c));
  }

  lemma {:induction false} ContentsPrefix(log: seq<Item>, longer: seq<Item>)
    requires log <= longer
    ensures Contents(log) <= Contents(longer)
    decreases |longer|
  {
    if |log| < |longer| {
      ContentsPrefix(log, longer[..|longer| - 1]);
    } else {
      assert log == longer;
    }
  }

  lemma {:induction false} MessagesPrefix(log: seq<Item>, longer: seq<Item>, c: nat)
    requires log <= longer
    ensures MessagesOf(log, c) <= MessagesOf(longer, c)
    decreases |longer|
  {
    if |log| < |longer| {
      MessagesPrefix(log, longer[..|longer| - 1], c);
    } else {
      assert log == longer;
    }
  }

  /** Each echo is the contents of the file at the time its pass began, when the client's own
      messages in it were exactly those up to the one echoed. */
  lemma EchoIsFileAtPass(actions: seq<Action>, c: nat, i: nat)
    requires i < |WorkerOf(Run(actions), c).echoes|
    ensures var s := Run(actions);
            var w := WorkerOf(s, c);
            && i < |w.seen| && w.seen[i] <= s.log && w.echoes[i] == Contents(w.seen[i])
            && i < |Frame(Received(actions, c)).messages|
            && MessagesOf(w.seen[i], c) == Frame(Received(actions, c)).messages[..i + 1]
  {
    RunKeepsInv(actions);
    ChunksAreReceived(actions, c);
    var s := Run(actions);
    var w := WorkerOf(s, c);
    assert ClientOk(w, c, s.log, s.file) && SeenOk(w, c, s.log, i);
  }

  /** Each echo is a prefix of the file. */
  lemma EchoInFile(actions: seq<Action>, c: nat, i: nat)
    requires i < |WorkerOf(Run(actions), c).echoes|
    ensures WorkerOf(Run(actions), c).echoes[i] <= Run(actions).file
  {
    var s := Run(actions);
    RunKeepsInv(actions);
    EchoIsFileAtPass(actions, c, i);
    ContentsPrefix(WorkerOf(s, c).seen[i], s.log);
  }

  /** A client's echoes only ever grow: each is a prefix of the later ones. */
  lemma EchoesGrow(actions: seq<Action>, c: nat, i: nat, j: nat)
    requires i <= j < |WorkerOf(Run(actions), c).echoes|
    ensures var s := Run(actions);
            var w := WorkerOf(s, c);
            w.echoes[i] <= w.echoes[j] <= s.file
  {
    EchoIsFileAtPass(actions, c, i);
    EchoIsFileAtPass(actions, c, j);
    EchoInFile(actions, c, j);
    EarlierPass(Frame(Received(actions, c)).messages, Run(actions).log, WorkerOf(Run(actions), c).seen[i],
                WorkerOf(Run(actions), c).seen[j], c, i, j);
  }

  /** Of two beginnings of the log, the one with fewer messages of a client is the shorter. */
  lemma EarlierPass(messages: seq<Record>, log: seq<Item>, a: seq<Item>, b: seq<Item>, c: nat, i: nat, j: nat)
    requires a <= log && b <= log && i <= j < |messages|
    requires MessagesOf(a, c) == messages[..i + 1] && MessagesOf(b, c) == messages[..j + 1]
    requires i == j ==> a == b
    ensures Contents(a) <= Contents(b)
  {
    if |b| < |a| {
      MessagesPrefix(b, a, c);
    }
    ContentsPrefix(a, b);
  }

  /** Where the last message of a client lies in the contents. */
  lemma {:induction false} LastMessageIsInside(log: seq<Item>, c: nat)
    returns (before: seq<byte>, after: seq<byte>)
    requires MessagesOf(log, c) != []
    ensures Contents(log) == before + MessagesOf(log, c)[|MessagesOf(log, c)| - 1] + after
  {
    var init, last := log[..|log| - 1], log[|log| - 1];
    if last.Message? && last.client == c {
      return Contents(init), [];
    }
    before, after := LastMessageIsInside(init, c);
    after := after + last.bytes;
  }

  /** Each echo contains, in one piece, the message it answers. */
  lemma EchoContainsMessage(actions: seq<Action>, c: nat, i: nat) returns (before: seq<byte>, after: seq<byte>)
    requires i < |WorkerOf(Run(actions), c).echoes|
    ensures var messages := Frame(Received(actions, c)).messages;
            i < |messages| && WorkerOf(Run(actions), c).echoes[i] == before + messages[i] + after
  {
    EchoIsFileAtPass(actions, c, i);
    before, after := LastMessageIsInside(WorkerOf(Run(actions), c).seen[i], c);
  }

  /** While a worker is in a sending pass, nobody changes the file. */
  lemma PassFreezesFile(s: State, a: Action, c: nat)
    requires Inv(s) && WorkerOf(s, c).pc in {Sending, Sent}
    ensures Perform(s, a).file == s.file
  {
    ClientHolds(s, c);
    if Enabled(s, a) {
      if a.Append? {
        ClientHolds(s, a.c);
      } else if a.AlarmText? || a.AlarmNewline? {
        HandlerHolds(s, a.host);
      } else {
        SameFile(s, a);
      }
    }
  }

  /** From `before` on, the worker is in a sending pass at every point of these actions. */
  ghost predicate InPass(before: seq<Action>, during: seq<Action>, c: nat) {
    forall k :: 0 <= k <= |during| ==> WorkerOf(Run(before + during[..k]), c).pc in {Sending, Sent}
  }

  lemma InPassInit(before: seq<Action>, init: seq<Action>, a: Action, c: nat)
    requires InPass(before, init + [a], c)
    ensures InPass(before, init, c) && WorkerOf(Run(before + init), c).pc in {Sending, Sent}
  {
    forall k | 0 <= k <= |init|
      ensures init[..k] == (init + [a])[..k]
    {
    }
    assert init == (init + [a])[..|init|];
  }

  lemma FrozenStep(actions: seq<Action>, a: Action, c: nat)
    requires WorkerOf(Run(actions), c).pc in {Sending, Sent}
    ensures Run(actions + [a]).file == Run(actions).file
  {
    assert (actions + [a])[..|actions|] == actions;
    RunKeepsInv(actions);
    PassFreezesFile(Run(actions), a, c);
  }

  lemma {:induction false} FrozenDuringPass(before: seq<Action>, during: seq<Action>, c: nat)
    requires InPass(before, during, c)
    ensures Run(before + during).file == Run(before).file
  {
    if during == [] {
      assert before + during == before;
    } else {
      var init, a := during[..|during| - 1], during[|during| - 1];
      assert during == init + [a] && before + during == before + init + [a];
      InPassInit(before, init, a, c);
      FrozenDuringPass(before, init, c);
      FrozenStep(before + init, a, c);
    }
  }

  lemma SentSoFar(s: State, c: nat)
    requires Inv(s) && WorkerOf(s, c).pc in {Sending, Sent}
    ensures WorkerOf(s, c).sent <= s.file
    ensures WorkerOf(s, c).pc == Sent ==>
              WorkerOf(s, c).echoes != [] && WorkerOf(s, c).echoes[|WorkerOf(s, c).echoes| - 1] == s.file
  {
    var w := WorkerOf(s, c);
    assert ClientOk(w, c, s.log, s.file);
    assert s.lock == Client(c) && s.log[..|s.log|] == s.log;
  }

  /** A pass sends from one file that does not change under it, and a completed pass has sent
      exactly that file. */
  lemma PassSendsOneFile(before: seq<Action>, during: seq<Action>, c: nat)
    requires InPass(before, during, c)
    ensures var file, w := Run(before).file, WorkerOf(Run(before + during), c);
            && Run(before + during).file == file
            && w.sent <= file
            && (w.pc == Sent ==> w.echoes != [] && w.echoes[|w.echoes| - 1] == file)
  {
    assert during[..|during|] == during;
    FrozenDuringPass(before, during, c);
    RunKeepsInv(before + during);
    SentSoFar(Run(before + during), c);
  }

  lemma StepGrows(s: State, a: Action)
    ensures s.file <= Perform(s, a).file && s.log <= Perform(s, a).log
  {
    if Enabled(s, a) && !(a.Append? || a.AlarmText? || a.AlarmNewline?) {
      SameFile(s, a);
    }
  }

  /** The file is only ever appended to. */
  lemma {:induction false} FileGrows(before: seq<Action>, later: seq<Action>)
    ensures Run(before).file <= Run(before + later).file
    ensures Run(before).log <= Run(before + later).log
  {
    if later == [] {
      assert before + later == before;
    } else {
      var init, a := later[..|later| - 1], later[|later| - 1];
      FileGrows(before, init);
      assert (before + later)[..|before + later| - 1] == before + init;
      StepGrows(Run(before + init), a);
    }
  }
}
