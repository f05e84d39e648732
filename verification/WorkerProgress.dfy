/** When the worker protocol can go on.  The alarm handler locks the mutex on the thread the
    signal interrupts; if that thread already holds the mutex, nobody moves again, and that
    is the only way to get stuck. */
module WorkerProgress {
  import opened Bytes
  import opened Framing
  import opened Reading
  import opened WorkerProtocol
  import opened WorkerTheorems

  /** The handler interrupted the very thread that holds the mutex. */
  predicate Stuck(s: State) {
    s.lock.Client? && HandlerOf(s, WorkerThread(s.lock.id)) != Idle
  }

  /** The signal arrives on the thread that holds the mutex in its own code. */
  predicate AlarmOnHolder(s: State, a: Action) {
    a.AlarmFires? && s.lock.Client? && a.host == WorkerThread(s.lock.id)
  }

  /** Actions that come from outside: connections, chunks, hang-ups and alarms. */
  predicate IsInput(a: Action) {
    a.Connect? || a.Recv? || a.Hangup? || a.AlarmFires?
  }

  /** A worker in the middle of a message is not waiting for input. */
  predicate IsBusy(pc: Pc) {
    pc !in {Absent, Receiving, Closed}
  }

  function PerformAll(s: State, actions: seq<Action>): State
    decreases |actions|
  {
    if actions == [] then s else PerformAll(Perform(s, actions[0]), actions[1..])
  }

  // Getting stuck.

  /** One step makes the protocol stuck exactly if it is an alarm on the holder's thread. */
  lemma StepStuck(s: State, a: Action)
    requires LockOk(s)
    ensures Stuck(Perform(s, a)) <==> Stuck(s) || AlarmOnHolder(s, a)
  {
    if Enabled(s, a) && !AlarmOnHolder(s, a) {
      if s.lock.Client? {
        assert Critical(WorkerOf(s, s.lock.id).pc);
      } else if s.lock.Handler? {
        assert HandlerCritical(HandlerOf(s, s.lock.host));
      }
    }
  }

  /** At some point of the run an alarm hit the thread that was holding the mutex. */
  ghost predicate HitsHolder(actions: seq<Action>) {
    exists i :: 0 <= i < |actions| && AlarmOnHolder(Run(actions[..i]), actions[i])
  }

  lemma HitsHolderSnoc(init: seq<Action>, a: Action)
    ensures HitsHolder(init + [a]) <==> HitsHolder(init) || AlarmOnHolder(Run(init), a)
  {
    var actions := init + [a];
    forall i | 0 <= i <= |init|
      ensures actions[..i] == init[..i]
    {
    }
    assert init[..|init|] == init;
    if HitsHolder(init) {
      var i :| 0 <= i < |init| && AlarmOnHolder(Run(init[..i]), init[i]);
      assert AlarmOnHolder(Run(actions[..i]), actions[i]);
    }
    if AlarmOnHolder(Run(init), a) {
      assert AlarmOnHolder(Run(actions[..|init|]), actions[|init|]);
    }
  }

  lemma RunSnoc(actions: seq<Action>, a: Action)
    ensures Run(actions + [a]) == Perform(Run(actions), a)
  {
    assert (actions + [a])[..|actions|] == actions;
  }

  /** A run ends stuck if and only if it hits the holder. */
  lemma {:induction false} RunStuck(actions: seq<Action>)
    ensures Stuck(Run(actions)) <==> HitsHolder(actions)
  {
    if actions != [] {
      var init, a := actions[..|actions| - 1], actions[|actions| - 1];
      assert actions == init + [a];
      RunStuck(init);
      RunKeepsInv(init);
      StepStuck(Run(init), a);
      RunSnoc(init, a);
      HitsHolderSnoc(init, a);
    }
  }

  /** A stuck protocol changes neither the mutex nor the file nor any busy worker. */
  ghost predicate Frozen(s: State, s': State) {
    && Stuck(s') && s'.lock == s.lock && s'.file == s.file && s'.log == s.log
    && forall c: nat :: IsBusy(WorkerOf(s, c).pc) ==> WorkerOf(s', c) == WorkerOf(s, c)
  }

  /** Of a stuck protocol, only steps that wait for input are left. */
  lemma OnlyInput(s: State, a: Action)
    requires LockOk(s) && Stuck(s) && Enabled(s, a)
    ensures IsInput(a)
  {
    assert Critical(WorkerOf(s, s.lock.id).pc);
  }

  lemma StuckStays(s: State, a: Action)
    requires Inv(s) && Stuck(s)
    ensures Inv(Perform(s, a)) && Frozen(s, Perform(s, a))
  {
    StepStuck(s, a);
    if Enabled(s, a) {
      OnlyInput(s, a);
      StepKeepsInv(s, a);
    }
  }

  lemma {:induction false} StuckForever(s: State, actions: seq<Action>)
    requires Inv(s) && Stuck(s)
    ensures Frozen(s, PerformAll(s, actions))
    decreases |actions|
  {
    if actions != [] {
      StuckStays(s, actions[0]);
      StuckForever(Perform(s, actions[0]), actions[1..]);
    }
  }

  /** Nobody holds the mutex, no handler runs, and the worker is here. */
  predicate IsQuiet(s: State, c: nat, pc: Pc) {
    s.lock == Free && s.handlers == map[] && WorkerOf(s, c).pc == pc
  }

  /** A message arrives, and the signal while the worker is appending it. */
  lemma MessageArrives(s: State, c: nat)
    requires IsQuiet(s, c, Receiving)
    ensures IsQuiet(Perform(s, Recv(c, [NEWLINE])), c, WantsToDump)
  {
    assert [NEWLINE][0] == NEWLINE;
  }

  lemma AlarmArrives(s: State, c: nat)
    requires IsQuiet(s, c, WantsToDump)
    ensures Stuck(Perform(Perform(s, LockToDump(c)), AlarmFires(WorkerThread(c))))
  {
    var s' := Perform(s, LockToDump(c));
    assert s'.lock == Client(c) && s'.handlers == map[] && WorkerOf(s', c).pc == Dumping;
  }

  /** A run that gets stuck. */
  lemma AlarmDuringDump()
    ensures Stuck(Run([Connect(0), Recv(0, [NEWLINE]), LockToDump(0), AlarmFires(WorkerThread(0))]))
  {
    var r := [Connect(0), Recv(0, [NEWLINE]), LockToDump(0), AlarmFires(WorkerThread(0))];
    RunSnoc([], r[0]);
    RunSnoc(r[..1], r[1]);
    RunSnoc(r[..2], r[2]);
    RunSnoc(r[..3], r[3]);
    assert r[..1] == [] + [r[0]] && r[..2] == r[..1] + [r[1]] && r[..3] == r[..2] + [r[2]] && r == r[..3] + [r[3]];
    assert IsQuiet(Run(r[..1]), 0, Receiving);
    MessageArrives(Run(r[..1]), 0);
    AlarmArrives(Run(r[..2]), 0);
  }

  // Going on.

  /** Steps the holder of the mutex still has to take until it gives the mutex back. */
  function Remaining(s: State): nat {
    match s.lock
    case Free => 0
    case Handler(h) =>
      if HandlerOf(s, h) == Locked then 3 else if HandlerOf(s, h) == WroteText then 2 else 1
    case Client(c) =>
      var w := WorkerOf(s, c);
      if w.pc == Dumping then 2
      else if w.pc == Sending && w.offset <= |s.file| then Pieces(|s.file| - w.offset) + 2
      else 1
  }

  function HolderThread(o: Owner): Thread {
    match o
    case Free => MainThread
    case Client(c) => WorkerThread(c)
    case Handler(h) => h
  }

  /** The holder's next step. */
  function HolderStep(s: State): Action
    requires s.lock != Free
  {
    match s.lock
    case Handler(h) =>
      if HandlerOf(s, h) == Locked then AlarmText(h, [])
      else if HandlerOf(s, h) == WroteText then AlarmNewline(h) else AlarmUnlock(h)
    case Client(c) =>
      var pc := WorkerOf(s, c).pc;
      if pc == Dumping then Append(c) else if pc == Dumped then UnlockDump(c)
      else if pc == Sending then Read(c) else UnlockSend(c)
  }

  /** The holder can take its next step unless the protocol is stuck. */
  lemma HolderEnabled(s: State)
    requires LockOk(s) && s.lock != Free
    ensures Enabled(s, HolderStep(s)) <==> !Stuck(s)
    ensures ThreadOf(HolderStep(s)) == HolderThread(s.lock) && !IsInput(HolderStep(s))
  {
    if s.lock.Client? {
      ClientHolds(s, s.lock.id);
    } else {
      HandlerHolds(s, s.lock.host);
    }
  }

  /** The step brings the release one step closer, and the last one is the release. */
  ghost predicate OneCloser(s: State, s': State) {
    Remaining(s') == Remaining(s) - 1 && s'.lock == if Remaining(s) == 1 then Free else s.lock
  }

  lemma ClientCloser(s: State, a: Action, c: nat)
    requires s.lock == Client(c) && Critical(WorkerOf(s, c).pc) && HandlerOf(s, WorkerThread(c)) == Idle
    requires WorkerOf(s, c).pc == Sending ==> WorkerOf(s, c).offset <= |s.file|
    requires Enabled(s, a) && ThreadOf(a) == WorkerThread(c) && !a.AlarmFires?
    ensures !IsInput(a) && OneCloser(s, Next(s, a))
  {
  }

  lemma HandlerCloser(s: State, a: Action, h: Thread)
    requires s.lock == Handler(h) && HandlerCritical(HandlerOf(s, h))
    requires Enabled(s, a) && ThreadOf(a) == h
    ensures !IsInput(a) && OneCloser(s, Next(s, a))
  {
  }

  /** Whatever the holder's thread does, except for an alarm that hits it in its own code, is
      a step towards the release. */
  lemma HolderAdvances(s: State, a: Action)
    requires Inv(s) && !Stuck(s) && s.lock != Free
    requires Enabled(s, a) && ThreadOf(a) == HolderThread(s.lock) && !AlarmOnHolder(s, a)
    ensures !IsInput(a) && OneCloser(s, Next(s, a))
    ensures Inv(Next(s, a)) && !Stuck(Next(s, a))
  {
    StepKeepsInv(s, a);
    StepStuck(s, a);
    if s.lock.Client? {
      var c := s.lock.id;
      ClientHolds(s, c);
      assert ClientOk(WorkerOf(s, c), c, s.log, s.file);
      ClientCloser(s, a, c);
    } else {
      HandlerHolds(s, s.lock.host);
      HandlerCloser(s, a, s.lock.host);
    }
  }

  /** Steps of other threads leave the holder where it is. */
  lemma OthersDoNotDelay(s: State, a: Action)
    requires LockOk(s) && s.lock != Free && Enabled(s, a) && ThreadOf(a) != HolderThread(s.lock)
    ensures Next(s, a).lock == s.lock && Remaining(Next(s, a)) == Remaining(s)
    ensures Stuck(Next(s, a)) <==> Stuck(s)
  {
    if s.lock.Client? {
      ClientHolds(s, s.lock.id);
    } else {
      HandlerHolds(s, s.lock.host);
    }
  }

  // Every schedule.

  /** Whether the mutex is given back by its holder `o` at some point of these actions. */
  predicate GivenBack(s: State, actions: seq<Action>, o: Owner)
    decreases |actions|
  {
    s.lock != o || (actions != [] && GivenBack(Perform(s, actions[0]), actions[1..], o))
  }

  /** Until then, no alarm hits the holder in its own code. */
  predicate Spared(s: State, actions: seq<Action>, o: Owner)
    decreases |actions|
  {
    s.lock != o || actions == []
    || (!AlarmOnHolder(s, actions[0]) && Spared(Perform(s, actions[0]), actions[1..], o))
  }

  /** Given back means that at some point of the actions somebody else or nobody has it. */
  lemma {:induction false} GivenBackMeans(s: State, actions: seq<Action>, o: Owner)
    ensures GivenBack(s, actions, o)
            <==> exists k :: 0 <= k <= |actions| && PerformAll(s, actions[..k]).lock != o
    decreases |actions|
  {
    assert PerformAll(s, actions[..0]) == s;
    if s.lock == o && actions != [] {
      var s', rest := Perform(s, actions[0]), actions[1..];
      GivenBackMeans(s', rest, o);
      forall k | 0 < k <= |actions|
        ensures PerformAll(s, actions[..k]) == PerformAll(s', rest[..k - 1])
      {
        assert actions[..k][1..] == rest[..k - 1];
      }
      if k :| 0 <= k <= |rest| && PerformAll(s', rest[..k]).lock != o {
        assert PerformAll(s, actions[..k + 1]).lock != o;
      }
    }
  }

  /** No alarm hits the holder if none fires at all. */
  lemma {:induction false} SparedWithoutAlarms(s: State, actions: seq<Action>, o: Owner)
    requires forall i :: 0 <= i < |actions| ==> !actions[i].AlarmFires?
    ensures Spared(s, actions, o)
    decreases |actions|
  {
    if actions != [] {
      SparedWithoutAlarms(Perform(s, actions[0]), actions[1..], o);
    }
  }

  /** The steps that the thread of the holder takes until then. */
  function StepsOf(s: State, actions: seq<Action>, o: Owner): nat
    decreases |actions|
  {
    if s.lock != o || actions == [] then 0
    else
      var own := Enabled(s, actions[0]) && ThreadOf(actions[0]) == HolderThread(o);
      (if own then 1 else 0) + StepsOf(Perform(s, actions[0]), actions[1..], o)
  }

  /** Whatever the schedule, if no alarm hits the holder in its own code, its thread takes at
      most the remaining steps until it gives the mutex back, and it has given it back if and
      only if it took exactly that many. */
  lemma {:induction false} EverySchedule(s: State, actions: seq<Action>, o: Owner)
    requires Inv(s) && !Stuck(s) && s.lock == o != Free && Spared(s, actions, o)
    ensures StepsOf(s, actions, o) <= Remaining(s)
    ensures GivenBack(s, actions, o) <==> StepsOf(s, actions, o) == Remaining(s)
    decreases |actions|
  {
    if actions != [] {
      ScheduledStep(s, actions[0]);
      var s' := Perform(s, actions[0]);
      if s'.lock == o {
        EverySchedule(s', actions[1..], o);
      }
    }
  }

  lemma ScheduledStep(s: State, a: Action)
    requires Inv(s) && !Stuck(s) && s.lock != Free && !AlarmOnHolder(s, a)
    ensures Remaining(s) > 0 && Inv(Perform(s, a)) && !Stuck(Perform(s, a))
    ensures if Enabled(s, a) && ThreadOf(a) == HolderThread(s.lock) then OneCloser(s, Perform(s, a))
            else Perform(s, a).lock == s.lock && Remaining(Perform(s, a)) == Remaining(s)
  {
    if Enabled(s, a) {
      if ThreadOf(a) == HolderThread(s.lock) {
        HolderAdvances(s, a);
      } else {
        StepKeepsInv(s, a);
        OthersDoNotDelay(s, a);
      }
    }
  }

  // Some schedule.

  ghost predicate AllBy(steps: seq<Action>, h: Thread) {
    forall i :: 0 <= i < |steps| ==> ThreadOf(steps[i]) == h && !IsInput(steps[i])
  }

  /** So unless the protocol is stuck, the holder alone gives the mutex back in its remaining
      steps: for a sending pass, one per started 100 bytes still to be read, one read that
      finds the end, and the unlock. */
  lemma {:induction false} HolderReleases(s: State) returns (steps: seq<Action>)
    requires Inv(s) && !Stuck(s)
    ensures |steps| == Remaining(s) && PerformAll(s, steps).lock == Free
    ensures AllBy(steps, HolderThread(s.lock))
    decreases Remaining(s)
  {
    if s.lock == Free {
      return [];
    }
    var a := HolderStep(s);
    HolderEnabled(s);
    HolderAdvances(s, a);
    var rest := HolderReleases(Next(s, a));
    StepBefore(s, a, rest);
    steps := [a] + rest;
  }

  lemma StepBefore(s: State, a: Action, rest: seq<Action>)
    ensures PerformAll(s, [a] + rest) == PerformAll(Perform(s, a), rest)
    ensures forall h :: AllBy([a] + rest, h) <==> ThreadOf(a) == h && !IsInput(a) && AllBy(rest, h)
  {
    var steps := [a] + rest;
    assert steps[0] == a && steps[1..] == rest;
    assert forall i :: 0 <= i < |rest| ==> rest[i] == steps[i + 1];
  }

  /** From a state of a run the mutex can still be released if and only if the handler does
      not sit on the thread holding it. */
  lemma MutexReleasable(s: State)
    requires Inv(s)
    ensures (exists steps :: PerformAll(s, steps).lock == Free) <==> !Stuck(s)
  {
    if Stuck(s) {
      forall steps
        ensures PerformAll(s, steps).lock != Free
      {
        StuckForever(s, steps);
      }
    } else {
      var steps := HolderReleases(s);
    }
  }

  /** While a worker is busy, some step that is no input is possible if and only if the
      protocol is not stuck. */
  lemma NoOtherDeadlock(s: State, c: nat)
    requires LockOk(s) && IsBusy(WorkerOf(s, c).pc)
    ensures (exists a :: Enabled(s, a) && !IsInput(a)) <==> !Stuck(s)
  {
    if Stuck(s) {
      forall a | Enabled(s, a)
        ensures IsInput(a)
      {
        OnlyInput(s, a);
      }
    } else {
      HelpfulStepEnabled(s, c);
    }
  }

  /** The stages a worker still has to pass before it waits for input again. */
  function Stages(pc: Pc): nat {
    match pc
    case WantsToDump => 4
    case Dumping | Dumped => 3
    case WantsToSend => 2
    case Sending | Sent => 1
    case _ => 0
  }

  /** Whether a handler on the worker's own thread still has to have the mutex first. */
  function Delayed(s: State, c: nat): nat {
    if HandlerOf(s, WorkerThread(c)) == WantsLock then 1 else 0
  }

  /** A step towards finishing the worker's message: the holder's if the mutex is taken, that
      of a handler on the worker's thread if there is one, otherwise the worker's own. */
  function HelpfulStep(s: State, c: nat): Action {
    if s.lock != Free then HolderStep(s)
    else if HandlerOf(s, WorkerThread(c)) != Idle then AlarmLock(WorkerThread(c))
    else if WorkerOf(s, c).pc == WantsToDump then LockToDump(c)
    else LockToSend(c)
  }

  lemma HelpfulStepEnabled(s: State, c: nat)
    requires LockOk(s) && !Stuck(s) && IsBusy(WorkerOf(s, c).pc)
    ensures Enabled(s, HelpfulStep(s, c)) && !IsInput(HelpfulStep(s, c))
  {
    if s.lock != Free {
      HolderEnabled(s);
    } else {
      assert !Critical(WorkerOf(s, c).pc) && !HandlerCritical(HandlerOf(s, WorkerThread(c)));
    }
  }

  /** The worker has the same input and is at the same stage or a later one. */
  ghost predicate NoFurtherAway(w: Worker, w': Worker) {
    w'.chunks == w.chunks && w'.pc !in {Absent, Closed} && Stages(w'.pc) <= Stages(w.pc)
  }

  lemma OwnStepHelps(s: State, c: nat)
    requires LockOk(s) && s.lock == Client(c) && Enabled(s, HolderStep(s))
    ensures NoFurtherAway(WorkerOf(s, c), WorkerOf(Next(s, HolderStep(s)), c))
    ensures Delayed(Next(s, HolderStep(s)), c) == Delayed(s, c)
  {
    assert Critical(WorkerOf(s, c).pc);
  }

  lemma HolderStepHelps(s: State, c: nat)
    requires LockOk(s) && IsBusy(WorkerOf(s, c).pc) && s.lock != Free && Enabled(s, HolderStep(s))
    ensures NoFurtherAway(WorkerOf(s, c), WorkerOf(Next(s, HolderStep(s)), c))
    ensures Delayed(Next(s, HolderStep(s)), c) <= Delayed(s, c)
  {
    if s.lock == Client(c) {
      OwnStepHelps(s, c);
    } else {
      assert WorkerOf(Next(s, HolderStep(s)), c) == WorkerOf(s, c);
      assert s.lock.Client? ==> Next(s, HolderStep(s)).handlers == s.handlers;
    }
  }

  lemma FreeStepHelps(s: State, c: nat)
    requires LockOk(s) && IsBusy(WorkerOf(s, c).pc) && s.lock == Free && Enabled(s, HelpfulStep(s, c))
    ensures var s' := Next(s, HelpfulStep(s, c));
            && NoFurtherAway(WorkerOf(s, c), WorkerOf(s', c))
            && (Stages(WorkerOf(s', c).pc) < Stages(WorkerOf(s, c).pc) || Delayed(s', c) < Delayed(s, c))
  {
    assert !Critical(WorkerOf(s, c).pc) && !HandlerCritical(HandlerOf(s, WorkerThread(c)));
  }

  /** Closer to the end: fewer stages, or no handler in the way any more, or the release of
      the mutex closer. */
  ghost predicate Closer(s: State, s': State, c: nat) {
    var before, after := Stages(WorkerOf(s, c).pc), Stages(WorkerOf(s', c).pc);
    || after < before
    || (after == before && Delayed(s', c) < Delayed(s, c))
    || (after == before && Delayed(s', c) == Delayed(s, c) && Remaining(s') < Remaining(s))
  }

  lemma HelpfulStepHelps(s: State, c: nat)
    requires Inv(s) && !Stuck(s) && IsBusy(WorkerOf(s, c).pc)
    ensures Enabled(s, HelpfulStep(s, c)) && !IsInput(HelpfulStep(s, c))
    ensures var s' := Next(s, HelpfulStep(s, c));
            Inv(s') && !Stuck(s') && NoFurtherAway(WorkerOf(s, c), WorkerOf(s', c)) && Closer(s, s', c)
  {
    HelpfulStepEnabled(s, c);
    StepKeepsInv(s, HelpfulStep(s, c));
    StepStuck(s, HelpfulStep(s, c));
    if s.lock != Free {
      HolderEnabled(s);
      HolderAdvances(s, HolderStep(s));
      HolderStepHelps(s, c);
    } else {
      FreeStepHelps(s, c);
    }
  }

  ghost predicate NoInput(steps: seq<Action>) {
    forall i :: 0 <= i < |steps| ==> !IsInput(steps[i])
  }

  lemma NoInputBefore(a: Action, rest: seq<Action>)
    requires !IsInput(a) && NoInput(rest)
    ensures NoInput([a] + rest)
  {
  }

  /** The worker waits for its next chunk and has an echo for every message it received. */
  ghost predicate Finished(w: Worker) {
    w.pc == Receiving && |w.echoes| == |Frame(w.chunks).messages|
  }

  /** Unless the protocol is stuck, a message that has been received can still be appended
      and echoed without any further input to anyone. */
  lemma {:induction false} CanFinish(s: State, c: nat) returns (steps: seq<Action>)
    requires Inv(s) && !Stuck(s) && WorkerOf(s, c).pc !in {Absent, Closed}
    ensures Finished(WorkerOf(PerformAll(s, steps), c))
    ensures WorkerOf(PerformAll(s, steps), c).chunks == WorkerOf(s, c).chunks
    ensures NoInput(steps)
    decreases Stages(WorkerOf(s, c).pc), Delayed(s, c), Remaining(s)
  {
    if IsBusy(WorkerOf(s, c).pc) {
      HelpfulStepHelps(s, c);
      var a := HelpfulStep(s, c);
      var rest := CanFinish(Next(s, a), c);
      StepBefore(s, a, rest);
      NoInputBefore(a, rest);
      steps := [a] + rest;
    } else {
      assert ClientOk(WorkerOf(s, c), c, s.log, s.file);
      steps := [];
    }
  }

  /** A busy worker can still get its echo if and only if the handler does not sit on the
      thread holding the mutex. */
  lemma BusyCanFinish(s: State, c: nat)
    requires Inv(s) && IsBusy(WorkerOf(s, c).pc)
    ensures (exists steps :: Finished(WorkerOf(PerformAll(s, steps), c))) <==> !Stuck(s)
  {
    if Stuck(s) {
      forall steps
        ensures !Finished(WorkerOf(PerformAll(s, steps), c))
      {
        StuckForever(s, steps);
      }
    } else {
      var steps := CanFinish(s, c);
    }
  }

  lemma {:induction false} RunAppend(actions: seq<Action>, steps: seq<Action>)
    ensures Run(actions + steps) == PerformAll(Run(actions), steps)
    decreases |steps|
  {
    if steps == [] {
      assert actions + steps == actions;
    } else {
      RunSnoc(actions, steps[0]);
      RunAppend(actions + [steps[0]], steps[1..]);
      assert actions + [steps[0]] + steps[1..] == actions + steps;
    }
  }

  /** The worker waits for its next chunk, and every message that arrived has its echo. */
  ghost predicate Answered(actions: seq<Action>, c: nat) {
    && WorkerOf(Run(actions), c).pc == Receiving
    && |WorkerOf(Run(actions), c).echoes| == |Frame(Received(actions, c)).messages|
  }

  lemma AnsweredIfFinished(actions: seq<Action>, steps: seq<Action>, c: nat)
    ensures Answered(actions + steps, c) <==> Finished(WorkerOf(PerformAll(Run(actions), steps), c))
  {
    RunAppend(actions, steps);
    ChunksAreReceived(actions + steps, c);
  }

  lemma NeverAnswered(actions: seq<Action>, steps: seq<Action>, c: nat)
    requires IsBusy(WorkerOf(Run(actions), c).pc) && HitsHolder(actions)
    ensures !Answered(actions + steps, c)
  {
    RunKeepsInv(actions);
    RunStuck(actions);
    StuckForever(Run(actions), steps);
    AnsweredIfFinished(actions, steps, c);
  }

  lemma CanBeAnswered(actions: seq<Action>, c: nat) returns (steps: seq<Action>)
    requires IsBusy(WorkerOf(Run(actions), c).pc) && !HitsHolder(actions)
    ensures Answered(actions + steps, c) && NoInput(steps)
  {
    RunKeepsInv(actions);
    RunStuck(actions);
    steps := CanFinish(Run(actions), c);
    AnsweredIfFinished(actions, steps, c);
  }

  /** Over runs: a busy worker can still get its echo if and only if no alarm has hit the
      thread that was holding the mutex. */
  lemma RunCanFinish(actions: seq<Action>, c: nat)
    requires IsBusy(WorkerOf(Run(actions), c).pc)
    ensures (exists steps :: Answered(actions + steps, c)) <==> !HitsHolder(actions)
  {
    if HitsHolder(actions) {
      forall steps
        ensures !Answered(actions + steps, c)
      {
        NeverAnswered(actions, steps, c);
      }
    } else {
      var steps := CanBeAnswered(actions, c);
    }
  }
}
