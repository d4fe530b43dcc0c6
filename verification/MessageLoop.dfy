/** The interrupt message protocol of the kernel as a step system over one CPU.

The main context runs the loop of `kmain`; a device interrupt may push a message at any step at
which the interrupt flag is set. Every `IrqMutex` is taken in two steps (save and clear the flag,
then take the spin lock) and dropped in two (release the spin lock, then restore the flag), so an
interrupt may come between any two of them that leave the flag set.
 */
module MessageLoop {
  import opened Options
  import opened Ring

  datatype Message = Timer | Keyboard(data: bv8)

  datatype Mutex = Queue | Terminal | Serial | Memory | Scheduler

  const BUFFER_SIZE: nat := 4096

  /** A guard of the main context: the flag it saved, how far it is, and whether it tries only once. */
  datatype Guard = Guard(mutex: Mutex, saved: bool, phase: Phase, once: bool)

  datatype Phase = Waiting | Holding | Released

  /** Where the main context is: at the top of the loop, with interrupts disabled, with the queue
      taken, with an answer from the queue, or handling a message. */
  datatype Main = Top | Disabled | Polling | Answered(r: Option<Message>) | Handling(m: Message)

  /** Where an interrupt handler is: about to call intmsg_push, its flag saved, its lock held, its
      lock released, about to return. */
  datatype Handler =
    | Entered(m: Message)
    | Guarded(m: Message, saved: bool)
    | Locked(m: Message, saved: bool)
    | Unlocked(saved: bool)
    | Leaving

  datatype State = State(
    flag: bool,
    halted: bool,
    locks: set<Mutex>,
    queue: seq<Message>,
    main: Main,
    guards: seq<Guard>,
    handler: Option<Handler>,
    accepted: seq<Message>,
    handled: seq<Message>)

  /** intmsg_push and intmsg_pop on the queue's contents. */
  function Enqueue(q: seq<Message>, m: Message): seq<Message> {
    if |q| < BUFFER_SIZE then q + [m] else q
  }

  function Front(q: seq<Message>): Option<Message> {
    if q == [] then None else Some(q[0])
  }

  function Rest(q: seq<Message>): seq<Message> {
    if q == [] then [] else q[1..]
  }

  datatype Action =
    | Interrupt(m: Message) | SaveFlag | Acquire | Push | DropGuard | Return
    | Disable | Poll | Pop | Enable | EnableAndHalt | Finish
    | Lock(mutex: Mutex, once: bool) | TakeLock | GiveUp | Unlock | Restore

  // ---------------------------------------------------------------- interrupt handlers

  /** The CPU takes an interrupt: only with the flag set; it wakes up and clears the flag. */
  predicate InterruptStep(s: State, m: Message, t: State) {
    s.flag && s.handler == None && t == s.(flag := false, halted := false, handler := Some(Entered(m)))
  }

  predicate SaveFlagStep(s: State, t: State) {
    && s.handler.Some? && s.handler.value.Entered?
    && t == s.(flag := false, handler := Some(Guarded(s.handler.value.m, s.flag)))
  }

  /** The handler takes the queue's spin lock, once that is free. */
  predicate AcquireStep(s: State, t: State) {
    && s.handler.Some? && s.handler.value.Guarded? && Queue !in s.locks
    && t == s.(locks := s.locks + {Queue}, handler := Some(Locked(s.handler.value.m, s.handler.value.saved)))
  }

  predicate PushStep(s: State, t: State) {
    && s.handler.Some? && s.handler.value.Locked?
    && var m := s.handler.value.m;
      t == s.(queue := Enqueue(s.queue, m), locks := s.locks - {Queue},
              handler := Some(Unlocked(s.handler.value.saved)),
              accepted := if |s.queue| < BUFFER_SIZE then s.accepted + [m] else s.accepted)
  }

  predicate DropGuardStep(s: State, t: State) {
    && s.handler.Some? && s.handler.value.Unlocked?
    && t == s.(flag := s.flag || s.handler.value.saved, handler := Some(Leaving))
  }

  /** Return from the interrupt: the flag comes back as it was when the interrupt was taken. */
  predicate ReturnStep(s: State, t: State) {
    s.handler == Some(Leaving) && t == s.(flag := true, handler := None)
  }

  // ---------------------------------------------------------------- the loop of kmain

  predicate MainRuns(s: State) {
    s.handler == None && !s.halted
  }

  predicate DisableStep(s: State, t: State) {
    MainRuns(s) && s.main == Top && s.guards == [] && t == s.(flag := false, main := Disabled)
  }

  /** intmsg_pop takes the queue: guard and lock are the general steps below. */
  predicate PollStep(s: State, t: State) {
    && MainRuns(s) && s.main == Disabled && s.guards == []
    && t == s.(main := Polling, guards := [Guard(Queue, s.flag, Waiting, false)], flag := false)
  }

  predicate PopStep(s: State, t: State) {
    && MainRuns(s) && s.main == Polling && |s.guards| == 1 && s.guards[0].phase == Holding
    && t == s.(main := Answered(Front(s.queue)), queue := Rest(s.queue))
  }

  predicate EnableStep(s: State, t: State) {
    && MainRuns(s) && s.main.Answered? && s.main.r.Some? && s.guards == []
    && t == s.(flag := true, main := Handling(s.main.r.value))
  }

  /** sti; hlt: no interrupt is taken between the two. */
  predicate EnableAndHaltStep(s: State, t: State) {
    && MainRuns(s) && s.main == Answered(None) && s.guards == []
    && t == s.(flag := true, halted := true, main := Top)
  }

  predicate FinishStep(s: State, t: State) {
    && MainRuns(s) && s.main.Handling? && s.guards == []
    && t == s.(main := Top, handled := s.handled + [s.main.m])
  }

  // ---------------------------------------------------------------- IrqMutex

  predicate HeldBy(g: seq<Guard>, m: Mutex) {
    exists i :: 0 <= i < |g| && g[i].phase == Holding && g[i].mutex == m
  }

  /** lock or try_lock, first half: save and clear the flag. Code that handles a message may nest
      locks and name any mutex. */
  predicate LockStep(s: State, m: Mutex, once: bool, t: State) {
    && MainRuns(s) && s.main.Handling?
    && (s.guards == [] || s.guards[|s.guards| - 1].phase == Holding)
    && t == s.(flag := false, guards := s.guards + [Guard(m, s.flag, Waiting, once)])
  }

  /** Second half: take the spin lock, once it is free. */
  predicate TakeLockStep(s: State, t: State) {
    && MainRuns(s) && s.guards != []
    && var n := |s.guards| - 1; var g := s.guards[n];
      && g.phase == Waiting && g.mutex !in s.locks
      && t == s.(locks := s.locks + {g.mutex}, guards := s.guards[n := g.(phase := Holding)])
  }

  /** A try_lock that finds the lock taken drops its interrupt guard. */
  predicate GiveUpStep(s: State, t: State) {
    && MainRuns(s) && s.guards != []
    && var n := |s.guards| - 1; var g := s.guards[n];
      && g.phase == Waiting && g.once && g.mutex in s.locks
      && t == s.(guards := s.guards[..n], flag := s.flag || g.saved)
  }

  /** Drop, first half: release the spin lock. The guard stays until the flag is restored. */
  predicate UnlockStep(s: State, t: State) {
    && MainRuns(s) && s.guards != [] && s.main != Polling
    && var n := |s.guards| - 1; var g := s.guards[n];
      && g.phase == Holding
      && t == s.(locks := s.locks - {g.mutex}, guards := s.guards[n := g.(phase := Released)])
  }

  /** Drop, second half: set the flag again if it was set when the guard was made. */
  predicate RestoreStep(s: State, t: State) {
    && MainRuns(s) && s.guards != [] && s.main != Polling
    && var n := |s.guards| - 1; var g := s.guards[n];
      && g.phase == Released
      && t == s.(guards := s.guards[..n], flag := s.flag || g.saved)
  }

  predicate Step(s: State, a: Action, t: State) {
    match a
    case Interrupt(m) => InterruptStep(s, m, t)
    case SaveFlag => SaveFlagStep(s, t)
    case Acquire => AcquireStep(s, t)
    case Push => PushStep(s, t)
    case DropGuard => DropGuardStep(s, t)
    case Return => ReturnStep(s, t)
    case Disable => DisableStep(s, t)
    case Poll => PollStep(s, t)
    case Pop => PopStep(s, t)
    case Enable => EnableStep(s, t)
    case EnableAndHalt => EnableAndHaltStep(s, t)
    case Finish => FinishStep(s, t)
    case Lock(m, once) => LockStep(s, m, once, t)
    case TakeLock => TakeLockStep(s, t)
    case GiveUp => GiveUpStep(s, t)
    case Unlock => UnlockStep(s, t)
    case Restore => RestoreStep(s, t)
  }

  /** kmain enters its loop with interrupts enabled; messages may be waiting. */
  predicate Init(s: State) {
    && s.flag && !s.halted && s.locks == {} && |s.queue| <= BUFFER_SIZE && s.main == Top
    && s.guards == [] && s.handler == None && s.accepted == s.queue && s.handled == []
  }

  /** Any queue may be waiting. */
  lemma Starts(q: seq<Message>)
    requires |q| <= 4096
    ensures exists s :: Init(s) && s.queue == q
  {
    assert Init(State(true, false, {}, q, Top, [], None, q, []));
  }

  // ---------------------------------------------------------------- what every step keeps

  /** The flag the main context runs with outside any guard. */
  predicate BaseFlag(main: Main) {
    main == Top || main.Handling?
  }

  predicate SavedByHandler(h: Handler) {
    (h.Guarded? || h.Locked? || h.Unlocked?) && h.saved
  }

  /** The flag is set exactly if no handler runs, no guard is alive and the loop has not disabled
      it; only the outermost guard remembers the flag of the loop. */
  predicate FlagInv(s: State) {
    && (s.flag <==> s.handler == None && s.guards == [] && BaseFlag(s.main))
    && (s.handler.Some? ==> s.guards == [] && BaseFlag(s.main) && !SavedByHandler(s.handler.value))
    && (forall i :: 0 <= i < |s.guards| ==> (s.guards[i].saved <==> i == 0 && BaseFlag(s.main)))
  }

  /** The spin locks taken are those of the guards, each by one guard, or the handler's. */
  predicate LockInv(s: State) {
    && (forall m :: m in s.locks <==> HeldBy(s.guards, m) || (m == Queue && HandlerHolds(s)))
    && (forall i, j :: 0 <= i < j < |s.guards| && s.guards[j].phase == Holding ==>
          s.guards[i].mutex != s.guards[j].mutex)
    && (forall i :: 0 <= i < |s.guards| - 1 ==> s.guards[i].phase == Holding)
  }

  predicate HandlerHolds(s: State) {
    s.handler.Some? && s.handler.value.Locked?
  }

  predicate PollingGuard(g: Guard) {
    g.mutex == Queue && g.phase != Released && !g.once
  }

  predicate LoopInv(s: State) {
    && (s.main == Top || s.main == Disabled ==> s.guards == [])
    && (s.main == Polling ==> |s.guards| == 1 && PollingGuard(s.guards[0]))
    && (s.main.Answered? ==> |s.guards| <= 1 && (|s.guards| == 1 ==> s.guards[0].phase != Waiting))
    && (s.main == Answered(None) ==> s.queue == [])
    && (s.halted ==> s.main == Top && s.handler == None && s.queue == [])
  }

  /** The message taken out of the queue and not yet handled. */
  function InHand(main: Main): seq<Message> {
    match main
    case Answered(Some(m)) => [m]
    case Handling(m) => [m]
    case _ => []
  }

  predicate QueueInv(s: State) {
    |s.queue| <= BUFFER_SIZE && s.accepted == s.handled + InHand(s.main) + s.queue
  }

  predicate Inv(s: State) {
    FlagInv(s) && LockInv(s) && LoopInv(s) && QueueInv(s)
  }

  lemma InitInv(s: State)
    requires Init(s)
    ensures Inv(s)
  {
  }

  lemma HandlerStepKeeps(s: State, a: Action, t: State)
    requires Inv(s) && Step(s, a, t) && (a.Interrupt? || a.SaveFlag? || a.Acquire? || a.Push? || a.DropGuard? || a.Return?)
    ensures Inv(t)
  {
    assert forall m :: HeldBy(t.guards, m) <==> HeldBy(s.guards, m);
  }

  lemma LoopStepKeeps(s: State, a: Action, t: State)
    requires Inv(s) && Step(s, a, t)
    requires a.Disable? || a.Poll? || a.Pop? || a.Enable? || a.EnableAndHalt? || a.Finish?
    ensures Inv(t)
  {
    if a.Poll? {
      ExtendHeld(s.guards, t.guards[0], Queue);
      assert forall m :: HeldBy(t.guards, m) <==> HeldBy(s.guards, m);
    } else {
      assert t.guards == s.guards && t.locks == s.locks;
      if a.Pop? {
        assert s.queue != [] ==> s.queue == [s.queue[0]] + s.queue[1..];
      }
    }
  }

  lemma LockStepKeeps(s: State, a: Action, t: State)
    requires Inv(s) && Step(s, a, t) && (a.Lock? || a.GiveUp? || a.Restore?)
    ensures Inv(t)
  {
    forall m ensures HeldBy(t.guards, m) <==> HeldBy(s.guards, m) {
      if a.Lock? {
        ExtendHeld(s.guards, t.guards[|s.guards|], m);
      } else {
        ExtendHeld(t.guards, s.guards[|s.guards| - 1], m);
        assert s.guards == t.guards + [s.guards[|s.guards| - 1]];
      }
    }
  }

  lemma ExtendHeld(g: seq<Guard>, x: Guard, m: Mutex)
    ensures HeldBy(g + [x], m) <==> HeldBy(g, m) || (x.phase == Holding && x.mutex == m)
  {
    var h := g + [x];
    if HeldBy(g, m) {
      var i :| 0 <= i < |g| && g[i].phase == Holding && g[i].mutex == m;
      assert h[i] == g[i];
    }
    if x.phase == Holding && x.mutex == m {
      assert h[|g|] == x;
    }
    if HeldBy(h, m) {
      var i :| 0 <= i < |h| && h[i].phase == Holding && h[i].mutex == m;
      assert i < |g| ==> h[i] == g[i];
    }
  }

  lemma TakeLockKeeps(s: State, t: State)
    requires Inv(s) && TakeLockStep(s, t)
    ensures Inv(t)
  {
    var n := |s.guards| - 1;
    ReplaceHeld(s, t);
    forall i | 0 <= i < n ensures t.guards[i].mutex != s.guards[n].mutex {
      assert s.guards[i].phase == Holding;
      assert HeldBy(s.guards, s.guards[i].mutex);
    }
  }

  lemma UnlockKeeps(s: State, t: State)
    requires Inv(s) && UnlockStep(s, t)
    ensures Inv(t)
  {
    ReplaceHeld(s, t);
  }

  /** The spin locks after the topmost guard took or released its own. */
  lemma ReplaceHeld(s: State, t: State)
    requires FlagInv(s) && LockInv(s) && (TakeLockStep(s, t) || UnlockStep(s, t))
    ensures forall m :: m in t.locks <==> HeldBy(t.guards, m) || (m == Queue && HandlerHolds(t))
  {
    var n := |s.guards| - 1;
    var g, h, rest := s.guards[n], t.guards[n], s.guards[..n];
    assert s.guards == rest + [g] && t.guards == rest + [h];
    forall m ensures m in t.locks <==> HeldBy(t.guards, m) || (m == Queue && HandlerHolds(t)) {
      ExtendHeld(rest, g, m);
      ExtendHeld(rest, h, m);
      assert g.phase == Holding && m == g.mutex ==> !HeldBy(rest, m);
    }
  }

  lemma StepKeeps(s: State, a: Action, t: State)
    requires Inv(s) && Step(s, a, t)
    ensures Inv(t)
  {
    hide Inv, InterruptStep, SaveFlagStep, AcquireStep, PushStep, DropGuardStep, ReturnStep, LockStep, TakeLockStep;
    hide GiveUpStep, RestoreStep, UnlockStep, DisableStep, PollStep, PopStep, EnableStep, EnableAndHaltStep, FinishStep;
    match a
    case Interrupt(_) => HandlerStepKeeps(s, a, t);
    case SaveFlag => HandlerStepKeeps(s, a, t);
    case Acquire => HandlerStepKeeps(s, a, t);
    case Push => HandlerStepKeeps(s, a, t);
    case DropGuard => HandlerStepKeeps(s, a, t);
    case Return => HandlerStepKeeps(s, a, t);
    case Lock(_, _) => LockStepKeeps(s, a, t);
    case GiveUp => LockStepKeeps(s, a, t);
    case Restore => LockStepKeeps(s, a, t);
    case TakeLock => TakeLockKeeps(s, t);
    case Unlock => UnlockKeeps(s, t);
    case _ => LoopStepKeeps(s, a, t);
  }

  // ---------------------------------------------------------------- whole runs

  ghost predicate IsRun(actions: seq<Action>, states: seq<State>) {
    && |states| == |actions| + 1 && Init(states[0])
    && forall i :: 0 <= i < |actions| ==> Step(states[i], actions[i], states[i + 1])
  }

  lemma {:induction false} RunInv(actions: seq<Action>, states: seq<State>, i: nat)
    requires IsRun(actions, states) && i < |states|
    ensures Inv(states[i])
  {
    if i == 0 {
      InitInv(states[0]);
    } else {
      RunInv(actions, states, i - 1);
      StepKeeps(states[i - 1], actions[i - 1], states[i]);
    }
  }

  /** A held lock means interrupts are off; a handler never finds the queue's lock taken. */
  lemma NoSelfDeadlock(actions: seq<Action>, states: seq<State>, i: nat)
    requires IsRun(actions, states) && i < |states|
    ensures var s := states[i];
            && (s.locks != {} ==> !s.flag)
            && (s.handler.Some? && (s.handler.value.Entered? || s.handler.value.Guarded?) ==> Queue !in s.locks)
  {
    RunInv(actions, states, i);
    var s := states[i];
    assert s.flag ==> forall m :: m !in s.locks;
  }

  /** The CPU is never halted with a message waiting. */
  lemma NoLostWakeup(actions: seq<Action>, states: seq<State>, i: nat)
    requires IsRun(actions, states) && i < |states|
    ensures states[i].halted ==> states[i].queue == [] && states[i].flag
  {
    RunInv(actions, states, i);
  }

  /** Messages are handled in the order in which they were accepted; what is not handled yet is in
      hand or waiting. */
  lemma Fifo(actions: seq<Action>, states: seq<State>, i: nat)
    requires IsRun(actions, states) && i < |states|
    ensures var s := states[i];
            s.handled <= s.accepted && s.accepted == s.handled + InHand(s.main) + s.queue
  {
    RunInv(actions, states, i);
  }

  /** A message is dropped only when 4096 are waiting, and no step but a push accepts one. */
  lemma DropsOnlyWhenFull(s: State, a: Action, t: State)
    requires Inv(s) && Step(s, a, t)
    ensures a.Push? && t.accepted == s.accepted <==> a.Push? && |s.queue| == 4096
    ensures a.Push? && |s.queue| < 4096 ==> t.accepted == s.accepted + [s.handler.value.m]
    ensures !a.Push? ==> t.accepted == s.accepted
  {
  }

  /** An interrupt can be taken if and only if the flag is set, whatever the CPU is at; the handler then
      has its message, and the main context and the queue are as before. */
  lemma InterruptPossible(s: State, m: Message)
    requires Inv(s)
    ensures (exists t :: Step(s, Interrupt(m), t)) <==> s.flag
    ensures forall t :: Step(s, Interrupt(m), t) ==>
              t.handler == Some(Entered(m)) && !t.halted && t.main == s.main && t.guards == s.guards && t.queue == s.queue
  {
    if s.flag {
      assert Step(s, Interrupt(m), s.(flag := false, halted := false, handler := Some(Entered(m))));
    }
  }

  /** lock and try_lock can be called, for any mutex, if and only if the main context runs and handles a
      message and its innermost guard, if any, holds its lock. */
  lemma LockPossible(s: State, m: Mutex, once: bool)
    requires Inv(s)
    ensures (exists t :: Step(s, Lock(m, once), t)) <==>
            MainRuns(s) && s.main.Handling? && (s.guards != [] ==> s.guards[|s.guards| - 1].phase == Holding)
    ensures forall t :: Step(s, Lock(m, once), t) ==>
              !t.flag && |t.guards| == |s.guards| + 1 && t.guards[|s.guards|].mutex == m
  {
    if MainRuns(s) && s.main.Handling? && (s.guards != [] ==> s.guards[|s.guards| - 1].phase == Holding) {
      assert Step(s, Lock(m, once), s.(flag := false, guards := s.guards + [Guard(m, s.flag, Waiting, once)]));
    }
  }

  /** A guard that waits gets the spin lock exactly if it is free; a try_lock gives up exactly if it is not. */
  lemma WaitingGuard(s: State)
    requires Inv(s) && MainRuns(s) && s.guards != [] && s.guards[|s.guards| - 1].phase == Waiting
    ensures var g := s.guards[|s.guards| - 1];
            && ((exists t :: Step(s, TakeLock, t)) <==> g.mutex !in s.locks)
            && ((exists t :: Step(s, GiveUp, t)) <==> g.once && g.mutex in s.locks)
  {
    var n := |s.guards| - 1;
    var g := s.guards[n];
    if g.mutex !in s.locks {
      assert Step(s, TakeLock, s.(locks := s.locks + {g.mutex}, guards := s.guards[n := g.(phase := Holding)]));
    } else if g.once {
      assert Step(s, GiveUp, s.(guards := s.guards[..n], flag := s.flag || g.saved));
    }
  }

  /** The messages that interrupts brought. */
  function Arrived(actions: seq<Action>): seq<Message> {
    if actions == [] then []
    else
      var last := actions[|actions| - 1];
      Arrived(actions[..|actions| - 1]) + if last.Interrupt? then [last.m] else []
  }

  /** The message a handler has not pushed yet. */
  function InFlight(h: Option<Handler>): seq<Message> {
    match h
    case Some(Entered(m)) => [m]
    case Some(Guarded(m, _)) => [m]
    case Some(Locked(m, _)) => [m]
    case _ => []
  }

  /** In a run in which no push finds 4096 messages waiting, the messages at the start and those that
      interrupts brought are, in order, the ones handled, in hand, waiting and in flight. */
  lemma {:induction false} Arrivals(actions: seq<Action>, states: seq<State>, i: nat)
    requires IsRun(actions, states) && i < |states|
    requires forall j :: 0 <= j < i && actions[j].Push? ==> |states[j].queue| < 4096
    ensures var s := states[i];
            states[0].queue + Arrived(actions[..i]) == s.handled + InHand(s.main) + s.queue + InFlight(s.handler)
  {
    hide Step, FlagInv, LockInv, LoopInv, Init, InHand, InFlight;
    if i == 0 {
      assert actions[..0] == [];
      NothingYet(states[0]);
    } else {
      Arrivals(actions, states, i - 1);
      RunInv(actions, states, i - 1);
      RunInv(actions, states, i);
      assert actions[..i][..i - 1] == actions[..i - 1];
      ArrivalStep(states[i - 1], actions[i - 1], states[i], states[0].queue + Arrived(actions[..i - 1]));
    }
  }

  lemma NothingYet(s: State)
    requires Init(s)
    ensures s.handled + InHand(s.main) + s.queue + InFlight(s.handler) == s.queue
  {
  }

  lemma ArrivalStep(s: State, a: Action, t: State, all: seq<Message>)
    requires QueueInv(s) && QueueInv(t) && Step(s, a, t) && (a.Push? ==> |s.queue| < 4096)
    requires FlagInv(s) && all == s.accepted + InFlight(s.handler)
    ensures all + (if a.Interrupt? then [a.m] else []) == t.accepted + InFlight(t.handler)
  {
    hide QueueInv, HeldBy;
  }

  /** Dropping a guard sets the flag only if it is the outermost one and the flag was set before. */
  lemma RestoreOutermost(s: State, t: State)
    requires Inv(s) && RestoreStep(s, t)
    ensures t.flag <==> |s.guards| == 1 && BaseFlag(s.main)
  {
  }

  // ---------------------------------------------------------------- progress

  /** The main context spins on a mutex that it holds itself. */
  predicate SelfLocked(s: State) {
    && s.guards != []
    && var g := s.guards[|s.guards| - 1]; g.phase == Waiting && !g.once && g.mutex in s.locks
  }

  /** Code that handles a message gets there exactly by a `lock` of what it holds. */
  lemma SelfLockCause(s: State, a: Action, t: State)
    requires Inv(s) && Step(s, a, t)
    ensures SelfLocked(t) <==> a.Lock? && !a.once && HeldBy(s.guards, a.mutex)
  {
    hide QueueInv;
    if a.Poll? {
      assert forall m :: m !in s.locks;
    }
  }

  /** Some step other than an interrupt is possible if and only if the CPU is not halted and the main
      context does not spin on what it holds. */
  lemma Progress(s: State)
    requires Inv(s)
    ensures (exists a, t :: Step(s, a, t) && !a.Interrupt?) <==> !s.halted && !SelfLocked(s)
  {
    if !s.halted && !SelfLocked(s) {
      var a, t := NextStep(s);
    }
    if SelfLocked(s) {
      NoStep(s);
    }
    if s.halted {
      assert forall a, t :: Step(s, a, t) ==> a.Interrupt?;
    }
  }

  /** Nothing at all can happen, not even an interrupt, if and only if it does. */
  lemma Deadlock(s: State)
    requires Inv(s)
    ensures (forall a, t :: !Step(s, a, t)) <==> SelfLocked(s)
  {
    if SelfLocked(s) {
      NoStep(s);
    } else if s.halted {
      assert Step(s, Interrupt(Timer), s.(flag := false, halted := false, handler := Some(Entered(Timer))));
    } else {
      var a, t := NextStep(s);
    }
  }

  lemma NoStep(s: State)
    requires Inv(s) && SelfLocked(s)
    ensures forall a, t :: !Step(s, a, t)
  {
    hide LockInv, LoopInv, QueueInv;
  }

  lemma NextStep(s: State) returns (a: Action, t: State)
    requires Inv(s) && !s.halted && !SelfLocked(s)
    ensures Step(s, a, t) && !a.Interrupt?
  {
    if s.handler.Some? {
      match s.handler.value
      case Entered(m) =>
        a, t := SaveFlag, s.(flag := false, handler := Some(Guarded(m, s.flag)));
      case Guarded(m, f) =>
        a, t := Acquire, s.(locks := s.locks + {Queue}, handler := Some(Locked(m, f)));
      case Locked(m, f) =>
        a, t := Push, s.(queue := Enqueue(s.queue, m), locks := s.locks - {Queue}, handler := Some(Unlocked(f)),
                         accepted := if |s.queue| < BUFFER_SIZE then s.accepted + [m] else s.accepted);
      case Unlocked(f) =>
        a, t := DropGuard, s.(flag := s.flag || f, handler := Some(Leaving));
      case Leaving =>
        a, t := Return, s.(flag := true, handler := None);
    } else if s.guards == [] {
      a, t := ProgressLoop(s);
    } else {
      a, t := ProgressGuard(s);
    }
  }

  lemma ProgressLoop(s: State) returns (a: Action, t: State)
    requires Inv(s) && MainRuns(s) && s.guards == []
    ensures Step(s, a, t) && !a.Interrupt?
  {
    match s.main
    case Top => a, t := Disable, s.(flag := false, main := Disabled);
    case Disabled => a, t := Poll, s.(main := Polling, guards := [Guard(Queue, s.flag, Waiting, false)], flag := false);
    case Answered(None) => a, t := EnableAndHalt, s.(flag := true, halted := true, main := Top);
    case Answered(Some(m)) => a, t := Enable, s.(flag := true, main := Handling(m));
    case Handling(m) => a, t := Finish, s.(main := Top, handled := s.handled + [m]);
  }

  lemma ProgressGuard(s: State) returns (a: Action, t: State)
    requires Inv(s) && MainRuns(s) && s.guards != [] && !SelfLocked(s)
    ensures Step(s, a, t) && !a.Interrupt?
  {
    var n := |s.guards| - 1;
    var g := s.guards[n];
    match g.phase
    case Waiting =>
      if g.mutex !in s.locks {
        a, t := TakeLock, s.(locks := s.locks + {g.mutex}, guards := s.guards[n := g.(phase := Holding)]);
      } else {
        a, t := GiveUp, s.(guards := s.guards[..n], flag := s.flag || g.saved);
      }
    case Holding =>
      if s.main == Polling {
        a, t := Pop, s.(main := Answered(Front(s.queue)), queue := Rest(s.queue));
      } else {
        a, t := Unlock, s.(locks := s.locks - {g.mutex}, guards := s.guards[n := g.(phase := Released)]);
      }
    case Released =>
      a, t := Restore, s.(guards := s.guards[..n], flag := s.flag || g.saved);
  }

  // ---------------------------------------------------------------- how soon a message is handled

  function MainCost(main: Main): nat {
    match main
    case Top => 9
    case Disabled => 8
    case Polling => 4
    case Answered(_) => 3
    case Handling(_) => 2
  }

  function PhaseCost(p: Phase): nat {
    match p case Waiting => 3 case Holding => 2 case Released => 1
  }

  function GuardCost(g: seq<Guard>): nat {
    if g == [] then 0 else GuardCost(g[..|g| - 1]) + PhaseCost(g[|g| - 1].phase)
  }

  function HandlerCost(h: Option<Handler>): nat {
    match h
    case None => 0
    case Some(Entered(_)) => 5
    case Some(Guarded(_, _)) => 4
    case Some(Locked(_, _)) => 3
    case Some(Unlocked(_)) => 2
    case Some(Leaving) => 1
  }

  /** Bound on the steps to go until message k of those accepted is handled. */
  function Distance(s: State, k: nat): int {
    10 * (k + 1 - |s.handled|) + MainCost(s.main) + GuardCost(s.guards) + HandlerCost(s.handler)
  }

  /** An interrupt costs its own step and five of the handler, a lock its own step and three to take and
      drop it. */
  function Extra(a: Action): nat {
    if a.Interrupt? then 6 else if a.Lock? then 4 else 0
  }

  function Interrupts(actions: seq<Action>): nat {
    if actions == [] then 0
    else Interrupts(actions[..|actions| - 1]) + if actions[|actions| - 1].Interrupt? then 1 else 0
  }

  function Locks(actions: seq<Action>): nat {
    if actions == [] then 0 else Locks(actions[..|actions| - 1]) + if actions[|actions| - 1].Lock? then 1 else 0
  }

  lemma GuardCostSteps(g: seq<Guard>, x: Guard)
    ensures GuardCost(g + [x]) == GuardCost(g) + PhaseCost(x.phase)
  {
    assert (g + [x])[..|g|] == g;
  }

  lemma StepGrows(s: State, a: Action, t: State)
    requires Step(s, a, t)
    ensures s.handled <= t.handled && s.accepted <= t.accepted
  {
  }

  /** While an accepted message is not handled, every step brings it nearer, save for what interrupts and
      further locks add. */
  lemma DistanceStep(s: State, a: Action, t: State, k: nat)
    requires Inv(s) && Step(s, a, t)
    requires |s.handled| <= k < |s.accepted|
    ensures Distance(t, k) + 1 <= Distance(s, k) + Extra(a)
  {
    hide FlagInv, LockInv, GuardCost, HeldBy, Enqueue;
    NoGuards();
    GuardSteps(s, a, t);
  }

  /** What a step makes of the cost of the guards. */
  lemma GuardSteps(s: State, a: Action, t: State)
    requires Step(s, a, t)
    ensures a.Lock? || a.Poll? ==> GuardCost(t.guards) == GuardCost(s.guards) + 3
    ensures a.TakeLock? || a.Unlock? || a.Restore? ==> GuardCost(t.guards) == GuardCost(s.guards) - 1
    ensures a.GiveUp? ==> GuardCost(t.guards) == GuardCost(s.guards) - 3
    ensures a.Lock? || a.Poll? || a.TakeLock? || a.Unlock? || a.Restore? || a.GiveUp? || t.guards == s.guards
  {
    hide GuardCost, HeldBy, Enqueue, Front, Rest;
    if a.Lock? || a.Poll? {
      GuardCostSteps(s.guards, t.guards[|s.guards|]);
      assert t.guards == s.guards + [t.guards[|s.guards|]];
    } else if a.TakeLock? || a.Unlock? {
      TopGuard(s.guards);
      TopGuard(t.guards);
    } else if a.Restore? || a.GiveUp? {
      TopGuard(s.guards);
    }
  }

  lemma TopGuard(g: seq<Guard>)
    requires g != []
    ensures GuardCost(g) == GuardCost(g[..|g| - 1]) + PhaseCost(g[|g| - 1].phase)
  {
  }

  lemma NoGuards()
    ensures GuardCost([]) == 0
  {
  }

  /** A message accepted by state i of a run and not handled by state j: between the two lie at most 10 steps
      for each message up to it, 14 for what is under way, 3 for each guard, 6 for each interrupt and 4 for
      each lock on the way. */
  lemma {:induction false} Reached(actions: seq<Action>, states: seq<State>, i: nat, j: nat, k: nat)
    requires IsRun(actions, states) && i <= j < |states|
    requires k < |states[i].accepted| && |states[j].handled| <= k
    ensures k < |states[j].accepted|
    ensures Distance(states[j], k) + (j - i) <=
            Distance(states[i], k) + 6 * Interrupts(actions[i..j]) + 4 * Locks(actions[i..j])
    ensures |states[i].handled| <= k
    ensures j - i < 10 * (k + 1 - |states[i].handled|) + 14 + 3 * |states[i].guards|
                    + 6 * Interrupts(actions[i..j]) + 4 * Locks(actions[i..j])
    decreases j
  {
    hide Distance, Inv, Step;
    if i < j {
      var s, a, t := states[j - 1], actions[j - 1], states[j];
      StepGrows(s, a, t);
      Reached(actions, states, i, j - 1, k);
      RunInv(actions, states, j - 1);
      DistanceStep(s, a, t, k);
      assert actions[i..j][..j - i - 1] == actions[i..j - 1];
    } else {
      assert actions[i..j] == [];
    }
    DistanceBounds(states[j], k);
    DistanceBounds(states[i], k);
  }

  lemma DistanceBounds(s: State, k: nat)
    requires |s.handled| <= k
    ensures 0 < Distance(s, k) <= 10 * (k + 1 - |s.handled|) + 14 + 3 * |s.guards|
  {
    GuardCostBound(s.guards);
  }

  lemma {:induction false} GuardCostBound(g: seq<Guard>)
    ensures GuardCost(g) <= 3 * |g|
  {
    if g != [] {
      GuardCostBound(g[..|g| - 1]);
    }
  }

  // ---------------------------------------------------------------- the queue itself

  /** intmsg_push on the ring buffer. */
  method IntmsgPush(q: RingBuffer<Message>, m: Message)
    requires q.Valid() && q.buffer.Length == 4096
    modifies q, q.buffer
    ensures q.Valid() && q.Contents() == Enqueue(old(q.Contents()), m)
    ensures q.Contents() == old(q.Contents()) + if |old(q.Contents())| < 4096 then [m] else []
  {
    hide q.Contents;
    var n := q.Len();
    if n < BUFFER_SIZE {
      var ok := q.TryPush(m);
    }
  }
  /** intmsg_pop on the ring buffer. */
  method IntmsgPop(q: RingBuffer<Message>) returns (r: Option<Message>)
    requires q.Valid() && q.buffer.Length == 4096
    modifies q
    ensures q.Valid() && r == Front(old(q.Contents())) && q.Contents() == Rest(old(q.Contents()))
    ensures old(q.Contents()) == (if r.Some? then [r.value] else []) + q.Contents()
    ensures r == None ==> old(q.Contents()) == []
  {
    hide q.Contents;
    r := q.TryPop();
  }
}
