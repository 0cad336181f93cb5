/** core/timer.c as a step system: timers, the command queue of the timer daemon, the daemon
    itself, and the calls of rhs_timer_free, of which there may be any number at once. The queue
    is first-in first-out and bounded; while the daemon has suspended the scheduler no other task
    runs. A timer callback runs on the daemon and may itself send commands or free a timer.
    Nobody sends a command for a timer once its free call has queued the delete command. */
module TimerTeardown {
  import opened Wrappers

  type Addr = nat

  datatype Command =
    | ChangePeriod(a: Addr)
    | Reset(a: Addr)
    | Halt(a: Addr)
    | Delete(a: Addr)
    | Pend(a: Addr)     // rhs_timer_epilogue with the event group of the free call of timer a

  /** Where rhs_timer_free is; `bit` is TIMER_DELETED_EVENT in its event group. */
  datatype Stage =
    | Live              // not called, or the delete command not yet queued
    | DeleteQueued
    | Waiting(bit: bool)
    | Passed            // the wait returned: the group and the timer may be freed

  datatype Timer = Timer(active: bool, periodic: bool, stage: Stage)

  datatype Daemon =
    | Ready
    | Callback(a: Addr)
    | EpilogueEntered(a: Addr)    // before vTaskSuspendAll
    | EpilogueSuspended(a: Addr)  // before xEventGroupSetBits
    | EpilogueSetting(a: Addr)    // the bit is set, xEventGroupSetBits still works on the group
    | EpilogueDone(a: Addr)       // before xTaskResumeAll

  /** What a running callback has called: nothing, a put into the full queue, or a free. */
  datatype Call = NoCall | InPut | InFree(a: Addr)

  datatype State = State(timers: map<Addr, Timer>, queue: seq<Command>, capacity: nat, daemon: Daemon, call: Call)

  function Initial(capacity: nat): State {
    State(map[], [], capacity, Ready, NoCall)
  }

  datatype Step =
    | Alloc(a: Addr, periodic: bool)
    | Send(c: Command)
    | QueueDelete(a: Addr)
    | QueuePend(a: Addr)
    | WaitPasses(a: Addr)
    | Release(a: Addr)
    | Expire(a: Addr)
    | Process(late: bool)       // late: a reset command finds the timer already expired
    | CallbackFrees(a: Addr)
    | CallbackBlocks
    | CallbackUnblocks
    | CallbackEnds
    | SuspendAll
    | SetBits
    | SetDone
    | ResumeAll

  predicate InEpilogue(d: Daemon) {
    d.EpilogueEntered? || d.EpilogueSuspended? || d.EpilogueSetting? || d.EpilogueDone?
  }

  /** Only the daemon runs. */
  predicate SchedulerSuspended(d: Daemon) {
    d.EpilogueSuspended? || d.EpilogueSetting? || d.EpilogueDone?
  }

  predicate At(s: State, a: Addr, stage: Stage) {
    a in s.timers && s.timers[a].stage == stage
  }

  predicate HasRoom(s: State) {
    |s.queue| < s.capacity
  }

  /** The moment of each step. */
  predicate Reached(s: State, step: Step) {
    match step
    case Alloc(a, _) => !SchedulerSuspended(s.daemon) && a !in s.timers
    case Send(c) => !SchedulerSuspended(s.daemon) && HasRoom(s) && !c.Delete? && !c.Pend? && At(s, c.a, Live)
    case QueueDelete(a) => !SchedulerSuspended(s.daemon) && HasRoom(s) && At(s, a, Live)
    case QueuePend(a) => !SchedulerSuspended(s.daemon) && HasRoom(s) && At(s, a, DeleteQueued)
    case WaitPasses(a) => !SchedulerSuspended(s.daemon) && At(s, a, Waiting(true))
    case Release(a) => !SchedulerSuspended(s.daemon) && At(s, a, Passed)
    case Expire(a) => s.daemon == Ready && a in s.timers && s.timers[a].active
    case Process(late) => s.daemon == Ready && s.queue != [] && (late ==> s.queue[0].Reset?)
    case CallbackFrees(a) => s.daemon.Callback? && s.call == NoCall && HasRoom(s) && At(s, a, Live)
    case CallbackBlocks => s.daemon.Callback? && s.call == NoCall && !HasRoom(s)
    case CallbackUnblocks => s.daemon.Callback? && s.call == InPut && HasRoom(s)
    case CallbackEnds => s.daemon.Callback? && s.call == NoCall
    case SuspendAll => s.daemon.EpilogueEntered?
    case SetBits => s.daemon.EpilogueSuspended?
    case SetDone => s.daemon.EpilogueSetting?
    case ResumeAll => s.daemon.EpilogueDone?
  }

  /** The timer, or the event group, that the daemon works on at that moment still exists. */
  predicate Exists(s: State, step: Step)
    requires Reached(s, step)
  {
    match step
    case Process(_) => s.queue[0].a in s.timers && (s.queue[0].Pend? ==> s.timers[s.queue[0].a].stage.Waiting?)
    case CallbackEnds => s.daemon.a in s.timers
    case SetBits => s.daemon.a in s.timers && s.timers[s.daemon.a].stage.Waiting?
    case SetDone => s.daemon.a in s.timers && s.timers[s.daemon.a].stage.Waiting?
    case _ => true
  }

  predicate Enabled(s: State, step: Step) {
    Reached(s, step) && Exists(s, step)
  }

  function Write(s: State, a: Addr, t: Timer): State {
    s.(timers := s.timers[a := t])
  }

  function SetStage(s: State, a: Addr, stage: Stage): State
    requires a in s.timers
  {
    Write(s, a, s.timers[a].(stage := stage))
  }

  function SetActive(s: State, a: Addr, active: bool): State
    requires a in s.timers
  {
    Write(s, a, s.timers[a].(active := active))
  }

  /** An expired one-shot timer is no longer active while its callback runs. */
  function Expired(s: State, a: Addr): State
    requires a in s.timers
  {
    SetActive(s, a, s.timers[a].periodic).(daemon := Callback(a))
  }

  function Processed(s: State, late: bool): State
    requires Enabled(s, Process(late))
  {
    var s1 := s.(queue := s.queue[1..]);
    match s.queue[0]
    case ChangePeriod(a) => SetActive(s1, a, true)
    case Reset(a) => if late then Expired(s1, a) else SetActive(s1, a, true)
    case Halt(a) => SetActive(s1, a, false)
    case Delete(a) => SetActive(s1, a, false)
    case Pend(a) => s1.(daemon := EpilogueEntered(a))
  }

  function Apply(s: State, step: Step): State
    requires Enabled(s, step)
  {
    match step
    case Alloc(a, periodic) => Write(s, a, Timer(false, periodic, Live))
    case Send(c) => s.(queue := s.queue + [c])
    case QueueDelete(a) => SetStage(s, a, DeleteQueued).(queue := s.queue + [Delete(a)])
    case QueuePend(a) => SetStage(s, a, Waiting(false)).(queue := s.queue + [Pend(a)])
    case WaitPasses(a) => SetStage(s, a, Passed)
    case Release(a) => s.(timers := s.timers - {a}, call := if s.call == InFree(a) then NoCall else s.call)
    case Expire(a) => Expired(s, a)
    case Process(late) => Processed(s, late)
    case CallbackFrees(a) => SetStage(s, a, DeleteQueued).(queue := s.queue + [Delete(a)], call := InFree(a))
    case CallbackBlocks => s.(call := InPut)
    case CallbackUnblocks => s.(call := NoCall)
    case CallbackEnds => s.(daemon := Ready)
    case SuspendAll => s.(daemon := EpilogueSuspended(s.daemon.a))
    case SetBits => SetStage(s, s.daemon.a, Waiting(true)).(daemon := EpilogueSetting(s.daemon.a))
    case SetDone => s.(daemon := EpilogueDone(s.daemon.a))
    case ResumeAll => s.(daemon := Ready)
  }

  /** Where a step leads, if it is possible. */
  function Next(s: State, step: Step): Option<State> {
    if Enabled(s, step) then Some(Apply(s, step)) else None
  }

  // ----- The commands of one timer -----

  /** The queued commands that name a, in order. */
  function Mine(q: seq<Command>, a: Addr): seq<Command> {
    if q == [] then [] else (if q[0].a == a then [q[0]] else []) + Mine(q[1..], a)
  }

  lemma {:induction false} MineAppend(q: seq<Command>, c: Command, a: Addr)
    ensures Mine(q + [c], a) == Mine(q, a) + if c.a == a then [c] else []
  {
    assert (q + [c])[0] == if q == [] then c else q[0];
    if q == [] {
      assert q + [c] == [c] && [c][1..] == [];
    } else {
      var head := if q[0].a == a then [q[0]] else [];
      var last := if c.a == a then [c] else [];
      MineAppend(q[1..], c, a);
      assert (q + [c])[1..] == q[1..] + [c];
      assert head + (Mine(q[1..], a) + last) == (head + Mine(q[1..], a)) + last;
    }
  }

  lemma {:induction false} MineContains(q: seq<Command>, c: Command)
    ensures c in q <==> c in Mine(q, c.a)
  {
    if q != [] {
      MineContains(q[1..], c);
      assert q == [q[0]] + q[1..];
    }
  }

  // ----- The invariant -----

  predicate Epilogue(d: Daemon, a: Addr) {
    InEpilogue(d) && d.a == a
  }

  /** Neither active nor in its callback. */
  predicate Still(s: State, a: Addr) {
    s.daemon != Callback(a) && (a in s.timers ==> !s.timers[a].active)
  }

  predicate Plain(m: seq<Command>) {
    forall i :: 0 <= i < |m| ==> !m[i].Delete? && !m[i].Pend?
  }

  /** The delete command is the last of the timer's commands, or it has been carried out. */
  predicate Deleted(s: State, a: Addr, m: seq<Command>) {
    if m == [] then Still(s, a) else m[|m| - 1].Delete? && Plain(m[..|m| - 1])
  }

  predicate TimerOk(s: State, a: Addr) {
    var m := Mine(s.queue, a);
    if a !in s.timers then m == [] && Still(s, a) && !Epilogue(s.daemon, a)
    else match s.timers[a].stage
      case Live => Plain(m) && !Epilogue(s.daemon, a)
      case DeleteQueued => Deleted(s, a, m) && !Epilogue(s.daemon, a)
      case Waiting(bit) =>
        if bit then m == [] && Still(s, a) && (Epilogue(s.daemon, a) ==> s.daemon.EpilogueSetting? || s.daemon.EpilogueDone?)
        else if m == [] then Still(s, a) && (s.daemon == EpilogueEntered(a) || s.daemon == EpilogueSuspended(a))
        else m[|m| - 1].Pend? && Deleted(s, a, m[..|m| - 1]) && !Epilogue(s.daemon, a)
      case Passed => m == [] && Still(s, a) && !Epilogue(s.daemon, a)
  }

  /** Only a callback calls, and a free it has begun is not over. */
  predicate CallOk(s: State) {
    && (s.call != NoCall ==> s.daemon.Callback?)
    && (s.call.InFree? ==> At(s, s.call.a, DeleteQueued) || At(s, s.call.a, Waiting(false)))
  }

  ghost predicate Inv(s: State) {
    CallOk(s) && forall a :: TimerOk(s, a)
  }

  /** The timer a step works on. */
  function Subject(s: State, step: Step): Addr
    requires Reached(s, step)
  {
    match step
    case Send(c) => c.a
    case Process(_) => s.queue[0].a
    case CallbackBlocks => s.daemon.a
    case CallbackUnblocks => s.daemon.a
    case CallbackEnds => s.daemon.a
    case SuspendAll => s.daemon.a
    case SetBits => s.daemon.a
    case SetDone => s.daemon.a
    case ResumeAll => s.daemon.a
    case _ => step.a
  }

  /** What the daemon needs is there. */
  lemma InvExists(s: State, step: Step)
    requires Inv(s) && Reached(s, step)
    ensures Exists(s, step)
  {
    assert TimerOk(s, Subject(s, step));
    if step.Process? {
      MineContains(s.queue, s.queue[0]);
    }
  }

  lemma OtherCommandsUntouched(s: State, step: Step, a: Addr)
    requires Enabled(s, step) && a != Subject(s, step)
    ensures Mine(Apply(s, step).queue, a) == Mine(s.queue, a)
  {
    match step
    case Send(c) => MineAppend(s.queue, c, a);
    case QueueDelete(b) => MineAppend(s.queue, Delete(b), a);
    case QueuePend(b) => MineAppend(s.queue, Pend(b), a);
    case CallbackFrees(b) => MineAppend(s.queue, Delete(b), a);
    case _ =>
  }

  /** A step leaves every other timer, and the daemon's work on it, as they were. */
  lemma OthersUntouched(s: State, step: Step, a: Addr)
    requires Enabled(s, step) && a != Subject(s, step)
    ensures var s' := Apply(s, step);
            && (a in s'.timers <==> a in s.timers) && (a in s.timers ==> s'.timers[a] == s.timers[a])
            && (s'.daemon == s.daemon || (s.daemon != Callback(a) && !Epilogue(s.daemon, a)
                                          && s'.daemon != Callback(a) && !Epilogue(s'.daemon, a)))
  {
  }

  lemma OtherKeeps(s: State, step: Step, a: Addr)
    requires TimerOk(s, a) && Enabled(s, step) && a != Subject(s, step)
    ensures TimerOk(Apply(s, step), a)
  {
    OtherCommandsUntouched(s, step, a);
    OthersUntouched(s, step, a);
    hide Apply, Enabled, Mine, Subject;
  }

  lemma SendKeeps(s: State, step: Step)
    requires Enabled(s, step) && (step.Send? || step.QueueDelete? || step.QueuePend? || step.CallbackFrees?)
    requires TimerOk(s, Subject(s, step))
    ensures TimerOk(Apply(s, step), Subject(s, step))
  {
    var a := Subject(s, step);
    var c := match step case Send(c) => c case QueuePend(b) => Pend(b) case _ => Delete(a);
    var m := Mine(s.queue, a);
    MineAppend(s.queue, c, a);
    assert (m + [c])[..|m|] == m;
    hide Mine;
  }

  lemma CallerKeeps(s: State, step: Step)
    requires Enabled(s, step) && (step.Alloc? || step.WaitPasses? || step.Release? || step.Expire?)
    requires TimerOk(s, step.a)
    ensures TimerOk(Apply(s, step), step.a)
  {
    hide Mine;
  }

  lemma ProcessKeeps(s: State, late: bool)
    requires Enabled(s, Process(late)) && TimerOk(s, s.queue[0].a)
    ensures TimerOk(Apply(s, Process(late)), s.queue[0].a)
  {
    var a, c := s.queue[0].a, s.queue[0];
    var m := Mine(s.queue[1..], a);
    assert Mine(s.queue, a) == [c] + m;
    hide Mine;
    PatternTail(c, m);
  }

  /** The patterns of TimerOk, read from the first command on. */
  lemma PatternTail(c: Command, m: seq<Command>)
    ensures Plain([c] + m) <==> !c.Delete? && !c.Pend? && Plain(m)
    ensures m != [] ==> ([c] + m)[..|m|] == [c] + m[..|m| - 1]
    ensures m != [] ==> (Plain(([c] + m)[..|m|]) <==> !c.Delete? && !c.Pend? && Plain(m[..|m| - 1]))
    ensures |m| > 1 ==> (Plain(([c] + m)[..|m|][..|m| - 1]) <==> !c.Delete? && !c.Pend? && Plain(m[..|m| - 1][..|m| - 2]))
  {
    PlainCons(c, m);
    if m != [] {
      var front := m[..|m| - 1];
      assert ([c] + m)[..|m|] == [c] + front;
      PlainCons(c, front);
      if |m| > 1 {
        assert ([c] + front)[..|m| - 1] == [c] + front[..|m| - 2];
        PlainCons(c, front[..|m| - 2]);
      }
    }
  }

  lemma PlainCons(c: Command, m: seq<Command>)
    ensures Plain([c] + m) <==> !c.Delete? && !c.Pend? && Plain(m)
  {
    var cm := [c] + m;
    assert cm[0] == c && forall i :: 0 <= i < |m| ==> m[i] == cm[i + 1];
  }

  lemma DaemonKeeps(s: State, step: Step)
    requires Enabled(s, step) && !step.Process? && s.daemon != Ready && Subject(s, step) == s.daemon.a
    requires step.CallbackBlocks? || step.CallbackUnblocks? || step.CallbackEnds? || step.SuspendAll? || step.SetBits? || step.SetDone?
             || step.ResumeAll?
    requires TimerOk(s, s.daemon.a)
    ensures TimerOk(Apply(s, step), s.daemon.a)
  {
    hide Mine;
  }

  lemma StepKeepsCall(s: State, step: Step)
    requires Inv(s) && Enabled(s, step)
    ensures CallOk(Apply(s, step))
  {
    hide Mine, TimerOk;
  }

  lemma StepKeepsInv(s: State, step: Step)
    requires Inv(s) && Enabled(s, step)
    ensures Inv(Apply(s, step))
  {
    StepKeepsCall(s, step);
    hide Apply, TimerOk, Mine, Exists, CallOk;
    forall a
      ensures TimerOk(Apply(s, step), a)
    {
      if a != Subject(s, step) {
        OtherKeeps(s, step, a);
      } else if step.Send? || step.QueueDelete? || step.QueuePend? || step.CallbackFrees? {
        SendKeeps(s, step);
      } else if step.Process? {
        ProcessKeeps(s, step.late);
      } else if step.Alloc? || step.WaitPasses? || step.Release? || step.Expire? {
        CallerKeeps(s, step);
      } else {
        DaemonKeeps(s, step);
      }
    }
  }
}
