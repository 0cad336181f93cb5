/** What holds after any run of timers, free calls and the timer daemon. */
module TimerRuns {
  import opened TimerTeardown
  import opened Wrappers
  import Runs

  ghost predicate Reachable(s: State) {
    Runs.Reachable(Next, Initial(s.capacity), s)
  }

  lemma ReachableInv(s: State)
    requires Reachable(s)
    ensures Inv(s)
  {
    var initial := Initial(s.capacity);
    assert Inv(initial);
    hide Inv, Apply, Enabled;
    forall s, step | Inv(s) && Next(s, step).Some?
      ensures Inv(Next(s, step).value)
    {
      StepKeepsInv(s, step);
    }
    assert Runs.Inductive(Next, Inv);
    Runs.ReachableKeeps(Next, Inv, initial, s);
  }

  /** The daemon has nothing to do with the timer any more: it is not active, its callback does
      not run, no queued command names it, and the epilogue is done with its event group. */
  predicate LetGo(s: State, a: Addr) {
    && (a in s.timers ==> !s.timers[a].active)
    && s.daemon != Callback(a)
    && (forall c :: c in s.queue ==> c.a != a)
    && !(InEpilogue(s.daemon) && s.daemon.a == a)
  }

  /** When the wait in rhs_timer_free has returned, and from then on until an alloc returns the
      same address, the daemon has let go of the timer and of the event group. */
  lemma WaitMeansLetGo(s: State, a: Addr)
    requires Reachable(s) && (a in s.timers ==> s.timers[a].stage == Passed)
    ensures LetGo(s, a)
  {
    ReachableInv(s);
    assert TimerOk(s, a);
    forall c | c in s.queue
      ensures c.a != a
    {
      MineContains(s.queue, c);
    }
    hide Mine;
  }

  /** No step of the daemon works on a timer or an event group that was freed. */
  lemma NothingDangles(s: State, step: Step)
    requires Reachable(s) && Reached(s, step)
    ensures Exists(s, step)
  {
    ReachableInv(s);
    InvExists(s, step);
  }

  // ----- The wait ends -----

  /** The daemon waits for what only the daemon can do: its callback puts a command into the full
      queue, or is in the middle of freeing a timer and waits for the epilogue. */
  predicate Halted(s: State) {
    match s.call
    case NoCall => false
    case InPut => !HasRoom(s)
    case InFree(b) => At(s, b, Waiting(false)) || !HasRoom(s)
  }

  /** The steps the daemon takes, those of its callback included. */
  predicate OfDaemon(s: State, step: Step) {
    match step
    case Process(_) => true
    case CallbackFrees(_) => true
    case CallbackBlocks => true
    case CallbackUnblocks => true
    case CallbackEnds => true
    case SuspendAll => true
    case SetBits => true
    case SetDone => true
    case ResumeAll => true
    case QueuePend(b) => s.call == InFree(b)
    case WaitPasses(b) => s.call == InFree(b)
    case Release(b) => s.call == InFree(b)
    case _ => false
  }

  function NextOfDaemon(s: State): Step {
    match s.daemon
    case Ready => Process(false)
    case Callback(_) =>
      (match s.call
       case NoCall => CallbackEnds
       case InPut => CallbackUnblocks
       case InFree(b) => QueuePend(b))
    case EpilogueEntered(_) => SuspendAll
    case EpilogueSuspended(_) => SetBits
    case EpilogueSetting(_) => SetDone
    case EpilogueDone(_) => ResumeAll
  }

  /** While a free call waits for its event, and whenever the daemon is at work, in a callback for
      one, the daemon has a next step exactly when it is not halted by its own callback. */
  lemma DaemonRunsIff(s: State, a: Addr)
    requires Reachable(s) && (At(s, a, Waiting(false)) || s.daemon != Ready)
    ensures (exists step :: OfDaemon(s, step) && Enabled(s, step)) <==> !Halted(s)
  {
    ReachableInv(s);
    assert TimerOk(s, a);
    if !Halted(s) {
      var step := NextOfDaemon(s);
      if s.queue == [] {
        assert Mine(s.queue, a) == [];
      }
      NothingDangles(s, step);
      assert OfDaemon(s, step) && Enabled(s, step);
    }
  }

  /** The two things callbacks must not do. */
  predicate CallbackWaits(step: Step) {
    step.CallbackFrees? || step.CallbackBlocks?
  }

  /** As long as no callback frees a timer or sends into the full queue, the daemon never halts. */
  lemma {:induction false} NeverHalts(s: State, steps: seq<Step>, end: State)
    requires s.call == NoCall && Runs.Run(Next, s, steps, end)
    requires forall i :: 0 <= i < |steps| ==> !CallbackWaits(steps[i])
    ensures end.call == NoCall && !Halted(end)
    decreases |steps|
  {
    if steps != [] {
      assert !CallbackWaits(steps[0]);
      assert Apply(s, steps[0]).call == NoCall;
      NeverHalts(Apply(s, steps[0]), steps[1..], end);
    }
  }

  lemma InFreeStep(s: State, step: Step)
    requires Inv(s) && s.call.InFree? && Enabled(s, step)
    ensures Apply(s, step).call == s.call && Apply(s, step).daemon == s.daemon
  {
    hide TimerOk, Mine;
  }

  /** A callback that frees a timer never returns, and a state of it in which the daemon has no step
      left is one in which it is halted. */
  lemma {:induction false} FreeInCallbackNeverReturns(s: State, steps: seq<Step>, end: State)
    requires Reachable(s) && s.call.InFree? && Runs.Run(Next, s, steps, end)
    ensures end.call == s.call && end.daemon == s.daemon && end.daemon.Callback?
    ensures (exists step :: OfDaemon(end, step) && Enabled(end, step)) <==> !Halted(end)
    decreases |steps|
  {
    ReachableInv(s);
    if steps == [] {
      DaemonRunsIff(s, s.call.a);
    } else {
      InFreeStep(s, steps[0]);
      ReachedBy(s, steps[0]);
      hide Inv, Halted, Enabled, Apply, OfDaemon;
      FreeInCallbackNeverReturns(Apply(s, steps[0]), steps[1..], end);
    }
  }

  lemma HaltedStep(s: State, step: Step)
    requires Inv(s) && Halted(s) && Enabled(s, step)
    ensures var s' := Apply(s, step);
            && Halted(s') && s'.daemon == s.daemon && s'.call == s.call
            && forall a :: At(s, a, Waiting(false)) ==> At(s', a, Waiting(false))
  {
    hide TimerOk, Mine;
  }

  /** A halted daemon stays halted, and every free call that waits then waits for good. */
  lemma {:induction false} HaltedForever(s: State, steps: seq<Step>, end: State)
    requires Inv(s) && Halted(s) && Runs.Run(Next, s, steps, end)
    ensures Halted(end) && end.daemon == s.daemon && end.call == s.call
    ensures forall a :: At(s, a, Waiting(false)) ==> At(end, a, Waiting(false))
    decreases |steps|
  {
    hide Inv, Halted, Enabled, Apply, At;
    if steps != [] {
      HaltedStep(s, steps[0]);
      StepKeepsInv(s, steps[0]);
      HaltedForever(Apply(s, steps[0]), steps[1..], end);
    }
  }

  lemma ReachedBy(s: State, step: Step)
    requires Reachable(s) && Enabled(s, step)
    ensures Reachable(Apply(s, step))
  {
    var steps :| Runs.Run(Next, Initial(s.capacity), steps, s);
    Runs.RunThen(Next, Initial(s.capacity), steps, s, step, Apply(s, step));
    hide Enabled;
    assert Apply(s, step).capacity == s.capacity;
  }

  /** A callback runs, whatever the queue length. */
  lemma CallbackReached(capacity: nat, a: Addr) returns (s: State)
    requires capacity > 0
    ensures Reachable(s) && s.capacity == capacity && s.queue == []
    ensures s.daemon == Callback(a) && s.call == NoCall && At(s, a, Live)
  {
    s := Initial(capacity);
    assert Runs.Run(Next, s, [], s);
    ReachedBy(s, Alloc(a, true));
    s := Apply(s, Alloc(a, true));
    ReachedBy(s, Send(ChangePeriod(a)));
    s := Apply(s, Send(ChangePeriod(a)));
    ReachedBy(s, Process(false));
    s := Apply(s, Process(false));
    ReachedBy(s, Expire(a));
    s := Apply(s, Expire(a));
  }

  /** A callback that frees its own timer halts the daemon. */
  lemma FreeInCallbackHalts(capacity: nat, a: Addr) returns (s: State)
    requires capacity > 1
    ensures Reachable(s) && s.capacity == capacity && Halted(s)
    ensures s.daemon == Callback(a) && s.call == InFree(a) && At(s, a, Waiting(false))
  {
    s := CallbackReached(capacity, a);
    ReachedBy(s, CallbackFrees(a));
    s := Apply(s, CallbackFrees(a));
    ReachedBy(s, QueuePend(a));
    s := Apply(s, QueuePend(a));
  }

  lemma {:induction false} QueueFills(s: State, a: Addr, n: nat) returns (s': State)
    requires Reachable(s) && !SchedulerSuspended(s.daemon) && At(s, a, Live) && |s.queue| + n == s.capacity
    ensures Reachable(s') && |s'.queue| == s'.capacity == s.capacity
    ensures s'.daemon == s.daemon && s'.call == s.call && At(s', a, Live)
    decreases n
  {
    s' := s;
    if n > 0 {
      ReachedBy(s, Send(Reset(a)));
      s' := QueueFills(Apply(s, Send(Reset(a))), a, n - 1);
    }
  }

  /** So does a callback that sends a command when others have filled the queue. */
  lemma PutInCallbackHalts(capacity: nat, a: Addr) returns (s: State)
    requires capacity > 0
    ensures Reachable(s) && s.capacity == capacity && Halted(s)
    ensures s.daemon == Callback(a) && s.call == InPut
  {
    s := CallbackReached(capacity, a);
    s := QueueFills(s, a, capacity);
    ReachedBy(s, CallbackBlocks);
    s := Apply(s, CallbackBlocks);
  }

  /** How many commands are ahead of the epilogue of a. */
  function Ahead(q: seq<Command>, a: Addr): nat {
    if q == [] || q[0] == Pend(a) then 0 else 1 + Ahead(q[1..], a)
  }

  lemma {:induction false} AheadAppend(q: seq<Command>, c: Command, a: Addr)
    requires Pend(a) in q
    ensures Ahead(q + [c], a) == Ahead(q, a)
  {
    assert (q + [c])[0] == q[0];
    if q[0] != Pend(a) {
      AheadAppend(q[1..], c, a);
      assert (q + [c])[1..] == q[1..] + [c];
    }
  }

  /** Every command the daemon takes brings the epilogue of a waiting free call one place nearer,
      nothing that others send comes before it. */
  lemma EpilogueComesNearer(s: State, step: Step, a: Addr)
    requires Reachable(s) && Enabled(s, step) && Pend(a) in s.queue
    ensures var s' := Apply(s, step);
            if step.Process? && s.queue[0] == Pend(a) then s'.daemon == EpilogueEntered(a)
            else Pend(a) in s'.queue && Ahead(s'.queue, a) == Ahead(s.queue, a) - if step.Process? then 1 else 0
  {
    match step
    case Send(c) => AheadAppend(s.queue, c, a);
    case QueueDelete(b) => AheadAppend(s.queue, Delete(b), a);
    case QueuePend(b) => AheadAppend(s.queue, Pend(b), a);
    case CallbackFrees(b) => AheadAppend(s.queue, Delete(b), a);
    case Process(_) => assert s.queue == [s.queue[0]] + s.queue[1..];
    case _ =>
  }
}
