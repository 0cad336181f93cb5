/** core/thread.c as a step system: any number of thread objects with their tasks, the queue of
    exited threads and the scrubber that deletes their tasks. A thread object is an address;
    free gives the address back, so a later alloc may use it again. Each object has one owner,
    who starts it, joins it and frees it. */
module ThreadLife {
  import opened Wrappers

  type Addr = nat

  datatype Life = Stopped | Starting | Running | Stopping

  /** Where the task of a thread is in rhs_thread_body. */
  datatype Task =
    | NoTask
    | Entered       // before the local storage is checked and set
    | Announced     // before the state is checked and set to Running
    | InCallback
    | Returned      // before the state is checked and set to Stopping
    | Putting       // before it puts its address into the queue
    | Suspending
    | Suspended

  /** What the owner has done: nothing is under way, the state is set but the task not yet
      created, or the task was created and no join has returned since. */
  datatype Owner = Settled | Marked | Launched

  datatype Thread = Thread(life: Life, local: Option<Addr>, task: Task, owner: Owner, service: bool)

  datatype Hand =
    | Getting
    | Deleting(a: Addr)   // before vTaskDelete
    | Clearing(a: Addr)   // before the local storage is checked and cleared
    | Marking(a: Addr)    // before the state becomes Stopped

  datatype State = State(threads: map<Addr, Thread>, queue: seq<Addr>, hand: Hand)

  const INITIAL: State := State(map[], [], Getting)

  /** Length of the scrub queue. */
  const CAPACITY: nat := 8

  datatype Step =
    | Alloc(a: Addr, service: bool)
    | Start(a: Addr)
    | Launch(a: Addr)
    | JoinReturns(a: Addr)
    | Free(a: Addr)
    | Announce(a: Addr)
    | Begin(a: Addr)
    | CallbackReturns(a: Addr)
    | Stop(a: Addr)
    | Put(a: Addr)
    | Suspend(a: Addr)
    | Get
    | Delete
    | Clear
    | Mark

  predicate HasTask(s: State, a: Addr, t: Task) {
    a in s.threads && s.threads[a].task == t
  }

  /** The moment of each step, its assertions left out. */
  predicate Reached(s: State, step: Step) {
    match step
    case Alloc(a, _) => a !in s.threads
    case Start(a) => a in s.threads && s.threads[a].owner == Settled
    case Launch(a) => a in s.threads && s.threads[a].owner == Marked
    case JoinReturns(a) => && a in s.threads && s.threads[a].owner == Launched && !s.threads[a].service
                           && s.threads[a].life == Stopped
    case Free(a) => a in s.threads && s.threads[a].owner == Settled && !s.threads[a].service
    case Announce(a) => HasTask(s, a, Entered)
    case Begin(a) => HasTask(s, a, Announced)
    case CallbackReturns(a) => HasTask(s, a, InCallback) && !s.threads[a].service
    case Stop(a) => HasTask(s, a, Returned)
    case Put(a) => HasTask(s, a, Putting) && |s.queue| < CAPACITY
    case Suspend(a) => HasTask(s, a, Suspending)
    case Get => s.hand == Getting && s.queue != []
    case Delete => s.hand.Deleting?
    case Clear => s.hand.Clearing?
    case Mark => s.hand.Marking?
  }

  /** The assertions of the code at that moment; the scrubber also needs its thread to exist. */
  predicate Asserted(s: State, step: Step)
    requires Reached(s, step)
  {
    match step
    case Start(a) => s.threads[a].life == Stopped
    case Announce(a) => s.threads[a].local == None
    case Begin(a) => s.threads[a].life == Starting
    case Stop(a) => s.threads[a].life == Running
    case Delete => s.hand.a in s.threads
    case Clear => s.hand.a in s.threads && s.threads[s.hand.a].local == Some(s.hand.a)
    case Mark => s.hand.a in s.threads
    case _ => true
  }

  predicate Enabled(s: State, step: Step) {
    Reached(s, step) && Asserted(s, step)
  }

  function Write(s: State, a: Addr, th: Thread): State {
    s.(threads := s.threads[a := th])
  }

  /** xTaskCreateStatic leaves the local storage as it finds it. */
  function Apply(s: State, step: Step): State
    requires Enabled(s, step)
  {
    match step
    case Alloc(a, service) => Write(s, a, Thread(Stopped, None, NoTask, Settled, service))
    case Start(a) => Write(s, a, s.threads[a].(life := Starting, owner := Marked))
    case Launch(a) => Write(s, a, s.threads[a].(task := Entered, owner := Launched))
    case JoinReturns(a) => Write(s, a, s.threads[a].(owner := Settled))
    case Free(a) => s.(threads := s.threads - {a})
    case Announce(a) => Write(s, a, s.threads[a].(local := Some(a), task := Announced))
    case Begin(a) => Write(s, a, s.threads[a].(life := Running, task := InCallback))
    case CallbackReturns(a) => Write(s, a, s.threads[a].(task := Returned))
    case Stop(a) => Write(s, a, s.threads[a].(life := Stopping, task := Putting))
    case Put(a) => Write(s, a, s.threads[a].(task := Suspending)).(queue := s.queue + [a])
    case Suspend(a) => Write(s, a, s.threads[a].(task := Suspended))
    case Get => s.(queue := s.queue[1..], hand := Deleting(s.queue[0]))
    case Delete => Write(s, s.hand.a, s.threads[s.hand.a].(task := NoTask)).(hand := Clearing(s.hand.a))
    case Clear => Write(s, s.hand.a, s.threads[s.hand.a].(local := None)).(hand := Marking(s.hand.a))
    case Mark => Write(s, s.hand.a, s.threads[s.hand.a].(life := Stopped)).(hand := Getting)
  }

  /** Where a step leads, if it is possible. */
  function Next(s: State, step: Step): Option<State> {
    if Enabled(s, step) then Some(Apply(s, step)) else None
  }

  // ----- The invariant -----

  predicate InHand(s: State, a: Addr) {
    !s.hand.Getting? && s.hand.a == a
  }

  /** Somebody other than its task still has the thread's address. */
  predicate Named(s: State, a: Addr) {
    a in s.queue || InHand(s, a)
  }

  predicate ThreadOk(s: State, a: Addr)
    requires a in s.threads
  {
    var th := s.threads[a];
    match th.owner
    case Settled => th.life == Stopped && th.task == NoTask && th.local == None && !Named(s, a)
    case Marked => th.life == Starting && th.task == NoTask && th.local == None && !Named(s, a)
    case Launched =>
      match th.task
      case Entered => th.life == Starting && th.local == None && !Named(s, a)
      case Announced => th.life == Starting && th.local == Some(a) && !Named(s, a)
      case InCallback => th.life == Running && th.local == Some(a) && !Named(s, a)
      case Returned => th.life == Running && th.local == Some(a) && !Named(s, a)
      case Putting => th.life == Stopping && th.local == Some(a) && !Named(s, a)
      case Suspending => th.life == Stopping && th.local == Some(a) && (a in s.queue || s.hand == Deleting(a))
      case Suspended => th.life == Stopping && th.local == Some(a) && (a in s.queue || s.hand == Deleting(a))
      case NoTask =>
        || (s.hand == Clearing(a) && a !in s.queue && th.life == Stopping && th.local == Some(a))
        || (s.hand == Marking(a) && a !in s.queue && th.life == Stopping && th.local == None)
        || (!Named(s, a) && th.life == Stopped && th.local == None)
  }

  predicate QueueOk(s: State) {
    && |s.queue| <= CAPACITY
    && (forall i, j :: 0 <= i < j < |s.queue| ==> s.queue[i] != s.queue[j])
    && (forall i :: 0 <= i < |s.queue| ==> s.queue[i] in s.threads && !InHand(s, s.queue[i]))
    && (!s.hand.Getting? ==> s.hand.a in s.threads)
  }

  predicate Inv(s: State) {
    QueueOk(s) && forall a :: a in s.threads ==> ThreadOk(s, a)
  }

  lemma GetKeepsQueue(s: State)
    requires QueueOk(s) && Enabled(s, Get)
    ensures QueueOk(Apply(s, Get))
  {
  }

  lemma PutKeepsQueue(s: State, a: Addr)
    requires QueueOk(s) && Enabled(s, Put(a)) && !Named(s, a)
    ensures QueueOk(Apply(s, Put(a)))
  {
  }

  lemma FreeKeepsQueue(s: State, a: Addr)
    requires QueueOk(s) && Enabled(s, Free(a)) && !Named(s, a)
    ensures QueueOk(Apply(s, Free(a)))
  {
  }

  lemma OtherKeepsQueue(s: State, step: Step)
    requires QueueOk(s) && Enabled(s, step) && !step.Get? && !step.Put? && !step.Free?
    ensures QueueOk(Apply(s, step))
  {
  }

  lemma StepKeepsQueue(s: State, step: Step)
    requires Inv(s) && Enabled(s, step)
    ensures QueueOk(Apply(s, step))
  {
    if step.Put? || step.Free? {
      assert ThreadOk(s, step.a);
    }
    hide QueueOk, Apply, ThreadOk;
    match step
    case Get => GetKeepsQueue(s);
    case Put(a) => PutKeepsQueue(s, a);
    case Free(a) => FreeKeepsQueue(s, a);
    case _ => OtherKeepsQueue(s, step);
  }

  /** The thread a step works on. */
  function Subject(s: State, step: Step): Addr
    requires Reached(s, step)
  {
    match step
    case Get => s.queue[0]
    case Delete => s.hand.a
    case Clear => s.hand.a
    case Mark => s.hand.a
    case _ => step.a
  }

  /** A step leaves every other thread as it was: its fields, and who has its address. */
  lemma OthersUntouched(s: State, step: Step, a: Addr)
    requires Inv(s) && Enabled(s, step) && a in s.threads && a != Subject(s, step)
    ensures var s' := Apply(s, step);
            && a in s'.threads && s'.threads[a] == s.threads[a]
            && (a in s'.queue <==> a in s.queue)
            && (InHand(s', a) <==> InHand(s, a))
            && (InHand(s, a) ==> s'.hand == s.hand)
  {
    hide ThreadOk;
    assert s.queue != [] ==> s.queue == [s.queue[0]] + s.queue[1..];
  }

  lemma OtherKeepsFacts(s: State, step: Step, a: Addr)
    requires Inv(s) && Enabled(s, step) && a in s.threads && a != Subject(s, step)
    ensures a in Apply(s, step).threads && ThreadOk(Apply(s, step), a)
  {
    OthersUntouched(s, step, a);
    assert ThreadOk(s, a);
    hide Apply, Enabled, QueueOk, Inv;
  }

  lemma OwnerStepKeepsFacts(s: State, step: Step)
    requires Inv(s) && Enabled(s, step)
    requires step.Alloc? || step.Start? || step.Launch? || step.JoinReturns?
    ensures step.a in Apply(s, step).threads && ThreadOk(Apply(s, step), step.a)
  {
  }

  lemma TaskStepKeepsFacts(s: State, step: Step)
    requires Inv(s) && Enabled(s, step)
    requires step.Announce? || step.Begin? || step.CallbackReturns? || step.Stop? || step.Put? || step.Suspend?
    ensures step.a in Apply(s, step).threads && ThreadOk(Apply(s, step), step.a)
  {
  }

  lemma ScrubStepKeepsFacts(s: State, step: Step)
    requires Inv(s) && Enabled(s, step)
    requires step.Get? || step.Delete? || step.Clear? || step.Mark?
    ensures var a := Subject(s, step);
            a in Apply(s, step).threads && ThreadOk(Apply(s, step), a)
  {
    assert ThreadOk(s, Subject(s, step));
  }

  lemma StepKeepsThread(s: State, step: Step, a: Addr)
    requires Inv(s) && Enabled(s, step) && a in Apply(s, step).threads
    ensures ThreadOk(Apply(s, step), a)
  {
    if a != Subject(s, step) {
      assert a in s.threads;
      OtherKeepsFacts(s, step, a);
    } else if step.Get? || step.Delete? || step.Clear? || step.Mark? {
      ScrubStepKeepsFacts(s, step);
    } else if step.Alloc? || step.Start? || step.Launch? || step.JoinReturns? {
      OwnerStepKeepsFacts(s, step);
    } else if !step.Free? {
      TaskStepKeepsFacts(s, step);
    }
    hide ThreadOk, QueueOk, Inv;
  }

  lemma StepKeepsInv(s: State, step: Step)
    requires Inv(s) && Enabled(s, step)
    ensures Inv(Apply(s, step))
  {
    StepKeepsQueue(s, step);
    hide Apply, Enabled, ThreadOk, QueueOk;
    forall a | a in Apply(s, step).threads
      ensures ThreadOk(Apply(s, step), a)
    {
      StepKeepsThread(s, step, a);
    }
  }
}
