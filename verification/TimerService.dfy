/** core/timer.c on the heap: timer objects and the command queue, updated in place. Each method
    is what one caller, or the epilogue in the daemon, runs if nobody comes in between; its
    contract says which steps of TimerTeardown it is. */
module TimerService {
  import opened TimerTeardown
  import opened Runs

  datatype Status = Ok | ErrorResource

  /** The first step of a free call, made by a task or by the running callback. */
  function Freeing(a: Addr, own: bool): Step {
    if own then CallbackFrees(a) else QueueDelete(a)
  }

  class Instance {
    var active: bool
    const periodic: bool
    var stage: Stage

    constructor (periodic: bool)
      ensures Value() == Timer(false, periodic, Live)
    {
      active, stage, this.periodic := false, Live, periodic;
    }

    ghost function Value(): Timer
      reads this
    {
      Timer(active, periodic, stage)
    }
  }

  class Service {
    var timers: map<Addr, Instance>
    var queue: seq<Command>
    const capacity: nat
    var daemon: Daemon
    ghost var call: Call

    ghost predicate Valid()
      reads this
    {
      forall a, b :: a in timers && b in timers && a != b ==> timers[a] != timers[b]
    }

    ghost function Cells(): (m: map<Addr, Timer>)
      reads this, timers.Values
      ensures m.Keys == timers.Keys
    {
      map a | a in timers :: timers[a].Value()
    }

    ghost function Contents(): State
      reads this, timers.Values
    {
      State(Cells(), queue, capacity, daemon, call)
    }

    /** Writing one object changes the timer at one address. */
    twostate lemma OneWritten(a: Addr)
      requires old(Valid()) && timers == old(timers) && a in timers
      requires forall b :: b in timers && b != a ==> unchanged(timers[b])
      ensures Cells() == old(Cells())[a := timers[a].Value()]
    {
    }

    constructor (capacity: nat)
      ensures Valid() && Contents() == Initial(capacity)
    {
      timers, queue, daemon, call := map[], [], Ready, NoCall;
      this.capacity := capacity;
    }

    /** rhs_timer_alloc */
    method Allocate(a: Addr, periodic: bool) returns (t: Instance)
      requires Valid() && Enabled(Contents(), Alloc(a, periodic))
      modifies this
      ensures Valid() && a in timers && timers[a] == t && fresh(t)
      ensures Contents() == Apply(old(Contents()), Alloc(a, periodic))
    {
      t := new Instance(periodic);
      timers := timers[a := t];
    }

    /** A command of start, restart or stop; it may not get through. */
    method Post(c: Command) returns (passed: bool)
      requires Valid() && Enabled(Contents(), Send(c))
      modifies this
      ensures Valid() && timers == old(timers)
      ensures Contents() == if passed then Apply(old(Contents()), Send(c)) else old(Contents())
    {
      passed := *;
      if passed {
        queue := queue + [c];
      }
    }

    /** rhs_timer_start */
    method Start(a: Addr) returns (status: Status)
      requires Valid() && Enabled(Contents(), Send(ChangePeriod(a)))
      modifies this
      ensures Valid() && timers == old(timers)
      ensures Contents() == if status == Ok then Apply(old(Contents()), Send(ChangePeriod(a))) else old(Contents())
    {
      var passed := Post(ChangePeriod(a));
      status := if passed then Ok else ErrorResource;
    }

    /** rhs_timer_restart: a refused period stops it, a refused reset leaves the new period queued. */
    method Restart(a: Addr) returns (status: Status)
      requires Valid() && Enabled(Contents(), Send(ChangePeriod(a))) && |queue| + 1 < capacity
      modifies this
      ensures Valid() && timers == old(timers)
      ensures var s, period, reset := old(Contents()), Send(ChangePeriod(a)), Send(Reset(a));
              if status == Ok then Run(Next, s, [period, reset], Contents())
              else Contents() == s || Contents() == Apply(s, period)
    {
      ghost var s := Contents();
      var passed := Post(ChangePeriod(a));
      if passed {
        ghost var s1 := Contents();
        passed := Post(Reset(a));
        if passed {
          hide *;
          RunOfTwo(Next, s, Send(ChangePeriod(a)), s1, Send(Reset(a)), Contents());
        }
      }
      status := if passed then Ok else ErrorResource;
    }

    /** rhs_timer_stop, whose assertion wants the command to get through. */
    method Stop(a: Addr) returns (passed: bool)
      requires Valid() && Enabled(Contents(), Send(Halt(a)))
      modifies this
      ensures Valid() && timers == old(timers)
      ensures Contents() == if passed then Apply(old(Contents()), Send(Halt(a))) else old(Contents())
    {
      passed := Post(Halt(a));
    }

    method SendDelete(a: Addr, ghost own: bool)
      requires Valid() && Enabled(Contents(), Freeing(a, own))
      modifies this, timers.Values
      ensures Valid() && timers == old(timers) && queue == old(queue) + [Delete(a)]
      ensures Contents() == Apply(old(Contents()), Freeing(a, own))
      ensures HasRoom(Contents()) ==> Enabled(Contents(), QueuePend(a))
    {
      var t := timers[a];
      t.stage := DeleteQueued;
      queue := queue + [Delete(a)];
      call := if own then InFree(a) else call;
      OneWritten(a);
    }

    method SendPend(a: Addr)
      requires Valid() && Enabled(Contents(), QueuePend(a))
      modifies this, timers.Values
      ensures Valid() && timers == old(timers) && Contents() == Apply(old(Contents()), QueuePend(a))
    {
      var t := timers[a];
      t.stage := Waiting(false);
      queue := queue + [Pend(a)];
      OneWritten(a);
    }

    /** rhs_timer_free until it waits, from a task or from a timer's callback. */
    method FreeBegin(a: Addr, ghost own: bool)
      requires Valid() && Enabled(Contents(), Freeing(a, own)) && |queue| + 1 < capacity
      modifies this, timers.Values
      ensures Valid() && timers == old(timers)
      ensures Run(Next, old(Contents()), [Freeing(a, own), QueuePend(a)], Contents())
    {
      ghost var s := Contents();
      SendDelete(a, own);
      ghost var s1 := Contents();
      SendPend(a);
      hide *;
      RunOfTwo(Next, s, Freeing(a, own), s1, QueuePend(a), Contents());
    }

    method PassWait(a: Addr)
      requires Valid() && Enabled(Contents(), WaitPasses(a))
      modifies this, timers.Values
      ensures Valid() && timers == old(timers) && Contents() == Apply(old(Contents()), WaitPasses(a))
      ensures Enabled(Contents(), Release(a))
    {
      var t := timers[a];
      t.stage := Passed;
      OneWritten(a);
    }

    method Deallocate(a: Addr)
      requires Valid() && Enabled(Contents(), Release(a))
      modifies this
      ensures Valid() && Contents() == Apply(old(Contents()), Release(a))
    {
      timers := timers - {a};
      call := if call == InFree(a) then NoCall else call;
    }

    /** rhs_timer_free after the event: it may delete the group and the instance. */
    method FreeEnd(a: Addr)
      requires Valid() && Enabled(Contents(), WaitPasses(a))
      modifies this, timers.Values
      ensures Valid()
      ensures Run(Next, old(Contents()), [WaitPasses(a), Release(a)], Contents())
    {
      hide Run, Enabled, Apply, Contents;
      ghost var s := Contents();
      PassWait(a);
      ghost var s1 := Contents();
      Deallocate(a);
      RunOfTwo(Next, s, WaitPasses(a), s1, Release(a), Contents());
    }

    /** xEventGroupSetBits on the group of the free call of timer a. */
    method SetDeletedBit(a: Addr)
      requires Valid() && daemon == EpilogueSuspended(a) && Enabled(Contents(), SetBits)
      modifies this, timers.Values
      ensures Valid() && timers == old(timers)
      ensures Run(Next, old(Contents()), [SetBits, SetDone], Contents())
      ensures daemon == EpilogueDone(a)
    {
      ghost var s := Contents();
      var t := timers[a];
      t.stage := Waiting(true);
      daemon := EpilogueSetting(a);
      OneWritten(a);
      ghost var s1 := Contents();
      assert s1 == Apply(s, SetBits);
      daemon := EpilogueDone(a);
      assert Contents() == Apply(s1, SetDone);
      hide *;
      RunOfTwo(Next, s, SetBits, s1, SetDone, Contents());
    }

    method SuspendScheduler(a: Addr)
      requires Valid() && daemon == EpilogueEntered(a) && At(Contents(), a, Waiting(false))
      modifies this
      ensures Valid() && timers == old(timers)
      ensures daemon == EpilogueSuspended(a)
      ensures Enabled(old(Contents()), SuspendAll) && Contents() == Apply(old(Contents()), SuspendAll)
      ensures Enabled(Contents(), SetBits)
    {
      daemon := EpilogueSuspended(a);
    }

    method ResumeScheduler(a: Addr)
      requires Valid() && daemon == EpilogueDone(a)
      modifies this
      ensures Valid() && timers == old(timers)
      ensures Enabled(old(Contents()), ResumeAll) && Contents() == Apply(old(Contents()), ResumeAll)
    {
      daemon := Ready;
    }

    /** rhs_timer_epilogue */
    method Epilogue(a: Addr)
      requires Valid() && daemon == EpilogueEntered(a) && At(Contents(), a, Waiting(false))
      modifies this, timers.Values
      ensures Valid() && timers == old(timers)
      ensures Run(Next, old(Contents()), [SuspendAll, SetBits, SetDone, ResumeAll], Contents())
    {
      hide Run, Enabled, Apply, Contents, At;
      ghost var s := Contents();
      SuspendScheduler(a);
      ghost var s1 := Contents();
      SetDeletedBit(a);
      ghost var s3 := Contents();
      ResumeScheduler(a);
      RunAround(Next, s, SuspendAll, s1, [SetBits, SetDone], s3, ResumeAll, Contents());
      assert [SuspendAll] + [SetBits, SetDone] + [ResumeAll] == [SuspendAll, SetBits, SetDone, ResumeAll];
    }
  }
}
