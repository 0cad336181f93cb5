/** core/thread.c on the heap: thread objects whose fields the owner, the task and the scrubber
    assign, and the queue between them. Each method is a stretch of code one party runs; its
    contract says which steps of ThreadLife it is. */
module ThreadKernel {
  import opened Wrappers
  import opened ThreadLife
  import opened ThreadRuns
  import opened Runs

  class Control {
    var life: Life
    var local: Option<Addr>
    var task: Task
    ghost var owner: Owner
    const service: bool

    constructor (service: bool)
      ensures Value() == Thread(Stopped, None, NoTask, Settled, service)
    {
      life, local, task, owner := Stopped, None, NoTask, Settled;
      this.service := service;
    }

    ghost function Value(): Thread
      reads this
    {
      Thread(life, local, task, owner, service)
    }
  }

  class Kernel {
    var threads: map<Addr, Control>
    var queue: seq<Addr>
    ghost var hand: Hand

    ghost predicate Valid()
      reads this
    {
      forall a, b :: a in threads && b in threads && a != b ==> threads[a] != threads[b]
    }

    ghost function Cells(): (m: map<Addr, Thread>)
      reads this, threads.Values
      ensures m.Keys == threads.Keys
    {
      map a | a in threads :: threads[a].Value()
    }

    ghost function Contents(): State
      reads this, threads.Values
    {
      State(Cells(), queue, hand)
    }

    /** Writing one object changes the thread at one address. */
    twostate lemma OneWritten(a: Addr)
      requires old(Valid()) && threads == old(threads) && a in threads
      requires forall b :: b in threads && b != a ==> unchanged(threads[b])
      ensures Cells() == old(Cells())[a := threads[a].Value()]
    {
    }

    constructor ()
      ensures Valid() && Contents() == INITIAL
    {
      threads, queue, hand := map[], [], Getting;
    }

    method Alloc(a: Addr, service: bool) returns (c: Control)
      requires Valid() && a !in threads
      modifies this
      ensures Valid() && a in threads && threads[a] == c && fresh(c)
      ensures Contents() == Apply(old(Contents()), Step.Alloc(a, service))
    {
      c := new Control(service);
      threads := threads[a := c];
    }

    method Free(a: Addr)
      requires Valid() && Enabled(Contents(), Step.Free(a))
      modifies this
      ensures Valid() && Contents() == Apply(old(Contents()), Step.Free(a))
    {
      threads := threads - {a};
    }

    // The single assignments, each one step.

    method SetLife(a: Addr, step: Step, life: Life)
      requires (step.Start? && life == Starting) || (step.Begin? && life == Running) || (step.Stop? && life == Stopping)
      requires Valid() && Enabled(Contents(), step) && step.a == a
      modifies threads.Values
      ensures threads == old(threads) && Contents() == Apply(old(Contents()), step)
    {
      var c := threads[a];
      c.life := life;
      if life == Starting {
        c.owner := Marked;
      } else {
        c.task := if life == Running then InCallback else Putting;
      }
      OneWritten(a);
    }

    method CreateTask(a: Addr)
      requires Valid() && Enabled(Contents(), Launch(a))
      modifies threads.Values
      ensures threads == old(threads) && Contents() == Apply(old(Contents()), Launch(a))
    {
      var c := threads[a];
      c.task := Entered;
      c.owner := Launched;
      OneWritten(a);
    }

    method SetLocal(a: Addr)
      requires Valid() && Enabled(Contents(), Announce(a))
      modifies threads.Values
      ensures threads == old(threads) && Contents() == Apply(old(Contents()), Announce(a))
    {
      var c := threads[a];
      c.local := Some(a);
      c.task := Announced;
      OneWritten(a);
    }

    method QueuePut(a: Addr)
      requires Valid() && Enabled(Contents(), Put(a))
      modifies this, threads.Values
      ensures Valid() && threads == old(threads) && Contents() == Apply(old(Contents()), Put(a))
    {
      queue := queue + [a];
      var c := threads[a];
      c.task := Suspending;
      OneWritten(a);
    }

    method QueueGet() returns (a: Addr)
      requires Valid() && Enabled(Contents(), Get)
      modifies this
      ensures Valid() && threads == old(threads) && Contents() == Apply(old(Contents()), Get)
      ensures hand == Deleting(a)
    {
      a := queue[0];
      queue := queue[1..];
      hand := Deleting(a);
    }

    method DeleteTask(a: Addr)
      requires Valid() && hand == Deleting(a) && Enabled(Contents(), Delete)
      modifies this, threads.Values
      ensures Valid() && threads == old(threads) && Contents() == Apply(old(Contents()), Delete) && hand == Clearing(a)
    {
      var c := threads[a];
      c.task := NoTask;
      hand := Clearing(a);
      OneWritten(a);
    }

    method ClearLocal(a: Addr)
      requires Valid() && hand == Clearing(a) && Enabled(Contents(), Clear)
      modifies this, threads.Values
      ensures Valid() && threads == old(threads) && Contents() == Apply(old(Contents()), Clear) && hand == Marking(a)
    {
      var c := threads[a];
      c.local := None;
      hand := Marking(a);
      OneWritten(a);
    }

    method SetStopped(a: Addr)
      requires Valid() && hand == Marking(a) && Enabled(Contents(), Mark)
      modifies this, threads.Values
      ensures Valid() && threads == old(threads) && Contents() == Apply(old(Contents()), Mark)
    {
      var c := threads[a];
      c.life := Stopped;
      hand := Getting;
      OneWritten(a);
    }

    // What each party runs in one go, if nobody comes in between.

    /** rhs_thread_start */
    method Start(a: Addr)
      requires Valid() && Inv(Contents()) && Reached(Contents(), Step.Start(a))
      modifies this, threads.Values
      ensures Valid() && threads == old(threads)
      ensures Run(Next, old(Contents()), [Step.Start(a), Launch(a)], Contents())
    {
      ghost var s := Contents();
      Begins(s, Step.Start(a));
      SetLife(a, Step.Start(a), Starting);
      ghost var s1 := Contents();
      CreateTask(a);
      hide *;
      RunOfTwo(Next, s, Step.Start(a), s1, Launch(a), Contents());
    }

    /** One look of the loop in rhs_thread_join. */
    method JoinLook(a: Addr) returns (done: bool)
      requires Valid() && a in threads && threads[a].owner == Launched && !threads[a].service
      modifies this, threads.Values
      ensures Valid() && threads == old(threads)
      ensures done == Reached(old(Contents()), JoinReturns(a))
      ensures if done then Contents() == Apply(old(Contents()), JoinReturns(a)) else Contents() == old(Contents())
    {
      var c := threads[a];
      done := c.life == Stopped;
      if done {
        c.owner := Settled;
      }
      OneWritten(a);
    }

    /** rhs_thread_body up to the callback. */
    method BodyEnter(a: Addr)
      requires Valid() && Inv(Contents()) && Reached(Contents(), Announce(a))
      modifies this, threads.Values
      ensures Valid() && threads == old(threads)
      ensures Run(Next, old(Contents()), [Announce(a), Begin(a)], Contents())
    {
      ghost var s := Contents();
      Begins(s, Announce(a));
      SetLocal(a);
      ghost var s1 := Contents();
      Continues(s, Announce(a), Begin(a));
      SetLife(a, Begin(a), Running);
      hide *;
      RunOfTwo(Next, s, Announce(a), s1, Begin(a), Contents());
    }

    /** rhs_thread_body after the callback, with room in the queue. */
    method BodyExit(a: Addr)
      requires Valid() && Inv(Contents()) && Reached(Contents(), Stop(a)) && |queue| < CAPACITY
      modifies this, threads.Values
      ensures Valid() && threads == old(threads)
      ensures Run(Next, old(Contents()), [Stop(a), Put(a)], Contents())
    {
      ghost var s := Contents();
      Begins(s, Stop(a));
      SetLife(a, Stop(a), Stopping);
      ghost var s1 := Contents();
      Continues(s, Stop(a), Put(a));
      QueuePut(a);
      hide *;
      RunOfTwo(Next, s, Stop(a), s1, Put(a), Contents());
    }

    /** One round of rhs_thread_scrub, with a thread in the queue. */
    method ScrubOne()
      requires Valid() && Inv(Contents()) && Reached(Contents(), Get)
      modifies this, threads.Values
      ensures Valid() && threads == old(threads)
      ensures Run(Next, old(Contents()), [Get, Delete, Clear, Mark], Contents())
    {
      hide Contents, Cells, Inv, Reached, Apply, Enabled, Run;
      ScrubRound(Contents());
      var a := QueueGet();
      DeleteTask(a);
      ClearLocal(a);
      SetStopped(a);
    }
  }

  lemma ScrubRound(s: State)
    requires Inv(s) && Reached(s, Get)
    ensures Enabled(s, Get)
    ensures var s1 := Apply(s, Get);
            && Enabled(s1, Delete)
            && var s2 := Apply(s1, Delete);
            && Enabled(s2, Clear)
            && var s3 := Apply(s2, Clear);
            && Enabled(s3, Mark)
            && Run(Next, s, [Get, Delete, Clear, Mark], Apply(s3, Mark))
  {
    Begins(s, Get);
    var s1 := Apply(s, Get);
    Continues(s, Get, Delete);
    var s2 := Apply(s1, Delete);
    Continues(s1, Delete, Clear);
    var s3 := Apply(s2, Clear);
    Continues(s2, Clear, Mark);
    hide *;
    RunOfTwo(Next, s, Get, s1, Delete, s2);
    RunThen(Next, s, [Get, Delete], s2, Clear, s3);
    RunThen(Next, s, [Get, Delete] + [Clear], s3, Mark, Apply(s3, Mark));
    assert [Get, Delete] + [Clear] + [Mark] == [Get, Delete, Clear, Mark];
  }

  lemma Begins(s: State, step: Step)
    requires Inv(s) && Reached(s, step)
    ensures Enabled(s, step)
  {
    InvAsserts(s, step);
  }

  /** After the first step the second one's assertions hold, and so does the invariant. */
  lemma Continues(s: State, step1: Step, step2: Step)
    requires Inv(s) && Enabled(s, step1) && Reached(Apply(s, step1), step2)
    ensures Inv(Apply(s, step1)) && Enabled(Apply(s, step1), step2)
  {
    StepKeepsInv(s, step1);
    InvAsserts(Apply(s, step1), step2);
  }
}
