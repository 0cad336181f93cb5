/** What holds after any run of the thread life cycle. */
module ThreadRuns {
  import opened Wrappers
  import opened ThreadLife
  import Runs

  ghost predicate Reachable(s: State) {
    Runs.Reachable(Next, INITIAL, s)
  }

  lemma ReachableInv(s: State)
    requires Reachable(s)
    ensures Inv(s)
  {
    assert Inv(INITIAL);
    hide Inv, Apply, Enabled;
    forall s, step | Inv(s) && Next(s, step).Some?
      ensures Inv(Next(s, step).value)
    {
      StepKeepsInv(s, step);
    }
    assert Runs.Inductive(Next, Inv);
    Runs.ReachableKeeps(Next, Inv, INITIAL, s);
  }

  lemma InvAsserts(s: State, step: Step)
    requires Inv(s) && Reached(s, step)
    ensures Asserted(s, step)
  {
    var a := Subject(s, step);
    if a in s.threads {
      assert ThreadOk(s, a);
    }
  }

  /** No assertion of start, of the body or of the scrubber ever fails, and the scrubber
      never works on a thread that was freed. */
  lemma AssertionsHold(s: State, step: Step)
    requires Reachable(s) && Reached(s, step)
    ensures Asserted(s, step)
  {
    ReachableInv(s);
    InvAsserts(s, step);
  }

  function NextLife(l: Life): Life {
    match l
    case Stopped => Starting
    case Starting => Running
    case Running => Stopping
    case Stopping => Stopped
  }

  /** As long as a thread exists its state goes round the cycle, one place at a time. */
  lemma LifeGoesRound(s: State, step: Step, a: Addr)
    requires Reachable(s) && Enabled(s, step) && a in s.threads && a in Apply(s, step).threads
    ensures var l, l' := s.threads[a].life, Apply(s, step).threads[a].life;
            l' == l || l' == NextLife(l)
  {
    ReachableInv(s);
    if a == Subject(s, step) {
      assert ThreadOk(s, a);
    }
  }

  /** A thread is at most once in the queue or in the scrubber's hand, and only while Stopping.
      Every Stopping thread is there, unless it has yet to put itself into the queue. */
  lemma NamedOnce(s: State, a: Addr)
    requires Reachable(s)
    ensures forall i, j :: 0 <= i < |s.queue| && 0 <= j < |s.queue| && s.queue[i] == a && s.queue[j] == a ==> i == j
    ensures !(a in s.queue && InHand(s, a))
    ensures Named(s, a) ==> a in s.threads && s.threads[a].life == Stopping
    ensures a in s.threads && s.threads[a].life == Stopping ==> Named(s, a) || s.threads[a].task == Putting
    ensures |s.queue| <= CAPACITY
  {
    ReachableInv(s);
    hide ThreadOk;
    if a in s.threads {
      NamedWhileStopping(s, a);
    }
  }

  lemma NamedWhileStopping(s: State, a: Addr)
    requires Inv(s) && a in s.threads
    ensures Named(s, a) ==> s.threads[a].life == Stopping
    ensures s.threads[a].life == Stopping ==> Named(s, a) || s.threads[a].task == Putting
  {
    assert ThreadOk(s, a);
    hide QueueOk;
  }

  /** When join returns, and until the next start, the task is deleted, its local storage is
      cleared and neither the queue nor the scrubber names the thread: free cannot leave a
      dangling address behind, and start finds the thread Stopped. */
  lemma JoinedIsQuiet(s: State, a: Addr)
    requires Reachable(s) && a in s.threads
    requires s.threads[a].owner == Settled || Enabled(s, JoinReturns(a))
    ensures var th := s.threads[a];
            && th.life == Stopped && th.task == NoTask && th.local == None
            && !Named(s, a)
  {
    ReachableInv(s);
    assert ThreadOk(s, a);
  }

  // ----- How long the scrubber takes -----

  function Index(q: seq<Addr>, a: Addr): (i: nat)
    requires a in q
    ensures i < |q| && q[i] == a
  {
    if q[0] == a then 0 else 1 + Index(q[1..], a)
  }

  lemma {:induction false} IndexAppend(q: seq<Addr>, b: Addr, a: Addr)
    requires a in q
    ensures a in q + [b] && Index(q + [b], a) == Index(q, a)
  {
    if q[0] != a {
      IndexAppend(q[1..], b, a);
      assert (q + [b])[1..] == q[1..] + [b];
    }
  }

  function HandLeft(h: Hand): nat {
    match h
    case Getting => 0
    case Deleting(_) => 3
    case Clearing(_) => 2
    case Marking(_) => 1
  }

  /** The number of steps the scrubber takes until the thread is Stopped. */
  function ScrubsLeft(s: State, a: Addr): (n: nat)
    requires Named(s, a) && |s.queue| <= CAPACITY
    ensures 0 < n <= 35
  {
    if InHand(s, a) then HandLeft(s.hand) else HandLeft(s.hand) + 4 * (Index(s.queue, a) + 1)
  }

  predicate IsScrub(step: Step) {
    step.Get? || step.Delete? || step.Clear? || step.Mark?
  }

  function NextScrub(s: State): Step {
    match s.hand
    case Getting => Get
    case Deleting(_) => Delete
    case Clearing(_) => Clear
    case Marking(_) => Mark
  }

  /** While a thread is queued or in its hand the scrubber is never stuck, and only
      that one step is its next. */
  lemma ScrubberRuns(s: State, a: Addr, step: Step)
    requires Reachable(s) && Named(s, a)
    ensures Enabled(s, NextScrub(s))
    ensures IsScrub(step) && Enabled(s, step) ==> step == NextScrub(s)
  {
    AssertionsHold(s, NextScrub(s));
  }

  lemma GetCountsDown(s: State, a: Addr)
    requires Inv(s) && Enabled(s, Get) && a in s.queue
    ensures var s' := Apply(s, Get);
            |s'.queue| <= CAPACITY && Named(s', a) && ScrubsLeft(s', a) == ScrubsLeft(s, a) - 1
  {
    var q := s.queue;
    assert q == [q[0]] + q[1..];
    hide ThreadOk;
    if q[0] == a {
      assert Index(q, a) == 0;
    }
  }

  /** The steps of owners and tasks leave the scrubber's work on a thread as it is. */
  lemma OthersDoNotDelay(s: State, step: Step, a: Addr)
    requires Inv(s) && Enabled(s, step) && Named(s, a) && !IsScrub(step)
    ensures var s' := Apply(s, step);
            |s'.queue| <= CAPACITY && Named(s', a) && ScrubsLeft(s', a) == ScrubsLeft(s, a)
  {
    if step.Put? && a in s.queue {
      IndexAppend(s.queue, step.a, a);
    }
    hide ThreadOk, Index;
  }

  /** Every step of the scrubber brings an exited thread one closer to Stopped, no other step
      pushes it back: at most 35 steps of the scrubber after it entered the queue it is Stopped. */
  lemma ScrubCountsDown(s: State, step: Step, a: Addr)
    requires Reachable(s) && Enabled(s, step) && Named(s, a)
    ensures |s.queue| <= CAPACITY && |Apply(s, step).queue| <= CAPACITY
    ensures var s' := Apply(s, step);
            if !IsScrub(step) then Named(s', a) && ScrubsLeft(s', a) == ScrubsLeft(s, a)
            else if ScrubsLeft(s, a) > 1 then Named(s', a) && ScrubsLeft(s', a) == ScrubsLeft(s, a) - 1
            else !Named(s', a) && a in s'.threads && s'.threads[a].life == Stopped
  {
    ReachableInv(s);
    if !IsScrub(step) {
      hide ThreadOk, Index, QueueOk, Apply, Enabled;
      OthersDoNotDelay(s, step, a);
    } else {
      hide ThreadOk, Index;
      if step.Get? {
        GetCountsDown(s, a);
      }
    }
  }
}
