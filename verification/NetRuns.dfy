/** What holds after any run of the network worker and its callers. */
module NetRuns {
  import opened NetListeners
  import opened NetEffects
  import opened NetProtocol
  import opened Wrappers
  import Runs

  ghost predicate Reachable(u: Urls, n: Net, s: State) {
    Runs.Reachable(Next(u), Initial(n), s)
  }

  lemma ReachableInv(u: Urls, n: Net, s: State)
    requires Reachable(u, n, s)
    ensures Inv(u, n, s)
  {
    var inv := s => Inv(u, n, s);
    assert inv(Initial(n));
    hide Inv, Apply, Enabled;
    forall s, step | inv(s) && Next(u)(s, step).Some?
      ensures inv(Next(u)(s, step).value)
    {
      StepKeepsInv(u, n, s, step);
    }
    assert Runs.Inductive(Next(u), inv);
    Runs.ReachableKeeps(Next(u), inv, Initial(n), s);
  }

  /** The message the worker has taken and not finished, and the queued ones. */
  function Pending(s: State): seq<Message> {
    (if s.worker.Unlocking? then [s.worker.m] else InHand(s.worker)) + s.queue
  }

  lemma PendingIsUnfinished(s: State)
    requires Conserved(s)
    ensures 0 <= Finished(s) && |Pending(s)| == |s.sent| - Finished(s)
    ensures forall i :: 0 <= i < |Pending(s)| ==> Pending(s)[i] == s.sent[Finished(s) + i]
  {
    HandInHistory(s);
  }

  predicate Blocked(s: State, c: nat) {
    IsClient(s, c) && s.clients[c].Waiting? && !s.clients[c].unlocked
  }

  /** A caller that is blocked on its lock is named by exactly one pending message, its own; the
      others are named by none. So the lock and the uri it lent live as long as the message. */
  lemma BlockedIsNamedOnce(u: Urls, n: Net, s: State, c: nat)
    requires Reachable(u, n, s) && IsClient(s, c)
    ensures if Blocked(s, c)
            then exists i :: 0 <= i < |Pending(s)| && Pending(s)[i] == Message(Of(c), s.clients[c].body)
                             && forall j :: 0 <= j < |Pending(s)| && j != i ==> Pending(s)[j].lock != Of(c)
            else forall j :: 0 <= j < |Pending(s)| ==> Pending(s)[j].lock != Of(c)
  {
    ReachableInv(u, n, s);
    assert ClientOk(s, c);
    PendingIsUnfinished(s);
    hide Conserved, LocksKnown, Due, Pending, Inv, Finished, Reachable;
    var client, f := s.clients[c], Finished(s);
    if Blocked(s, c) {
      assert Pending(s)[client.k - f] == s.sent[f + (client.k - f)];
    }
  }

  /** The worker only unlocks a lock somebody still waits for. */
  lemma UnlocksTheWaiting(u: Urls, n: Net, s: State, step: Step)
    requires Reachable(u, n, s) && Reached(u, s, step)
    ensures LockAlive(s, step)
  {
    ReachableInv(u, n, s);
    hide Due;
    HandInHistory(s);
    if step.Unlock? && s.worker.m.lock.Of? {
      assert ClientOk(s, s.worker.m.lock.c);
    }
  }

  /** A blocked call returns only after its own message was handled, as the k-th of all; what
      the worker holds then is the effect of the handled messages in the order they were put. */
  lemma ReturnsAfterEffect(u: Urls, n: Net, s: State, c: nat)
    requires Reachable(u, n, s) && Enabled(u, s, Return(c))
    ensures var client := s.clients[c];
            client.k < |s.handled| && s.handled[client.k] == Message(Of(c), client.body)
    ensures s.handled <= s.sent && s.net == Due(u, n, s.handled, Half(s.worker))
  {
    ReachableInv(u, n, s);
    assert ClientOk(s, c);
    hide Due;
  }

  /** No message is lost, repeated or overtaken. Between messages the worker holds the effect of
      the handled ones, in the middle of one the first part of its effect as well. */
  lemma HistoryConserved(u: Urls, n: Net, s: State)
    requires Reachable(u, n, s)
    ensures s.sent == s.handled + InHand(s.worker) + s.queue
    ensures Half(s.worker) == None ==> s.net == Fold(u, n, Bodies(s.handled))
    ensures Half(s.worker).Some? ==>
              s.net == Begun(u, Fold(u, n, Bodies(s.handled)), Half(s.worker).value.body)
  {
    ReachableInv(u, n, s);
    hide Fold;
  }

  /** When the last restart was followed by registrations only, the open endpoints are the
      registered listeners, in their order, whenever no message is half done. */
  lemma OpenAfterRestart(u: Urls, n: Net, s: State, k: nat)
    requires Reachable(u, n, s) && k < |s.handled| && s.handled[k].body.Restart? && Half(s.worker) == None
    requires forall i :: k < i < |s.handled| ==> s.handled[i].body.Set?
    ensures s.net.open == s.net.listeners
  {
    HistoryConserved(u, n, s);
    var bs := Bodies(s.handled);
    assert bs[k] == s.handled[k].body && forall i :: k < i < |bs| ==> bs[i] == s.handled[i].body;
    hide Fold, Bodies, Reachable;
    SplitAt(bs, k);
    RestartRestores(u, n, bs[..k], bs[k].config, bs[k + 1..]);
  }

  /** The addresses are those of the last restart that was handled, or that is half done; before
      the first one they are what the worker started with. */
  lemma AddressesOfLastRestart(u: Urls, n: Net, s: State, k: nat)
    requires Reachable(u, n, s) && k < |s.handled| && s.handled[k].body.Restart?
    requires forall i :: k < i < |s.handled| ==> !s.handled[i].body.Restart?
    requires Half(s.worker).Some? ==> !Half(s.worker).value.body.Restart?
    ensures Configures(s.handled[k].body.config, Fold(u, n, Bodies(s.handled)[..k]).ifp, s.net.ifp)
  {
    HistoryConserved(u, n, s);
    var bs := Bodies(s.handled);
    assert bs[k] == s.handled[k].body && forall i :: k < i < |bs| ==> bs[i] == s.handled[i].body;
    hide Fold, Bodies, Reachable, Configures;
    SplitAt(bs, k);
    AddressesAfterRestart(u, n, bs[..k], bs[k].config, bs[k + 1..]);
    HalfKeepsAddresses(u, n, s);
  }

  lemma HalfKeepsAddresses(u: Urls, n: Net, s: State)
    requires Reachable(u, n, s) && (Half(s.worker).Some? ==> !Half(s.worker).value.body.Restart?)
    ensures s.net.ifp == Fold(u, n, Bodies(s.handled)).ifp
  {
    HistoryConserved(u, n, s);
    hide Fold, Bodies, Reachable;
    if Half(s.worker).Some? {
      OthersKeepAddresses(u, Fold(u, n, Bodies(s.handled)), Half(s.worker).value.body);
    }
  }

  lemma AddressesOfHalfRestart(u: Urls, n: Net, s: State)
    requires Reachable(u, n, s) && Half(s.worker).Some? && Half(s.worker).value.body.Restart?
    ensures Configures(Half(s.worker).value.body.config, Fold(u, n, Bodies(s.handled)).ifp, s.net.ifp)
  {
    HistoryConserved(u, n, s);
    hide Fold, Bodies, Reachable, Configures;
    RestartConfigures(u, Fold(u, n, Bodies(s.handled)), Half(s.worker).value.body.config);
  }

  lemma AddressesBeforeRestart(u: Urls, n: Net, s: State)
    requires Reachable(u, n, s) && (Half(s.worker).Some? ==> !Half(s.worker).value.body.Restart?)
    requires forall i :: 0 <= i < |s.handled| ==> !s.handled[i].body.Restart?
    ensures s.net.ifp == n.ifp
  {
    HalfKeepsAddresses(u, n, s);
    AddressesKept(u, n, [], Bodies(s.handled));
    assert [] + Bodies(s.handled) == Bodies(s.handled);
    assert Fold(u, n, []) == n;
    hide Fold, Bodies, Reachable;
  }

  /** The registrations handled last are the last entries of the list and of the open endpoints, once
      each and in the order in which they were put. */
  lemma RegistrationsInOrder(u: Urls, n: Net, s: State, k: nat)
    requires Reachable(u, n, s) && k <= |s.handled| && Half(s.worker) == None
    requires forall i :: k <= i < |s.handled| ==> s.handled[i].body.Set?
    ensures var was, es := Fold(u, n, Bodies(s.handled)[..k]), Entries(Bodies(s.handled)[k..]);
            s.net.listeners == was.listeners + es && s.net.open == was.open + es
  {
    HistoryConserved(u, n, s);
    var bs := Bodies(s.handled);
    hide Fold, Reachable;
    RegistrationsAppend(u, n, bs[..k], bs[k..]);
    assert bs[..k] + bs[k..] == bs;
  }

  lemma SplitAt(bs: seq<Body>, k: nat)
    requires k < |bs|
    ensures bs == bs[..k] + [bs[k]] + bs[k + 1..]
  {
  }

  // ----- How long a caller is blocked -----

  /** The steps of the worker that deal with a message. */
  predicate OnMessage(step: Step) {
    step.Take? || step.Handle? || step.Begin? || step.Complete? || step.Unlock?
  }

  predicate OfWorker(step: Step) {
    OnMessage(step) || step.WorkerCall? || step.WorkerPut?
  }

  /** Such steps for one message: it is taken, handled in one or two parts, and unlocked. */
  function Cost(u: Urls, b: Body): nat {
    if b.Stop? then 2 else if Polls(u, b) then 4 else 3
  }

  function TotalCost(u: Urls, ms: seq<Message>): nat {
    if ms == [] then 0 else Cost(u, ms[0].body) + TotalCost(u, ms[1..])
  }

  /** Those left for the message at hand. */
  function Left(u: Urls, w: Worker): nat {
    if w.Handling? then Cost(u, w.m.body) - 1
    else if Half(w).Some? then 2
    else if w.Unlocking? then 1
    else 0
  }

  /** How many queued messages come before the end of the k-th message put. */
  function QueuedUpTo(s: State, k: nat): nat {
    var taken := |s.handled| + |InHand(s.worker)|;
    if k < taken then 0 else k + 1 - taken
  }

  /** The worker's message steps until the k-th message put is done and unlocked. */
  function StepsLeft(u: Urls, s: State, k: nat): nat
    requires Conserved(s) && k < |s.sent|
  {
    Left(u, s.worker) + TotalCost(u, s.queue[..QueuedUpTo(s, k)])
  }

  lemma {:induction false} TotalCostBound(u: Urls, ms: seq<Message>)
    ensures 2 * |ms| <= TotalCost(u, ms) <= 4 * |ms|
  {
    if ms != [] {
      TotalCostBound(u, ms[1..]);
    }
  }

  lemma PutDelaysNobody(u: Urls, s: State, step: Step, k: nat)
    requires Conserved(s) && Enabled(u, s, step) && !OnMessage(step) && k < |s.sent|
    requires Conserved(Apply(u, s, step))
    ensures k < |Apply(u, s, step).sent| && StepsLeft(u, Apply(u, s, step), k) == StepsLeft(u, s, k)
  {
    var s' := Apply(u, s, step);
    assert s'.queue[..QueuedUpTo(s, k)] == s.queue[..QueuedUpTo(s, k)];
    hide TotalCost, Cost, Effect, Begun, Completed;
  }

  lemma TakeCounts(u: Urls, s: State, k: nat)
    requires Conserved(s) && Enabled(u, s, Take) && |s.handled| <= k < |s.sent|
    requires Conserved(Apply(u, s, Take))
    ensures StepsLeft(u, Apply(u, s, Take), k) == StepsLeft(u, s, k) - 1
  {
    var i := QueuedUpTo(s, k);
    assert s.queue[..i][1..] == s.queue[1..][..i - 1];
    assert TotalCost(u, s.queue[..i]) == Cost(u, s.queue[0].body) + TotalCost(u, s.queue[1..][..i - 1]);
    hide TotalCost, Effect, Begun, Completed;
  }

  lemma HandlingCounts(u: Urls, s: State, step: Step, k: nat)
    requires Conserved(s) && Enabled(u, s, step) && (step.Handle? || step.Begin? || step.Complete? || step.Unlock?)
    requires k < |s.sent| && Conserved(Apply(u, s, step))
    ensures StepsLeft(u, Apply(u, s, step), k) == StepsLeft(u, s, k) - 1
  {
    hide TotalCost, Effect, Begun, Completed, Conserved;
  }

  /** What the worker's unlocking, and every other step, means for a blocked caller. */
  lemma StaysBlocked(u: Urls, n: Net, s: State, step: Step, c: nat)
    requires Inv(u, n, s) && Enabled(u, s, step) && Blocked(s, c)
    ensures var client := s.clients[c];
            && IsClient(Apply(u, s, step), c) && client.k < |s.sent|
            && Apply(u, s, step).clients[c] ==
                 if step.Unlock? && client.k + 1 == |s.handled| then client.(unlocked := true) else client
  {
    assert ClientOk(s, c);
    HandInHistory(s);
    hide Conserved, Due, Effect, Begun, Completed, Polls;
  }

  /** Nothing is left exactly when the worker is about to unlock this caller. */
  lemma LastStep(u: Urls, n: Net, s: State, step: Step, c: nat)
    requires Inv(u, n, s) && Enabled(u, s, step) && Blocked(s, c) && OnMessage(step)
    requires s.clients[c].k < |s.sent|
    ensures StepsLeft(u, s, s.clients[c].k) > 0
    ensures StepsLeft(u, s, s.clients[c].k) == 1 <==> step.Unlock? && s.clients[c].k + 1 == |s.handled|
  {
    assert ClientOk(s, c);
    HandInHistory(s);
    TotalCostBound(u, s.queue[..QueuedUpTo(s, s.clients[c].k)]);
    hide TotalCost, Due, Effect, Begun, Completed, Polls;
  }

  /** Every message step of the worker brings a blocked caller one nearer to its return, and with
      the last of at most 15 it is unlocked; no step of a caller or a handler pushes it back. */
  lemma ReturnComesNearer(u: Urls, n: Net, s: State, step: Step, c: nat)
    requires Reachable(u, n, s) && Enabled(u, s, step) && Blocked(s, c)
    ensures Conserved(s) && Conserved(Apply(u, s, step))
    ensures var client := s.clients[c];
            var s' := Apply(u, s, step);
            && IsClient(s', c) && client.k < |s.sent| <= |s'.sent| && StepsLeft(u, s, client.k) <= 15
            && if OnMessage(step) && StepsLeft(u, s, client.k) == 1 then s'.clients[c] == client.(unlocked := true)
               else s'.clients[c] == client
                    && StepsLeft(u, s', client.k) == StepsLeft(u, s, client.k) - if OnMessage(step) then 1 else 0
  {
    ReachableInv(u, n, s);
    StepKeepsInv(u, n, s, step);
    StaysBlocked(u, n, s, step, c);
    var k := s.clients[c].k;
    AtMostFifteen(u, s, k);
    if OnMessage(step) {
      LastStep(u, n, s, step, c);
      if step.Take? {
        BlockedIsLater(u, n, s, c);
        TakeCounts(u, s, k);
      } else {
        HandlingCounts(u, s, step, k);
      }
    } else {
      PutDelaysNobody(u, s, step, k);
    }
    hide Inv, StepsLeft, Conserved, Apply, Enabled;
  }

  lemma BlockedIsLater(u: Urls, n: Net, s: State, c: nat)
    requires Inv(u, n, s) && Blocked(s, c)
    ensures s.clients[c].k >= Finished(s)
  {
    assert ClientOk(s, c);
  }

  lemma AtMostFifteen(u: Urls, s: State, k: nat)
    requires Conserved(s) && k < |s.sent|
    ensures StepsLeft(u, s, k) <= 15
  {
    TotalCostBound(u, s.queue[..QueuedUpTo(s, k)]);
    hide TotalCost, Polls;
  }

  // ----- When the worker comes to a halt -----

  /** The worker has ended, or an event handler on its thread waits for something only the worker
      can do: room in the full queue, or its own lock. */
  predicate Stuck(s: State) {
    s.worker.Ended? || s.worker.SelfWaiting? || (s.worker.Posting? && |s.queue| >= CAPACITY)
  }

  /** The worker's next step when its handlers return: with a message pending it is one of the
      steps that deal with it, or the return of a handler. */
  function NextOfWorker(u: Urls, s: State): Step {
    match s.worker
    case Posting(_, _) => WorkerPut
    case Handling(m) => if Polls(u, m.body) then Begin else Handle
    case Midway(_) => Complete
    case Unlocking(_) => Unlock
    case _ => Take
  }

  lemma WorkerGoesOn(u: Urls, n: Net, s: State)
    requires Reachable(u, n, s) && Pending(s) != [] && !Stuck(s)
    ensures Enabled(u, s, NextOfWorker(u, s))
  {
    var step := NextOfWorker(u, s);
    assert Reached(u, s, step);
    UnlocksTheWaiting(u, n, s, step);
  }

  lemma StuckStep(u: Urls, s: State, step: Step)
    requires Stuck(s) && Enabled(u, s, step)
    ensures !OfWorker(step)
    ensures var s' := Apply(u, s, step);
            && Stuck(s') && s'.worker == s.worker && s'.handled == s.handled && s'.net == s.net
            && forall c: nat :: Blocked(s, c) ==> IsClient(s', c) && s'.clients[c] == s.clients[c]
  {
    hide Effect, Begun, Completed, Polls;
  }

  /** The worker has no step at all exactly when it is stuck. */
  lemma StuckIff(u: Urls, n: Net, s: State)
    requires Reachable(u, n, s) && Pending(s) != []
    ensures Stuck(s) <==> forall step :: OfWorker(step) ==> !Enabled(u, s, step)
  {
    if Stuck(s) {
      forall step | OfWorker(step)
        ensures !Enabled(u, s, step)
      {
        if Enabled(u, s, step) {
          StuckStep(u, s, step);
        }
      }
    } else {
      WorkerGoesOn(u, n, s);
      assert OfWorker(NextOfWorker(u, s));
    }
  }

  /** And then it stays so: nothing is handled any more, and no blocked caller returns. */
  lemma {:induction false} StuckForever(u: Urls, s: State, steps: seq<Step>, end: State)
    requires Stuck(s) && Runs.Run(Next(u), s, steps, end)
    ensures Stuck(end) && end.handled == s.handled && end.net == s.net
    ensures forall c: nat :: Blocked(s, c) ==> IsClient(end, c) && end.clients[c] == s.clients[c]
    decreases |steps|
  {
    if steps != [] {
      StuckStep(u, s, steps[0]);
      hide Enabled, Apply, Stuck;
      StuckForever(u, Apply(u, s, steps[0]), steps[1..], end);
    }
  }

  // ----- Runs that bring it there -----

  lemma ReachedBy(u: Urls, n: Net, s: State, step: Step)
    requires Reachable(u, n, s) && Enabled(u, s, step)
    ensures Reachable(u, n, Apply(u, s, step))
  {
    hide Enabled, Apply;
    var steps :| Runs.Run(Next(u), Initial(n), steps, s);
    Runs.RunThen(Next(u), Initial(n), steps, s, step, Apply(u, s, step));
  }

  /** One caller is blocked, and the worker has not yet looked at its message. */
  lemma OneBlocked(u: Urls, n: Net, b: Body) returns (s: State)
    requires !b.Stop?
    ensures Reachable(u, n, s) && |s.clients| == 1 && Blocked(s, 0)
    ensures s.worker == Polling && s.queue == [Message(Of(0), b)]
  {
    s := Initial(n);
    assert Runs.Run(Next(u), s, [], s);
    ReachedBy(u, n, s, Spawn);
    s := Apply(u, s, Spawn);
    ReachedBy(u, n, s, Call(0, b));
    s := Apply(u, s, Call(0, b));
    ReachedBy(u, n, s, Put(0));
    s := Apply(u, s, Put(0));
  }

  /** A handler starts an HTTP listener. */
  lemma HandlerStartsHttp(u: Urls, n: Net, s: State, e: Entry) returns (s': State)
    requires Reachable(u, n, s) && |s.queue| < CAPACITY && e.kind.Http? && (s.worker.Polling? || s.worker.Midway?)
    ensures Reachable(u, n, s') && s'.clients == s.clients && s'.worker == SelfWaiting(Half(s.worker))
  {
    s' := s;
    ReachedBy(u, n, s', WorkerCall(Set(e)));
    s' := Apply(u, s', WorkerCall(Set(e)));
    ReachedBy(u, n, s', WorkerPut);
    s' := Apply(u, s', WorkerPut);
  }

  /** That halts the worker, here while a caller waits. */
  lemma HttpInHandlerHalts(u: Urls, n: Net, b: Body, e: Entry) returns (s: State)
    requires !b.Stop? && e.kind.Http?
    ensures Reachable(u, n, s) && Stuck(s) && s.worker == SelfWaiting(None) && Blocked(s, 0)
  {
    s := OneBlocked(u, n, b);
    s := HandlerStartsHttp(u, n, s, e);
  }

  lemma HandlerPosts(u: Urls, n: Net, s: State, b: Body) returns (s': State)
    requires Reachable(u, n, s) && s.worker == Polling && |s.queue| < CAPACITY && (b.Set? ==> b.entry.kind.Tcp?)
    ensures Reachable(u, n, s') && s'.worker == Polling && |s'.queue| == |s.queue| + 1 && s'.clients == s.clients
  {
    s' := s;
    ReachedBy(u, n, s', WorkerCall(b));
    s' := Apply(u, s', WorkerCall(b));
    ReachedBy(u, n, s', WorkerPut);
    s' := Apply(u, s', WorkerPut);
  }

  /** A handler makes three calls while a caller's message is queued: the third finds no room. */
  lemma FullQueueHalts(u: Urls, n: Net, b: Body, d: Body) returns (s: State)
    requires !b.Stop? && (d.Set? ==> d.entry.kind.Tcp?)
    ensures Reachable(u, n, s) && Stuck(s) && s.worker == Posting(d, None) && Blocked(s, 0)
  {
    s := OneBlocked(u, n, b);
    s := HandlerPosts(u, n, s, d);
    s := HandlerPosts(u, n, s, d);
    ReachedBy(u, n, s, WorkerCall(d));
    s := Apply(u, s, WorkerCall(d));
  }

  /** A handler in the inner round of a restart halts the worker with the caller's message at hand. */
  lemma InnerRoundHalts(u: Urls, n: Net, config: Config, e: Entry) returns (s: State)
    requires e.kind.Http?
    ensures Reachable(u, n, s) && Stuck(s) && Blocked(s, 0)
    ensures s.worker == SelfWaiting(Some(Message(Of(0), Restart(config))))
  {
    s := OneBlocked(u, n, Restart(config));
    ReachedBy(u, n, s, Take);
    s := Apply(u, s, Take);
    ReachedBy(u, n, s, Begin);
    s := Apply(u, s, Begin);
    hide Reachable, Apply, Enabled;
    s := HandlerStartsHttp(u, n, s, e);
  }

  lemma StopPut(u: Urls, n: Net) returns (s: State)
    ensures Reachable(u, n, s) && s.clients == [Idle] && s.worker == Polling && s.queue == [Message(NoLock, Stop)]
  {
    s := Initial(n);
    assert Runs.Run(Next(u), s, [], s);
    ReachedBy(u, n, s, Spawn);
    s := Apply(u, s, Spawn);
    ReachedBy(u, n, s, Call(0, Stop));
    s := Apply(u, s, Call(0, Stop));
    ReachedBy(u, n, s, Put(0));
    s := Apply(u, s, Put(0));
  }

  /** A call whose message is queued behind a stop never returns. */
  lemma BehindStopHalts(u: Urls, n: Net, b: Body) returns (s: State)
    requires !b.Stop?
    ensures Reachable(u, n, s) && Stuck(s) && s.worker == Ended && Blocked(s, 0)
  {
    s := StopPut(u, n);
    ReachedBy(u, n, s, Call(0, b));
    s := Apply(u, s, Call(0, b));
    ReachedBy(u, n, s, Put(0));
    s := Apply(u, s, Put(0));
    ReachedBy(u, n, s, Take);
    s := Apply(u, s, Take);
    ReachedBy(u, n, s, Handle);
    s := Apply(u, s, Handle);
  }
}
