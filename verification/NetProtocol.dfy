/** net.c as a step system: any number of callers that put a message into the worker's queue and
    block on an API lock until the worker unlocks it, and the worker. Event handlers run on the
    worker's own thread, between messages and in the inner round of the event loop that stopping a
    listener and restarting run; they may call the API as well. */
module NetProtocol {
  import opened NetListeners
  import opened Wrappers
  import opened NetEffects

  /** Which lock a message carries: none, the worker's own, or that of client c. */
  datatype Lock = NoLock | OwnLock | Of(c: nat)

  datatype Message = Message(lock: Lock, body: Body)

  datatype Client =
    | Idle
    | Sending(body: Body)                                // before or blocked in the queue put
    | Waiting(k: nat, body: Body, unlocked: bool)        // its message was the k-th one put

  /** `hand` is the message whose inner event loop called the handler, if any. */
  datatype Worker =
    | Polling
    | Posting(body: Body, hand: Option<Message>)   // a handler calls the API: before or in the put
    | SelfWaiting(hand: Option<Message>)           // a handler waits for a lock
    | Handling(m: Message)
    | Midway(m: Message)                           // in the message's inner round of the event loop
    | Unlocking(m: Message)
    | Ended

  /** `sent` and `handled` only record the history. */
  datatype State = State(clients: seq<Client>, queue: seq<Message>, worker: Worker, net: Net,
                         sent: seq<Message>, handled: seq<Message>)

  function Initial(n: Net): State {
    State([], [], Polling, n, [], [])
  }

  /** Length of the message queue. */
  const CAPACITY: nat := 3

  datatype Step =
    | Spawn
    | Call(c: nat, body: Body)
    | Put(c: nat)
    | Return(c: nat)
    | WorkerCall(body: Body)
    | WorkerPut
    | Take
    | Handle
    | Begin
    | Complete
    | Unlock

  predicate IsClient(s: State, c: nat) {
    c < |s.clients|
  }

  predicate Reached(u: Urls, s: State, step: Step) {
    match step
    case Spawn => true
    case Call(c, _) => IsClient(s, c) && s.clients[c].Idle?
    case Put(c) => IsClient(s, c) && s.clients[c].Sending? && |s.queue| < CAPACITY
    case Return(c) => IsClient(s, c) && s.clients[c].Waiting? && s.clients[c].unlocked
    case WorkerCall(_) => s.worker.Polling? || s.worker.Midway?
    case WorkerPut => s.worker.Posting? && |s.queue| < CAPACITY
    case Take => s.worker.Polling? && s.queue != []
    case Handle => s.worker.Handling? && !Polls(u, s.worker.m.body)
    case Begin => s.worker.Handling? && Polls(u, s.worker.m.body)
    case Complete => s.worker.Midway?
    case Unlock => s.worker.Unlocking?
  }

  /** The lock the worker unlocks has not been freed: its caller still waits for it. */
  predicate LockAlive(s: State, step: Step)
    requires step.Unlock? ==> s.worker.Unlocking?
  {
    step.Unlock? && s.worker.m.lock.Of? ==>
      var c := s.worker.m.lock.c;
      IsClient(s, c) && s.clients[c].Waiting? && !s.clients[c].unlocked
  }

  predicate Enabled(u: Urls, s: State, step: Step) {
    Reached(u, s, step) && LockAlive(s, step)
  }

  function SetClient(s: State, c: nat, client: Client): State
    requires IsClient(s, c)
  {
    s.(clients := s.clients[c := client])
  }

  function Sent(s: State, m: Message): State {
    s.(queue := s.queue + [m], sent := s.sent + [m])
  }

  /** net_stop does not wait; the other calls of a client do. */
  function PutBy(s: State, c: nat): State
    requires IsClient(s, c) && s.clients[c].Sending?
  {
    var body := s.clients[c].body;
    if body.Stop? then SetClient(Sent(s, Message(NoLock, body)), c, Idle)
    else SetClient(Sent(s, Message(Of(c), body)), c, Waiting(|s.sent|, body, false))
  }

  /** Where a handler returns to. */
  function Resumed(hand: Option<Message>): Worker {
    if hand.Some? then Midway(hand.value) else Polling
  }

  /** On the worker's own thread only net_start_http waits. */
  function PutByWorker(s: State): State
    requires s.worker.Posting?
  {
    var body, hand := s.worker.body, s.worker.hand;
    if body.Set? && body.entry.kind.Http? then Sent(s, Message(OwnLock, body)).(worker := SelfWaiting(hand))
    else Sent(s, Message(NoLock, body)).(worker := Resumed(hand))
  }

  ghost function Apply(u: Urls, s: State, step: Step): State
    requires Enabled(u, s, step)
  {
    match step
    case Spawn => s.(clients := s.clients + [Idle])
    case Call(c, body) => SetClient(s, c, Sending(body))
    case Put(c) => PutBy(s, c)
    case Return(c) => SetClient(s, c, Idle)
    case WorkerCall(body) => s.(worker := Posting(body, if s.worker.Midway? then Some(s.worker.m) else None))
    case WorkerPut => PutByWorker(s)
    case Take => s.(queue := s.queue[1..], worker := Handling(s.queue[0]))
    case Handle =>
      var m := s.worker.m;
      s.(net := Effect(u, s.net, m.body), handled := s.handled + [m],
         worker := if m.body.Stop? then Ended else Unlocking(m))
    case Begin =>
      s.(net := Begun(u, s.net, s.worker.m.body), worker := Midway(s.worker.m))
    case Complete =>
      var m := s.worker.m;
      s.(net := Completed(u, s.net, m.body), handled := s.handled + [m], worker := Unlocking(m))
    case Unlock =>
      var lock := s.worker.m.lock;
      (if lock.Of? then SetClient(s, lock.c, s.clients[lock.c].(unlocked := true)) else s).(worker := Polling)
  }

  /** Where a step leads, if it is possible. */
  ghost function Next(u: Urls): (State, Step) -> Option<State> {
    (s: State, step: Step) => if Enabled(u, s, step) then Some(Apply(u, s, step)) else None
  }

  // ----- The invariant -----

  /** The message that is half done while handlers run. */
  function Half(w: Worker): Option<Message> {
    match w
    case Midway(m) => Some(m)
    case Posting(_, hand) => hand
    case SelfWaiting(hand) => hand
    case _ => None
  }

  /** The message the worker has taken and not finished, before it is recorded as handled. */
  function InHand(w: Worker): seq<Message> {
    if w.Handling? then [w.m] else if Half(w).Some? then [Half(w).value] else []
  }

  /** How many messages the worker has finished, their lock included. */
  function Finished(s: State): int {
    |s.handled| - if s.worker.Unlocking? then 1 else 0
  }

  /** No message is lost, repeated or overtaken. */
  predicate Conserved(s: State) {
    && s.sent == s.handled + InHand(s.worker) + s.queue
    && (s.worker.Unlocking? ==> s.handled != [] && s.handled[|s.handled| - 1] == s.worker.m)
    && |s.queue| <= CAPACITY
  }

  /** The unfinished messages with the client's lock are exactly the one it is blocked on. */
  predicate ClientOk(s: State, c: nat)
    requires IsClient(s, c)
  {
    var client := s.clients[c];
    && (forall j :: 0 <= j < |s.sent| && s.sent[j].lock == Of(c) && j >= Finished(s) ==>
          client == Waiting(j, s.sent[j].body, false))
    && (client.Waiting? ==>
          && client.k < |s.sent| && s.sent[client.k] == Message(Of(c), client.body)
          && (client.unlocked <==> client.k < Finished(s)))
  }

  predicate LocksKnown(s: State) {
    forall j :: 0 <= j < |s.sent| && s.sent[j].lock.Of? ==> IsClient(s, s.sent[j].lock.c) && !s.sent[j].body.Stop?
  }

  function Bodies(ms: seq<Message>): (bs: seq<Body>)
    ensures |bs| == |ms|
  {
    seq(|ms|, i requires 0 <= i < |ms| => ms[i].body)
  }

  /** The worker's state after the handled messages, and half of the one at hand. */
  ghost function Due(u: Urls, n: Net, handled: seq<Message>, half: Option<Message>): Net {
    var done := Fold(u, n, Bodies(handled));
    if half.Some? then Begun(u, done, half.value.body) else done
  }

  ghost predicate Inv(u: Urls, n: Net, s: State) {
    && Conserved(s)
    && LocksKnown(s)
    && (forall c :: 0 <= c < |s.clients| ==> ClientOk(s, c))
    && s.net == Due(u, n, s.handled, Half(s.worker))
  }

  predicate OfCaller(step: Step) {
    step.Spawn? || step.Call? || step.Return? || step.WorkerCall?
  }

  predicate IsPut(step: Step) {
    step.Put? || step.WorkerPut?
  }

  lemma AppendHistory(handled: seq<Message>, hand: seq<Message>, queue: seq<Message>, m: Message)
    ensures handled + hand + (queue + [m]) == handled + hand + queue + [m]
  {
  }

  lemma PutKeepsConserved(u: Urls, s: State, step: Step)
    requires Conserved(s) && Enabled(u, s, step) && IsPut(step)
    ensures Conserved(Apply(u, s, step))
  {
    var s' := Apply(u, s, step);
    AppendHistory(s.handled, InHand(s.worker), s.queue, s'.sent[|s.sent|]);
  }

  lemma TakeKeepsConserved(u: Urls, s: State)
    requires Conserved(s) && Enabled(u, s, Take)
    ensures Conserved(Apply(u, s, Take))
  {
    var s' := Apply(u, s, Take);
    assert s.queue == [s.queue[0]] + s.queue[1..];
    assert s'.handled + InHand(s'.worker) + s'.queue == s.handled + InHand(s.worker) + s.queue;
  }

  lemma OtherKeepsConserved(u: Urls, s: State, step: Step)
    requires Conserved(s) && Enabled(u, s, step) && !IsPut(step) && !step.Take?
    ensures Conserved(Apply(u, s, step))
  {
    hide Effect, Begun, Completed, Polls;
    assert s.handled + InHand(s.worker) + [] == s.handled + InHand(s.worker);
  }

  lemma StepKeepsConserved(u: Urls, s: State, step: Step)
    requires Conserved(s) && Enabled(u, s, step)
    ensures Conserved(Apply(u, s, step))
  {
    hide Conserved, Enabled, Apply;
    if IsPut(step) {
      PutKeepsConserved(u, s, step);
    } else if step.Take? {
      TakeKeepsConserved(u, s);
    } else {
      OtherKeepsConserved(u, s, step);
    }
  }

  lemma StepKeepsLocks(u: Urls, s: State, step: Step)
    requires LocksKnown(s) && Enabled(u, s, step)
    ensures LocksKnown(Apply(u, s, step))
  {
    hide Effect, Begun, Completed, Polls;
  }

  /** The message in the worker's hand is the next one in the history, or the last handled one. */
  lemma HandInHistory(s: State)
    requires Conserved(s)
    ensures InHand(s.worker) != [] ==> |s.handled| < |s.sent| && s.sent[|s.handled|] == InHand(s.worker)[0]
    ensures s.worker.Unlocking? ==> 0 < |s.handled| <= |s.sent| && s.sent[|s.handled| - 1] == s.worker.m
    ensures |s.handled| <= |s.sent|
  {
  }

  lemma ClientPutKeepsClient(u: Urls, s: State, d: nat, c: nat)
    requires |s.handled| <= |s.sent| && Enabled(u, s, Put(d)) && c < |s.clients| && ClientOk(s, c)
    ensures c < |PutBy(s, d).clients| && ClientOk(PutBy(s, d), c)
  {
    hide Polls, LockAlive;
  }

  lemma WorkerPutKeepsClient(u: Urls, s: State, c: nat)
    requires |s.handled| <= |s.sent| && Enabled(u, s, WorkerPut) && c < |s.clients| && ClientOk(s, c)
    ensures c < |PutByWorker(s).clients| && ClientOk(PutByWorker(s), c)
  {
    hide Polls, LockAlive;
  }

  lemma PutKeepsClient(u: Urls, s: State, step: Step, c: nat)
    requires |s.handled| <= |s.sent| && Enabled(u, s, step) && IsPut(step)
    requires c < |s.clients| && ClientOk(s, c)
    ensures c < |Apply(u, s, step).clients| && ClientOk(Apply(u, s, step), c)
  {
    if step.Put? {
      ClientPutKeepsClient(u, s, step.c, c);
    } else {
      WorkerPutKeepsClient(u, s, c);
    }
    hide ClientOk, PutBy, PutByWorker;
  }

  /** Callers arrive and leave. */
  lemma CallerKeepsClient(u: Urls, s: State, step: Step, c: nat)
    requires |s.handled| <= |s.sent| && LocksKnown(s) && Enabled(u, s, step) && OfCaller(step)
    requires c < |Apply(u, s, step).clients|
    requires c < |s.clients| ==> ClientOk(s, c)
    ensures ClientOk(Apply(u, s, step), c)
  {
  }

  /** The worker finishes one message at a time, and unlocks whoever waits for it. */
  lemma WorkerKeepsClient(u: Urls, s: State, step: Step, c: nat)
    requires Conserved(s) && LocksKnown(s) && Enabled(u, s, step) && c < |s.clients| && ClientOk(s, c)
    requires !OfCaller(step) && !IsPut(step)
    ensures c < |Apply(u, s, step).clients| && ClientOk(Apply(u, s, step), c)
  {
    HandInHistory(s);
    hide Effect, Begun, Completed, Polls, Conserved;
  }

  lemma StepKeepsClient(u: Urls, n: Net, s: State, step: Step, c: nat)
    requires Inv(u, n, s) && Enabled(u, s, step) && c < |Apply(u, s, step).clients|
    ensures ClientOk(Apply(u, s, step), c)
  {
    assert !step.Spawn? ==> c < |s.clients|;
    HandInHistory(s);
    hide Apply, Enabled, Conserved, LocksKnown, ClientOk, Due;
    if IsPut(step) {
      PutKeepsClient(u, s, step, c);
    } else if OfCaller(step) {
      CallerKeepsClient(u, s, step, c);
    } else {
      WorkerKeepsClient(u, s, step, c);
    }
  }

  lemma StepKeepsNet(u: Urls, n: Net, s: State, step: Step)
    requires s.net == Due(u, n, s.handled, Half(s.worker)) && Enabled(u, s, step)
    ensures Apply(u, s, step).net == Due(u, n, Apply(u, s, step).handled, Half(Apply(u, s, step).worker))
  {
    hide Effect, Begun, Completed, Fold, Polls;
    if step.Handle? || step.Complete? {
      var b := s.worker.m.body;
      FoldThen(u, n, Bodies(s.handled), b);
      InParts(u, Fold(u, n, Bodies(s.handled)), b);
      assert Bodies(s.handled + [s.worker.m]) == Bodies(s.handled) + [b];
    }
  }

  lemma StepKeepsInv(u: Urls, n: Net, s: State, step: Step)
    requires Inv(u, n, s) && Enabled(u, s, step)
    ensures Inv(u, n, Apply(u, s, step))
  {
    StepKeepsConserved(u, s, step);
    StepKeepsLocks(u, s, step);
    StepKeepsNet(u, n, s, step);
    hide Apply, Enabled, ClientOk, Conserved, LocksKnown, Due;
    forall c | 0 <= c < |Apply(u, s, step).clients|
      ensures ClientOk(Apply(u, s, step), c)
    {
      StepKeepsClient(u, n, s, step, c);
    }
  }
}
