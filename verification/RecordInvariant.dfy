/** What every interleaving of the record registry keeps, and what follows for the
    callers of open, close, create and destroy. */
module RecordInvariant {
  import opened Wrappers
  import opened RecordProtocol

  // ----- The invariant -----

  predicate InSection(pc: Pc) {
    pc.Locked? || pc.Found? || pc.Storing? || pc.Leaving? || pc.LeavingToWait?
  }

  /** Exactly the holder of the mutex is between acquire and release. */
  predicate LockInv(s: State) {
    && (s.lock.Some? ==> s.lock.value < |s.threads|)
    && forall t :: 0 <= t < |s.threads| ==> (InSection(s.threads[t].pc) <==> s.lock == Some(t))
  }

  predicate IdInv(s: State) {
    && (forall n :: n in s.entries ==> s.entries[n].id < s.nextId)
    && (forall m, n :: m in s.entries && n in s.entries && s.entries[m].id == s.entries[n].id ==> m == n)
  }

  /** holders_count is the number of waits and holds. */
  predicate CountInv(s: State) {
    forall n :: n in s.entries ==> s.entries[n].holders == Uses(s.threads, s.entries[n].id)
  }

  /** create is between its two writes on this entry. */
  predicate BeingStored(s: State, n: Name, id: nat) {
    s.lock.Some? && HasPc(s, s.lock.value, Storing(n, id))
  }

  /** The entry was just looked up, or made, under the mutex. */
  predicate BeingUsed(s: State, n: Name, id: nat) {
    s.lock.Some? && s.lock.value < |s.threads| &&
    var pc := s.threads[s.lock.value].pc;
    pc.Found? && !pc.op.Close? && pc.op.name == n && pc.id == id
  }

  predicate DataOk(s: State, n: Name)
    requires n in s.entries
  {
    var e := s.entries[n];
    && (e.ready ==> e.data.Some?)
    && (e.data.Some? && !e.ready ==> BeingStored(s, n, e.id))
    && (e.data.None? ==> e.holders > 0 || BeingUsed(s, n, e.id))
  }

  predicate DataInv(s: State) {
    forall n :: n in s.entries ==> DataOk(s, n)
  }

  predicate PcOk(s: State, th: Thread) {
    match th.pc
    case Locked(op) => op.Close? ==> op.k < |th.held|
    case Found(op, id) => (op.Open? || op.Create?) && Alive(s, op.name, id)
    case Storing(n, id) => Alive(s, n, id) && s.entries[n].data.Some?
    case LeavingToWait(n, id) => Alive(s, n, id)
    case Waiting(n, id) => Alive(s, n, id)
    case Ready(n, id) => Alive(s, n, id) && s.entries[n].ready
    case _ => true
  }

  predicate HoldOk(s: State, h: Hold) {
    Alive(s, h.name, h.id) && s.entries[h.name].ready && s.entries[h.name].data == h.ptr
  }

  predicate ThreadOk(s: State, th: Thread) {
    PcOk(s, th) && forall k :: 0 <= k < |th.held| ==> HoldOk(s, th.held[k])
  }

  predicate ThreadInv(s: State) {
    forall t :: 0 <= t < |s.threads| ==> ThreadOk(s, s.threads[t])
  }

  /** Nothing is alive any more under the id of an entry that was destroyed. */
  ghost predicate LogIds(s: State) {
    && (forall n: Name, id: nat, p: Ptr :: Created(n, id, p) in s.log ==> id < s.nextId)
    && (forall n: Name, id: nat :: Destroyed(n, id) in s.log ==> id < s.nextId && !Alive(s, n, id))
  }

  /** Each entry is given a pointer at most once. */
  ghost predicate CreatedOnce(s: State) {
    forall n: Name, id: nat, p: Ptr, m: Name, q: Ptr ::
      Created(n, id, p) in s.log && Created(m, id, q) in s.log ==> n == m && p == q
  }

  /** The data of an entry is what its create gave. */
  ghost predicate DataCreated(s: State, n: Name)
    requires n in s.entries
  {
    var e := s.entries[n];
    if e.data.Some? then Created(n, e.id, e.data.value) in s.log
    else forall m: Name, p: Ptr :: Created(m, e.id, p) !in s.log
  }

  /** Every open returned the pointer of an earlier create of the same entry, before any destroy of it. */
  ghost predicate OpensFollowCreates(log: seq<Event>) {
    forall j :: 0 <= j < |log| && log[j].Opened? ==>
      var h := log[j].hold;
      h.ptr.Some? && Created(h.name, h.id, h.ptr.value) in log[..j] && Destroyed(h.name, h.id) !in log[..j]
  }

  ghost predicate LogInv(s: State) {
    && LogIds(s)
    && CreatedOnce(s)
    && (forall n :: n in s.entries ==> DataCreated(s, n))
    && OpensFollowCreates(s.log)
  }

  ghost predicate Inv(s: State) {
    LockInv(s) && IdInv(s) && CountInv(s) && DataInv(s) && ThreadInv(s) && LogInv(s)
  }

  // ----- Every step keeps it -----

  lemma StepKeepsLock(s: State, step: Step)
    requires Inv(s) && Enabled(s, step)
    ensures LockInv(Apply(s, step))
  {
    hide CountInv, DataInv, IdInv, LogInv, ThreadInv;
  }

  lemma StepKeepsIds(s: State, step: Step)
    requires Inv(s) && Enabled(s, step)
    ensures IdInv(Apply(s, step))
  {
    hide CountInv, DataInv, LockInv, LogInv, ThreadInv;
  }

  /** A thread uses only live entries. */
  lemma UsedIsAlive(s: State, t: nat, id: nat) returns (name: Name)
    requires ThreadInv(s) && t < |s.threads| && UsesOf(s.threads[t], id) > 0
    ensures Alive(s, name, id)
  {
    var th := s.threads[t];
    assert ThreadOk(s, th);
    if HeldCount(th.held, id) > 0 {
      var k := SomeHold(th.held, id);
      assert HoldOk(s, th.held[k]);
      name := th.held[k].name;
    } else {
      name := th.pc.name;
    }
  }

  /** Ids that were never given out are not in use. */
  lemma FreshUnused(s: State, id: nat)
    requires IdInv(s) && ThreadInv(s) && id >= s.nextId
    ensures Uses(s.threads, id) == 0
  {
    if Uses(s.threads, id) > 0 {
      var t := SomeUser(s.threads, id);
      var name := UsedIsAlive(s, t, id);
    }
  }

  /** A thread whose wait or hold on some entry changes by `d` changes that entry's count by `d`. */
  lemma StepKeepsCounts(s: State, step: Step)
    requires Inv(s) && Enabled(s, step)
    ensures CountInv(Apply(s, step))
  {
    hide DataInv, LockInv, LogInv, Uses, HeldCount;
    var s' := Apply(s, step);
    FreshUnused(s, s.nextId);
    forall n | n in s'.entries
      ensures s'.entries[n].holders == Uses(s'.threads, s'.entries[n].id)
    {
      var id := s'.entries[n].id;
      if step.Spawn? {
        UsesAppend(s.threads, Thread(Idle, []), id);
        NoHolds(id);
      } else {
        var th, th' := s.threads[step.t], s'.threads[step.t];
        UsesUpdate(s.threads, step.t, th', id);
        if step.Uncount? {
          HeldCountWithout(th.held, th.pc.op.k, id);
          assert HoldOk(s, th.held[th.pc.op.k]);
        } else if step.Return? {
          HeldCountAppend(th.held, Hold(th.pc.name, th.pc.id, s.entries[th.pc.name].data), id);
        }
      }
    }
  }

  lemma NoHolds(id: nat)
    ensures HeldCount([], id) == 0
  {
  }

  // ----- The threads' own facts -----

  /** What a step must leave alone for the facts of a thread that does not take it. */
  predicate Keeps(s: State, s': State, n: Name, id: nat) {
    Alive(s, n, id) ==>
      && Alive(s', n, id)
      && (s.entries[n].ready ==> s'.entries[n].ready)
      && (s.entries[n].data.Some? ==> s'.entries[n].data == s.entries[n].data)
  }

  /** Every entry is kept, except one that is erased because nobody uses it. */
  lemma StepKeepsEntry(s: State, step: Step, n: Name, id: nat)
    requires Inv(s) && Enabled(s, step)
    requires Uses(s.threads, id) > 0 || !step.Erase?
    ensures Keeps(s, Apply(s, step), n, id)
  {
    hide DataInv, LogInv, ThreadInv, LockInv, Uses;
  }

  /** Held entries are kept, whoever takes the step. */
  lemma HoldsKept(s: State, step: Step, t: nat)
    requires Inv(s) && Enabled(s, step) && t < |s.threads|
    ensures forall k :: 0 <= k < |s.threads[t].held| ==> HoldOk(Apply(s, step), s.threads[t].held[k])
  {
    var s', th := Apply(s, step), s.threads[t];
    assert ThreadOk(s, th);
    hide CountInv, IdInv, LogInv, LockInv, Uses, HeldCount, Apply;
    forall k | 0 <= k < |th.held|
      ensures HoldOk(s', th.held[k])
    {
      var h := th.held[k];
      assert HoldOk(s, h);
      HeldCountPositive(th.held, k);
      UsesAtLeast(s.threads, t, h.id);
      StepKeepsEntry(s, step, h.name, h.id);
    }
  }

  /** A thread keeps its facts while others run. */
  lemma OthersKeepFacts(s: State, step: Step, t: nat)
    requires Inv(s) && Enabled(s, step) && t < |s.threads| && (step.Spawn? || step.t != t)
    ensures ThreadOk(Apply(s, step), s.threads[t])
  {
    var th := s.threads[t];
    assert ThreadOk(s, th);
    hide CountInv, IdInv, LogInv, Uses, HeldCount, Apply;
    HoldsKept(s, step, t);
    match th.pc
    case LeavingToWait(n, id) => UsesAtLeast(s.threads, t, id); StepKeepsEntry(s, step, n, id);
    case Waiting(n, id) => UsesAtLeast(s.threads, t, id); StepKeepsEntry(s, step, n, id);
    case Ready(n, id) => UsesAtLeast(s.threads, t, id); StepKeepsEntry(s, step, n, id);
    case Found(op, id) => SectionStepsOnly(s, step, t); StepKeepsEntry(s, step, op.name, id);
    case Storing(n, id) => SectionStepsOnly(s, step, t); StepKeepsEntry(s, step, n, id);
    case _ =>
  }

  /** While one thread is in its critical section no other thread erases. */
  lemma SectionStepsOnly(s: State, step: Step, t: nat)
    requires Inv(s) && Enabled(s, step) && t < |s.threads| && (step.Spawn? || step.t != t)
    requires InSection(s.threads[t].pc)
    ensures !step.Erase?
  {
    hide CountInv, IdInv, LogInv, DataInv, ThreadInv;
  }

  lemma StepKeepsThreads(s: State, step: Step)
    requires Inv(s) && Enabled(s, step)
    ensures ThreadInv(Apply(s, step))
  {
    var s' := Apply(s, step);
    forall t | 0 <= t < |s'.threads|
      ensures ThreadOk(s', s'.threads[t])
    {
      if t < |s.threads| && (step.Spawn? || step.t != t) {
        OthersKeepFacts(s, step, t);
      } else if !step.Spawn? {
        OwnFacts(s, step);
      }
    }
  }

  /** Where the steps that work on an entry arrive, they leave it as the next one needs it. */
  lemma EntryPcFacts(s: State, step: Step)
    requires Enabled(s, step) && (step.LookUp? || step.Count? || step.Store?)
    requires PcOk(s, s.threads[step.t])
    ensures PcOk(Apply(s, step), Apply(s, step).threads[step.t])
  {
  }

  /** A thread blocks on, or wakes from, a flag of an entry that is alive. */
  lemma WaitPcFacts(s: State, step: Step)
    requires Enabled(s, step) && (step.Acquire? || step.Release? || step.Wake?)
    requires PcOk(s, s.threads[step.t])
    ensures PcOk(Apply(s, step), Apply(s, step).threads[step.t])
  {
  }

  /** Where the thread that takes the step arrives, its facts hold. */
  lemma OwnPcFacts(s: State, step: Step)
    requires Inv(s) && Enabled(s, step) && !step.Spawn?
    ensures PcOk(Apply(s, step), Apply(s, step).threads[step.t])
  {
    assert ThreadOk(s, s.threads[step.t]);
    hide LogInv, LockInv, CountInv, IdInv, HoldOk, Inv, DataInv, ThreadInv;
    if step.LookUp? || step.Count? || step.Store? {
      hide PcOk, Enabled, Apply;
      EntryPcFacts(s, step);
    } else if step.Acquire? || step.Release? || step.Wake? {
      hide PcOk, Enabled, Apply;
      WaitPcFacts(s, step);
    }
  }

  /** The pointer open returns is the data of a ready entry. */
  lemma OwnHolds(s: State, step: Step)
    requires Inv(s) && Enabled(s, step) && !step.Spawn?
    ensures forall h :: h in Apply(s, step).threads[step.t].held ==> HoldOk(Apply(s, step), h)
  {
    var th := s.threads[step.t];
    assert ThreadOk(s, th);
    HoldsKept(s, step, step.t);
    hide LogInv, LockInv, CountInv, IdInv, Uses, HeldCount, Inv, DataInv, ThreadInv;
  }

  /** The thread that takes the step. */
  lemma OwnFacts(s: State, step: Step)
    requires Inv(s) && Enabled(s, step) && !step.Spawn?
    ensures ThreadOk(Apply(s, step), Apply(s, step).threads[step.t])
  {
    OwnPcFacts(s, step);
    OwnHolds(s, step);
    hide Inv, PcOk, HoldOk, Apply, Enabled;
  }

  // ----- Data, flag and log -----

  /** Outside critical sections, and for other names, data and flag stay consistent. */
  lemma StepKeepsData(s: State, step: Step)
    requires Inv(s) && Enabled(s, step)
    ensures DataInv(Apply(s, step))
  {
    hide LogInv, Uses, HeldCount;
    var s' := Apply(s, step);
    forall n | n in s'.entries
      ensures DataOk(s', n)
    {
      if n in s.entries {
        assert DataOk(s, n);
        if step.Uncount? {
          UncountLeavesData(s, step);
        }
      }
      if !step.Spawn? {
        assert ThreadOk(s, s.threads[step.t]);
      }
    }
  }

  /** An entry that is closed was opened, so its data is set. */
  lemma UncountLeavesData(s: State, step: Step)
    requires Inv(s) && Enabled(s, step) && step.Uncount?
    ensures var th := s.threads[step.t];
            s.entries[th.held[th.pc.op.k].name].data.Some?
  {
    var th := s.threads[step.t];
    assert ThreadOk(s, th);
    assert HoldOk(s, th.held[th.pc.op.k]);
    assert DataOk(s, th.held[th.pc.op.k].name);
  }

  lemma StepKeepsLogIds(s: State, step: Step)
    requires Inv(s) && Enabled(s, step)
    ensures LogIds(Apply(s, step))
  {
    hide CountInv, LockInv, DataInv, CreatedOnce, OpensFollowCreates, Uses, HeldCount;
    if !step.Spawn? {
      assert ThreadOk(s, s.threads[step.t]);
    }
  }

  /** create only fills an entry that had no data, so no create named its id before. */
  lemma StepKeepsCreated(s: State, step: Step)
    requires Inv(s) && Enabled(s, step)
    ensures CreatedOnce(Apply(s, step))
  {
    hide CountInv, LockInv, DataInv, LogIds, OpensFollowCreates, Uses, HeldCount;
    if step.Store? {
      assert DataCreated(s, s.threads[step.t].pc.op.name);
    }
  }

  lemma StepKeepsDataCreated(s: State, step: Step, n: Name)
    requires Inv(s) && Enabled(s, step) && n in Apply(s, step).entries
    ensures DataCreated(Apply(s, step), n)
  {
    hide CountInv, LockInv, DataInv, CreatedOnce, OpensFollowCreates, Uses, HeldCount;
    if n in s.entries {
      assert DataCreated(s, n);
    }
  }

  lemma StepKeepsOpens(s: State, step: Step)
    requires Inv(s) && Enabled(s, step)
    ensures OpensFollowCreates(Apply(s, step).log)
  {
    hide CountInv, LockInv, IdInv, CreatedOnce, Uses, HeldCount;
    var log, log' := s.log, Apply(s, step).log;
    forall j | 0 <= j < |log'| && log'[j].Opened?
      ensures var h := log'[j].hold;
              h.ptr.Some? && Created(h.name, h.id, h.ptr.value) in log'[..j] && Destroyed(h.name, h.id) !in log'[..j]
    {
      if j < |log| {
        assert log'[..j] == log[..j] && log'[j] == log[j];
      } else {
        var th := s.threads[step.t];
        assert ThreadOk(s, th);
        assert DataOk(s, th.pc.name) && DataCreated(s, th.pc.name);
        assert log'[..j] == log;
      }
    }
  }

  lemma StepKeepsLog(s: State, step: Step)
    requires Inv(s) && Enabled(s, step)
    ensures LogInv(Apply(s, step))
  {
    StepKeepsLogIds(s, step);
    StepKeepsCreated(s, step);
    StepKeepsOpens(s, step);
    hide Apply, Enabled, LogIds, CreatedOnce, OpensFollowCreates, DataCreated;
    forall n | n in Apply(s, step).entries
      ensures DataCreated(Apply(s, step), n)
    {
      StepKeepsDataCreated(s, step, n);
    }
  }

  lemma StepKeepsInv(s: State, step: Step)
    requires Inv(s) && Enabled(s, step)
    ensures Inv(Apply(s, step))
  {
    hide Apply, Enabled, LockInv, IdInv, CountInv, DataInv, ThreadInv, LogInv;
    StepKeepsLock(s, step);
    StepKeepsIds(s, step);
    StepKeepsCounts(s, step);
    StepKeepsData(s, step);
    StepKeepsThreads(s, step);
    StepKeepsLog(s, step);
  }
}
