/** What holds after any run of the record registry, from the empty registry on. */
module RecordRuns {
  import opened Wrappers
  import opened RecordProtocol
  import opened RecordInvariant
  import Runs

  ghost predicate Reachable(s: State) {
    Runs.Reachable(Next, INITIAL, s)
  }

  lemma ReachableInv(s: State)
    requires Reachable(s)
    ensures Inv(s)
  {
    assert Inv(INITIAL);
    hide Inv, Apply, Enabled;
    forall s, step | Inv(s) && Next(s, step).Some?
      ensures Inv(Next(s, step).value)
    {
      StepKeepsInv(s, step);
    }
    assert Runs.Inductive(Next, Inv);
    Runs.ReachableKeeps(Next, Inv, INITIAL, s);
  }

  // ----- Counts, data and flag -----

  /** The number of holders is the number of threads' waits and holds on the entry; with the
      mutex free an entry is ready exactly when it has data, and without data somebody waits. */
  lemma EntriesAreConsistent(s: State, n: Name)
    requires Reachable(s) && n in s.entries
    ensures var e := s.entries[n];
            && e.holders == Uses(s.threads, e.id)
            && (e.ready ==> e.data.Some?)
            && (s.lock == None ==> (e.ready <==> e.data.Some?))
            && (s.lock == None && e.data == None ==>
                  exists t :: 0 <= t < |s.threads| && s.threads[t].pc == Waiting(n, e.id))
  {
    ReachableInv(s);
    var e := s.entries[n];
    assert DataOk(s, n);
    hide LogInv;
    if s.lock == None && e.data == None {
      var t := SomeUser(s.threads, e.id);
      assert ThreadOk(s, s.threads[t]);
      WaitsWhileEmpty(s, n, t);
    }
  }

  /** Nobody has woken on an entry without data. */
  lemma WaitsWhileEmpty(s: State, n: Name, t: nat)
    requires Inv(s) && s.lock == None && n in s.entries && s.entries[n].data == None
    requires t < |s.threads| && UsesOf(s.threads[t], s.entries[n].id) > 0
    ensures s.threads[t].pc == Waiting(n, s.entries[n].id)
  {
    var th, id := s.threads[t], s.entries[n].id;
    assert ThreadOk(s, th) && DataOk(s, n);
    hide LogInv, CountInv;
    if HeldCount(th.held, id) > 0 {
      HolderHasData(s, n, t);
    }
  }

  /** Nobody holds an entry without data. */
  lemma HolderHasData(s: State, n: Name, t: nat)
    requires Inv(s) && n in s.entries && t < |s.threads|
    requires HeldCount(s.threads[t].held, s.entries[n].id) > 0
    ensures s.entries[n].data.Some?
  {
    var th := s.threads[t];
    assert ThreadOk(s, th);
    hide LogInv, CountInv;
    var k := SomeHold(th.held, s.entries[n].id);
    assert HoldOk(s, th.held[k]);
    assert DataOk(s, n);
  }

  // ----- What open returns -----

  /** Every open returned the pointer an earlier create gave to that entry, no create of the
      entry gave another one, and the entry had not been destroyed. */
  lemma OpenReturnsCreated(s: State, j: nat)
    requires Reachable(s) && j < |s.log| && s.log[j].Opened?
    ensures var h := s.log[j].hold;
            && h.ptr.Some?
            && Created(h.name, h.id, h.ptr.value) in s.log[..j]
            && Destroyed(h.name, h.id) !in s.log[..j]
            && forall m: Name, p: Ptr :: Created(m, h.id, p) in s.log ==> m == h.name && p == h.ptr.value
  {
    ReachableInv(s);
    hide CountInv, IdInv, DataInv, ThreadInv, LockInv, LogIds;
    var h := s.log[j].hold;
    assert Created(h.name, h.id, h.ptr.value) in s.log;
  }

  /** A record that was opened and not yet closed is in the registry with the pointer the open
      returned, and no destroy removed it. */
  lemma HeldSurvives(s: State, t: nat, k: nat)
    requires Reachable(s) && t < |s.threads| && k < |s.threads[t].held|
    ensures var h := s.threads[t].held[k];
            && Alive(s, h.name, h.id)
            && s.entries[h.name].data == h.ptr
            && s.entries[h.name].ready
            && Destroyed(h.name, h.id) !in s.log
  {
    ReachableInv(s);
    assert ThreadOk(s, s.threads[t]);
    assert HoldOk(s, s.threads[t].held[k]);
  }

  /** destroy removes the entry, and says so, exactly when no thread waits on it or holds it. */
  lemma DestroyIffUnused(s: State, t: nat)
    requires Reachable(s) && Enabled(s, Erase(t))
    ensures var name := s.threads[t].pc.op.name;
            var id := s.entries[name].id;
            name !in Apply(s, Erase(t)).entries <==> forall u :: 0 <= u < |s.threads| ==> UsesOf(s.threads[u], id) == 0
  {
    ReachableInv(s);
    hide LogInv, ThreadInv, DataInv, IdInv, LockInv, UsesOf;
    var name := s.threads[t].pc.op.name;
    var id := s.entries[name].id;
    assert s.entries[name].holders == Uses(s.threads, id);
    forall u | 0 <= u < |s.threads|
      ensures Uses(s.threads, id) >= UsesOf(s.threads[u], id)
    {
      UsesAtLeast(s.threads, u, id);
    }
    if Uses(s.threads, id) > 0 {
      var u := SomeUser(s.threads, id);
    }
  }

  // ----- No failure, and progress -----

  /** Whatever the other threads do, the entry open, create and close work on is still there:
      close's assertion holds and no statement uses a freed entry. */
  lemma EntryStillThere(s: State, t: nat)
    requires Reachable(s) && t < |s.threads|
    ensures match s.threads[t].pc
            case Found(Open(_), _) => Enabled(s, Count(t))
            case Storing(_, _) => Enabled(s, Flag(t))
            case Locked(Close(_)) => Enabled(s, Uncount(t))
            case Waiting(n, id) => Alive(s, n, id)
            case Ready(_, _) => Enabled(s, Return(t))
            case _ => true
  {
    ReachableInv(s);
    var th := s.threads[t];
    assert PcOk(s, th) by {
      assert ThreadOk(s, th);
    }
    if th.pc.Locked? && th.pc.op.Close? {
      assert HoldOk(s, th.held[th.pc.op.k]) by {
        assert ThreadOk(s, th);
      }
    }
    hide Inv;
  }

  /** The two assertions that depend on the callers: create's holds exactly when no create gave
      this entry a pointer before, destroy's exactly when the name is there. */
  lemma CallerAssertions(s: State, t: nat)
    requires Reachable(s) && t < |s.threads|
    ensures match s.threads[t].pc
            case Found(Create(n, _), id) => Enabled(s, Store(t)) <==> forall p: Ptr :: Created(n, id, p) !in s.log
            case Locked(Destroy(n)) => Enabled(s, Erase(t)) <==> n in s.entries
            case _ => true
  {
    ReachableInv(s);
    var th := s.threads[t];
    assert ThreadOk(s, th);
    hide CountInv, LockInv, DataInv, IdInv, LogIds, OpensFollowCreates, CreatedOnce, HoldOk;
    if th.pc.Found? && th.pc.op.Create? {
      assert DataCreated(s, th.pc.op.name);
    }
  }

  /** With the mutex free, a blocked open wakes exactly when its entry has been given a pointer. */
  lemma WakesIffCreated(s: State, t: nat)
    requires Reachable(s) && t < |s.threads| && s.threads[t].pc.Waiting? && s.lock == None
    ensures var pc := s.threads[t].pc;
            Enabled(s, Wake(t)) <==> exists p: Ptr :: Created(pc.name, pc.id, p) in s.log
  {
    ReachableInv(s);
    var pc := s.threads[t].pc;
    assert ThreadOk(s, s.threads[t]);
    assert DataOk(s, pc.name) && DataCreated(s, pc.name);
    hide CountInv, IdInv, LogIds, OpensFollowCreates, CreatedOnce;
  }

  /** When the wait of open has returned, the entry has the pointer its create gave it. */
  lemma WokenHasPointer(s: State, t: nat)
    requires Reachable(s) && t < |s.threads| && s.threads[t].pc.Ready?
    ensures var pc := s.threads[t].pc;
            && Alive(s, pc.name, pc.id) && s.entries[pc.name].data.Some?
            && Created(pc.name, pc.id, s.entries[pc.name].data.value) in s.log
  {
    ReachableInv(s);
    var pc := s.threads[t].pc;
    assert ThreadOk(s, s.threads[t]);
    assert DataOk(s, pc.name) && DataCreated(s, pc.name);
    hide CountInv, IdInv, LockInv, LogIds, OpensFollowCreates, CreatedOnce;
  }
}
