/** core/record.c as a step system: any number of threads open, create, close, destroy
    and look up named records. The mutex makes the steps between an acquire and its
    release exclusive; the wait for the ready flag and the read of the pointer after it
    happen without the mutex. */
module RecordProtocol {
  import opened Wrappers

  type Name = string
  type Ptr = nat              // a pointer that is not NULL

  /** RHSRecordData; `id` tells an entry from a later one of the same name. */
  datatype Entry = Entry(id: nat, data: Option<Ptr>, ready: bool, holders: int)

  type Entries = map<Name, Entry>

  // ----- The effects on the dictionary -----

  /** rhs_record_data_get_or_create */
  function Lookup(es: Entries, nextId: nat, name: Name): Entries {
    if name in es then es else es[name := Entry(nextId, None, false, 0)]
  }

  function Counted(es: Entries, name: Name): Entries
    requires name in es
  {
    es[name := es[name].(holders := es[name].holders + 1)]
  }

  function Uncounted(es: Entries, name: Name): Entries
    requires name in es
  {
    es[name := es[name].(holders := es[name].holders - 1)]
  }

  function Stored(es: Entries, name: Name, p: Ptr): Entries
    requires name in es
  {
    es[name := es[name].(data := Some(p))]
  }

  function Flagged(es: Entries, name: Name): Entries
    requires name in es
  {
    es[name := es[name].(ready := true)]
  }

  function Erased(es: Entries, name: Name): Entries
    requires name in es
  {
    if es[name].holders == 0 then es - {name} else es
  }

  // ----- Threads -----

  datatype Op =
    | Open(name: Name)
    | Create(name: Name, p: Ptr)
    | Destroy(name: Name)
    | Close(k: nat)
    | Exists(name: Name)

  /** A record the thread opened and has not closed, with the pointer it got. */
  datatype Hold = Hold(name: Name, id: nat, ptr: Option<Ptr>)

  datatype Pc =
    | Idle
    | Locked(op: Op)                  // the mutex is taken
    | Found(op: Op, id: nat)          // record_data points at the entry
    | Storing(name: Name, id: nat)    // create wrote the data, not yet the flag
    | Leaving                         // about to release the mutex, then done
    | LeavingToWait(name: Name, id: nat)
    | Waiting(name: Name, id: nat)    // blocked on the event flag, without the mutex
    | Ready(name: Name, id: nat)      // the wait returned, the pointer is not yet read

  datatype Thread = Thread(pc: Pc, held: seq<Hold>)

  datatype Event =
    | Created(name: Name, id: nat, p: Ptr)
    | Opened(tid: nat, hold: Hold)
    | Destroyed(name: Name, id: nat)

  datatype State = State(lock: Option<nat>, entries: Entries, nextId: nat, threads: seq<Thread>, log: seq<Event>)

  const INITIAL: State := State(None, map[], 0, [], [])

  datatype Step =
    | Spawn
    | Acquire(t: nat, op: Op)
    | LookUp(t: nat)
    | Count(t: nat)
    | Store(t: nat)
    | Flag(t: nat)
    | Erase(t: nat)
    | Uncount(t: nat)
    | Look(t: nat)
    | Release(t: nat)
    | Wake(t: nat)
    | Return(t: nat)

  predicate Alive(s: State, name: Name, id: nat) {
    name in s.entries && s.entries[name].id == id
  }

  predicate HasPc(s: State, t: nat, pc: Pc) {
    t < |s.threads| && s.threads[t].pc == pc
  }

  /** What the code's next statement needs. A failed assertion or a dangling pointer
      disables the step; NoFailure says which of these cannot happen. */
  predicate Enabled(s: State, step: Step) {
    if step.Spawn? then true
    else
      step.t < |s.threads| &&
      var th := s.threads[step.t];
      match step
      case Acquire(_, op) => th.pc == Idle && s.lock == None && (op.Close? ==> op.k < |th.held|)
      case LookUp(_) => th.pc.Locked? && (th.pc.op.Open? || th.pc.op.Create?)
      case Count(_) => th.pc.Found? && th.pc.op.Open? && Alive(s, th.pc.op.name, th.pc.id)
      case Store(_) => && th.pc.Found? && th.pc.op.Create? && Alive(s, th.pc.op.name, th.pc.id)
                       && s.entries[th.pc.op.name].data == None
      case Flag(_) => th.pc.Storing? && Alive(s, th.pc.name, th.pc.id)
      case Erase(_) => th.pc.Locked? && th.pc.op.Destroy? && th.pc.op.name in s.entries
      case Uncount(_) => && th.pc.Locked? && th.pc.op.Close? && th.pc.op.k < |th.held|
                         && th.held[th.pc.op.k].name in s.entries
      case Look(_) => th.pc.Locked? && th.pc.op.Exists?
      case Release(_) => th.pc.Leaving? || th.pc.LeavingToWait?
      case Wake(_) => th.pc.Waiting? && Alive(s, th.pc.name, th.pc.id) && s.entries[th.pc.name].ready
      case Return(_) => th.pc.Ready? && Alive(s, th.pc.name, th.pc.id)
  }

  function Set(s: State, t: nat, pc: Pc): State
    requires t < |s.threads|
  {
    s.(threads := s.threads[t := s.threads[t].(pc := pc)])
  }

  function Without(held: seq<Hold>, k: nat): seq<Hold>
    requires k < |held|
  {
    held[..k] + held[k + 1..]
  }

  function Apply(s: State, step: Step): State
    requires Enabled(s, step)
  {
    match step
    case Spawn => s.(threads := s.threads + [Thread(Idle, [])])
    case Acquire(t, op) => Set(s, t, Locked(op)).(lock := Some(t))
    case LookUp(t) =>
      var op := s.threads[t].pc.op;
      var es := Lookup(s.entries, s.nextId, op.name);
      Set(s, t, Found(op, es[op.name].id)).(entries := es, nextId := s.nextId + 1)
    case Count(t) =>
      var pc := s.threads[t].pc;
      Set(s, t, LeavingToWait(pc.op.name, pc.id)).(entries := Counted(s.entries, pc.op.name))
    case Store(t) =>
      var pc := s.threads[t].pc;
      Set(s, t, Storing(pc.op.name, pc.id)).(entries := Stored(s.entries, pc.op.name, pc.op.p),
                                              log := s.log + [Created(pc.op.name, pc.id, pc.op.p)])
    case Flag(t) =>
      Set(s, t, Leaving).(entries := Flagged(s.entries, s.threads[t].pc.name))
    case Erase(t) =>
      var name := s.threads[t].pc.op.name;
      var e := s.entries[name];
      Set(s, t, Leaving).(entries := Erased(s.entries, name),
                          log := if e.holders == 0 then s.log + [Destroyed(name, e.id)] else s.log)
    case Uncount(t) =>
      var th := s.threads[t];
      var k := th.pc.op.k;
      s.(entries := Uncounted(s.entries, th.held[k].name),
         threads := s.threads[t := Thread(Leaving, Without(th.held, k))])
    case Look(t) => Set(s, t, Leaving)
    case Release(t) =>
      var pc := s.threads[t].pc;
      Set(s, t, if pc.LeavingToWait? then Waiting(pc.name, pc.id) else Idle).(lock := None)
    case Wake(t) =>
      var pc := s.threads[t].pc;
      Set(s, t, Ready(pc.name, pc.id))
    case Return(t) =>
      var pc := s.threads[t].pc;
      var hold := Hold(pc.name, pc.id, s.entries[pc.name].data);
      s.(threads := s.threads[t := Thread(Idle, s.threads[t].held + [hold])],
         log := s.log + [Opened(t, hold)])
  }

  /** Where a step leads, if it is possible. */
  function Next(s: State, step: Step): Option<State> {
    if Enabled(s, step) then Some(Apply(s, step)) else None
  }

  // ----- Counting the holders -----

  function HeldCount(held: seq<Hold>, id: nat): nat {
    if held == [] then 0 else HeldCount(held[1..], id) + if held[0].id == id then 1 else 0
  }

  /** How often a thread waits on or holds the entry. */
  function UsesOf(th: Thread, id: nat): nat {
    HeldCount(th.held, id) +
    if (th.pc.LeavingToWait? || th.pc.Waiting? || th.pc.Ready?) && th.pc.id == id then 1 else 0
  }

  function Uses(ts: seq<Thread>, id: nat): nat {
    if ts == [] then 0 else UsesOf(ts[0], id) + Uses(ts[1..], id)
  }

  lemma {:induction false} UsesUpdate(ts: seq<Thread>, t: nat, th: Thread, id: nat)
    requires t < |ts|
    ensures Uses(ts[t := th], id) == Uses(ts, id) - UsesOf(ts[t], id) + UsesOf(th, id)
  {
    hide UsesOf;
    if t > 0 {
      UsesUpdate(ts[1..], t - 1, th, id);
      assert ts[t := th][1..] == ts[1..][t - 1 := th];
    } else {
      assert ts[t := th][1..] == ts[1..];
    }
  }

  lemma {:induction false} UsesAppend(ts: seq<Thread>, th: Thread, id: nat)
    ensures Uses(ts + [th], id) == Uses(ts, id) + UsesOf(th, id)
  {
    hide UsesOf;
    if ts == [] {
      assert ts + [th] == [th];
      assert [th][1..] == [];
    } else {
      UsesAppend(ts[1..], th, id);
      assert (ts + [th])[1..] == ts[1..] + [th];
    }
  }

  lemma {:induction false} UsesAtLeast(ts: seq<Thread>, t: nat, id: nat)
    requires t < |ts|
    ensures Uses(ts, id) >= UsesOf(ts[t], id)
  {
    hide UsesOf;
    if t > 0 {
      UsesAtLeast(ts[1..], t - 1, id);
    }
  }

  lemma {:induction false} SomeUser(ts: seq<Thread>, id: nat) returns (t: nat)
    requires Uses(ts, id) > 0
    ensures t < |ts| && UsesOf(ts[t], id) > 0
  {
    hide UsesOf;
    if UsesOf(ts[0], id) > 0 {
      t := 0;
    } else {
      t := SomeUser(ts[1..], id);
      t := t + 1;
    }
  }

  lemma {:induction false} HeldCountPositive(held: seq<Hold>, k: nat)
    requires k < |held|
    ensures HeldCount(held, held[k].id) > 0
  {
    if k > 0 {
      HeldCountPositive(held[1..], k - 1);
    }
  }

  lemma {:induction false} SomeHold(held: seq<Hold>, id: nat) returns (k: nat)
    requires HeldCount(held, id) > 0
    ensures k < |held| && held[k].id == id
  {
    if held[0].id == id {
      k := 0;
    } else {
      k := SomeHold(held[1..], id);
      k := k + 1;
    }
  }

  lemma {:induction false} HeldCountWithout(held: seq<Hold>, k: nat, id: nat)
    requires k < |held|
    ensures HeldCount(Without(held, k), id) == HeldCount(held, id) - if held[k].id == id then 1 else 0
  {
    if k > 0 {
      HeldCountWithout(held[1..], k - 1, id);
      assert Without(held, k)[1..] == Without(held[1..], k - 1);
    } else {
      assert Without(held, k) == held[1..];
    }
  }

  lemma {:induction false} HeldCountAppend(held: seq<Hold>, h: Hold, id: nat)
    ensures HeldCount(held + [h], id) == HeldCount(held, id) + if h.id == id then 1 else 0
  {
    if held == [] {
      assert held + [h] == [h];
      assert [h][1..] == [];
    } else {
      HeldCountAppend(held[1..], h, id);
      assert (held + [h])[1..] == held[1..] + [h];
    }
  }
}
