/** core/record.c on the heap: the dictionary and its entries as objects that are updated in
    place. Each method is the body of one critical section and has the effect that
    RecordProtocol gives its steps; the mutex that surrounds it is part of that protocol. */
module RecordStore {
  import opened Wrappers
  import opened RecordProtocol
  import RecordRuns

  class RecordData {
    const id: nat               // counts the entries ever made, only read by the proofs
    var data: Option<Ptr>
    var ready: bool             // the event flag RHS_RECORD_FLAG_READY
    var holders: int

    constructor (id: nat)
      ensures this.id == id && data == None && !ready && holders == 0
    {
      this.id, data, ready, holders := id, None, false, 0;
    }

    ghost function Value(): Entry
      reads this
    {
      Entry(id, data, ready, holders)
    }
  }

  /** create's two writes together. */
  lemma BothWrites(es: Entries, name: Name, p: Ptr)
    requires name in es
    ensures Flagged(Stored(es, name, p), name) == es[name := es[name].(data := Some(p), ready := true)]
  {
  }

  class Registry {
    var records: map<Name, RecordData>
    var made: nat

    /** No two names share an entry. */
    ghost predicate Valid()
      reads this
    {
      forall m, n :: m in records && n in records && m != n ==> records[m] != records[n]
    }

    ghost function Contents(): (es: Entries)
      reads this, records.Values
      ensures es.Keys == records.Keys
    {
      map n | n in records :: records[n].Value()
    }

    /** No two names share an entry, so writing one entry changes one name. */
    twostate lemma OneEntryWritten(name: Name)
      requires Valid() && records == old(records) && name in records
      requires forall n :: n in records && records[n] != records[name] ==> unchanged(records[n])
      ensures Contents() == old(Contents())[name := records[name].Value()]
    {
    }

    constructor ()
      ensures Valid() && Contents() == map[] && made == 0
    {
      records, made := map[], 0;
    }

    method Get(name: Name) returns (r: RecordData?)
      requires Valid()
      ensures (r != null) == (name in Contents())
      ensures r != null ==> r == records[name]
    {
      r := null;
      if name in records {
        r := records[name];
      }
    }

    method GetOrCreate(name: Name) returns (r: RecordData)
      requires Valid()
      modifies this
      ensures Valid() && made == old(made) + 1
      ensures Contents() == Lookup(old(Contents()), old(made), name)
      ensures name in records && r == records[name]
      ensures forall n :: n in records ==> fresh(records[n]) || records[n] in old(records).Values
    {
      var found := Get(name);
      if found == null {
        r := new RecordData(made);
        records := records[name := r];
      } else {
        r := found;
      }
      made := made + 1;
    }

    method Exists(name: Name) returns (ret: bool)
      requires Valid()
      ensures ret == (name in Contents())
    {
      var r := Get(name);
      ret := r != null;
    }

    method Create(name: Name, p: Ptr)
      requires Valid()
      requires name in records ==> records[name].data == None
      modifies this, records.Values
      ensures Valid() && made == old(made) + 1
      ensures Contents() == Flagged(Stored(Lookup(old(Contents()), old(made), name), name, p), name)
      ensures name in records && records[name].data == Some(p) && records[name].ready
    {
      var r := GetOrCreate(name);
      label Found:
      ghost var es := Contents();
      assert es[name] == r.Value();
      r.data := Some(p);
      r.ready := true;
      hide Contents, Lookup, Stored, Flagged;
      OneEntryWritten@Found(name);
      BothWrites(es, name, p);
    }

    /** The first half of open: the entry the caller then waits on. */
    method OpenSection(name: Name) returns (r: RecordData)
      requires Valid()
      modifies this, records.Values
      ensures Valid() && made == old(made) + 1
      ensures Contents() == Counted(Lookup(old(Contents()), old(made), name), name)
      ensures name in records && r == records[name]
      ensures r.holders == 1 + if name in old(records) then old(records[name].holders) else 0
    {
      r := GetOrCreate(name);
      label Found:
      r.holders := r.holders + 1;
      OneEntryWritten@Found(name);
      hide Contents;
    }

    method Destroy(name: Name) returns (ret: bool)
      requires Valid() && name in records
      modifies this
      ensures Valid() && made == old(made)
      ensures Contents() == Erased(old(Contents()), name)
      ensures ret == (name !in Contents()) == (old(records[name].holders) == 0)
    {
      ret := false;
      var r := records[name];
      if r.holders == 0 {
        records := records - {name};
        ret := true;
      }
    }

    method Close(name: Name)
      requires Valid() && name in records
      modifies records.Values
      ensures Valid() && made == old(made) && records == old(records)
      ensures Contents() == Uncounted(old(Contents()), name)
      ensures records[name].holders == old(records[name].holders) - 1
    {
      var r := records[name];
      r.holders := r.holders - 1;
    }
  }

  /** The second half of open, in a state of the protocol in which the wait has returned for thread t:
      the pointer is there, and it is the one that create gave the entry. */
  method Awaited(r: RecordData, ghost s: State, ghost t: nat) returns (p: Ptr)
    requires RecordRuns.Reachable(s) && t < |s.threads| && s.threads[t].pc.Ready?
    requires s.threads[t].pc.name in s.entries && r.Value() == s.entries[s.threads[t].pc.name]
    ensures r.Value().data == Some(p)
    ensures Created(s.threads[t].pc.name, s.threads[t].pc.id, p) in s.log
  {
    RecordRuns.WokenHasPointer(s, t);
    p := r.data.value;
  }
}
