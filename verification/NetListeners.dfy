/** net_listeners.c: the registered listeners as a singly linked list on the heap. */
module NetListeners {
  datatype Kind = Http | Tcp

  datatype Entry = Entry(kind: Kind, uri: string, fn: nat, context: nat)

  /** The list without the first entry of that uri. */
  function RemoveFirst(es: seq<Entry>, uri: string): seq<Entry> {
    if es == [] then []
    else if es[0].uri == uri then es[1..]
    else [es[0]] + RemoveFirst(es[1..], uri)
  }

  predicate Has(es: seq<Entry>, uri: string) {
    exists i :: 0 <= i < |es| && es[i].uri == uri
  }

  /** What removal does to the list, from the position of the entry. */
  lemma {:induction false} RemoveFirstAt(es: seq<Entry>, uri: string, k: nat)
    requires k < |es| && es[k].uri == uri
    requires forall i :: 0 <= i < k ==> es[i].uri != uri
    ensures RemoveFirst(es, uri) == Without(es, k)
  {
    if k > 0 {
      RemoveFirstAt(es[1..], uri, k - 1);
      assert es[..k] == [es[0]] + es[1..][..k - 1];
    }
  }

  lemma {:induction false} RemoveAbsent(es: seq<Entry>, uri: string)
    requires forall i :: 0 <= i < |es| ==> es[i].uri != uri
    ensures RemoveFirst(es, uri) == es
  {
    if es != [] {
      RemoveAbsent(es[1..], uri);
    }
  }

  class Listener {
    const kind: Kind
    const uri: string
    const fn: nat
    const context: nat
    var next: Listener?

    constructor (kind: Kind, uri: string, fn: nat, context: nat)
      ensures Value() == Entry(kind, uri, fn, context) && next == null
    {
      this.kind, this.uri, this.fn, this.context, next := kind, uri, fn, context, null;
    }

    function Value(): Entry {
      Entry(kind, uri, fn, context)
    }
  }

  function Without<T>(s: seq<T>, k: nat): (r: seq<T>)
    requires k < |s|
    ensures |r| == |s| - 1
  {
    s[..k] + s[k + 1..]
  }

  lemma WithoutAt<T>(s: seq<T>, k: nat)
    requires k < |s|
    ensures forall i :: 0 <= i < k ==> Without(s, k)[i] == s[i]
    ensures forall i :: k <= i < |s| - 1 ==> Without(s, k)[i] == s[i + 1]
  {
  }

  ghost function Values(nodes: seq<Listener>): (es: seq<Entry>)
    ensures |es| == |nodes| && forall i :: 0 <= i < |es| ==> es[i] == nodes[i].Value()
  {
    seq(|nodes|, i requires 0 <= i < |nodes| => nodes[i].Value())
  }

  lemma ValuesWithout(nodes: seq<Listener>, k: nat)
    requires k < |nodes|
    ensures Values(Without(nodes, k)) == Without(Values(nodes), k)
  {
    WithoutAt(nodes, k);
    WithoutAt(Values(nodes), k);
    hide Values, Without;
  }

  class List {
    var head: Listener?
    ghost var spine: seq<Listener>

    ghost function NextOf(i: int): Listener?
      requires -1 <= i < |spine|
      reads this
    {
      if i + 1 < |spine| then spine[i + 1] else null
    }

    /** The nodes from head along next are the spine, each of them once. */
    ghost predicate Valid()
      reads this, spine
    {
      && head == NextOf(-1)
      && (forall i :: 0 <= i < |spine| ==> spine[i].next == NextOf(i))
      && (forall i, j :: 0 <= i < j < |spine| ==> spine[i] != spine[j])
    }

    ghost function Contents(): (es: seq<Entry>)
      reads this
      ensures |es| == |spine| && forall i :: 0 <= i < |es| ==> es[i] == spine[i].Value()
    {
      Values(spine)
    }

    constructor ()
      ensures Valid() && Contents() == [] && fresh(spine)
    {
      head, spine := null, [];
    }

    /** net_listeners_add */
    method Add(kind: Kind, uri: string, fn: nat, context: nat)
      requires Valid()
      modifies this, spine
      ensures Valid() && forall x :: x in spine ==> x in old(spine) || fresh(x)
      ensures Contents() == old(Contents()) + [Entry(kind, uri, fn, context)]
    {
      var listener := new Listener(kind, uri, fn, context);
      if head == null {
        head := listener;
      } else {
        var current := head;
        ghost var i := 0;
        while current.next != null
          invariant 0 <= i < |spine| && current == spine[i]
          decreases |spine| - i
        {
          current := current.next;
          i := i + 1;
        }
        current.next := listener;
      }
      spine := spine + [listener];
    }

    method Unlink(previous: Listener?, current: Listener, ghost k: nat)
      requires Valid() && k < |spine| && current == spine[k]
      requires previous == if k == 0 then null else spine[k - 1]
      modifies this, spine
      ensures Valid() && spine == Without(old(spine), k)
      ensures Contents() == Without(old(Contents()), k)
    {
      ghost var was := spine;
      hide Values, Without;
      WithoutAt(was, k);
      ValuesWithout(was, k);
      if previous == null {
        head := current.next;
      } else {
        previous.next := current.next;
      }
      spine := Without(was, k);
    }

    /** net_listeners_remove */
    method Remove(uri: string) returns (found: bool)
      requires Valid()
      modifies this, spine
      ensures Valid() && forall x :: x in spine ==> x in old(spine)
      ensures found == Has(old(Contents()), uri)
      ensures Contents() == RemoveFirst(old(Contents()), uri)
    {
      var current, previous := head, null;
      ghost var k := 0;
      while current != null
        invariant 0 <= k <= |spine| && current == NextOf(k - 1)
        invariant previous == if k == 0 then null else spine[k - 1]
        invariant Valid() && spine == old(spine)
        invariant forall i :: 0 <= i < k ==> spine[i].uri != uri
        decreases |spine| - k
      {
        if current.uri == uri {
          RemoveFirstAt(Contents(), uri, k);
          assert Contents()[k].uri == uri;
          hide Contents, RemoveFirst, Valid, Without;
          Unlink(previous, current, k);
          return true;
        }
        previous := current;
        current := current.next;
        k := k + 1;
      }
      RemoveAbsent(Contents(), uri);
      return false;
    }
  }
}
