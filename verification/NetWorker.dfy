/** The message handling of net_worker on the heap: the linked list of listeners, the open
    endpoints and the interface, updated in place, with the effect NetEffects gives a message. */
module NetWorker {
  import opened NetListeners
  import opened NetEffects
  import opened NetUtils

  lemma {:induction false} OtherPortsThen(u: Urls, es: seq<Entry>, e: Entry, port: nat)
    ensures OtherPorts(u, es + [e], port) == OtherPorts(u, es, port) + if u.port(e.uri) == port then [] else [e]
  {
    assert (es + [e])[0] == if es == [] then e else es[0];
    if es == [] {
      assert (es + [e])[1..] == [];
    } else {
      OtherPortsThen(u, es[1..], e, port);
      assert (es + [e])[1..] == es[1..] + [e];
    }
  }

  class Worker {
    const u: Urls
    const listeners: List
    var open: seq<Entry>
    var ifp: Interface

    constructor (u: Urls, ifp: Interface)
      ensures this.u == u && this.ifp == ifp && fresh(listeners) && listeners.Valid() && fresh(listeners.spine)
      ensures Contents() == Net([], [], ifp)
    {
      this.u, this.ifp := u, ifp;
      listeners := new List();
      open := [];
    }

    ghost function Contents(): Net
      reads this, listeners
    {
      Net(listeners.Contents(), open, ifp)
    }

    /** SetHttp and SetTcp */
    method HandleSet(e: Entry)
      requires listeners.Valid()
      modifies this, listeners, listeners.spine
      ensures listeners.Valid()
      ensures forall x :: x in listeners.spine ==> x in old(listeners.spine) || fresh(x)
      ensures Contents() == Effect(u, old(Contents()), Set(e))
    {
      open := open + [e];
      listeners.Add(e.kind, e.uri, e.fn, e.context);
    }

    /** The connections on the port are marked, the poll that follows drops them. */
    method CloseOnPort(port: nat)
      modifies this`open
      ensures open == OtherPorts(u, old(open), port)
    {
      var conns, kept := open, [];
      for i := 0 to |conns|
        invariant kept == OtherPorts(u, conns[..i], port)
      {
        OtherPortsThen(u, conns[..i], conns[i], port);
        assert conns[..i + 1] == conns[..i] + [conns[i]];
        if u.port(conns[i].uri) != port {
          kept := kept + [conns[i]];
        }
      }
      assert conns[..|conns|] == conns;
      open := kept;
    }

    /** RstTcp up to the inner round of the event loop. */
    method BeginReset(uri: string)
      modifies this`open
      ensures Contents() == Begun(u, old(Contents()), Reset(uri))
    {
      if u.resolves(uri) {
        CloseOnPort(u.port(uri));
      }
    }

    /** RstTcp after it. */
    method CompleteReset(uri: string)
      requires listeners.Valid()
      modifies listeners, listeners.spine
      ensures listeners.Valid()
      ensures forall x :: x in listeners.spine ==> x in old(listeners.spine)
      ensures Contents() == Completed(u, old(Contents()), Reset(uri))
    {
      if u.resolves(uri) {
        var found := listeners.Remove(uri);
      }
    }

    /** RstTcp */
    method HandleReset(uri: string)
      requires listeners.Valid()
      modifies this, listeners, listeners.spine
      ensures listeners.Valid()
      ensures forall x :: x in listeners.spine ==> x in old(listeners.spine)
      ensures Contents() == Effect(u, old(Contents()), Reset(uri))
    {
      hide Effect, Begun, Completed, Contents;
      InParts(u, Contents(), Reset(uri));
      BeginReset(uri);
      CompleteReset(uri);
    }

    method Reparse(text: CString, was: Address) returns (ip: Address)
      ensures ip == Parsed(text, was)
    {
      var ok, x := StringToIp(text);
      ip := if ok then x else was;
      forall y | Denotes(text, x) && Denotes(text, y)
        ensures x == y
      {
        DenotesUnique(text, x, y);
      }
    }

    /** Restart up to the inner round of the event loop, which closes all connections. */
    method BeginRestart(c: Config)
      modifies this
      ensures Contents() == Begun(u, old(Contents()), Restart(c))
    {
      hide Parsed;
      var ip := Reparse(c.ip, ifp.ip);
      var mask := Reparse(c.mask, ifp.mask);
      var gateway := Reparse(c.gateway, ifp.gateway);
      ifp := Interface(ip, mask, gateway);
      open := [];
    }

    /** Restart after it: every registered listener is opened again. */
    method CompleteRestart(ghost c: Config)
      requires listeners.Valid() && open == []
      modifies this`open
      ensures Contents() == Completed(u, old(Contents()), Restart(c))
    {
      var listener := listeners.head;
      ghost var i := 0;
      while listener != null
        invariant 0 <= i <= |listeners.spine| && listener == listeners.NextOf(i - 1)
        invariant open == listeners.Contents()[..i]
        decreases |listeners.spine| - i
      {
        open := open + [listener.Value()];
        listener := listener.next;
        i := i + 1;
      }
    }

    /** Restart */
    method HandleRestart(c: Config)
      requires listeners.Valid()
      modifies this
      ensures listeners.Valid()
      ensures Contents() == Effect(u, old(Contents()), Restart(c))
    {
      InParts(u, Contents(), Restart(c));
      BeginRestart(c);
      hide Effect, Begun, Completed;
      ClosedByRestart(u, old(Contents()), c);
      CompleteRestart(c);
    }

    /** One message; true when the loop goes on. */
    method HandleMessage(b: Body) returns (goesOn: bool)
      requires listeners.Valid()
      modifies this, listeners, listeners.spine
      ensures listeners.Valid() && goesOn == !b.Stop?
      ensures Contents() == Effect(u, old(Contents()), b)
    {
      hide Effect, Contents;
      goesOn := true;
      match b
      case Set(e) => HandleSet(e);
      case Reset(uri) => HandleReset(uri);
      case Restart(c) => HandleRestart(c);
      case Stop =>
        goesOn := false;
        StopChangesNothing(u, Contents());
    }
  }

  lemma ClosedByRestart(u: Urls, n: Net, c: Config)
    ensures Begun(u, n, Restart(c)).open == []
  {
  }

  lemma StopChangesNothing(u: Urls, n: Net)
    ensures Effect(u, n, Stop) == n
  {
  }
}
