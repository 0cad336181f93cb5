/** What net_worker does for each message: on the registered listeners, on the listening
    endpoints that are open, and on the addresses of the interface. Listening is taken to succeed. */
module NetEffects {
  import opened NetListeners
  import opened NetUtils

  /** What Mongoose says of a uri: its port, and whether its host is an address. */
  datatype Urls = Urls(port: string -> nat, resolves: string -> bool)

  datatype Config = Config(ip: CString, mask: CString, gateway: CString)

  datatype Body =
    | Set(entry: Entry)         // SetHttp and SetTcp
    | Reset(uri: string)        // RstTcp
    | Restart(config: Config)
    | Stop

  datatype Interface = Interface(ip: Address, mask: Address, gateway: Address)

  datatype Net = Net(listeners: seq<Entry>, open: seq<Entry>, ifp: Interface)

  /** The address a text denotes; a malformed text leaves the old one. */
  ghost function Parsed(text: CString, was: Address): (ip: Address)
    ensures Denotes(text, ip) || ((forall x :: !Denotes(text, x)) && ip == was)
  {
    if exists x :: Denotes(text, x) then var x :| Denotes(text, x); x else was
  }

  /** The endpoints that stay open when those on a port are closed. */
  function OtherPorts(u: Urls, es: seq<Entry>, port: nat): seq<Entry> {
    if es == [] then []
    else (if u.port(es[0].uri) == port then [] else [es[0]]) + OtherPorts(u, es[1..], port)
  }

  ghost function Effect(u: Urls, n: Net, b: Body): Net {
    match b
    case Set(e) => n.(listeners := n.listeners + [e], open := n.open + [e])
    case Reset(uri) =>
      if u.resolves(uri)
      then n.(listeners := RemoveFirst(n.listeners, uri), open := OtherPorts(u, n.open, u.port(uri)))
      else n
    case Restart(c) =>
      n.(open := n.listeners,
         ifp := Interface(Parsed(c.ip, n.ifp.ip), Parsed(c.mask, n.ifp.mask), Parsed(c.gateway, n.ifp.gateway)))
    case Stop => n
  }

  /** Messages that run the event loop once more while they are handled. */
  predicate Polls(u: Urls, b: Body) {
    (b.Reset? && u.resolves(b.uri)) || b.Restart?
  }

  /** What is done when that inner round of the event loop runs. */
  ghost function Begun(u: Urls, n: Net, b: Body): Net {
    match b
    case Reset(uri) => if u.resolves(uri) then n.(open := OtherPorts(u, n.open, u.port(uri))) else n
    case Restart(c) =>
      n.(open := [],
         ifp := Interface(Parsed(c.ip, n.ifp.ip), Parsed(c.mask, n.ifp.mask), Parsed(c.gateway, n.ifp.gateway)))
    case _ => n
  }

  /** What is done after it. */
  function Completed(u: Urls, n: Net, b: Body): Net {
    match b
    case Set(e) => n.(listeners := n.listeners + [e], open := n.open + [e])
    case Reset(uri) => if u.resolves(uri) then n.(listeners := RemoveFirst(n.listeners, uri)) else n
    case Restart(_) => n.(open := n.listeners)
    case Stop => n
  }

  lemma InParts(u: Urls, n: Net, b: Body)
    ensures Effect(u, n, b) == Completed(u, Begun(u, n, b), b)
    ensures !Polls(u, b) ==> Begun(u, n, b) == n
  {
  }

  /** The state after a list of handled messages. */
  ghost function Fold(u: Urls, n: Net, bodies: seq<Body>): Net {
    if bodies == [] then n else Effect(u, Fold(u, n, bodies[..|bodies| - 1]), bodies[|bodies| - 1])
  }

  function OnPort(u: Urls, es: seq<Entry>, port: nat): nat {
    if es == [] then 0 else (if u.port(es[0].uri) == port then 1 else 0) + OnPort(u, es[1..], port)
  }

  lemma {:induction false} OtherPortsLength(u: Urls, es: seq<Entry>, port: nat)
    ensures |OtherPorts(u, es, port)| == |es| - OnPort(u, es, port)
    ensures OnPort(u, es, port) == 0 ==> OtherPorts(u, es, port) == es
  {
    if es != [] {
      OtherPortsLength(u, es[1..], port);
    }
  }

  lemma {:induction false} RemoveFirstLength(es: seq<Entry>, uri: string)
    ensures |RemoveFirst(es, uri)| == |es| - if Has(es, uri) then 1 else 0
  {
    if es != [] {
      RemoveFirstLength(es[1..], uri);
      assert Has(es[1..], uri) ==> Has(es, uri) by {
        if Has(es[1..], uri) {
          var i :| 0 <= i < |es[1..]| && es[1..][i].uri == uri;
          assert es[i + 1].uri == uri;
        }
      }
      if es[0].uri != uri && Has(es, uri) {
        var i :| 0 <= i < |es| && es[i].uri == uri;
        assert es[1..][i - 1].uri == uri;
      }
    }
  }

  /** With one endpoint on the port, and that one with the uri, both removals are the same. */
  lemma {:induction false} SingleOnPort(u: Urls, es: seq<Entry>, uri: string)
    requires OnPort(u, es, u.port(uri)) == 1 && Has(es, uri)
    ensures OtherPorts(u, es, u.port(uri)) == RemoveFirst(es, uri)
  {
    if es[0].uri == uri {
      OtherPortsLength(u, es[1..], u.port(uri));
    } else {
      var i :| 0 <= i < |es| && es[i].uri == uri;
      assert es[1..][i - 1].uri == uri;
      if u.port(es[0].uri) == u.port(uri) {
        HasOnPort(u, es[1..], uri);
      }
      SingleOnPort(u, es[1..], uri);
    }
  }

  lemma {:induction false} HasOnPort(u: Urls, es: seq<Entry>, uri: string)
    requires Has(es, uri)
    ensures OnPort(u, es, u.port(uri)) > 0
  {
    if es[0].uri != uri {
      var i :| 0 <= i < |es| && es[i].uri == uri;
      assert es[1..][i - 1].uri == uri;
      HasOnPort(u, es[1..], uri);
    }
  }

  /** net_stop_listener closes every endpoint on the port, of any host and kind, but unregisters one
      entry. If endpoints and list agreed before, they agree afterwards exactly when the host is
      not an address, or the port has no endpoint, or only the one that is unregistered. */
  lemma ResetInStepIff(u: Urls, n: Net, uri: string)
    requires n.open == n.listeners
    ensures var n' := Effect(u, n, Reset(uri));
            var k := OnPort(u, n.listeners, u.port(uri));
            n'.open == n'.listeners <==> !u.resolves(uri) || k == 0 || (k == 1 && Has(n.listeners, uri))
  {
    var es := n.listeners;
    OtherPortsLength(u, es, u.port(uri));
    RemoveFirstLength(es, uri);
    if Has(es, uri) {
      HasOnPort(u, es, uri);
      if OnPort(u, es, u.port(uri)) == 1 {
        SingleOnPort(u, es, uri);
      }
    } else {
      RemoveAbsent(es, uri);
    }
    hide OtherPorts, RemoveFirst, Has, OnPort;
  }

  /** Two endpoints on one port: closing the first leaves the second registered but not open. */
  lemma ResetOutOfStep(u: Urls, e: Entry, f: Entry, n: Net)
    requires u.resolves(e.uri) && u.port(f.uri) == u.port(e.uri) && n.listeners == n.open == [e, f]
    ensures Effect(u, n, Reset(e.uri)).listeners == [f] && Effect(u, n, Reset(e.uri)).open == []
  {
    var p := u.port(e.uri);
    assert [e, f][1..] == [f] && [f][1..] == [];
    assert OtherPorts(u, [f], p) == OtherPorts(u, [], p);
    assert OtherPorts(u, [e, f], p) == OtherPorts(u, [f], p);
  }

  lemma FoldThen(u: Urls, n: Net, bodies: seq<Body>, b: Body)
    ensures Fold(u, n, bodies + [b]) == Effect(u, Fold(u, n, bodies), b)
  {
    var all := bodies + [b];
    assert all[..|all| - 1] == bodies;
    hide Effect;
  }

  lemma RestartInStep(u: Urls, n: Net, c: Config)
    ensures Effect(u, n, Restart(c)).open == Effect(u, n, Restart(c)).listeners == n.listeners
  {
    hide Parsed;
  }

  lemma SetInStep(u: Urls, n: Net, b: Body)
    requires b.Set? && n.open == n.listeners
    ensures Effect(u, n, b).open == Effect(u, n, b).listeners
  {
  }

  /** After each restart the open endpoints are the registered listeners, in their order, and the
      restart leaves the list alone; registrations keep it so. */
  lemma {:induction false} RestartRestores(u: Urls, n: Net, bodies: seq<Body>, c: Config, more: seq<Body>)
    requires forall i :: 0 <= i < |more| ==> more[i].Set?
    ensures var n' := Fold(u, n, bodies + [Restart(c)] + more);
            n'.open == n'.listeners
    ensures Fold(u, n, bodies + [Restart(c)]).listeners == Fold(u, n, bodies).listeners
    decreases |more|
  {
    hide Fold, Effect;
    FoldThen(u, n, bodies, Restart(c));
    RestartInStep(u, Fold(u, n, bodies), c);
    if more == [] {
      assert bodies + [Restart(c)] + more == bodies + [Restart(c)];
    } else {
      var before := bodies + [Restart(c)] + more[..|more| - 1];
      RestartRestores(u, n, bodies, c, more[..|more| - 1]);
      FoldThen(u, n, before, more[|more| - 1]);
      SetInStep(u, Fold(u, n, before), more[|more| - 1]);
      assert before + [more[|more| - 1]] == bodies + [Restart(c)] + more;
    }
  }

  // ----- The addresses -----

  /** What a text makes of an address: the one it denotes, or no change. */
  ghost predicate Sets(text: CString, was: Address, now: Address) {
    (forall a :: Denotes(text, a) ==> now == a) && ((forall a :: !Denotes(text, a)) ==> now == was)
  }

  lemma ParsedSets(text: CString, was: Address)
    ensures Sets(text, was, Parsed(text, was))
  {
    var now := Parsed(text, was);
    forall a | Denotes(text, a)
      ensures now == a
    {
      DenotesUnique(text, a, now);
    }
  }

  /** Each text of a configuration sets its own address and no other. */
  ghost predicate Configures(c: Config, was: Interface, now: Interface) {
    Sets(c.ip, was.ip, now.ip) && Sets(c.mask, was.mask, now.mask) && Sets(c.gateway, was.gateway, now.gateway)
  }

  lemma RestartConfigures(u: Urls, n: Net, c: Config)
    ensures Configures(c, n.ifp, Effect(u, n, Restart(c)).ifp)
    ensures Configures(c, n.ifp, Begun(u, n, Restart(c)).ifp)
  {
    ParsedSets(c.ip, n.ifp.ip);
    ParsedSets(c.mask, n.ifp.mask);
    ParsedSets(c.gateway, n.ifp.gateway);
    hide Sets, Parsed;
  }

  lemma OthersKeepAddresses(u: Urls, n: Net, b: Body)
    requires !b.Restart?
    ensures Effect(u, n, b).ifp == n.ifp && Begun(u, n, b).ifp == n.ifp
  {
  }

  /** No list of other messages changes an address. */
  lemma {:induction false} AddressesKept(u: Urls, n: Net, bodies: seq<Body>, more: seq<Body>)
    requires forall i :: 0 <= i < |more| ==> !more[i].Restart?
    ensures Fold(u, n, bodies + more).ifp == Fold(u, n, bodies).ifp
    decreases |more|
  {
    hide Fold, Effect;
    if more == [] {
      assert bodies + more == bodies;
    } else {
      var front, b := more[..|more| - 1], more[|more| - 1];
      AddressesKept(u, n, bodies, front);
      FoldThen(u, n, bodies + front, b);
      OthersKeepAddresses(u, Fold(u, n, bodies + front), b);
      assert bodies + front + [b] == bodies + more;
    }
  }

  /** After a restart and any later messages that are not restarts the interface has the addresses
      the three texts denote; one that denotes nothing leaves its address as it was. */
  lemma AddressesAfterRestart(u: Urls, n: Net, bodies: seq<Body>, c: Config, more: seq<Body>)
    requires forall i :: 0 <= i < |more| ==> !more[i].Restart?
    ensures Configures(c, Fold(u, n, bodies).ifp, Fold(u, n, bodies + [Restart(c)] + more).ifp)
  {
    hide Fold, Effect, Configures;
    FoldThen(u, n, bodies, Restart(c));
    RestartConfigures(u, Fold(u, n, bodies), c);
    AddressesKept(u, n, bodies + [Restart(c)], more);
  }

  // ----- The registrations -----

  function Entries(sets: seq<Body>): (es: seq<Entry>)
    requires forall i :: 0 <= i < |sets| ==> sets[i].Set?
    ensures |es| == |sets| && forall i :: 0 <= i < |sets| ==> es[i] == sets[i].entry
  {
    seq(|sets|, i requires 0 <= i < |sets| => sets[i].entry)
  }

  /** Registrations are entered and opened once each, in the order of their messages. */
  lemma {:induction false} RegistrationsAppend(u: Urls, n: Net, bodies: seq<Body>, sets: seq<Body>)
    requires forall i :: 0 <= i < |sets| ==> sets[i].Set?
    ensures Fold(u, n, bodies + sets).listeners == Fold(u, n, bodies).listeners + Entries(sets)
    ensures Fold(u, n, bodies + sets).open == Fold(u, n, bodies).open + Entries(sets)
    decreases |sets|
  {
    hide Fold;
    if sets == [] {
      assert bodies + sets == bodies;
    } else {
      var front, b := sets[..|sets| - 1], sets[|sets| - 1];
      RegistrationsAppend(u, n, bodies, front);
      FoldThen(u, n, bodies + front, b);
      assert bodies + front + [b] == bodies + sets;
      assert Entries(sets) == Entries(front) + [b.entry];
    }
  }

  // ----- The endpoints -----

  lemma KeptFirst<T>(a: seq<T>, b: seq<T>, c: seq<T>)
    ensures a + (b + c) == a + b + c
  {
  }

  lemma {:induction false} OtherPortsSplit(u: Urls, a: seq<Entry>, b: seq<Entry>, port: nat)
    ensures OtherPorts(u, a + b, port) == OtherPorts(u, a, port) + OtherPorts(u, b, port)
  {
    if a == [] {
      assert a + b == b;
    } else {
      OtherPortsSplit(u, a[1..], b, port);
      var kept := if u.port(a[0].uri) == port then [] else [a[0]];
      assert (a + b)[1..] == a[1..] + b && (a + b)[0] == a[0];
      assert OtherPorts(u, a + b, port) == kept + OtherPorts(u, a[1..] + b, port);
      KeptFirst(kept, OtherPorts(u, a[1..], port), OtherPorts(u, b, port));
    }
  }

  lemma {:induction false} OtherPortsCount(u: Urls, es: seq<Entry>, port: nat, e: Entry)
    ensures multiset(OtherPorts(u, es, port))[e] == if u.port(e.uri) == port then 0 else multiset(es)[e]
  {
    if es != [] {
      OtherPortsCount(u, es[1..], port, e);
      assert es == [es[0]] + es[1..];
    }
  }

  /** Stopping a listener closes every endpoint on its port and no other, and keeps the order of the
      others; a uri whose host is no address changes nothing. */
  lemma ResetCloses(u: Urls, n: Net, uri: string, a: seq<Entry>, b: seq<Entry>, e: Entry)
    requires n.open == a + [e] + b
    ensures var left := p => OtherPorts(u, p, u.port(uri));
            Effect(u, n, Reset(uri)).open ==
              if !u.resolves(uri) then n.open
              else left(a) + (if u.port(e.uri) == u.port(uri) then [] else [e]) + left(b)
  {
    OtherPortsSplit(u, a + [e], b, u.port(uri));
    OtherPortsSplit(u, a, [e], u.port(uri));
    assert [e][1..] == [];
  }
}
