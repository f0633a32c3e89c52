/** The router: longest-prefix match over a list of routes (libsponge/router.cc, router.hh). */
module Routers {
  import opened Words
  import opened Ipv4Datagrams
  import opened NetworkInterfaces

  datatype Route = Route(prefix: uint32, length: byte, mask: uint32, nextHop: Option<uint32>, interfaceNum: nat)

  /** The entry that `add_route` stores.  The shift is undefined for lengths above 32. */
  function MakeRoute(prefix: uint32, length: byte, nextHop: Option<uint32>, interfaceNum: nat): Route
    requires length <= 32
  {
    Route(prefix, length, MaskOf(length), nextHop, interfaceNum)
  }

  function MaskOf(length: byte): (m: uint32)
    requires length <= 32
    ensures m == 0x1_0000_0000 - Pow2(32 - length)
  {
    MaskValue(length);
    if length == 0 then 0 else Shl(0xFFFF_FFFF, 32 - length, 32)
  }

  /** `~0 << (32 - n)` has the `n` high bits set. */
  lemma MaskValue(length: byte)
    requires length <= 32
    ensures 0 <= 0x1_0000_0000 - Pow2(32 - length) < 0x1_0000_0000
    ensures length == 0 ==> Pow2(32) == 0x1_0000_0000
    ensures length > 0 ==> Shl(0xFFFF_FFFF, 32 - length, 32) == 0x1_0000_0000 - Pow2(32 - length)
  {
    Pow2Values();
    Pow2Mono(32 - length, 32);
    if length > 0 {
      var p := Pow2(32 - length);
      assert 0xFFFF_FFFF * p == (p - 1) * 0x1_0000_0000 + (0x1_0000_0000 - p);
      DivModUnique(0xFFFF_FFFF * p, 0x1_0000_0000, p - 1, 0x1_0000_0000 - p);
    }
  }

  predicate Matches(r: Route, dst: uint32)
  {
    BitAnd(dst, r.mask) == r.prefix
  }

  /** The documented meaning of a route: the high `length` bits of prefix and destination are equal. */
  predicate SameHighBits(prefix: uint32, length: byte, dst: uint32)
    requires length <= 32
  {
    dst / Pow2(32 - length) == prefix / Pow2(32 - length)
  }

  lemma MaskClears(length: byte, dst: uint32)
    requires length <= 32
    ensures BitAnd(dst, MaskOf(length)) == dst - dst % Pow2(32 - length)
  {
    hide BitAnd, MaskOf, Pow2;
    assert Pow2(32) == 0x1_0000_0000 by { Pow2Values(); }
    AndHighMask(dst, 32, 32 - length);
  }

  lemma HighBits(prefix: uint32, length: byte, dst: uint32)
    requires length <= 32
    ensures prefix % Pow2(32 - length) == 0 ==>
            (dst - dst % Pow2(32 - length) == prefix <==> SameHighBits(prefix, length, dst))
  {
    hide Pow2;
    HighPart(dst, prefix, Pow2(32 - length));
  }

  /** The mask test is equality of the high bits if the prefix has no bits outside its mask ... */
  lemma MaskTest(prefix: uint32, length: byte, dst: uint32)
    requires length <= 32
    ensures BitAnd(dst, MaskOf(length)) == dst - dst % Pow2(32 - length)
    ensures prefix % Pow2(32 - length) == 0 ==>
            (BitAnd(dst, MaskOf(length)) == prefix <==> SameHighBits(prefix, length, dst))
  {
    hide BitAnd, MaskOf, Pow2, SameHighBits;
    MaskClears(length, dst);
    HighBits(prefix, length, dst);
  }

  lemma HighPart(x: nat, y: nat, p: nat)
    requires p >= 1
    ensures y % p == 0 ==> (x - x % p == y <==> x / p == y / p)
  {
    var a, b := x / p, y / p;
    assert x == a * p + x % p && y == b * p + y % p;
    DivModUnique(a * p, p, a, 0);
    DivModUnique(b * p, p, b, 0);
  }

  /** ... and only then: the code agrees with the documentation on every destination exactly when the prefix
      given to `add_route` is clear below its length.  Otherwise the route does not even match its own prefix. */
  lemma PrefixMustBeClean(prefix: uint32, length: byte, nextHop: Option<uint32>, interfaceNum: nat)
    requires length <= 32
    ensures (forall dst: uint32 ::
               Matches(MakeRoute(prefix, length, nextHop, interfaceNum), dst) <==> SameHighBits(prefix, length, dst))
       <==> prefix % Pow2(32 - length) == 0
  {
    var r := MakeRoute(prefix, length, nextHop, interfaceNum);
    hide MaskOf, BitAnd, Pow2;
    forall dst: uint32
      ensures Matches(r, dst) <==> dst - dst % Pow2(32 - length) == prefix
      ensures prefix % Pow2(32 - length) == 0 ==> (Matches(r, dst) <==> SameHighBits(prefix, length, dst))
    {
      MaskTest(prefix, length, dst);
    }
    ModBounds(prefix, Pow2(32 - length));
    assert SameHighBits(prefix, length, prefix);
    assert Matches(r, prefix) <==> prefix % Pow2(32 - length) == 0;
  }

  // ----- the choice of a route -----

  /** The choice made by the scan of `route_one_datagram` over the first `n` routes. */
  function Choose(routes: seq<Route>, dst: uint32, n: nat): (t: Option<nat>)
    requires n <= |routes|
    ensures t.Some? ==> t.value < n
  {
    if n == 0 then None
    else
      var t := Choose(routes, dst, n - 1);
      if Matches(routes[n - 1], dst) && (t == None || routes[t.value].length < routes[n - 1].length) then Some(n - 1)
      else t
  }

  /** What `add_route` makes of a route. */
  predicate WellMade(r: Route)
  {
    r.length <= 32 && r.mask == MaskOf(r.length)
  }

  predicate Clean(r: Route)
    requires r.length <= 32
  {
    r.prefix % Pow2(32 - r.length) == 0
  }

  /** `k` is the first among the matching routes of greatest length. */
  predicate IsBest(routes: seq<Route>, dst: uint32, k: nat)
  {
    && k < |routes| && Matches(routes[k], dst)
    && forall j :: 0 <= j < |routes| && Matches(routes[j], dst) ==>
         routes[j].length <= routes[k].length && (routes[j].length == routes[k].length ==> k <= j)
  }

  /** Longest-prefix match: the scan finds the best route if any matches, and reports failure only if none does. */
  lemma {:induction false} ChooseIsBest(routes: seq<Route>, dst: uint32, n: nat)
    requires n <= |routes|
    ensures match Choose(routes, dst, n)
            case Some(k) => IsBest(routes[..n], dst, k)
            case None => forall j :: 0 <= j < n ==> !Matches(routes[j], dst)
  {
    hide Matches;
    if n > 0 {
      ChooseIsBest(routes, dst, n - 1);
    }
  }

  // ----- routing -----

  /** An `AsyncNetworkInterface`: an interface and the datagrams it has received. */
  datatype Port = Port(iface: Interface, received: seq<Datagram>)

  datatype RouterState = RouterState(ports: seq<Port>, routes: seq<Route>)

  /** A datagram on its way out: where, what, and to which next hop. */
  datatype Dispatch = Dispatch(port: nat, datagram: Datagram, hop: uint32)

  /** What becomes of a datagram: it leaves with its TTL reduced by one, or it is dropped. */
  function Decide(routes: seq<Route>, d: Datagram): Option<Dispatch>
  {
    if d.header.ttl <= 1 then None
    else match Choose(routes, d.header.dst, |routes|)
      case None => None
      case Some(k) =>
        var r := routes[k];
        Some(Dispatch(r.interfaceNum, d.(header := d.header.(ttl := d.header.ttl - 1)),
                      if r.nextHop.Some? then r.nextHop.value else d.header.dst))
  }

  /** A datagram is dropped only for a TTL of at most 1 or because no route matches; otherwise it leaves on the
      interface, and for the next hop, of the longest match. */
  lemma DecideIsExact(routes: seq<Route>, d: Datagram)
    ensures Decide(routes, d).Some? <==>
            d.header.ttl > 1 && exists j :: 0 <= j < |routes| && Matches(routes[j], d.header.dst)
    ensures Decide(routes, d).Some? ==>
            exists k: nat :: IsBest(routes, d.header.dst, k) && Decide(routes, d).value ==
              Dispatch(routes[k].interfaceNum, d.(header := d.header.(ttl := d.header.ttl - 1)),
                       if routes[k].nextHop.Some? then routes[k].nextHop.value else d.header.dst)
  {
    hide Matches;
    ChooseIsBest(routes, d.header.dst, |routes|);
    assert routes[..|routes|] == routes;
  }

  /** `k` is the first among the routes of greatest length whose documented prefix fits. */
  predicate IsLongestPrefix(routes: seq<Route>, dst: uint32, k: nat)
    requires forall r <- routes :: WellMade(r)
  {
    && k < |routes| && Fits(routes[k], dst)
    && forall j :: 0 <= j < |routes| && Fits(routes[j], dst) ==>
         routes[j].length <= routes[k].length && (routes[j].length == routes[k].length ==> k <= j)
  }

  predicate Fits(r: Route, dst: uint32)
    requires WellMade(r)
  {
    SameHighBits(r.prefix, r.length, dst)
  }

  /** Longest-prefix match as documented: over a table of clean prefixes, a datagram is forwarded exactly if its TTL
      exceeds 1 and some route shares its high bits with the destination, and then by the first of the longest of
      them. */
  lemma LongestPrefixMatch(routes: seq<Route>, d: Datagram)
    requires forall r <- routes :: WellMade(r) && Clean(r)
    ensures Decide(routes, d).Some? <==>
            d.header.ttl > 1 && exists j :: 0 <= j < |routes| && Fits(routes[j], d.header.dst)
    ensures Decide(routes, d).Some? ==>
            exists k: nat :: IsLongestPrefix(routes, d.header.dst, k) && Decide(routes, d).value ==
              Dispatch(routes[k].interfaceNum, d.(header := d.header.(ttl := d.header.ttl - 1)),
                       if routes[k].nextHop.Some? then routes[k].nextHop.value else d.header.dst)
  {
    hide Matches, Fits, Decide;
    forall j | 0 <= j < |routes|
      ensures Matches(routes[j], d.header.dst) <==> Fits(routes[j], d.header.dst)
    {
      assert routes[j] in routes;
      CleanMatch(routes[j], d.header.dst);
    }
    DecideIsExact(routes, d);
    if Decide(routes, d).Some? {
      var k: nat :| IsBest(routes, d.header.dst, k) && Decide(routes, d).value ==
                      Dispatch(routes[k].interfaceNum, d.(header := d.header.(ttl := d.header.ttl - 1)),
                               if routes[k].nextHop.Some? then routes[k].nextHop.value else d.header.dst);
      assert IsLongestPrefix(routes, d.header.dst, k);
    }
  }

  lemma CleanMatch(r: Route, dst: uint32)
    requires WellMade(r) && Clean(r)
    ensures Matches(r, dst) <==> Fits(r, dst)
  {
    hide BitAnd, MaskOf, Pow2;
    MaskTest(r.prefix, r.length, dst);
  }

  /** What `add_route` was called with. */
  datatype Added = Added(prefix: uint32, length: byte, nextHop: Option<uint32>, interfaceNum: nat)

  /** The prefix has no bits below its length, and the shift that makes the mask is defined. */
  predicate CleanPrefix(a: Added)
  {
    a.length <= 32 && a.prefix % Pow2(32 - a.length) == 0
  }

  function TableOf(adds: seq<Added>): seq<Route>
    requires forall a <- adds :: CleanPrefix(a)
  {
    seq(|adds|, i requires 0 <= i < |adds| =>
      assert CleanPrefix(adds[i]) by { assert adds[i] in adds; }
      MakeRoute(adds[i].prefix, adds[i].length, adds[i].nextHop, adds[i].interfaceNum))
  }

  /** The call adds a route whose prefix the destination shares. */
  predicate Shares(a: Added, dst: uint32)
  {
    a.length <= 32 && dst / Pow2(32 - a.length) == a.prefix / Pow2(32 - a.length)
  }

  /** `k` is the first of those calls with the longest prefix. */
  predicate LongestAdded(adds: seq<Added>, dst: uint32, k: nat)
  {
    && k < |adds| && Shares(adds[k], dst)
    && forall j :: 0 <= j < |adds| && Shares(adds[j], dst) ==>
         adds[j].length <= adds[k].length && (adds[j].length == adds[k].length ==> k <= j)
  }

  /** From calls to decisions.  With the table that a sequence of `add_route` calls with clean prefixes builds, a
      datagram is forwarded exactly if its TTL exceeds 1 and some call gave a prefix it shares, and then to the
      interface and next hop given by the first of those calls with the longest prefix. */
  lemma AddedRoutesDecide(adds: seq<Added>, d: Datagram)
    requires forall a <- adds :: CleanPrefix(a)
    ensures Decide(TableOf(adds), d).Some? <==>
            d.header.ttl > 1 && exists j :: 0 <= j < |adds| && Shares(adds[j], d.header.dst)
    ensures Decide(TableOf(adds), d).Some? ==>
            exists k: nat :: LongestAdded(adds, d.header.dst, k) && Decide(TableOf(adds), d).value ==
              Dispatch(adds[k].interfaceNum, d.(header := d.header.(ttl := d.header.ttl - 1)),
                       if adds[k].nextHop.Some? then adds[k].nextHop.value else d.header.dst)
  {
    hide Decide, Pow2, MaskOf, Shares, Fits;
    var routes := TableOf(adds);
    forall i | 0 <= i < |adds|
      ensures WellMade(routes[i]) && Clean(routes[i])
      ensures Fits(routes[i], d.header.dst) <==> Shares(adds[i], d.header.dst)
    {
      assert adds[i] in adds;
      AddedFits(adds[i], d.header.dst);
    }
    LongestPrefixMatch(routes, d);
    if Decide(routes, d).Some? {
      var k: nat :| IsLongestPrefix(routes, d.header.dst, k) && Decide(routes, d).value ==
                      Dispatch(routes[k].interfaceNum, d.(header := d.header.(ttl := d.header.ttl - 1)),
                               if routes[k].nextHop.Some? then routes[k].nextHop.value else d.header.dst);
      assert LongestAdded(adds, d.header.dst, k);
    }
  }

  lemma AddedFits(a: Added, dst: uint32)
    requires CleanPrefix(a)
    ensures var r := MakeRoute(a.prefix, a.length, a.nextHop, a.interfaceNum);
            WellMade(r) && Clean(r) && (Fits(r, dst) <==> Shares(a, dst))
  {
    hide Pow2, MaskOf;
  }

  function Decisions(routes: seq<Route>, ds: seq<Datagram>): seq<Dispatch>
  {
    if ds == [] then [] else DecisionOn(routes, ds[0]) + Decisions(routes, ds[1..])
  }

  function DecisionOn(routes: seq<Route>, d: Datagram): seq<Dispatch>
  {
    match Decide(routes, d)
    case None => []
    case Some(x) => [x]
  }

  function SendOn(ports: seq<Port>, x: Dispatch): seq<Port>
  {
    if x.port >= |ports| then ports
    else ports[x.port := ports[x.port].(iface := ports[x.port].iface.SendDatagram(x.datagram, x.hop))]
  }

  /** The ports after these datagrams were handed to them, one after the other. */
  function SendAll(ports: seq<Port>, xs: seq<Dispatch>): (ps: seq<Port>)
    ensures |ps| == |ports|
    decreases |xs|
  {
    if xs == [] then ports else SendAll(SendOn(ports, xs[0]), xs[1..])
  }

  /** Everything received on the ports from `p` on, in the order the router takes it. */
  function ReceivedFrom(ports: seq<Port>, p: nat): seq<Datagram>
    decreases |ports| - p
  {
    if p >= |ports| then [] else ports[p].received + ReceivedFrom(ports, p + 1)
  }

  function Emptied(ports: seq<Port>): seq<Port>
  {
    seq(|ports|, i requires 0 <= i < |ports| => ports[i].(received := []))
  }

  /** What `route` does: every datagram received is decided on once, in order, and all input queues end up empty. */
  function RouteAll(r: RouterState): RouterState
  {
    r.(ports := Emptied(SendAll(r.ports, Decisions(r.routes, ReceivedFrom(r.ports, 0)))))
  }

  // ----- the router's loops against that -----

  lemma {:induction false} SendAllAppend(ports: seq<Port>, a: seq<Dispatch>, b: seq<Dispatch>)
    ensures SendAll(ports, a + b) == SendAll(SendAll(ports, a), b)
    decreases |a|
  {
    hide SendOn;
    if a == [] {
      assert a + b == b;
    } else {
      SendAllAppend(SendOn(ports, a[0]), a[1..], b);
      assert (a + b)[1..] == a[1..] + b;
    }
  }

  lemma {:induction false} DecisionsAppend(routes: seq<Route>, a: seq<Datagram>, b: seq<Datagram>)
    ensures Decisions(routes, a + b) == Decisions(routes, a) + Decisions(routes, b)
    decreases |a|
  {
    hide Decide;
    if a == [] {
      assert a + b == b;
    } else {
      DecisionsAppend(routes, a[1..], b);
      assert (a + b)[1..] == a[1..] + b && (a + b)[0] == a[0];
      SeqAssoc(DecisionOn(routes, a[0]), Decisions(routes, a[1..]), Decisions(routes, b));
    }
  }

  /** Sending does not touch what has been received. */
  lemma {:induction false} SendAllKeepsReceived(ports: seq<Port>, xs: seq<Dispatch>)
    ensures forall i :: 0 <= i < |ports| ==> SendAll(ports, xs)[i].received == ports[i].received
    decreases |xs|
  {
    if xs != [] {
      SendAllKeepsReceived(SendOn(ports, xs[0]), xs[1..]);
    }
  }

  /** The queues of the first `p` ports. */
  function Taken(ports: seq<Port>, p: nat): seq<Datagram>
    requires p <= |ports|
  {
    if p == 0 then [] else Taken(ports, p - 1) + ports[p - 1].received
  }

  lemma {:induction false} TakenAll(ports: seq<Port>, p: nat)
    requires p <= |ports|
    ensures Taken(ports, p) + ReceivedFrom(ports, p) == ReceivedFrom(ports, 0)
  {
    if p > 0 {
      TakenAll(ports, p - 1);
      assert Taken(ports, p - 1) + (ports[p - 1].received + ReceivedFrom(ports, p)) ==
             Taken(ports, p) + ReceivedFrom(ports, p);
    }
  }

  /** The ports with the queues before `p` empty and `k` datagrams taken from the one of `p`. */
  function Drained(ports: seq<Port>, p: nat, k: nat): seq<Port>
    requires p < |ports| ==> k <= |ports[p].received|
  {
    seq(|ports|, i requires 0 <= i < |ports| =>
      ports[i].(received := if i < p then [] else if i == p then ports[i].received[k..] else ports[i].received))
  }

  /** Where `route` stands after `p` ports and `k` datagrams of the next one. */
  ghost predicate Routing(ports0: seq<Port>, routes: seq<Route>, ports: seq<Port>, p: nat, k: nat)
  {
    && p <= |ports0| && k <= (if p < |ports0| then |ports0[p].received| else 0)
    && var taken := Taken(ports0, p) + if p < |ports0| then ports0[p].received[..k] else [];
       var sent := SendAll(ports0, Decisions(routes, taken));
       (forall i :: 0 <= i < |ports0| ==> sent[i].received == ports0[i].received) && ports == Drained(sent, p, k)
  }

  lemma RoutingStart(ports: seq<Port>, routes: seq<Route>)
    ensures Routing(ports, routes, ports, 0, 0)
  {
    assert ports == [] || ports[0].received[..0] == [];
    assert Drained(ports, 0, 0) == ports;
  }

  lemma RoutingNext(ports0: seq<Port>, routes: seq<Route>, ports: seq<Port>, p: nat, k: nat)
    requires Routing(ports0, routes, ports, p, k) && p < |ports0| && k < |ports0[p].received|
    ensures |ports| == |ports0| && ports[p].received == ports0[p].received[k..]
    ensures var routed := match Decide(routes, ports[p].received[0])
              case Some(x) => SendOn(ports, x)
              case None => ports;
            && |routed| == |ports| && routed[p].received == ports[p].received
            && Routing(ports0, routes, routed[p := routed[p].(received := routed[p].received[1..])], p, k + 1)
  {
    hide Decide, SendAll, SendOn, Drained, Decisions;
    var taken, d := Taken(ports0, p) + ports0[p].received[..k], ports0[p].received[k];
    assert Taken(ports0, p) + ports0[p].received[..k + 1] == taken + [d];
    var sent, one := SendAll(ports0, Decisions(routes, taken)), Decisions(routes, [d]);
    var sent' := SendAll(ports0, Decisions(routes, taken + [d]));
    DecisionsAppend(routes, taken, [d]);
    OneDecision(routes, d);
    SendAllAppend(ports0, Decisions(routes, taken), one);
    SendAllKeepsReceived(ports0, Decisions(routes, taken + [d]));
    SendOne(sent, one);
    DrainedPop(sent, p, k);
    DrainedPop(sent', p, k);
    if one != [] {
      DrainedSend(sent, p, k, one[0]);
    }
  }

  lemma DrainedSend(ports: seq<Port>, p: nat, k: nat, x: Dispatch)
    requires p < |ports| && k <= |ports[p].received|
    ensures |SendOn(ports, x)| == |ports| && SendOn(ports, x)[p].received == ports[p].received
    ensures SendOn(Drained(ports, p, k), x) == Drained(SendOn(ports, x), p, k)
  {
    hide Interface.SendDatagram;
  }

  lemma DrainedPop(ports: seq<Port>, p: nat, k: nat)
    requires p < |ports| && k < |ports[p].received|
    ensures var q := Drained(ports, p, k);
            && |q| == |ports| && q[p].received == ports[p].received[k..] && q[p].received[0] == ports[p].received[k]
            && q[p := q[p].(received := q[p].received[1..])] == Drained(ports, p, k + 1)
  {
  }

  lemma OneDecision(routes: seq<Route>, d: Datagram)
    ensures Decisions(routes, [d]) == match Decide(routes, d) case None => [] case Some(x) => [x]
  {
    assert [d][1..] == [];
  }

  lemma SendOne(ports: seq<Port>, xs: seq<Dispatch>)
    ensures |xs| == 0 ==> SendAll(ports, xs) == ports
    ensures |xs| == 1 ==> SendAll(ports, xs) == SendOn(ports, xs[0])
  {
    if |xs| == 1 {
      assert SendAll(SendOn(ports, xs[0]), xs[1..]) == SendOn(ports, xs[0]);
    }
  }

  lemma RoutingPort(ports0: seq<Port>, routes: seq<Route>, ports: seq<Port>, p: nat)
    requires p < |ports0| && Routing(ports0, routes, ports, p, |ports0[p].received|)
    ensures Routing(ports0, routes, ports, p + 1, 0)
  {
    hide Decisions, SendAll;
    var q := ports0[p].received;
    assert q[..|q|] == q;
    assert Taken(ports0, p + 1) + [] == Taken(ports0, p) + q;
    if p + 1 < |ports0| {
      assert ports0[p + 1].received[..0] == [];
    }
    var sent := SendAll(ports0, Decisions(routes, Taken(ports0, p + 1)));
    assert Drained(sent, p, |q|) == Drained(sent, p + 1, 0);
  }

  lemma RoutingDone(ports0: seq<Port>, routes: seq<Route>, ports: seq<Port>)
    requires Routing(ports0, routes, ports, |ports0|, 0)
    ensures RouterState(ports, routes) == RouteAll(RouterState(ports0, routes))
  {
    hide Decisions, SendAll;
    TakenAll(ports0, |ports0|);
    assert Taken(ports0, |ports0|) + [] == ReceivedFrom(ports0, 0);
    var sent := SendAll(ports0, Decisions(routes, ReceivedFrom(ports0, 0)));
    assert Drained(sent, |ports0|, 0) == Emptied(sent);
  }

  class AsyncNetworkInterface {
    const net: NetworkInterface
    var datagramsOut: seq<Datagram>

    ghost function State(): Port
      reads this, net
    {
      Port(net.State(), datagramsOut)
    }

    constructor (net: NetworkInterface)
      ensures this.net == net && State() == Port(net.State(), [])
    {
      this.net := net;
      datagramsOut := [];
    }

    /** Receive a frame; a datagram is kept for the router. */
    method RecvFrame(frame: Frame)
      modifies this, net
      ensures State() == Port(old(net.State()).RecvFrame(frame),
                              old(datagramsOut) + match old(net.State()).Received(frame)
                                                  case Some(d) => [d]
                                                  case None => [])
    {
      var dgram := net.RecvFrame(frame);
      if dgram.Some? {
        datagramsOut := datagramsOut + [dgram.value];
      }
    }
  }

  class Router {
    var interfaces: seq<AsyncNetworkInterface>
    var routingTable: seq<Route>

    ghost function Nets(): set<object>
      reads this
    {
      set a | a in interfaces :: a.net
    }

    ghost function Repr(): set<object>
      reads this
    {
      (set a | a in interfaces) + Nets()
    }

    ghost predicate Valid()
      reads this, Repr()
    {
      && (forall i, j :: 0 <= i < j < |interfaces| ==>
           interfaces[i] != interfaces[j] && interfaces[i].net != interfaces[j].net)
      && (forall r <- routingTable :: WellMade(r) && r.interfaceNum < |interfaces|)
    }

    ghost function Ports(): (ps: seq<Port>)
      reads this, Repr()
      ensures |ps| == |interfaces| && forall i :: 0 <= i < |ps| ==> ps[i] == interfaces[i].State()
    {
      seq(|interfaces|, i requires 0 <= i < |interfaces| reads this, Repr() => interfaces[i].State())
    }

    ghost function State(): RouterState
      reads this, Repr()
    {
      RouterState(Ports(), routingTable)
    }

    constructor ()
      ensures Valid() && State() == RouterState([], [])
    {
      interfaces, routingTable := [], [];
    }

    method AddInterface(a: AsyncNetworkInterface) returns (n: nat)
      requires Valid() && a !in interfaces && a.net !in Nets()
      modifies this
      ensures Valid() && n == |old(interfaces)|
      ensures interfaces == old(interfaces) + [a] && routingTable == old(routingTable)
    {
      interfaces := interfaces + [a];
      n := |interfaces| - 1;
    }

    method AddRoute(prefix: uint32, length: byte, nextHop: Option<uint32>, interfaceNum: nat)
      requires Valid() && length <= 32 && interfaceNum < |interfaces|
      modifies this
      ensures Valid() && interfaces == old(interfaces)
      ensures routingTable == old(routingTable) + [MakeRoute(prefix, length, nextHop, interfaceNum)]
      ensures var r := routingTable[|old(routingTable)|];
              && r.prefix == prefix && r.length == length && r.mask == 0x1_0000_0000 - Pow2(32 - length)
              && r.nextHop == nextHop && r.interfaceNum == interfaceNum
    {
      routingTable := routingTable + [MakeRoute(prefix, length, nextHop, interfaceNum)];
    }

    /** The scan for a route.  `|routingTable|` stands for `end()`, which is never dereferenced. */
    method FindRoute(dst: uint32) returns (target: nat)
      ensures target <= |routingTable|
      ensures match Choose(routingTable, dst, |routingTable|)
              case Some(k) => target == k
              case None => target == |routingTable|
    {
      hide Matches;
      target := |routingTable|;
      for it := 0 to |routingTable|
        invariant match Choose(routingTable, dst, it) case Some(k) => target == k case None => target == |routingTable|
      {
        if Matches(routingTable[it], dst) && (target > it || routingTable[target].length < routingTable[it].length) {
          target := it;
        }
      }
    }

    method RouteOneDatagram(d: Datagram)
      requires Valid()
      modifies Nets()
      ensures Valid() && unchanged(this)
      ensures forall a <- interfaces :: a.datagramsOut == old(a.datagramsOut)
      ensures Ports() == match Decide(routingTable, d) case Some(x) => SendOn(old(Ports()), x) case None => old(Ports())
    {
      hide Choose, WellMade, Interface.SendDatagram;
      if d.header.ttl <= 1 {
        return;
      }
      var target := FindRoute(d.header.dst);
      if target == |routingTable| {
        return;
      }
      var sent := d.(header := d.header.(ttl := d.header.ttl - 1));
      var r := routingTable[target];
      SendVia(r.interfaceNum, sent, if r.nextHop.Some? then r.nextHop.value else d.header.dst);
    }

    method SendVia(n: nat, d: Datagram, hop: uint32)
      requires Valid() && n < |interfaces|
      modifies Nets()
      ensures Valid() && unchanged(this)
      ensures forall a <- interfaces :: a.datagramsOut == old(a.datagramsOut)
      ensures Ports() == SendOn(old(Ports()), Dispatch(n, d, hop))
    {
      hide Interface.SendDatagram, WellMade;
      interfaces[n].net.SendDatagram(d, hop);
    }

    method Route()
      requires Valid()
      modifies Repr()
      ensures Valid() && unchanged(this)
      ensures State() == RouteAll(old(State()))
    {
      hide Routing, RouteAll;
      ghost var ports0 := Ports();
      RoutingStart(ports0, routingTable);
      for p := 0 to |interfaces|
        invariant Valid() && unchanged(this)
        invariant Routing(ports0, routingTable, Ports(), p, 0)
      {
        RoutePort(p, ports0);
        RoutingPort(ports0, routingTable, Ports(), p);
      }
      RoutingDone(ports0, routingTable, Ports());
    }

    method RoutePort(p: nat, ghost ports0: seq<Port>)
      requires Valid() && p < |interfaces| == |ports0| && Routing(ports0, routingTable, Ports(), p, 0)
      modifies Repr()
      ensures Valid() && unchanged(this)
      ensures Routing(ports0, routingTable, Ports(), p, |ports0[p].received|)
    {
      hide Routing, Decide, SendOn;
      ghost var k := 0;
      RoutingQueue(ports0, routingTable, Ports(), p, 0);
      while interfaces[p].datagramsOut != []
        invariant Valid() && unchanged(this) && k <= |ports0[p].received|
        invariant Routing(ports0, routingTable, Ports(), p, k)
        invariant interfaces[p].datagramsOut == ports0[p].received[k..]
        decreases |interfaces[p].datagramsOut|
      {
        RoutingNext(ports0, routingTable, Ports(), p, k);
        RouteFront(p);
        k := k + 1;
      }
    }

    /** Route the first datagram of a queue, then pop it. */
    method RouteFront(p: nat)
      requires Valid() && p < |interfaces| && interfaces[p].datagramsOut != []
      modifies Repr()
      ensures Valid() && unchanged(this) && interfaces[p].datagramsOut == old(interfaces[p].datagramsOut[1..])
      ensures var ports, d := old(Ports()), old(interfaces[p].datagramsOut[0]);
              var routed := match Decide(routingTable, d) case Some(x) => SendOn(ports, x) case None => ports;
              |routed| == |ports| && Ports() == routed[p := routed[p].(received := routed[p].received[1..])]
    {
      hide Decide, SendOn;
      RouteOneDatagram(interfaces[p].datagramsOut[0]);
      ghost var routed := Ports();
      interfaces[p].datagramsOut := interfaces[p].datagramsOut[1..];
      assert Ports() == routed[p := routed[p].(received := routed[p].received[1..])];
    }
  }

  lemma RoutingQueue(ports0: seq<Port>, routes: seq<Route>, ports: seq<Port>, p: nat, k: nat)
    requires Routing(ports0, routes, ports, p, k) && p < |ports0|
    ensures |ports| == |ports0| && ports[p].received == ports0[p].received[k..]
  {
  }

  // ----- conservation -----

  /** The datagrams that can be forwarded. */
  function Forwardable(routes: seq<Route>, ds: seq<Datagram>): seq<Datagram>
  {
    if ds == [] then []
    else (if ds[0].header.ttl > 1 && (exists r <- routes :: Matches(r, ds[0].header.dst)) then [ds[0]] else [])
         + Forwardable(routes, ds[1..])
  }

  /** `x` is datagram `d` with its TTL reduced by one and nothing else changed, on its way out by the best route. */
  ghost predicate Forwards(routes: seq<Route>, d: Datagram, x: Dispatch)
  {
    && d.header.ttl > 1 && x.datagram == d.(header := d.header.(ttl := d.header.ttl - 1))
    && exists b: nat :: IsBest(routes, d.header.dst, b) && x.port == routes[b].interfaceNum
         && x.hop == if routes[b].nextHop.Some? then routes[b].nextHop.value else d.header.dst
  }

  lemma DecisionForwards(routes: seq<Route>, d: Datagram)
    ensures var xs, fs := DecisionOn(routes, d), Forwardable(routes, [d]);
            |xs| == |fs| <= 1 && (|xs| == 1 ==> Forwards(routes, fs[0], xs[0]))
  {
    hide Matches, Decide, IsBest;
    DecideIsExact(routes, d);
    assert [d][1..] == [];
    assert (exists r <- routes :: Matches(r, d.header.dst)) <==>
           exists j :: 0 <= j < |routes| && Matches(routes[j], d.header.dst);
  }

  /** Each datagram that can be forwarded is sent exactly once, in order, with its TTL reduced by one and nothing
      else changed, on the interface of the longest match; all others are dropped. */
  lemma {:induction false} EachSentOnce(routes: seq<Route>, ds: seq<Datagram>)
    ensures var xs, fs := Decisions(routes, ds), Forwardable(routes, ds);
            |xs| == |fs| && forall k :: 0 <= k < |xs| ==> Forwards(routes, fs[k], xs[k])
    decreases |ds|
  {
    hide Matches, Decide, Forwards, DecisionOn, Forwardable;
    FirstForwardable(routes, ds);
    if ds != [] {
      EachSentOnce(routes, ds[1..]);
      DecisionForwards(routes, ds[0]);
    }
  }

  lemma FirstForwardable(routes: seq<Route>, ds: seq<Datagram>)
    ensures if ds == [] then Forwardable(routes, ds) == []
            else Forwardable(routes, ds) == Forwardable(routes, [ds[0]]) + Forwardable(routes, ds[1..])
  {
    hide Matches;
    if ds != [] {
      assert [ds[0]][1..] == [];
    }
  }

  /** The dispatches for one port, in order. */
  function ForPort(xs: seq<Dispatch>, q: nat): seq<Dispatch>
  {
    if xs == [] then [] else (if xs[0].port == q then [xs[0]] else []) + ForPort(xs[1..], q)
  }

  /** An interface after these datagrams were handed to it, each with its next hop. */
  function Handed(i: Interface, xs: seq<Dispatch>): Interface
    decreases |xs|
  {
    if xs == [] then i else Handed(i.SendDatagram(xs[0].datagram, xs[0].hop), xs[1..])
  }

  lemma {:induction false} SendAllPerPort(ports: seq<Port>, xs: seq<Dispatch>, q: nat)
    requires q < |ports|
    ensures SendAll(ports, xs)[q] == Port(Handed(ports[q].iface, ForPort(xs, q)), ports[q].received)
    decreases |xs|
  {
    hide Interface.SendDatagram;
    if xs != [] {
      SendAllPerPort(SendOn(ports, xs[0]), xs[1..], q);
      if xs[0].port == q {
        assert ForPort(xs, q)[1..] == ForPort(xs[1..], q);
      } else {
        assert ForPort(xs, q) == ForPort(xs[1..], q);
      }
    }
  }

  /** Routing hands every interface exactly the datagrams decided for it, in the order received, port after port, each
      with its next hop, and nothing else; all input queues are empty afterwards and the routes are unchanged. */
  lemma RouteHandsOver(r: RouterState, q: nat)
    requires q < |r.ports|
    ensures var xs := Decisions(r.routes, Taken(r.ports, |r.ports|));
            RouteAll(r).ports[q] == Port(Handed(r.ports[q].iface, ForPort(xs, q)), [])
    ensures |RouteAll(r).ports| == |r.ports| && RouteAll(r).routes == r.routes
  {
    hide Interface.SendDatagram, Decisions, SendAll, Handed, ForPort;
    TakenAll(r.ports, |r.ports|);
    assert Taken(r.ports, |r.ports|) + [] == Taken(r.ports, |r.ports|);
    SendAllPerPort(r.ports, Decisions(r.routes, ReceivedFrom(r.ports, 0)), q);
  }
}
