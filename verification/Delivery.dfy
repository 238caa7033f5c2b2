/** A ping on its way through the daemons of many hosts. Each host is entered with an empty buffer: Sessions shows that
    other traffic in the buffer changes neither the lookup a packet gets nor what is sent for it. */
module Delivery {
  import opened Bytes
  import opened Tables
  import opened Graphs
  import opened Daemon
  import opened Exactness
  import Network
  import Convergence

  /** How a journey ends. trail lists the hosts that received a frame, one for every link send. */
  datatype Outcome =
    | Delivered(trail: seq<byte>, sdu: Sdu)
    | Expired(trail: seq<byte>)         // counted down to 0
    | NoRoute(trail: seq<byte>)
    | Waiting(trail: seq<byte>)         // next hop unresolved
    | Ignored(trail: seq<byte>)         // not a ping

  /** Which next hop the routing daemon of a host answers for a destination, possibly changing from send to send. */
  type Routing = (nat, byte, byte) -> byte

  /** The addresses in each host's ARP table. */
  type Links = byte -> seq<byte>

  /** How many more hosts may forward a datagram that arrives with this time to live. */
  function Budget(ttl: nibble): nibble {
    (ttl + 15) % 16
  }

  /** What the answer to the lookup makes of the only packet of a host. */
  function Answered(route: Routing, h: Host, dest: byte, trail: seq<byte>): Action
    requires |h.buffer| == 1
  {
    OnResponse(h, route(|trail|, h.self, dest)).1[0]
  }

  /** The journey of a frame that was sent to host f.pdu.dest. */
  function Travel(route: Routing, links: Links, f: Frame, trail: seq<byte>): Outcome
    requires IsData(f)
    decreases Budget(f.pdu.ttl)
  {
    var at := f.pdu.dest;
    var trail' := trail + [at];
    var (h, out) := OnFrame(Host(at, MAX_QUEUE_SIZE, links(at), []), f);
    if out == [] then Expired(trail')
    else match out[0]
      case ToApp(sdu) => Delivered(trail', sdu)
      case Request(d) =>
        (match Answered(route, h, d, trail')
         case Send(f') => Travel(route, links, f', trail')
         case Discard(_) => NoRoute(trail')
         case _ => Waiting(trail'))
      case _ => Ignored(trail')
  }

  /** An application at src sends a ping. */
  function Ping(route: Routing, links: Links, src: byte, sdu: Sdu): Outcome {
    var (h, out) := OnApp(Host(src, MAX_QUEUE_SIZE, links(src), []), sdu);
    match Answered(route, h, sdu.dest, [])
    case Send(f) => Travel(route, links, f, [])
    case Discard(_) => NoRoute([])
    case _ => Waiting([])
  }

  // ---- time to live ----

  /** One host of the journey: it ends there, or goes on with one forwarding fewer left. */
  lemma OneHost(route: Routing, links: Links, f: Frame, trail: seq<byte>) returns (next: Option<Frame>)
    requires IsData(f)
    ensures next.None? ==> var o := Travel(route, links, f, trail);
                           o.trail == trail + [f.pdu.dest] && (o.Expired? ==> Budget(f.pdu.ttl) == 0)
    ensures next.Some? ==> && IsData(next.value) && Budget(next.value.pdu.ttl) + 1 == Budget(f.pdu.ttl)
                           && Travel(route, links, f, trail) == Travel(route, links, next.value, trail + [f.pdu.dest])
  {
    var at := f.pdu.dest;
    var (h, out) := OnFrame(Host(at, MAX_QUEUE_SIZE, links(at), []), f);
    next := None;
    if out != [] && out[0].Request? {
      var a := Answered(route, h, out[0].dest, trail + [at]);
      if a.Send? {
        next := Some(a.frame);
      }
    }
  }

  /** Whatever next hops are chosen, even cyclic or changing ones, a datagram sent with time to live t is received at
      most once more than t-1 modulo 16, so at most (t-1) mod 16 hosts forward it. */
  lemma {:induction false} TtlBoundsForwarding(route: Routing, links: Links, f: Frame, trail: seq<byte>)
    requires IsData(f)
    ensures trail < Travel(route, links, f, trail).trail
    ensures |Travel(route, links, f, trail).trail| <= |trail| + 1 + Budget(f.pdu.ttl)
    ensures Travel(route, links, f, trail).Expired? ==>
              |Travel(route, links, f, trail).trail| == |trail| + 1 + Budget(f.pdu.ttl)
    decreases Budget(f.pdu.ttl)
  {
    var next := OneHost(route, links, f, trail);
    if next.Some? {
      TtlBoundsForwarding(route, links, next.value, trail + [f.pdu.dest]);
    }
  }

  /** A ping sent with time to live t travels at most 1 + (t-1) mod 16 links, so never more than 16. */
  lemma PingTravelsAtMost16(route: Routing, links: Links, src: byte, sdu: Sdu)
    ensures |Ping(route, links, src, sdu).trail| <= 1 + Budget(sdu.ttl % 16) <= 16
  {
    var (h, out) := OnApp(Host(src, MAX_QUEUE_SIZE, links(src), []), sdu);
    var a := Answered(route, h, sdu.dest, []);
    if a.Send? {
      TtlBoundsForwarding(route, links, a.frame, []);
    }
  }

  // ---- delivery over exact tables ----

  /** The routing daemons answer from the tables, with NO_ROUTE when lookup fails. */
  ghost predicate RoutesBy(route: Routing, ts: TableMap) {
    forall n, v, d :: v in ts ==>
      route(n, v, d) == if Lookup(ts[v], d).Some? then Lookup(ts[v], d).value.nextHop else NO_ROUTE
  }

  /** Every neighbour is resolved. */
  ghost predicate Resolved(links: Links, g: Graph) {
    forall u, v :: Adjacent(g, u, v) ==> v in links(u)
  }

  /** Every host other than d with a path to d is led to a resolved neighbour one link closer. */
  ghost predicate Guides(route: Routing, links: Links, g: Graph, d: byte) {
    forall n, v, k: nat :: v in g.nodes && k > 0 && IsDistance(g, v, d, k) ==>
      GuidesOne(links, g, v, route(n, v, d), d, k)
  }

  ghost predicate GuidesOne(links: Links, g: Graph, v: byte, nextHop: byte, d: byte, k: nat)
    requires k > 0
  {
    nextHop != NO_ROUTE && nextHop in g.nodes && nextHop in links(v) && IsDistance(g, nextHop, d, k - 1)
  }

  lemma ExactTablesGuide(route: Routing, links: Links, g: Graph, ts: TableMap, d: byte)
    requires Exact(g, ts) && NoBroadcast(g) && RoutesBy(route, ts) && Resolved(links, g)
    ensures Guides(route, links, g, d)
  {
    forall n, v, k: nat | v in g.nodes && k > 0 && IsDistance(g, v, d, k)
      ensures GuidesOne(links, g, v, route(n, v, d), d, k)
    {
      assert !Walk(g, v, d, 0);
      assert ExactFor(g, ts, v, d) && Reachable(g, v, d);
      DistanceUnique(g, v, d, k, Lookup(ts[v], d).value.hops);
      NextHopIsCloser(g, ts, v, d);
    }
  }

  /** The hosts of a trail from number `from` on lie on a shortest path to d: each is one link closer. */
  ghost predicate Descends(g: Graph, trail: seq<byte>, from: nat, d: byte, k: nat) {
    forall i :: from <= i < |trail| ==> CloserBy(g, trail[i], d, k, i - from)
  }

  ghost predicate CloserBy(g: Graph, v: byte, d: byte, k: nat, i: nat) {
    i <= k && IsDistance(g, v, d, k - i)
  }

  /** The frame that host f.pdu.dest sends on. */
  function Onward(f: Frame, nextHop: byte): Frame
    requires IsPing(f)
  {
    Frame(f.pdu.(dest := nextHop, ttl := Budget(f.pdu.ttl)), [f.body[0], Budget(f.pdu.ttl)] + f.body[2..])
  }

  /** One host of the way: it sends the packet on to the next hop it is given, payload unchanged. */
  lemma HostForwards(route: Routing, links: Links, f: Frame, trail: seq<byte>, nextHop: byte)
    requires IsPing(f) && f.pdu.dest != f.body[0] && Budget(f.pdu.ttl) > 0
    requires nextHop == route(|trail| + 1, f.pdu.dest, f.body[0]) && nextHop != NO_ROUTE && nextHop in links(f.pdu.dest)
    ensures IsPing(Onward(f, nextHop))
    ensures Travel(route, links, f, trail) == Travel(route, links, Onward(f, nextHop), trail + [f.pdu.dest])
  {
    var at := f.pdu.dest;
    var h := Host(at, MAX_QUEUE_SIZE, links(at), []);
    var p := Packet(f.pdu.(ttl := Budget(f.pdu.ttl)), Deserialize(f.body, f.pdu.sduLen));
    assert h.buffer + [p] == [p];
    assert OnFrame(h, f) == (h.(buffer := [p]), [Request(f.body[0])]);
    KeptIsOnward(f, nextHop);
    assert Answered(route, h.(buffer := [p]), f.body[0], trail + [at]) == Send(Onward(f, nextHop));
  }

  /** Where a journey ends short of its destination: without a route, or at a next hop that is not resolved. */
  lemma HostStops(route: Routing, links: Links, f: Frame, trail: seq<byte>)
    requires IsPing(f) && f.pdu.dest != f.body[0] && Budget(f.pdu.ttl) > 0
    ensures var nextHop, o := route(|trail| + 1, f.pdu.dest, f.body[0]), Travel(route, links, f, trail);
            && (nextHop == NO_ROUTE <==> o == NoRoute(trail + [f.pdu.dest]))
            && (nextHop != NO_ROUTE && nextHop !in links(f.pdu.dest) <==> o == Waiting(trail + [f.pdu.dest]))
  {
    var at := f.pdu.dest;
    var h := Host(at, MAX_QUEUE_SIZE, links(at), []);
    var p := Packet(f.pdu.(ttl := Budget(f.pdu.ttl)), Deserialize(f.body, f.pdu.sduLen));
    assert h.buffer + [p] == [p];
    assert OnFrame(h, f) == (h.(buffer := [p]), [Request(f.body[0])]);
    var nextHop := route(|trail| + 1, at, f.body[0]);
    if nextHop != NO_ROUTE && nextHop in links(at) {
      HostForwards(route, links, f, trail, nextHop);
      TtlBoundsForwarding(route, links, Onward(f, nextHop), trail + [at]);
    }
  }

  /** What is sent for a ping that was kept for forwarding. */
  lemma KeptIsOnward(f: Frame, nextHop: byte)
    requires IsPing(f)
    ensures IsPing(Onward(f, nextHop)) && Onward(f, nextHop).body[2..] == f.body[2..]
    ensures var p := Packet(f.pdu.(ttl := Budget(f.pdu.ttl)), Deserialize(f.body, f.pdu.sduLen));
            Frame(Routed(p, nextHop).pdu, Body(Routed(p, nextHop))) == Onward(f, nextHop)
  {
    assert f.body[2..f.pdu.sduLen+2] == f.body[2..];
    TextIs(f.body[2..], f.body[2..]);
  }

  /** What the journey of a frame to a host k links from the destination must look like. */
  ghost predicate Arrives(g: Graph, f: Frame, d: byte, trail: seq<byte>, k: nat, o: Outcome)
    requires IsPing(f)
  {
    match o
    case Delivered(trail', sdu) =>
      && k <= Budget(f.pdu.ttl) && trail <= trail' && |trail'| == |trail| + 1 + k && trail'[|trail'|-1] == d
      && Descends(g, trail', |trail|, d, k) && sdu.dest == f.pdu.src && sdu.payload == f.body[2..]
    case Expired(trail') => k > Budget(f.pdu.ttl) && trail <= trail' && Descends(g, trail', |trail|, d, k)
    case _ => false
  }

  /** A ping frame for d has just been sent to a host k links from d. */
  ghost predicate Comes(g: Graph, f: Frame, d: byte, k: nat) {
    IsPing(f) && f.body[0] == d && f.pdu.dest in g.nodes && IsDistance(g, f.pdu.dest, d, k)
  }

  /** The same, and every host is told a next hop one link closer. */
  ghost predicate Led(route: Routing, links: Links, g: Graph, f: Frame, d: byte, k: nat) {
    Guides(route, links, g, d) && Comes(g, f, d, k)
  }

  /** The journey of f, which has come along trail, ends as it must. */
  ghost predicate Reaches(route: Routing, links: Links, g: Graph, f: Frame, d: byte, trail: seq<byte>, k: nat) {
    IsPing(f) && Arrives(g, f, d, trail, k, Travel(route, links, f, trail))
  }

  lemma ArrivesOneEarlier(g: Graph, f: Frame, d: byte, trail: seq<byte>, k: nat, nextHop: byte, o: Outcome)
    requires Comes(g, f, d, k) && k > 0 && Budget(f.pdu.ttl) > 0
    requires IsPing(Onward(f, nextHop))
    requires Arrives(g, Onward(f, nextHop), d, trail + [f.pdu.dest], k - 1, o)
    ensures Arrives(g, f, d, trail, k, o)
  {
    var f', n := Onward(f, nextHop), |trail|;
    assert f'.body[2..] == f.body[2..];
    assert (trail + [f.pdu.dest])[n] == o.trail[n] == f.pdu.dest;
    forall i | n <= i < |o.trail| ensures CloserBy(g, o.trail[i], d, k, i - n) {
      if i > n {
        assert CloserBy(g, o.trail[i], d, k - 1, i - (n + 1));
      }
    }
  }

  /** The last host delivers; a host that receives the datagram with time to live 1 lets it expire. */
  lemma TravelEnds(route: Routing, links: Links, g: Graph, f: Frame, d: byte, trail: seq<byte>, k: nat)
    requires Comes(g, f, d, k)
    requires k == 0 || Budget(f.pdu.ttl) == 0
    ensures Reaches(route, links, g, f, d, trail, k)
  {
    assert CloserBy(g, f.pdu.dest, d, k, 0);
    if k == 0 {
      assert f.body[2..f.pdu.sduLen+2] == f.body[2..];
      TextIs(f.body[2..], f.body[2..]);
      assert Travel(route, links, f, trail) == Delivered(trail + [f.pdu.dest], Sdu(f.pdu.src, f.body[1], f.body[2..]));
    } else {
      assert !Walk(g, f.pdu.dest, d, 0);
      assert Travel(route, links, f, trail) == Expired(trail + [f.pdu.dest]);
    }
  }

  /** Any other host sends the frame one link closer. */
  lemma TravelGoesOn(route: Routing, links: Links, g: Graph, f: Frame, d: byte, trail: seq<byte>, k: nat)
    returns (nextHop: byte)
    requires Led(route, links, g, f, d, k) && k > 0 && Budget(f.pdu.ttl) > 0
    ensures var f' := Onward(f, nextHop);
            && Led(route, links, g, f', d, k - 1)
            && (Reaches(route, links, g, f', d, trail + [f.pdu.dest], k - 1) ==>
                  Reaches(route, links, g, f, d, trail, k))
  {
    nextHop := route(|trail| + 1, f.pdu.dest, d);
    assert GuidesOne(links, g, f.pdu.dest, nextHop, d, k);
    assert f.pdu.dest != d by { assert !Walk(g, f.pdu.dest, d, 0); }
    HostForwards(route, links, f, trail, nextHop);
    var o := Travel(route, links, f, trail);
    if Arrives(g, Onward(f, nextHop), d, trail + [f.pdu.dest], k - 1, o) {
      ArrivesOneEarlier(g, f, d, trail, k, nextHop, o);
    }
  }

  /** The way from a host that has just been sent the frame. */
  lemma {:induction false} TravelReaches(
      route: Routing, links: Links, g: Graph, f: Frame, d: byte, trail: seq<byte>, k: nat)
    requires Led(route, links, g, f, d, k)
    ensures Reaches(route, links, g, f, d, trail, k)
    decreases k
  {
    if k == 0 || Budget(f.pdu.ttl) == 0 {
      TravelEnds(route, links, g, f, d, trail, k);
    } else {
      var nextHop := TravelGoesOn(route, links, g, f, d, trail, k);
      TravelReaches(route, links, g, Onward(f, nextHop), d, trail + [f.pdu.dest], k - 1);
    }
  }

  /** How a ping over k links must end: delivered if k is at most 16, and else expired. */
  ghost predicate ArrivedFrom(g: Graph, src: byte, dest: byte, payload: seq<byte>, k: nat, o: Outcome)
    requires k > 0
  {
    match o
    case Delivered(trail, sdu) =>
      && k <= 16 && |trail| == k && trail[k-1] == dest && Descends(g, trail, 0, dest, k - 1)
      && sdu.dest == src && sdu.payload == Carried(payload)
      && (sdu.payload == payload <==> 0 !in payload && |payload| <= MAX_PAYLOAD)
    case Expired(trail) => k > 16 && Descends(g, trail, 0, dest, k - 1)
    case _ => false
  }

  /** End-to-end delivery. With exact tables and resolved next hops, a ping sent with DEFAULT_TTL to another host at
      distance k is delivered if and only if k is at most 16. It then takes exactly k link sends, each to a host one
      link closer, and the application at the destination, and no other, gets the payload, with the originator as
      source: up to the first NUL and at most 510 bytes, so all of it if and only if it holds no NUL and fits. Beyond 16
      links the ping expires on the way; without a path it is discarded at the source. */
  lemma PingIsDelivered(route: Routing, links: Links, g: Graph, ts: TableMap, src: byte, dest: byte, payload: seq<byte>)
    requires Exact(g, ts) && NoBroadcast(g) && RoutesBy(route, ts) && Resolved(links, g)
    requires src in g.nodes && src != dest
    ensures var o := Ping(route, links, src, Sdu(dest, 0, payload));
            && (!Reachable(g, src, dest) ==> o == NoRoute([]))
            && forall k: nat :: IsDistance(g, src, dest, k) ==> k > 0 && ArrivedFrom(g, src, dest, payload, k, o)
  {
    assert ExactFor(g, ts, src, dest);
    if Lookup(ts[src], dest).Some? {
      var k := Lookup(ts[src], dest).value.hops;
      NextHopIsCloser(g, ts, src, dest);
      ExactTablesGuide(route, links, g, ts, dest);
      PingIsGuided(route, links, g, src, dest, payload, k);
      forall j: nat | IsDistance(g, src, dest, j) ensures j == k {
        DistanceUnique(g, src, dest, j, k);
      }
    }
  }

  /** The same for any routing that leads closer at every host. */
  lemma PingIsGuided(route: Routing, links: Links, g: Graph, src: byte, dest: byte, payload: seq<byte>, k: nat)
    requires Guides(route, links, g, dest) && src in g.nodes && src != dest && IsDistance(g, src, dest, k)
    ensures k > 0 && ArrivedFrom(g, src, dest, payload, k, Ping(route, links, src, Sdu(dest, 0, payload)))
  {
    var f := FirstFrame(src, dest, payload, route(0, src, dest));
    PingIsLed(route, links, g, src, dest, payload, k);
    GuidedTravel(route, links, g, f, dest, payload, k);
    PingStarts(route, links, src, dest, payload);
  }

  /** The frame that the sender of a ping sends. */
  function FirstFrame(src: byte, dest: byte, payload: seq<byte>, nextHop: byte): Frame {
    var p := Routed(AppPacket(src, Sdu(dest, 0, payload)), nextHop);
    Frame(p.pdu, Body(p))
  }

  lemma FirstFrameComes(src: byte, dest: byte, payload: seq<byte>, nextHop: byte)
    ensures var f := FirstFrame(src, dest, payload, nextHop);
            Starts(f, src, payload) && f.body[0] == dest && f.pdu.dest == nextHop
  {
    var p := Routed(AppPacket(src, Sdu(dest, 0, payload)), nextHop);
    assert Body(p)[2..] == Fit(Carried(payload), |Carried(payload)|);
  }

  lemma PingIsLed(route: Routing, links: Links, g: Graph, src: byte, dest: byte, payload: seq<byte>, k: nat)
    requires Guides(route, links, g, dest) && src in g.nodes && src != dest && IsDistance(g, src, dest, k)
    ensures k > 0 && route(0, src, dest) != NO_ROUTE && route(0, src, dest) in links(src)
    ensures var f := FirstFrame(src, dest, payload, route(0, src, dest));
            Led(route, links, g, f, dest, k - 1) && Starts(f, src, payload)
  {
    var nextHop := route(0, src, dest);
    assert k > 0 && GuidesOne(links, g, src, nextHop, dest, k);
    FirstFrameComes(src, dest, payload, nextHop);
  }

  lemma PingStarts(route: Routing, links: Links, src: byte, dest: byte, payload: seq<byte>)
    requires route(0, src, dest) != NO_ROUTE && route(0, src, dest) in links(src)
    ensures Ping(route, links, src, Sdu(dest, 0, payload)) ==
            Travel(route, links, FirstFrame(src, dest, payload, route(0, src, dest)), [])
  {}

  lemma GuidedTravel(route: Routing, links: Links, g: Graph, f: Frame, dest: byte, payload: seq<byte>, k: nat)
    requires k > 0 && Led(route, links, g, f, dest, k - 1) && Starts(f, f.pdu.src, payload)
    ensures ArrivedFrom(g, f.pdu.src, dest, payload, k, Travel(route, links, f, []))
  {
    TravelReaches(route, links, g, f, dest, [], k - 1);
    CarriedWholeIff(payload);
  }

  ghost predicate Starts(f: Frame, src: byte, payload: seq<byte>) {
    IsPing(f) && f.body[2..] == Carried(payload) && f.pdu.src == src && Budget(f.pdu.ttl) == 15
  }

  /** The two parts joined: once a quiet run of the routing daemons has come to rest, every ping between hosts that a
      path joins arrives over a shortest path. (Networks of at most 15 hosts have no distances beyond 14.) */
  lemma QuiescentNetworkDelivers(sys: Network.System, nets: seq<Network.Net>, evs: seq<Network.Event>,
                                 route: Routing, links: Links, src: byte, dest: byte, payload: seq<byte>, k: nat)
    requires Network.ValidSystem(sys) && Convergence.QuietRun(sys, nets, evs)
    requires Convergence.AllHeard(sys.g, nets[|evs|]) && Convergence.Quiescent(nets[|evs|])
    requires RoutesBy(route, Convergence.TablesOf(nets[|evs|])) && Resolved(links, sys.g)
    requires src in sys.g.nodes && src != dest && IsDistance(sys.g, src, dest, k)
    ensures var o := Ping(route, links, src, Sdu(dest, 0, payload));
            && o.Delivered? && |o.trail| == k > 0 && o.trail[k-1] == dest && o.sdu.dest == src
            && o.sdu.payload == Carried(payload)
            && (o.sdu.payload == payload <==> 0 !in payload && |payload| <= MAX_PAYLOAD)
            && forall i, j :: 0 <= i < j < k ==> o.trail[i] != o.trail[j]
  {
    var ts := Convergence.TablesOf(nets[|evs|]);
    Convergence.QuiescenceIsExact(sys, nets, evs);
    PingIsDelivered(route, links, sys.g, ts, src, dest, payload);
    DistanceBelowSize(sys.g, src, dest, k);
    var o := Ping(route, links, src, Sdu(dest, 0, payload));
    forall i, j | 0 <= i < j < k ensures o.trail[i] != o.trail[j] {
      assert CloserBy(sys.g, o.trail[i], dest, k - 1, i) && CloserBy(sys.g, o.trail[j], dest, k - 1, j);
    }
  }
}
