/** Routing daemons joined by links: every node runs the state machine of Nodes, and packets in flight may be lost,
    duplicated and reordered. */
module Network {
  import opened Bytes
  import opened Tables
  import opened Timeouts
  import opened Advertising
  import opened Wire
  import opened Codec
  import opened Graphs
  import N = Nodes

  datatype System = System(g: Graph, cap: Capacity, signed: bool)

  /** A payload on its way to a routing daemon. */
  datatype Packet = Packet(to: byte, payload: seq<byte>)

  datatype Net = Net(nodes: map<byte, N.Node>, flight: multiset<Packet>)

  /** Request is a lookup request of the local daemon for destination d. */
  datatype Event =
    | Hello(v: byte)
    | Advertise(v: byte)
    | Tick(v: byte)
    | Request(v: byte, d: byte)
    | Deliver(p: Packet)
    | Lose(p: Packet)
    | Duplicate(p: Packet)

  /** Networks the packet format can serve: at most MAX_NTWRK_SIZE nodes, plain addresses, and none that the poison
      loop could take for the type bytes or for a triple count; an update with a target lists two triples at least. */
  ghost predicate WellAddressed(g: Graph) {
    && |g.nodes| <= MAX_NTWRK_SIZE
    && forall a :: a in g.nodes ==> 0 < a < 128 && a != U && a != P && a != D && (a == 1 || a > |g.nodes|)
  }

  ghost predicate ValidSystem(sys: System) {
    ValidGraph(sys.g) && WellAddressed(sys.g) && !sys.cap.Full(0)
  }

  ghost function StartNet(sys: System): Net {
    Net(map v | v in sys.g.nodes :: N.Start(sys.cap, v), multiset{})
  }

  /** The packets of an update that the sender's daemon forwards. */
  function Carried(frames: seq<seq<byte>>): seq<Packet> {
    if frames == [] then []
    else
      var f := frames[0];
      (if |f| >= UPD_SIZE && Relay(f).Some? then [Packet(f[0], Relay(f).value)] else []) + Carried(frames[1..])
  }

  function UpdatesOf(sys: System, v: byte, t: Table): seq<Packet> {
    Carried(UpdateFrames(sys.signed, v, t, 255))
  }

  ghost function HellosOf(g: Graph, v: byte): set<Packet> {
    set u | u in g.nodes && Adjacent(g, v, u) :: Packet(u, N.HelloPayload(v))
  }

  ghost predicate Enabled(net: Net, ev: Event) {
    match ev
    case Hello(v) => v in net.nodes && net.nodes[v].state == N.Hello
    case Advertise(v) => v in net.nodes && net.nodes[v].state == N.Update
    case Tick(v) => v in net.nodes && net.nodes[v].state == N.Wait
    case Request(v, d) => v in net.nodes && net.nodes[v].state == N.Wait
    case Deliver(p) => p in net.flight && p.to in net.nodes && net.nodes[p.to].state == N.Wait && Readable(p.payload)
    case Lose(p) => p in net.flight
    case Duplicate(p) => p in net.flight
  }

  ghost function After(sys: System, net: Net, ev: Event): Net
    requires Enabled(net, ev)
  {
    match ev
    case Hello(v) =>
      Net(net.nodes[v := N.SaidHello(net.nodes[v])], net.flight + multiset(HellosOf(sys.g, v)))
    case Advertise(v) =>
      Net(net.nodes[v := N.SaidUpdate(net.nodes[v])], net.flight + multiset(UpdatesOf(sys, v, net.nodes[v].table)))
    case Tick(v) =>
      var n, n' := net.nodes[v], N.Ticked(net.nodes[v]);
      Net(net.nodes[v := n'],
          if AnyStale(n.table, n.helloCount) then net.flight + multiset(UpdatesOf(sys, v, n'.table)) else net.flight)
    case Request(v, d) =>
      net.(nodes := net.nodes[v := N.Received(sys.cap, sys.signed, net.nodes[v], N.RequestPayload(d))])
    case Deliver(p) =>
      Net(net.nodes[p.to := N.Received(sys.cap, sys.signed, net.nodes[p.to], p.payload)], net.flight - multiset{p})
    case Lose(p) => net.(flight := net.flight - multiset{p})
    case Duplicate(p) => net.(flight := net.flight + multiset{p})
  }

  ghost predicate Run(sys: System, nets: seq<Net>, evs: seq<Event>) {
    && |nets| == |evs| + 1 && nets[0] == StartNet(sys)
    && forall i :: 0 <= i < |evs| ==> Enabled(nets[i], evs[i]) && nets[i+1] == After(sys, nets[i], evs[i])
  }

  // ---- the invariant ----

  ghost predicate RouteOK(g: Graph, v: byte, e: Entry) {
    && Adjacent(g, v, e.nextHop) && e.dest in g.nodes && e.hops >= 1
    && (e.hops == 1 ==> e.dest == e.nextHop)
    && (e.dest == e.nextHop ==> e.hops == 1 || e.hops == INFINITY)
    && (e.hops != INFINITY ==> Walk(g, e.nextHop, e.dest, e.hops - 1))
  }

  ghost predicate TableOK(g: Graph, v: byte, t: Table) {
    && |t| >= 1 && t[0].dest == t[0].nextHop == v && t[0].hops == 0
    && (forall i :: 1 <= i < |t| ==> RouteOK(g, v, t[i]))
    && (forall i, j :: 1 <= i < j < |t| && t[i].dest == t[i].nextHop && t[j].dest == t[j].nextHop ==>
          t[i].dest != t[j].dest)
  }

  ghost predicate TripleOK(g: Graph, s: byte, tr: Triple) {
    && tr.dest in g.nodes && (tr.hops == 0 <==> tr.dest == s)
    && (tr.hops != INFINITY ==> Walk(g, s, tr.dest, tr.hops))
  }

  ghost predicate PacketOK(g: Graph, p: Packet) {
    && Readable(p.payload) && Adjacent(g, p.payload[3], p.to)
    && ((p.payload == N.HelloPayload(p.payload[3])) ||
        (IsUpdatePayload(p.payload) && DistinctDests(Decode(p.payload)) && forall i :: 0 <= i < |Decode(p.payload)| ==>
           TripleOK(g, p.payload[3], Decode(p.payload)[i])))
  }

  ghost predicate NodesOK(g: Graph, nodes: map<byte, N.Node>) {
    nodes.Keys == g.nodes && forall v :: v in nodes ==> nodes[v].self == v && TableOK(g, v, nodes[v].table)
  }

  ghost predicate FlightOK(g: Graph, flight: multiset<Packet>) {
    forall p :: p in flight ==> PacketOK(g, p)
  }

  ghost predicate NetOK(sys: System, net: Net) {
    NodesOK(sys.g, net.nodes) && FlightOK(sys.g, net.flight)
  }

  lemma UpdateKeepsTable(g: Graph, v: byte, cap: Capacity, t: Table, src: byte, dest: byte, hops: byte, hc: byte)
    requires ValidGraph(g) && TableOK(g, v, t) && Adjacent(g, v, src)
    requires dest in g.nodes && hops >= 1 && (hops == 1 <==> dest == src)
    requires hops != INFINITY ==> Walk(g, src, dest, hops - 1)
    ensures TableOK(g, v, Updated(cap, t, src, dest, hops, hc))
  {
    var t' := Updated(cap, t, src, dest, hops, hc);
    UpdateEvolution(cap, t, src, dest, hops, hc);
    forall i | 1 <= i < |t'| ensures RouteOK(g, v, t'[i]) {
      if i < |t| {
        assert RouteOK(g, v, t[i]);
      }
    }
    if |t'| > |t| && dest == src {
      forall i | 1 <= i < |t| && t[i].dest == t[i].nextHop ensures t[i].dest != dest {
        assert RouteOK(g, v, t[i]);
      }
    }
  }

  lemma {:induction false} MergeKeepsTable(
      g: Graph, v: byte, cap: Capacity, signed: bool, t: Table, src: byte, trs: seq<Triple>, hc: byte)
    requires ValidGraph(g) && TableOK(g, v, t) && Adjacent(g, v, src)
    requires forall i :: 0 <= i < |trs| ==> TripleOK(g, src, trs[i])
    ensures TableOK(g, v, Merged(cap, signed, t, v, src, trs, hc))
  {
    if trs == [] {
    } else {
      var n := |trs| - 1;
      MergeKeepsTable(g, v, cap, signed, t, src, trs[..n], hc);
      assert TripleOK(g, src, trs[n]);
      if !Skips(signed, v, trs[n]) {
        UpdateKeepsTable(g, v, cap, Merged(cap, signed, t, v, src, trs[..n], hc), src, trs[n].dest,
                         Further(trs[n].hops), hc);
      }
    }
  }

  lemma RefreshKeepsTable(g: Graph, v: byte, t: Table, src: byte, hc: byte)
    requires TableOK(g, v, t)
    ensures TableOK(g, v, Refreshed(t, src, hc))
  {
    RefreshedFirstOnly(t, src, hc);
    var t' := Refreshed(t, src, hc);
    forall i | 1 <= i < |t'| ensures RouteOK(g, v, t'[i]) {
      assert RouteOK(g, v, t[i]);
    }
  }

  lemma ExpiryKeepsTable(g: Graph, v: byte, t: Table, hc: byte)
    requires ValidGraph(g) && TableOK(g, v, t)
    ensures TableOK(g, v, Expired(t, hc))
  {
    var t' := Expired(t, hc);
    forall i | 0 <= i < |t| && Stale(t[i], hc) ensures t[i].nextHop != v {
      assert RouteOK(g, v, t[i]);
    }
    forall i | 1 <= i < |t'| ensures RouteOK(g, v, t'[i]) {
      assert RouteOK(g, v, t[i]);
    }
  }

  lemma ReceiptKeepsTable(g: Graph, cap: Capacity, signed: bool, n: N.Node, p: Packet)
    requires ValidGraph(g) && PacketOK(g, p) && p.to == n.self && TableOK(g, n.self, n.table)
    ensures TableOK(g, n.self, N.Received(cap, signed, n, p.payload).table)
  {
    var pl, hc := p.payload, n.helloCount;
    var s, trs := pl[3], Decode(pl);
    if pl == N.HelloPayload(s) {
      assert trs == [];
      UpdateKeepsTable(g, n.self, cap, n.table, s, s, 1, hc);
      RefreshKeepsTable(g, n.self, Updated(cap, n.table, s, s, 1, hc), s, hc);
    } else {
      MergeKeepsTable(g, n.self, cap, signed, n.table, s, trs, hc);
    }
  }

  // ---- what is sent is sound ----

  lemma AdvertisedTripleOK(g: Graph, v: byte, signed: bool, t: Table, j: nat)
    requires ValidGraph(g) && WellAddressed(g) && v in g.nodes && TableOK(g, v, t) && j < |Advertised(signed, t)|
    ensures PlainDests(t) && TripleOK(g, v, Advertised(signed, t)[j])
  {
    forall i | 0 <= i < |t| ensures 0 < t[i].dest < 128 {
      assert i > 0 ==> RouteOK(g, v, t[i]);
    }
    var trs := Advertised(signed, t);
    var d := trs[j].dest;
    AdvertisedDistinct(signed, t);
    AdvertisedPerDestination(signed, t, d);
    KeptIsLeastUnlessFrozen(signed, t, d);
    var k := Kept(signed, t, d);
    assert trs[j] == AsTriple(t[k]);
    assert FirstListed(t, v) == 0;
    assert k > 0 ==> RouteOK(g, v, t[k]);
  }

  lemma AdvertisedIsSmall(g: Graph, v: byte, signed: bool, t: Table)
    requires ValidGraph(g) && WellAddressed(g) && v in g.nodes && TableOK(g, v, t)
    ensures PlainDests(t) && 0 < |Advertised(signed, t)| <= |g.nodes|
  {
    forall i | 0 <= i < |t| ensures 0 < t[i].dest < 128 {
      assert i > 0 ==> RouteOK(g, v, t[i]);
    }
    var trs := Advertised(signed, t);
    var dests := seq(|trs|, i requires 0 <= i < |trs| => trs[i].dest);
    AdvertisedDistinct(signed, t);
    forall j | 0 <= j < |trs| ensures dests[j] in g.nodes {
      AdvertisedTripleOK(g, v, signed, t, j);
    }
    DistinctFits(dests, g.nodes);
    FirstAdvertised(signed, t);
  }

  /** Two different destinations make two triples. */
  lemma TwoListed(signed: bool, t: Table, i: nat, j: nat)
    requires PlainDests(t) && i < |t| && j < |t| && t[i].dest != t[j].dest
    ensures |Advertised(signed, t)| >= 2
  {
    AdvertisedPerDestination(signed, t, t[i].dest);
    AdvertisedPerDestination(signed, t, t[j].dest);
  }

  lemma {:induction false} TargetsAreLinks(t: Table, last: byte)
    ensures forall to :: to in Targets(t, last) <==>
              exists i :: 0 <= i < |t| && t[i].hops == 1 && t[i].nextHop == to && to != last
    decreases |t|
  {
    if t == [] {
    } else {
      TargetsAreLinks(t[1..], last);
      assert forall i :: 0 < i < |t| ==> t[i] == t[1..][i-1];
      assert forall i :: 0 <= i < |t| - 1 ==> t[1..][i] == t[i+1];
    }
  }

  /** The payload of v's update, as every neighbour reads it. */
  ghost predicate IsUpdateOf(p: seq<byte>, v: byte, trs: seq<Triple>) {
    Readable(p) && IsUpdatePayload(p) && p[3] == v && Decode(p) == trs
  }

  lemma {:induction false} CarriedAll(frames: seq<seq<byte>>)
    requires forall i :: 0 <= i < |frames| ==> |frames[i]| >= UPD_SIZE && Relay(frames[i]).Some?
    ensures |Carried(frames)| == |frames|
    ensures forall i :: 0 <= i < |frames| ==> Carried(frames)[i] == Packet(frames[i][0], Relay(frames[i]).value)
    decreases |frames|
  {
    if frames == [] {
    } else {
      CarriedAll(frames[1..]);
      assert forall i :: 0 < i < |frames| ==> frames[i] == frames[1..][i-1];
    }
  }

  /** The packets of an update are intact, one for each link of the table. */
  lemma UpdatesIntact(sys: System, v: byte, t: Table)
    requires ValidSystem(sys) && v in sys.g.nodes && TableOK(sys.g, v, t)
    ensures var frames, trs := UpdateFrames(sys.signed, v, t, 255), Advertised(sys.signed, t);
            && |frames| == |Targets(t, 255)|
            && forall i :: 0 <= i < |frames| ==>
                 && Intact(frames[i], v, trs, Targets(t, 255)[i]) && Adjacent(sys.g, v, frames[i][0])
                 && |frames[i]| >= UPD_SIZE && Relay(frames[i]).Some? && IsUpdateOf(Relay(frames[i]).value, v, trs)
  {
    var trs := Advertised(sys.signed, t);
    AdvertisedIsSmall(sys.g, v, sys.signed, t);
    TargetsAreLinks(t, 255);
    forall to | to in Targets(t, 255)
      ensures Adjacent(sys.g, v, to) && to != v && to != INFINITY && !Clashes(to, |trs|)
    {
      var i :| 0 <= i < |t| && t[i].hops == 1 && t[i].nextHop == to && to != 255;
      assert i > 0 && RouteOK(sys.g, v, t[i]);
      TwoListed(sys.signed, t, 0, i);
    }
    WireIntact(sys.signed, v, t, 255);
  }

  /** An update goes to each link of the table once, and each copy reads as the advertisement of the table. */
  lemma UpdatesReachLinks(sys: System, v: byte, t: Table)
    requires ValidSystem(sys) && v in sys.g.nodes && TableOK(sys.g, v, t)
    ensures var ps := UpdatesOf(sys, v, t);
            && |ps| == |Targets(t, 255)|
            && forall i :: 0 <= i < |ps| ==>
                 && ps[i].to == Targets(t, 255)[i] && Adjacent(sys.g, v, ps[i].to)
                 && IsUpdateOf(ps[i].payload, v, Advertised(sys.signed, t)) && PacketOK(sys.g, ps[i])
  {
    var trs := Advertised(sys.signed, t);
    AdvertisedIsSmall(sys.g, v, sys.signed, t);
    AdvertisedDistinct(sys.signed, t);
    UpdatesIntact(sys, v, t);
    CarriedAll(UpdateFrames(sys.signed, v, t, 255));
    forall j | 0 <= j < |trs| ensures TripleOK(sys.g, v, trs[j]) {
      AdvertisedTripleOK(sys.g, v, sys.signed, t, j);
    }
  }

  lemma StartOK(sys: System)
    requires ValidSystem(sys)
    ensures NetOK(sys, StartNet(sys))
  {
    forall v | v in sys.g.nodes ensures N.Start(sys.cap, v).table == [Entry(v, v, 0, 0)] {
      assert Touched([], v, v, 0) == [];
    }
  }

  lemma SendingKeepsFlight(sys: System, v: byte, t: Table, flight: multiset<Packet>)
    requires ValidSystem(sys) && v in sys.g.nodes && TableOK(sys.g, v, t) && FlightOK(sys.g, flight)
    ensures FlightOK(sys.g, flight + multiset(UpdatesOf(sys, v, t)))
  {
    UpdatesReachLinks(sys, v, t);
    forall p | p in flight + multiset(UpdatesOf(sys, v, t)) ensures PacketOK(sys.g, p) {
      if p !in flight {
        assert p in UpdatesOf(sys, v, t);
      }
    }
  }

  lemma GreetingKeepsFlight(sys: System, v: byte, flight: multiset<Packet>)
    requires FlightOK(sys.g, flight)
    ensures FlightOK(sys.g, flight + multiset(HellosOf(sys.g, v)))
  {
    forall p | p in flight + multiset(HellosOf(sys.g, v)) ensures PacketOK(sys.g, p) {
      if p !in flight {
        assert p in HellosOf(sys.g, v);
      }
    }
  }

  lemma ChangeKeepsNodes(g: Graph, nodes: map<byte, N.Node>, v: byte, n: N.Node)
    requires NodesOK(g, nodes) && v in nodes && n.self == v && TableOK(g, v, n.table)
    ensures NodesOK(g, nodes[v := n])
  {}

  lemma StepKeepsNet(sys: System, net: Net, ev: Event)
    requires ValidSystem(sys) && NetOK(sys, net) && Enabled(net, ev)
    ensures NetOK(sys, After(sys, net, ev))
  {
    match ev
    case Hello(v) =>
      ChangeKeepsNodes(sys.g, net.nodes, v, N.SaidHello(net.nodes[v]));
      GreetingKeepsFlight(sys, v, net.flight);
    case Advertise(v) =>
      ChangeKeepsNodes(sys.g, net.nodes, v, N.SaidUpdate(net.nodes[v]));
      SendingKeepsFlight(sys, v, net.nodes[v].table, net.flight);
    case Tick(v) =>
      var n' := N.Ticked(net.nodes[v]);
      ExpiryKeepsTable(sys.g, v, net.nodes[v].table, net.nodes[v].helloCount);
      ChangeKeepsNodes(sys.g, net.nodes, v, n');
      SendingKeepsFlight(sys, v, n'.table, net.flight);
    case Request(v, d) =>
      RequestKeepsNet(sys, net, v, d);
    case Deliver(p) =>
      DeliveryKeepsNet(sys, net, p);
    case Lose(p) =>
    case Duplicate(p) =>
  }

  lemma RequestKeepsNet(sys: System, net: Net, v: byte, d: byte)
    requires Enabled(net, Request(v, d))
    ensures After(sys, net, Request(v, d)) == net
  {
    N.RequestChangesNothing(sys.cap, sys.signed, net.nodes[v], d);
    assert net.nodes[v := net.nodes[v]] == net.nodes;
  }

  lemma DeliveryKeepsNet(sys: System, net: Net, p: Packet)
    requires ValidSystem(sys) && NetOK(sys, net) && Enabled(net, Deliver(p))
    ensures NetOK(sys, After(sys, net, Deliver(p)))
  {
    ReceiptKeepsTable(sys.g, sys.cap, sys.signed, net.nodes[p.to], p);
    ChangeKeepsNodes(sys.g, net.nodes, p.to, N.Received(sys.cap, sys.signed, net.nodes[p.to], p.payload));
  }

  lemma {:induction false} RunKeepsNet(sys: System, nets: seq<Net>, evs: seq<Event>, k: nat)
    requires ValidSystem(sys) && Run(sys, nets, evs) && k <= |evs|
    ensures NetOK(sys, nets[k])
  {
    if k == 0 {
      StartOK(sys);
    } else {
      RunKeepsNet(sys, nets, evs, k - 1);
      StepKeepsNet(sys, nets[k-1], evs[k-1]);
    }
  }

  // ---- results about every run ----

  /** Distance soundness. Whatever is lost, duplicated, reordered, timed out or revived, every finite route is a real
      walk of exactly its hop count through the named neighbour, so no hop count is below the true distance. */
  lemma DistanceSoundness(sys: System, nets: seq<Net>, evs: seq<Event>, k: nat, v: byte, i: nat)
    requires ValidSystem(sys) && Run(sys, nets, evs) && k <= |evs|
    requires v in nets[k].nodes && i < |nets[k].nodes[v].table| && nets[k].nodes[v].table[i].hops != INFINITY
    ensures var e := nets[k].nodes[v].table[i];
            && (if i == 0 then e.dest == v && e.hops == 0
                else e.hops >= 1 && Adjacent(sys.g, v, e.nextHop) && Walk(sys.g, e.nextHop, e.dest, e.hops - 1))
            && Walk(sys.g, v, e.dest, e.hops)
            && forall d: nat :: IsDistance(sys.g, v, e.dest, d) ==> d <= e.hops
  {
    RunKeepsNet(sys, nets, evs, k);
    FiniteRouteIsWalk(sys.g, v, nets[k].nodes[v].table, i);
  }

  lemma FiniteRouteIsWalk(g: Graph, v: byte, t: Table, i: nat)
    requires TableOK(g, v, t) && i < |t| && t[i].hops != INFINITY
    ensures var e := t[i];
            && (if i == 0 then e.dest == v && e.hops == 0
                else e.hops >= 1 && Adjacent(g, v, e.nextHop) && Walk(g, e.nextHop, e.dest, e.hops - 1))
            && Walk(g, v, e.dest, e.hops)
            && forall d: nat :: IsDistance(g, v, e.dest, d) ==> d <= e.hops
  {
    var e := t[i];
    assert i > 0 ==> RouteOK(g, v, e);
    assert Walk(g, v, e.dest, e.hops);
    forall d: nat | IsDistance(g, v, e.dest, d) ensures d <= e.hops {}
  }

  /** The shape of every table in every run: entry 0 stays the node itself, no other entry has no hops, a 1-hop entry
      is a link to a neighbour, and each neighbour is listed at most once as its own next hop. */
  lemma NeighbourShape(sys: System, nets: seq<Net>, evs: seq<Event>, k: nat, v: byte)
    requires ValidSystem(sys) && Run(sys, nets, evs) && k <= |evs| && v in sys.g.nodes
    ensures v in nets[k].nodes
    ensures var t := nets[k].nodes[v].table;
            && |t| >= 1 && t[0].dest == t[0].nextHop == v && t[0].hops == 0
            && (forall i :: 1 <= i < |t| ==> t[i].hops != 0)
            && (forall i :: 0 <= i < |t| && t[i].hops == 1 ==>
                  t[i].dest == t[i].nextHop && Adjacent(sys.g, v, t[i].nextHop))
            && N.LinkShape(t)
  {
    RunKeepsNet(sys, nets, evs, k);
    var t := nets[k].nodes[v].table;
    forall i | 1 <= i < |t| ensures RouteOK(sys.g, v, t[i]) && t[i].nextHop != v {}
  }

  lemma StepEvolution(sys: System, net: Net, ev: Event, v: byte)
    requires Enabled(net, ev) && v in net.nodes
    ensures v in After(sys, net, ev).nodes
    ensures Extends(net.nodes[v].table, After(sys, net, ev).nodes[v].table)
  {
    match ev
    case Tick(u) => N.NodeEvolution(sys.cap, sys.signed, net.nodes[u], N.Tick);
    case Request(u, d) => RequestKeepsNet(sys, net, u, d);
    case Deliver(p) => N.NodeEvolution(sys.cap, sys.signed, net.nodes[p.to], N.Receive(p.payload));
    case _ =>
  }

  /** Over any stretch of any run, entries are never removed or reordered and keep destination and next hop. */
  lemma {:induction false} RunEvolution(sys: System, nets: seq<Net>, evs: seq<Event>, j: nat, k: nat, v: byte)
    requires Run(sys, nets, evs) && j <= k <= |evs| && v in nets[j].nodes
    ensures v in nets[k].nodes && Extends(nets[j].nodes[v].table, nets[k].nodes[v].table)
    decreases k - j
  {
    if j < k {
      RunEvolution(sys, nets, evs, j, k - 1, v);
      StepEvolution(sys, nets[k-1], evs[k-1], v);
    }
  }

  lemma {:induction false} TargetsDistinct(t: Table, last: byte)
    requires forall i, j :: 0 <= i < j < |t| && IsTarget(t[i], last) && IsTarget(t[j], last) ==>
               t[i].nextHop != t[j].nextHop
    ensures forall i, j :: 0 <= i < j < |Targets(t, last)| ==> Targets(t, last)[i] != Targets(t, last)[j]
    decreases |t|
  {
    if t == [] {
    } else {
      assert forall i :: 0 <= i < |t| - 1 ==> t[1..][i] == t[i+1];
      TargetsDistinct(t[1..], last);
      if IsTarget(t[0], last) {
        var rest := Targets(t[1..], last);
        TargetsAreLinks(t[1..], last);
        forall j | 0 <= j < |rest| ensures rest[j] != t[0].nextHop {
          assert rest[j] in rest;
        }
      }
    }
  }

  ghost predicate HoldsLink(t: Table, n: byte) {
    exists i :: 0 <= i < |t| && t[i].hops == 1 && t[i].dest == t[i].nextHop == n
  }

  ghost predicate SentTo(ps: seq<Packet>, n: byte) {
    exists i :: 0 <= i < |ps| && ps[i].to == n
  }

  lemma TargetsOfTable(g: Graph, v: byte, t: Table)
    requires ValidGraph(g) && WellAddressed(g) && TableOK(g, v, t)
    ensures forall n :: n in Targets(t, 255) <==> HoldsLink(t, n)
    ensures forall i, j :: 0 <= i < j < |Targets(t, 255)| ==> Targets(t, 255)[i] != Targets(t, 255)[j]
  {
    TargetsAreLinks(t, 255);
    forall i | 0 <= i < |t| && t[i].hops == 1
      ensures IsTarget(t[i], 255) && t[i].dest == t[i].nextHop
    {
      assert RouteOK(g, v, t[i]);
    }
    forall n | HoldsLink(t, n) ensures n in Targets(t, 255) {
      var i :| 0 <= i < |t| && t[i].hops == 1 && t[i].dest == t[i].nextHop == n;
      assert IsTarget(t[i], 255);
    }
    TargetsDistinct(t, 255);
  }

  lemma UpdateFor(sys: System, s: byte, t: Table, n: byte) returns (p: Packet)
    requires ValidSystem(sys) && s in sys.g.nodes && TableOK(sys.g, s, t) && HoldsLink(t, n)
    ensures p in UpdatesOf(sys, s, t) && p.to == n && IsUpdateOf(p.payload, s, Advertised(sys.signed, t))
  {
    UpdatesReachLinks(sys, s, t);
    TargetsOfTable(sys.g, s, t);
    var i :| 0 <= i < |Targets(t, 255)| && Targets(t, 255)[i] == n;
    p := UpdatesOf(sys, s, t)[i];
  }

  /** In every run, each update sent reaches exactly the neighbours held at one hop, one copy each, and every copy
      decodes to the sender's advertisement. */
  lemma OneCopyPerNeighbour(sys: System, nets: seq<Net>, evs: seq<Event>, k: nat, v: byte)
    requires ValidSystem(sys) && Run(sys, nets, evs) && k <= |evs| && v in nets[k].nodes
    ensures var t := nets[k].nodes[v].table;
            var ps := UpdatesOf(sys, v, t);
            && (forall i, j :: 0 <= i < j < |ps| ==> ps[i].to != ps[j].to)
            && (forall n :: SentTo(ps, n) <==> HoldsLink(t, n))
            && (forall i :: 0 <= i < |ps| ==> Adjacent(sys.g, v, ps[i].to))
            && (forall i :: 0 <= i < |ps| ==> IsUpdateOf(ps[i].payload, v, Advertised(sys.signed, t)))
  {
    RunKeepsNet(sys, nets, evs, k);
    var t := nets[k].nodes[v].table;
    SentToTargets(sys, v, t);
    UpdatesReachLinks(sys, v, t);
    TargetsOfTable(sys.g, v, t);
  }

  lemma SentToTargets(sys: System, v: byte, t: Table)
    requires ValidSystem(sys) && v in sys.g.nodes && TableOK(sys.g, v, t)
    ensures forall n :: SentTo(UpdatesOf(sys, v, t), n) <==> n in Targets(t, 255)
  {
    UpdatesReachLinks(sys, v, t);
    var ps, tos := UpdatesOf(sys, v, t), Targets(t, 255);
    forall n | n in tos ensures SentTo(ps, n) {
      var i :| 0 <= i < |tos| && tos[i] == n;
      assert ps[i].to == n;
    }
  }
}
