/** How much room the routes of a graph need: with that much, no table of a run without timeouts is ever full. */
module Room {
  import opened Bytes
  import opened Tables
  import opened Timeouts
  import opened Codec
  import opened Graphs
  import opened Network
  import opened Grounding
  import opened Exactness
  import opened Convergence
  import N = Nodes

  datatype Route = Route(at: byte, dest: byte, nextHop: byte, hops: byte)

  /** The routes that node v could ever store while nothing times out: through a neighbour, over a walk of as many
      links, at most one for each node, and at one hop only to the neighbour itself. */
  ghost function RoutesAt(g: Graph, v: byte): set<Route> {
    set d, n, h: byte | d in g.nodes && n in g.nodes && 1 <= h <= |g.nodes| && IsRoute(g, v, d, n, h) ::
      Route(v, d, n, h)
  }

  ghost predicate IsRoute(g: Graph, v: byte, d: byte, n: byte, h: nat) {
    h > 0 && Adjacent(g, v, n) && (h == 1 <==> d == n) && Walk(g, n, d, h - 1)
  }

  /** Every table has room for the node itself and all its routes. */
  ghost predicate Roomy(sys: System) {
    sys.cap.AtMost? ==> forall v :: v in sys.g.nodes ==> |RoutesAt(sys.g, v)| < sys.cap.size
  }

  /** No route is stored twice. */
  ghost predicate DistinctRoutes(t: Table) {
    forall i, j :: 1 <= i < j < |t| ==> !SameRoute(t[i], t[j])
  }

  ghost predicate DistinctNet(net: Network.Net) {
    forall v :: v in net.nodes ==> DistinctRoutes(net.nodes[v].table)
  }

  lemma FiniteUpdateKeepsDistinct(t: Table, src: byte, dest: byte, hops: byte, hc: byte)
    requires Finite(t) && hops != INFINITY && DistinctRoutes(t)
    ensures DistinctRoutes(Updated(Unlimited, t, src, dest, hops, hc))
  {
    FiniteUpdateGrows(t, src, dest, hops, hc);
  }

  lemma {:induction false} MergeKeepsDistinct(signed: bool, t: Table, self: byte, src: byte, trs: seq<Triple>, hc: byte)
    requires Finite(t) && FiniteFurther(trs) && DistinctRoutes(t)
    ensures DistinctRoutes(Merged(Unlimited, signed, t, self, src, trs, hc))
  {
    if trs == [] {
    } else {
      var n := |trs| - 1;
      MergeKeepsDistinct(signed, t, self, src, trs[..n], hc);
      FiniteMergeGrows(signed, t, self, src, trs[..n], hc);
      FiniteUpdateKeepsDistinct(Merged(Unlimited, signed, t, self, src, trs[..n], hc), src, trs[n].dest,
                                Further(trs[n].hops), hc);
    }
  }

  lemma ReceiptKeepsDistinct(g: Graph, signed: bool, n: N.Node, p: Packet)
    requires PacketOK(g, p) && Finite(n.table) && (IsUpdatePayload(p.payload) ==> FiniteFurther(Decode(p.payload)))
    requires DistinctRoutes(n.table)
    ensures DistinctRoutes(N.Received(Unlimited, signed, n, p.payload).table)
  {
    var s, trs, hc := p.payload[3], Decode(p.payload), n.helloCount;
    if p.payload == N.HelloPayload(s) {
      assert trs == [];
      FiniteUpdateKeepsDistinct(n.table, s, s, 1, hc);
      RefreshedFirstOnly(Updated(Unlimited, n.table, s, s, 1, hc), s, hc);
    } else {
      MergeKeepsDistinct(signed, n.table, n.self, s, trs, hc);
    }
  }

  lemma DeliveryKeepsDistinct(sys: System, net: Network.Net, p: Packet)
    requires ValidSystem(sys) && NetOK(sys, net) && GroundedNet(net) && DistinctNet(net)
    requires Enabled(net, Deliver(p)) && QuietStep(sys, net, Deliver(p))
    ensures DistinctNet(After(sys, net, Deliver(p)))
  {
    ReceiverIsReady(sys, net, p);
    ReceiptKeepsDistinct(sys.g, sys.signed, net.nodes[p.to], p);
  }

  lemma StepKeepsDistinct(sys: System, net: Network.Net, ev: Event)
    requires ValidSystem(sys) && NetOK(sys, net) && GroundedNet(net) && DistinctNet(net)
    requires Enabled(net, ev) && QuietStep(sys, net, ev)
    ensures DistinctNet(After(sys, net, ev))
  {
    if ev.Deliver? {
      DeliveryKeepsDistinct(sys, net, ev.p);
    } else {
      var net' := After(sys, net, ev);
      OtherStepsKeepTables(sys, net, ev);
      forall v | v in net'.nodes ensures net'.nodes[v].table == net.nodes[v].table {
        assert TablesOf(net')[v] == TablesOf(net)[v];
      }
    }
  }

  lemma {:induction false} RunKeepsDistinct(sys: System, nets: seq<Network.Net>, evs: seq<Event>, k: nat)
    requires ValidSystem(sys) && QuietRun(sys, nets, evs) && k <= |evs|
    ensures DistinctNet(nets[k])
  {
    if k == 0 {
      forall v | v in sys.g.nodes ensures |nets[0].nodes[v].table| <= 1 {
        assert Touched([], v, v, 0) == [];
      }
    } else {
      RunKeepsDistinct(sys, nets, evs, k - 1);
      QuietRunInvariant(sys, nets, evs, k - 1);
      StepKeepsDistinct(sys, nets[k-1], evs[k-1]);
    }
  }

  function RouteOf(v: byte, e: Entry): Route {
    Route(v, e.dest, e.nextHop, e.hops)
  }

  lemma RouteIsPossible(g: Graph, ts: TableMap, v: byte, k: nat)
    requires ts.Keys == g.nodes && v in ts && Grounded(ts) && 1 <= k < |ts[v]| && RouteOK(g, v, ts[v][k])
    requires ValidGraph(g) && ts[v][k].hops != INFINITY
    ensures RouteOf(v, ts[v][k]) in RoutesAt(g, v)
  {
    var e := ts[v][k];
    assert Adjacent(g, v, e.nextHop);
    assert Rests(ts, e.nextHop, e.dest, e.hops);
    RestsBounded(ts, e.nextHop, e.dest, e.hops);
    assert IsRoute(g, v, e.dest, e.nextHop, e.hops);
  }

  /** While nothing times out, a table holds the node itself and at most all its routes. */
  lemma TableIsBounded(sys: System, net: Network.Net, v: byte)
    requires ValidSystem(sys) && NetOK(sys, net) && GroundedNet(net) && DistinctNet(net) && v in net.nodes
    ensures |net.nodes[v].table| <= 1 + |RoutesAt(sys.g, v)|
  {
    var t, ts := net.nodes[v].table, TablesOf(net);
    SmallHops(sys.g, ts, v);
    forall k | 1 <= k < |t| ensures RouteOf(v, t[k]) in RoutesAt(sys.g, v) {
      RouteIsPossible(sys.g, ts, v, k);
    }
    DistinctAreCounted(v, t, RoutesAt(sys.g, v));
  }

  lemma DistinctAreCounted(v: byte, t: Table, routes: set<Route>)
    requires |t| > 0 && DistinctRoutes(t) && forall k :: 1 <= k < |t| ==> RouteOf(v, t[k]) in routes
    ensures |t| <= 1 + |routes|
  {
    var rs := seq(|t| - 1, i requires 0 <= i < |t| - 1 => RouteOf(v, t[i+1]));
    forall i, j | 0 <= i < j < |rs| ensures rs[i] != rs[j] {
      assert !SameRoute(t[i+1], t[j+1]);
    }
    DistinctFits(rs, routes);
  }

  lemma AfterDelivery(sys: System, net: Network.Net, p: Packet)
    requires ValidSystem(sys) && NetOK(sys, net) && GroundedNet(net)
    requires Enabled(net, Deliver(p)) && QuietStep(sys, net, Deliver(p))
    ensures NetOK(sys, After(sys, net, Deliver(p))) && GroundedNet(After(sys, net, Deliver(p)))
    ensures |net.nodes[p.to].table| > 0
  {
    DeliveryKeepsNet(sys, net, p);
    DeliveryKeepsGrounded(sys, net, p);
  }

  /** A capacity that the unlimited table would not exceed makes no difference. */
  lemma {:induction false} MergedWithRoom(
      cap: Capacity, signed: bool, t: Table, self: byte, src: byte, trs: seq<Triple>, hc: byte)
    requires cap.AtMost? ==> |Merged(Unlimited, signed, t, self, src, trs, hc)| <= cap.size
    ensures Merged(cap, signed, t, self, src, trs, hc) == Merged(Unlimited, signed, t, self, src, trs, hc)
    ensures MergeLearns(cap, signed, t, self, src, trs, hc) <==> MergeLearns(Unlimited, signed, t, self, src, trs, hc)
  {
    if trs == [] {
    } else {
      MergedWithRoom(cap, signed, t, self, src, trs[..|trs|-1], hc);
    }
  }

  lemma ReceivedWithRoom(cap: Capacity, signed: bool, n: N.Node, p: seq<byte>)
    requires Readable(p) && (cap.AtMost? ==> |N.Received(Unlimited, signed, n, p).table| <= cap.size)
    ensures N.Received(cap, signed, n, p) == N.Received(Unlimited, signed, n, p)
  {
    var hc := n.helloCount;
    var t := Merged(Unlimited, signed, n.table, n.self, p[3], Decode(p), hc);
    RefreshedFirstOnly(Updated(Unlimited, t, p[3], p[3], 1, hc), p[3], hc);
    MergedWithRoom(cap, signed, n.table, n.self, p[3], Decode(p), hc);
  }

  /** With room for the routes of the graph no push is ever refused while nothing times out. */
  lemma RoomMakesQuiet(sys: System, net: Network.Net, p: Packet)
    requires ValidSystem(sys) && NetOK(sys, net) && GroundedNet(net) && DistinctNet(net) && Roomy(sys)
    requires Enabled(net, Deliver(p))
    ensures QuietStep(sys, net, Deliver(p))
  {
    var unlimited := sys.(cap := Unlimited);
    var net' := After(unlimited, net, Deliver(p));
    AfterDelivery(unlimited, net, p);
    DeliveryKeepsDistinct(unlimited, net, p);
    TableIsBounded(unlimited, net', p.to);
    ReceivedWithRoom(sys.cap, sys.signed, net.nodes[p.to], p.payload);
  }

  /** Nothing is lost and nobody times out; whether pushes are refused is left open. */
  ghost predicate Calm(net: Network.Net, ev: Event) {
    match ev
    case Lose(p) => false
    case Tick(v) => v in net.nodes && !AnyStale(net.nodes[v].table, net.nodes[v].helloCount)
    case _ => true
  }

  /** So in a network with room, calm runs are quiet. */
  lemma {:induction false} CalmRunsAreQuiet(sys: System, nets: seq<Network.Net>, evs: seq<Event>)
    requires ValidSystem(sys) && Roomy(sys) && Run(sys, nets, evs)
    requires forall i :: 0 <= i < |evs| ==> Calm(nets[i], evs[i])
    ensures QuietRun(sys, nets, evs)
    decreases |evs|
  {
    if evs == [] {
    } else {
      var k := |evs| - 1;
      assert Run(sys, nets[..|evs|], evs[..k]);
      CalmRunsAreQuiet(sys, nets[..|evs|], evs[..k]);
      assert Enabled(nets[k], evs[k]) && Calm(nets[k], evs[k]);
      NextStepIsQuiet(sys, nets[..|evs|], evs[..k], evs[k]);
      forall i | 0 <= i < |evs| ensures QuietStep(sys, nets[i], evs[i]) {
        assert i < k ==> QuietStep(sys, nets[..|evs|][i], evs[..k][i]);
      }
    }
  }

  lemma NextStepIsQuiet(sys: System, nets: seq<Network.Net>, evs: seq<Event>, ev: Event)
    requires ValidSystem(sys) && Roomy(sys) && QuietRun(sys, nets, evs)
    requires Enabled(nets[|evs|], ev) && Calm(nets[|evs|], ev)
    ensures QuietStep(sys, nets[|evs|], ev)
  {
    QuietRunInvariant(sys, nets, evs, |evs|);
    RunKeepsDistinct(sys, nets, evs, |evs|);
    if ev.Deliver? {
      RoomMakesQuiet(sys, nets[|evs|], ev.p);
    }
  }

  /** Quiescence without any assumption on pushes: in a network with room, once a calm run is at rest, every lookup is
      exact. */
  lemma CalmQuiescenceIsExact(sys: System, nets: seq<Network.Net>, evs: seq<Event>)
    requires ValidSystem(sys) && Roomy(sys) && Run(sys, nets, evs)
    requires forall i :: 0 <= i < |evs| ==> Calm(nets[i], evs[i])
    requires AllHeard(sys.g, nets[|evs|]) && Quiescent(nets[|evs|])
    ensures Exact(sys.g, TablesOf(nets[|evs|]))
  {
    CalmRunsAreQuiet(sys, nets, evs);
    QuiescenceIsExact(sys, nets, evs);
  }

  // ---- the capacity of the source ----

  lemma ThreeAtMost(s: set<byte>, a: byte) returns (b: byte, c: byte)
    requires a in s && |s| <= 3
    ensures s <= {a, b, c}
  {
    b, c := a, a;
    var r := s - {a};
    if x :| x in r {
      b, c := x, x;
      var q := r - {x};
      if y :| y in q {
        c := y;
        assert |q - {y}| == 0;
      }
    }
  }

  /** Room for 16 entries is enough for every graph of at most three nodes. */
  lemma SixteenServeThree(sys: System)
    requires ValidGraph(sys.g) && |sys.g.nodes| <= 3 && sys.cap == AtMost(MAX_QUEUE_SIZE)
    ensures Roomy(sys)
  {
    forall v | v in sys.g.nodes ensures |RoutesAt(sys.g, v)| < MAX_QUEUE_SIZE {
      var b, c := ThreeAtMost(sys.g.nodes, v);
      var all := {Route(v, b, b, 1), Route(v, v, b, 2), Route(v, c, b, 2), Route(v, v, b, 3), Route(v, c, b, 3)} +
                 {Route(v, c, c, 1), Route(v, v, c, 2), Route(v, b, c, 2), Route(v, v, c, 3), Route(v, b, c, 3)};
      forall r | r in RoutesAt(sys.g, v) ensures r in all {
        assert IsRoute(sys.g, v, r.dest, r.nextHop, r.hops);
      }
      SubsetIsSmaller(RoutesAt(sys.g, v), all);
    }
  }

  lemma SubsetIsSmaller<T>(a: set<T>, b: set<T>)
    requires a <= b
    ensures |a| <= |b|
  {
    assert b == a + (b - a);
  }
}
