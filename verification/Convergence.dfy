/** Asynchronous runs without timeouts, losses or refused pushes: once nothing is left to say, every table is exact. */
module Convergence {
  import opened Bytes
  import opened Tables
  import opened Timeouts
  import opened Advertising
  import opened Codec
  import opened Graphs
  import opened Network
  import opened Grounding
  import opened Exactness
  import N = Nodes

  /** Nothing is lost, nobody times out, and no push is refused. Packets may be duplicated and reordered, and the
      hello timer may tick. */
  ghost predicate QuietStep(sys: System, net: Network.Net, ev: Event)
    requires Enabled(net, ev)
  {
    match ev
    case Lose(p) => false
    case Tick(v) => !AnyStale(net.nodes[v].table, net.nodes[v].helloCount)
    case Deliver(p) =>
      N.Received(sys.cap, sys.signed, net.nodes[p.to], p.payload) ==
      N.Received(Unlimited, sys.signed, net.nodes[p.to], p.payload)
    case _ => true
  }

  ghost predicate QuietRun(sys: System, nets: seq<Network.Net>, evs: seq<Event>) {
    Run(sys, nets, evs) && forall i :: 0 <= i < |evs| ==> QuietStep(sys, nets[i], evs[i])
  }

  ghost function TablesOf(net: Network.Net): TableMap {
    map v | v in net.nodes :: net.nodes[v].table
  }

  // ---- first invariant: finite, grounded routes ----

  ghost predicate GroundedPacket(ts: TableMap, p: Packet) {
    Readable(p.payload) && IsUpdatePayload(p.payload) ==>
      GroundedTriples(ts, p.payload[3], Decode(p.payload)) && FiniteFurther(Decode(p.payload))
  }

  ghost predicate GroundedNet(net: Network.Net) {
    && Grounded(TablesOf(net))
    && forall p :: p in net.flight ==> GroundedPacket(TablesOf(net), p)
  }

  lemma GroundedSurvives(ts: TableMap, ts': TableMap, p: Packet)
    requires AllGrow(ts, ts') && GroundedPacket(ts, p)
    ensures GroundedPacket(ts', p)
  {
    if Readable(p.payload) && IsUpdatePayload(p.payload) {
      var trs := Decode(p.payload);
      forall i | 0 <= i < |trs| ensures Rests(ts', p.payload[3], trs[i].dest, trs[i].hops + 1) {
        RestsGrows(ts, ts', p.payload[3], trs[i].dest, trs[i].hops + 1);
      }
    }
  }

  /** What one quiet receipt does to its receiver. */
  ghost predicate QuietReceipt(n: N.Node, n': N.Node, src: byte, trs: seq<Triple>) {
    && n'.self == n.self && n'.helloCount == n.helloCount
    && Grows(n.table, n'.table)
    && (|n'.table| > |n.table| ==> n'.state == N.Update)
    && (|n'.table| == |n.table| ==> n'.state == n.state)
    && (forall i :: 0 <= i < |trs| && trs[i].nextHop != n.self ==> Stores(n'.table, trs[i].dest, src, trs[i].hops + 1))
    && (forall k :: |n.table| <= k < |n'.table| ==>
          n'.table[k].nextHop == src &&
          ((n'.table[k].dest == src && n'.table[k].hops == 1) || FromSome(n'.table[k], trs)))
  }

  lemma ReceiptIsQuiet(g: Graph, signed: bool, n: N.Node, p: Packet)
    requires ValidGraph(g) && PacketOK(g, p) && Finite(n.table) && n.state == N.Wait
    requires IsUpdatePayload(p.payload) ==> FiniteFurther(Decode(p.payload))
    ensures QuietReceipt(n, N.Received(Unlimited, signed, n, p.payload), p.payload[3], Decode(p.payload))
  {
    var s, trs, hc := p.payload[3], Decode(p.payload), n.helloCount;
    if p.payload == N.HelloPayload(s) {
      assert trs == [];
      FiniteUpdateGrows(n.table, s, s, 1, hc);
      RefreshedFirstOnly(Updated(Unlimited, n.table, s, s, 1, hc), s, hc);
    } else {
      FiniteMergeGrows(signed, n.table, n.self, s, trs, hc);
    }
  }

  lemma DeliveryIsQuiet(sys: System, net: Network.Net, p: Packet)
    requires ValidSystem(sys) && NetOK(sys, net) && GroundedNet(net)
    requires Enabled(net, Deliver(p)) && QuietStep(sys, net, Deliver(p))
    ensures var net' := After(sys, net, Deliver(p));
            && QuietReceipt(net.nodes[p.to], net'.nodes[p.to], p.payload[3], Decode(p.payload))
            && AllGrow(TablesOf(net), TablesOf(net'))
            && TablesOf(net') == TablesOf(net)[p.to := net'.nodes[p.to].table]
  {
    var n' := N.Received(sys.cap, sys.signed, net.nodes[p.to], p.payload);
    ReceiverIsReady(sys, net, p);
    ReceiptIsQuiet(sys.g, sys.signed, net.nodes[p.to], p);
    OneTableGrows(TablesOf(net), p.to, n'.table);
    OneTableChanges(net, p.to, n', net.flight - multiset{p});
  }

  lemma ReceiverIsReady(sys: System, net: Network.Net, p: Packet)
    requires ValidSystem(sys) && NetOK(sys, net) && GroundedNet(net) && Enabled(net, Deliver(p))
    ensures PacketOK(sys.g, p) && Finite(net.nodes[p.to].table)
    ensures IsUpdatePayload(p.payload) ==> FiniteFurther(Decode(p.payload))
  {
    SmallHops(sys.g, TablesOf(net), p.to);
    assert GroundedPacket(TablesOf(net), p);
  }

  lemma OneTableChanges(net: Network.Net, v: byte, n: N.Node, flight: multiset<Packet>)
    requires v in net.nodes
    ensures TablesOf(Network.Net(net.nodes[v := n], flight)) == TablesOf(net)[v := n.table]
  {}

  lemma OneTableGrows(ts: TableMap, v: byte, t': Table)
    requires v in ts && Grows(ts[v], t')
    ensures AllGrow(ts, ts[v := t'])
  {}

  lemma ReceiptKeepsGrounded(ts: TableMap, ts': TableMap, n: N.Node, n': N.Node, s: byte, trs: seq<Triple>)
    requires Grounded(ts) && AllGrow(ts, ts') && n.self in ts && ts[n.self] == n.table && ts' == ts[n.self := n'.table]
    requires QuietReceipt(n, n', s, trs) && GroundedTriples(ts, s, trs)
    requires s in ts' && |ts'[s]| > 0 && ts'[s][0].dest == s && ts'[s][0].hops == 0
    ensures Grounded(ts')
  {
    forall v, i | v in ts' && 1 <= i < |ts'[v]|
      ensures Rests(ts', ts'[v][i].nextHop, ts'[v][i].dest, ts'[v][i].hops)
    {
      var e := ts'[v][i];
      if i < |ts[v]| {
        assert SameRoute(ts[v][i], e);
        RestsGrows(ts, ts', e.nextHop, e.dest, e.hops);
      } else if FromSome(e, trs) {
        var j :| 0 <= j < |trs| && e.dest == trs[j].dest && e.hops == trs[j].hops + 1;
        RestsGrows(ts, ts', s, e.dest, e.hops);
      } else {
        NeighbourRests(ts', s);
      }
    }
  }

  lemma NeighbourRests(ts: TableMap, s: byte)
    requires s in ts && |ts[s]| > 0 && ts[s][0].dest == s && ts[s][0].hops == 0
    ensures Rests(ts, s, s, 1)
  {
    assert Chain(ts, [s], s);
    assert [s][0] == s && |[s]| == 1;
  }

  lemma DeliveryKeepsGrounded(sys: System, net: Network.Net, p: Packet)
    requires ValidSystem(sys) && NetOK(sys, net) && GroundedNet(net)
    requires Enabled(net, Deliver(p)) && QuietStep(sys, net, Deliver(p))
    ensures GroundedNet(After(sys, net, Deliver(p)))
  {
    var net' := After(sys, net, Deliver(p));
    var ts, ts' := TablesOf(net), TablesOf(net');
    DeliveryIsQuiet(sys, net, p);
    assert PacketOK(sys.g, p) && GroundedPacket(ts, p);
    DeliveryKeepsNet(sys, net, p);
    assert TableOK(sys.g, p.payload[3], ts'[p.payload[3]]);
    ReceiptKeepsGrounded(ts, ts', net.nodes[p.to], net'.nodes[p.to], p.payload[3], Decode(p.payload));
    forall q | q in net'.flight ensures GroundedPacket(ts', q) {
      GroundedSurvives(ts, ts', q);
    }
  }

  lemma SendingKeepsGrounded(sys: System, net: Network.Net, v: byte)
    requires ValidSystem(sys) && NetOK(sys, net) && GroundedNet(net) && v in net.nodes
    ensures forall p :: p in UpdatesOf(sys, v, net.nodes[v].table) ==> GroundedPacket(TablesOf(net), p)
  {
    var t := net.nodes[v].table;
    UpdatesReachLinks(sys, v, t);
    forall j | 0 <= j < |Advertised(sys.signed, t)|
      ensures Rests(TablesOf(net), v, Advertised(sys.signed, t)[j].dest, Advertised(sys.signed, t)[j].hops + 1)
      ensures Advertised(sys.signed, t)[j].hops < 254
    {
      AdvertisedRests(sys.g, sys.signed, TablesOf(net), v, j);
    }
  }

  lemma HelloPacketsAreNoUpdates(g: Graph, v: byte, p: Packet)
    requires p in HellosOf(g, v)
    ensures Readable(p.payload) && !IsUpdatePayload(p.payload)
  {}

  lemma SameTablesKeepGrounded(net: Network.Net, net': Network.Net)
    requires GroundedNet(net) && TablesOf(net') == TablesOf(net)
    requires forall p :: p in net'.flight ==> p in net.flight || GroundedPacket(TablesOf(net), p)
    ensures GroundedNet(net')
  {}

  lemma StepKeepsGrounded(sys: System, net: Network.Net, ev: Event)
    requires ValidSystem(sys) && NetOK(sys, net) && GroundedNet(net) && Enabled(net, ev) && QuietStep(sys, net, ev)
    ensures GroundedNet(After(sys, net, ev))
  {
    match ev
    case Deliver(p) =>
      DeliveryKeepsGrounded(sys, net, p);
    case Lose(p) =>
    case _ =>
      OtherStepsKeepTables(sys, net, ev);
      SameTablesKeepGrounded(net, After(sys, net, ev));
  }

  lemma OtherStepsKeepTables(sys: System, net: Network.Net, ev: Event)
    requires ValidSystem(sys) && NetOK(sys, net) && GroundedNet(net) && Enabled(net, ev) && QuietStep(sys, net, ev) &&
             !ev.Deliver?
    ensures TablesOf(After(sys, net, ev)) == TablesOf(net)
    ensures forall p :: p in After(sys, net, ev).flight ==> p in net.flight || GroundedPacket(TablesOf(net), p)
  {
    match ev
    case Hello(v) =>
      SameTableSameTables(net, v, N.SaidHello(net.nodes[v]));
      forall p | p in HellosOf(sys.g, v) ensures GroundedPacket(TablesOf(net), p) {
        HelloPacketsAreNoUpdates(sys.g, v, p);
      }
    case Advertise(v) =>
      SameTableSameTables(net, v, N.SaidUpdate(net.nodes[v]));
      SendingKeepsGrounded(sys, net, v);
    case Tick(v) =>
      QuietTick(net.nodes[v]);
      SameTableSameTables(net, v, N.Ticked(net.nodes[v]));
    case Request(v, d) =>
      RequestKeepsNet(sys, net, v, d);
    case Lose(p) =>
    case Duplicate(p) =>
  }

  lemma SameTableSameTables(net: Network.Net, v: byte, n: N.Node)
    requires v in net.nodes && n.table == net.nodes[v].table
    ensures TablesOf(Network.Net(net.nodes[v := n], net.flight)) == TablesOf(net)
  {}

  lemma QuietTick(n: N.Node)
    requires !AnyStale(n.table, n.helloCount)
    ensures N.Ticked(n).table == n.table
  {}

  // ---- second invariant: a best route is pending or reflected ----

  /** An update of s on its way to n lists tr. */
  ghost predicate InFlight(flight: multiset<Packet>, s: byte, n: byte, tr: Triple) {
    exists p :: p in flight && p.to == n && Readable(p.payload) && IsUpdatePayload(p.payload) &&
                p.payload[3] == s && tr in Decode(p.payload)
  }

  /** Where the route s uses for d stands with neighbour n: still to be sent, in flight to n, stored at n one hop
      longer, or leading through n. */
  ghost predicate PendingOrReflected(net: Network.Net, s: byte, n: byte, d: byte)
    requires s in net.nodes && n in net.nodes
  {
    Lookup(net.nodes[s].table, d).Some? ==>
      var e := Lookup(net.nodes[s].table, d).value;
      || net.nodes[s].state == N.Update
      || InFlight(net.flight, s, n, AsTriple(e))
      || Stores(net.nodes[n].table, d, s, e.hops + 1)
      || e.nextHop == n
  }

  ghost predicate AllPendingOrReflected(net: Network.Net) {
    forall s, n, d :: s in net.nodes && n in net.nodes && HoldsLink(net.nodes[s].table, n) ==>
      PendingOrReflected(net, s, n, d)
  }

  /** Nothing about the routes of s changed, and what n stores and what is in flight only grew. */
  lemma PendingCarriesOver(net: Network.Net, net': Network.Net, s: byte, n: byte, d: byte)
    requires s in net.nodes && n in net.nodes && s in net'.nodes && n in net'.nodes
    requires Grows(net.nodes[s].table, net'.nodes[s].table) && |net.nodes[s].table| == |net'.nodes[s].table|
    requires net.nodes[s].state == N.Update ==> net'.nodes[s].state == N.Update
    requires Grows(net.nodes[n].table, net'.nodes[n].table)
    requires forall tr: Triple :: InFlight(net.flight, s, n, tr) ==>
               InFlight(net'.flight, s, n, tr) || tr.nextHop == n ||
               Stores(net'.nodes[n].table, tr.dest, s, tr.hops + 1)
    requires PendingOrReflected(net, s, n, d)
    ensures PendingOrReflected(net', s, n, d)
  {
    var t, t' := net.nodes[s].table, net'.nodes[s].table;
    LookupIgnoresHellos(t, t', d);
    if Lookup(t, d).Some? {
      var e := Lookup(t, d).value;
      LookupIsFirstMinimum(t, d);
      assert AsTriple(e) == AsTriple(Lookup(t', d).value) && e.dest == d;
      if Stores(net.nodes[n].table, d, s, e.hops + 1) {
        StoresGrows(net.nodes[n].table, net'.nodes[n].table, d, s, e.hops + 1);
      }
    }
  }

  lemma HoldsLinkIgnoresHellos(t: Table, t': Table, n: byte)
    requires |t| == |t'| && Grows(t, t')
    ensures HoldsLink(t', n) ==> HoldsLink(t, n)
  {
    if HoldsLink(t', n) {
      var i :| 0 <= i < |t'| && t'[i].hops == 1 && t'[i].dest == t'[i].nextHop == n;
      assert SameRoute(t[i], t'[i]);
    }
  }

  /** After sending, everything s uses is in flight to each neighbour it holds. */
  lemma SendingSettles(sys: System, net: Network.Net, s: byte, n: byte, d: byte)
    requires ValidSystem(sys) && NetOK(sys, net) && GroundedNet(net) && s in net.nodes
    requires HoldsLink(net.nodes[s].table, n) && Lookup(net.nodes[s].table, d).Some?
    ensures InFlight(net.flight + multiset(UpdatesOf(sys, s, net.nodes[s].table)), s, n,
                     AsTriple(Lookup(net.nodes[s].table, d).value))
  {
    var t := net.nodes[s].table;
    var p := UpdateFor(sys, s, t, n);
    ChoiceIsAdvertised(sys.g, sys.signed, TablesOf(net), s, d);
    assert p in net.flight + multiset(UpdatesOf(sys, s, t));
  }

  lemma AdvertiseKeepsPending(sys: System, net: Network.Net, v: byte)
    requires ValidSystem(sys) && NetOK(sys, net) && GroundedNet(net) && AllPendingOrReflected(net)
    requires Enabled(net, Advertise(v))
    ensures AllPendingOrReflected(After(sys, net, Advertise(v)))
  {
    var net' := After(sys, net, Advertise(v));
    forall s, n, d | s in net'.nodes && n in net'.nodes && HoldsLink(net'.nodes[s].table, n)
      ensures PendingOrReflected(net', s, n, d)
    {
      if s == v {
        if Lookup(net.nodes[s].table, d).Some? {
          SendingSettles(sys, net, s, n, d);
        }
      } else {
        PendingCarriesOver(net, net', s, n, d);
      }
    }
  }

  lemma DeliveryKeepsPending(sys: System, net: Network.Net, p: Packet)
    requires ValidSystem(sys) && NetOK(sys, net) && GroundedNet(net) && AllPendingOrReflected(net)
    requires Enabled(net, Deliver(p)) && QuietStep(sys, net, Deliver(p))
    ensures AllPendingOrReflected(After(sys, net, Deliver(p)))
  {
    var net' := After(sys, net, Deliver(p));
    DeliveryIsQuiet(sys, net, p);
    forall v | v in net.nodes ensures Grows(net.nodes[v].table, net'.nodes[v].table) {
      assert Grows(TablesOf(net)[v], TablesOf(net')[v]);
    }
    forall s, n, d | s in net'.nodes && n in net'.nodes && HoldsLink(net'.nodes[s].table, n)
      ensures PendingOrReflected(net', s, n, d)
    {
      if s != p.to || |net'.nodes[s].table| == |net.nodes[s].table| {
        HoldsLinkIgnoresHellos(net.nodes[s].table, net'.nodes[s].table, n);
        DeliveryMovesOn(net, net', p, s, n);
        PendingCarriesOver(net, net', s, n, d);
      }
    }
  }

  /** What was in flight from s to n either still is, or leads through n, or is now stored at n. */
  lemma DeliveryMovesOn(net: Network.Net, net': Network.Net, p: Packet, s: byte, n: byte)
    requires p in net.flight && Readable(p.payload) && net'.flight == net.flight - multiset{p}
    requires p.to in net.nodes && net.nodes[p.to].self == p.to && n in net'.nodes && p.to in net'.nodes
    requires QuietReceipt(net.nodes[p.to], net'.nodes[p.to], p.payload[3], Decode(p.payload))
    ensures forall tr: Triple :: InFlight(net.flight, s, n, tr) ==>
               InFlight(net'.flight, s, n, tr) || tr.nextHop == n ||
               Stores(net'.nodes[n].table, tr.dest, s, tr.hops + 1)
  {
    forall tr: Triple | InFlight(net.flight, s, n, tr) && !InFlight(net'.flight, s, n, tr) && tr.nextHop != n
      ensures Stores(net'.nodes[n].table, tr.dest, s, tr.hops + 1)
    {
      var q :| q in net.flight && q.to == n && Readable(q.payload) && IsUpdatePayload(q.payload) &&
               q.payload[3] == s && tr in Decode(q.payload);
      assert q == p || q in net'.flight;
      var trs := Decode(p.payload);
      var i :| 0 <= i < |trs| && trs[i] == tr;
    }
  }

  lemma StepKeepsPending(sys: System, net: Network.Net, ev: Event)
    requires ValidSystem(sys) && NetOK(sys, net) && GroundedNet(net) && AllPendingOrReflected(net)
    requires Enabled(net, ev) && QuietStep(sys, net, ev)
    ensures AllPendingOrReflected(After(sys, net, ev))
  {
    if ev.Advertise? {
      AdvertiseKeepsPending(sys, net, ev.v);
    } else if ev.Deliver? {
      DeliveryKeepsPending(sys, net, ev.p);
    } else {
      OtherStepsGrowFlight(sys, net, ev);
      FlightGrowthKeepsPending(net, After(sys, net, ev));
    }
  }

  ghost predicate OnlyFlightGrows(net: Network.Net, net': Network.Net) {
    && net'.nodes.Keys == net.nodes.Keys && net.flight <= net'.flight
    && forall v :: v in net.nodes ==>
         net'.nodes[v].table == net.nodes[v].table &&
         (net.nodes[v].state == N.Update ==> net'.nodes[v].state == N.Update)
  }

  lemma OtherStepsGrowFlight(sys: System, net: Network.Net, ev: Event)
    requires Enabled(net, ev) && QuietStep(sys, net, ev) && !ev.Advertise? && !ev.Deliver?
    ensures OnlyFlightGrows(net, After(sys, net, ev))
  {
    if ev.Tick? {
      QuietTick(net.nodes[ev.v]);
    } else if ev.Request? {
      RequestKeepsNet(sys, net, ev.v, ev.d);
    }
  }

  lemma FlightGrowthKeepsPending(net: Network.Net, net': Network.Net)
    requires AllPendingOrReflected(net) && OnlyFlightGrows(net, net')
    ensures AllPendingOrReflected(net')
  {
    forall s, n, d | s in net'.nodes && n in net'.nodes && HoldsLink(net'.nodes[s].table, n)
      ensures PendingOrReflected(net', s, n, d)
    {
      PendingCarriesOver(net, net', s, n, d);
    }
  }

  /** Every state of a quiet run satisfies the three invariants. */
  lemma {:induction false} QuietRunInvariant(sys: System, nets: seq<Network.Net>, evs: seq<Event>, k: nat)
    requires ValidSystem(sys) && QuietRun(sys, nets, evs) && k <= |evs|
    ensures NetOK(sys, nets[k]) && GroundedNet(nets[k]) && AllPendingOrReflected(nets[k])
  {
    if k == 0 {
      StartOK(sys);
      forall v | v in sys.g.nodes ensures N.Start(sys.cap, v).table == [Entry(v, v, 0, 0)] {
        assert Touched([], v, v, 0) == [];
      }
    } else {
      QuietRunInvariant(sys, nets, evs, k - 1);
      StepKeepsNet(sys, nets[k-1], evs[k-1]);
      StepKeepsGrounded(sys, nets[k-1], evs[k-1]);
      StepKeepsPending(sys, nets[k-1], evs[k-1]);
    }
  }

  lemma QuietStepGrows(sys: System, net: Network.Net, ev: Event)
    requires ValidSystem(sys) && NetOK(sys, net) && GroundedNet(net) && Enabled(net, ev) && QuietStep(sys, net, ev)
    ensures AllGrow(TablesOf(net), TablesOf(After(sys, net, ev)))
  {
    if ev.Deliver? {
      DeliveryIsQuiet(sys, net, ev.p);
    } else {
      OtherStepsKeepTables(sys, net, ev);
    }
  }

  lemma GrowthNeverWorsens(t: Table, t': Table, d: byte)
    requires Grows(t, t')
    ensures LookupHops(t', d) <= LookupHops(t, d)
  {
    LookupHopsIsMinimum(t, d);
    LookupHopsIsMinimum(t', d);
    if LookupHops(t, d) != INFINITY {
      var i :| 0 <= i < |t| && t[i].dest == d && t[i].hops == LookupHops(t, d);
      assert SameRoute(t[i], t'[i]);
    }
  }

  /** Over any stretch of a quiet run, routes are only added and no lookup ever gets worse. */
  lemma {:induction false} QuietRunNeverWorsens(
      sys: System, nets: seq<Network.Net>, evs: seq<Event>, j: nat, k: nat, v: byte, d: byte)
    requires ValidSystem(sys) && QuietRun(sys, nets, evs) && j <= k <= |evs| && v in sys.g.nodes
    ensures v in nets[j].nodes && v in nets[k].nodes
    ensures LookupHops(nets[k].nodes[v].table, d) <= LookupHops(nets[j].nodes[v].table, d)
    decreases k - j
  {
    if j < k {
      QuietRunNeverWorsens(sys, nets, evs, j, k - 1, v, d);
      RunStepNeverWorsens(sys, nets, evs, k - 1, v, d);
    } else {
      QuietRunInvariant(sys, nets, evs, k);
    }
  }

  lemma RunStepNeverWorsens(sys: System, nets: seq<Network.Net>, evs: seq<Event>, k: nat, v: byte, d: byte)
    requires ValidSystem(sys) && QuietRun(sys, nets, evs) && k < |evs| && v in nets[k].nodes
    ensures v in nets[k+1].nodes && LookupHops(nets[k+1].nodes[v].table, d) <= LookupHops(nets[k].nodes[v].table, d)
  {
    QuietRunInvariant(sys, nets, evs, k);
    QuietStepGrows(sys, nets[k], evs[k]);
    assert v in TablesOf(nets[k]) && Grows(TablesOf(nets[k])[v], TablesOf(nets[k+1])[v]);
    GrowthNeverWorsens(nets[k].nodes[v].table, nets[k+1].nodes[v].table, d);
  }

  // ---- quiescence ----

  ghost predicate AllHeard(g: Graph, net: Network.Net) {
    forall s, n :: Adjacent(g, s, n) ==> s in net.nodes && HoldsLink(net.nodes[s].table, n)
  }

  /** Nobody has anything to send, and no update is in flight. */
  ghost predicate Quiescent(net: Network.Net) {
    && (forall v :: v in net.nodes ==> net.nodes[v].state != N.Update)
    && (forall p :: p in net.flight && Readable(p.payload) ==> !IsUpdatePayload(p.payload))
  }

  /** At quiescence, a neighbour s one link closer to d has reported its distance to v: the report cannot have been
      skipped, because the next hop of s is closer still and so is not v. */
  lemma NeighbourReported(sys: System, net: Network.Net, v: byte, s: byte, d: byte, k: nat)
    requires ValidSystem(sys) && NetOK(sys, net) && AllPendingOrReflected(net)
    requires AllHeard(sys.g, net) && Quiescent(net)
    requires Adjacent(sys.g, v, s) && k > 0 && IsDistance(sys.g, v, d, k)
    requires Lookup(net.nodes[s].table, d).Some? && Lookup(net.nodes[s].table, d).value.hops == k - 1
    ensures Stores(net.nodes[v].table, d, s, k)
  {
    var e := Lookup(net.nodes[s].table, d).value;
    LookupIsWalk(sys.g, s, net.nodes[s].table, d);
    assert Adjacent(sys.g, s, v);
    assert PendingOrReflected(net, s, v, d);
    assert e.nextHop != v;
    assert !InFlight(net.flight, s, v, AsTriple(e));
  }

  lemma {:induction false} QuiescentDistance(sys: System, net: Network.Net, v: byte, d: byte, k: nat)
    requires ValidSystem(sys) && NetOK(sys, net) && GroundedNet(net) && AllPendingOrReflected(net)
    requires AllHeard(sys.g, net) && Quiescent(net)
    requires v in sys.g.nodes && IsDistance(sys.g, v, d, k)
    ensures Lookup(net.nodes[v].table, d).Some? && Lookup(net.nodes[v].table, d).value.hops == k
    decreases k
  {
    var t := net.nodes[v].table;
    if k == 0 {
      assert Stores(t, d, v, 0) by { assert t[0].dest == d; }
      StoredDistanceIsFound(sys.g, v, t, d, v, 0);
    } else {
      var s := CloserNeighbour(sys.g, v, d, k);
      QuiescentDistance(sys, net, s, d, k - 1);
      NeighbourReported(sys, net, v, s, d, k);
      SmallHops(sys.g, TablesOf(net), v);
      StoredDistanceIsFound(sys.g, v, t, d, s, k);
    }
  }

  /** Quiescence means shortest paths. On any well-addressed graph, in a run without timeouts, losses or refused
      pushes, once all neighbours have heard each other and nothing is left to send or in flight, `lookup` at every
      node answers exactly the reachable destinations, with exactly their distances. */
  lemma QuiescenceIsExact(sys: System, nets: seq<Network.Net>, evs: seq<Event>)
    requires ValidSystem(sys) && QuietRun(sys, nets, evs)
    requires AllHeard(sys.g, nets[|evs|]) && Quiescent(nets[|evs|])
    ensures Exact(sys.g, TablesOf(nets[|evs|]))
  {
    var net := nets[|evs|];
    var ts := TablesOf(net);
    QuietRunInvariant(sys, nets, evs, |evs|);
    forall v, d | v in ts ensures ExactFor(sys.g, ts, v, d) {
      if Reachable(sys.g, v, d) {
        var k := ReachableHasDistance(sys.g, v, d);
        QuiescentDistance(sys, net, v, d, k);
      } else if Lookup(ts[v], d).Some? {
        LookupIsWalk(sys.g, v, ts[v], d);
      }
    }
  }

  // ---- termination ----

  function Advertises(evs: seq<Event>, v: byte): nat {
    if evs == [] then 0 else Advertises(evs[..|evs|-1], v) + Cost(evs[|evs|-1], v)
  }

  /** Routes stored, less one if an update is due. */
  function Spare(n: N.Node): int {
    |n.table| - if n.state == N.Update then 1 else 0
  }

  function Cost(ev: Event, v: byte): nat {
    if ev == Advertise(v) then 1 else 0
  }

  ghost predicate Fits(cap: Capacity, t: Table) {
    cap.AtMost? ==> |t| <= cap.size
  }

  /** An update is sent, or becomes due, only against a route added. */
  lemma StepCosts(sys: System, net: Network.Net, ev: Event, v: byte)
    requires ValidSystem(sys) && NetOK(sys, net) && GroundedNet(net) && v in net.nodes
    requires Enabled(net, ev) && QuietStep(sys, net, ev)
    requires Fits(sys.cap, net.nodes[v].table)
    ensures v in After(sys, net, ev).nodes
    ensures var n, n' := net.nodes[v], After(sys, net, ev).nodes[v];
            Cost(ev, v) <= Spare(n') - Spare(n) && Fits(sys.cap, n'.table)
  {
    if ev.Deliver? {
      DeliveryCosts(sys, net, ev.p, v);
    } else if ev.Tick? {
      QuietTick(net.nodes[ev.v]);
    } else if ev.Request? {
      RequestKeepsNet(sys, net, ev.v, ev.d);
    }
  }

  lemma DeliveryCosts(sys: System, net: Network.Net, p: Packet, v: byte)
    requires ValidSystem(sys) && NetOK(sys, net) && GroundedNet(net) && v in net.nodes
    requires Enabled(net, Deliver(p)) && QuietStep(sys, net, Deliver(p))
    requires Fits(sys.cap, net.nodes[v].table)
    ensures v in After(sys, net, Deliver(p)).nodes
    ensures var n, n' := net.nodes[v], After(sys, net, Deliver(p)).nodes[v];
            Spare(n) <= Spare(n') && Fits(sys.cap, n'.table)
  {
    DeliveryIsQuiet(sys, net, p);
    if p.to == v {
      ReceivedFits(sys.cap, sys.signed, net.nodes[v], p.payload);
    }
  }

  lemma RunStepCosts(sys: System, nets: seq<Network.Net>, evs: seq<Event>, v: byte, k: nat)
    requires ValidSystem(sys) && QuietRun(sys, nets, evs) && k < |evs| && v in nets[k].nodes
    requires Fits(sys.cap, nets[k].nodes[v].table)
    ensures v in nets[k+1].nodes && Fits(sys.cap, nets[k+1].nodes[v].table)
    ensures Cost(evs[k], v) <= Spare(nets[k+1].nodes[v]) - Spare(nets[k].nodes[v])
  {
    QuietRunInvariant(sys, nets, evs, k);
    StepCosts(sys, nets[k], evs[k], v);
  }

  /** A quiet run quietens: each update a node sends was preceded by a route of its own added since the last one, so
      with room for n entries a node sends at most n - 1 updates, however long the run. */
  lemma {:induction false} AdvertisesBounded(sys: System, nets: seq<Network.Net>, evs: seq<Event>, v: byte, k: nat)
    requires ValidSystem(sys) && QuietRun(sys, nets, evs) && v in sys.g.nodes && k <= |evs|
    ensures v in nets[k].nodes && Fits(sys.cap, nets[k].nodes[v].table)
    ensures Advertises(evs[..k], v) <= Spare(nets[k].nodes[v]) - 1
    ensures sys.cap.AtMost? ==> Advertises(evs[..k], v) <= sys.cap.size - 1
  {
    if k == 0 {
      assert Touched([], v, v, 0) == [];
      assert nets[0].nodes[v] == N.Start(sys.cap, v);
    } else {
      AdvertisesBounded(sys, nets, evs, v, k - 1);
      RunStepCosts(sys, nets, evs, v, k - 1);
      assert evs[..k][..k-1] == evs[..k-1];
    }
  }

  lemma ReceivedFits(cap: Capacity, signed: bool, n: N.Node, p: seq<byte>)
    requires Readable(p) && (cap.AtMost? ==> |n.table| <= cap.size)
    ensures cap.AtMost? ==> |N.Received(cap, signed, n, p).table| <= cap.size
  {
    MergedFits(cap, signed, n.table, n.self, p[3], Decode(p), n.helloCount);
    var t := Merged(cap, signed, n.table, n.self, p[3], Decode(p), n.helloCount);
    RefreshedFirstOnly(Updated(cap, t, p[3], p[3], 1, n.helloCount), p[3], n.helloCount);
  }

  lemma {:induction false} MergedFits(
      cap: Capacity, signed: bool, t: Table, self: byte, src: byte, trs: seq<Triple>, hc: byte)
    requires cap.AtMost? ==> |t| <= cap.size
    ensures cap.AtMost? ==> |Merged(cap, signed, t, self, src, trs, hc)| <= cap.size
  {
    if trs == [] {
    } else {
      MergedFits(cap, signed, t, self, src, trs[..|trs|-1], hc);
    }
  }
}
