/** Convergence by rounds: in each round every node's update reaches every neighbour, in any order. */
module Rounds {
  import opened Bytes
  import opened Tables
  import opened Advertising
  import opened Graphs
  import opened Grounding
  import opened Exactness
  import Net = Network

  /** The table of v after the updates of senders, each computed from its table at the start of the round. */
  function ReceivedAll(cap: Capacity, signed: bool, ts: TableMap, v: byte, senders: seq<byte>, hello: byte): Table
    requires v in ts && forall s :: s in senders ==> s in ts
  {
    if senders == [] then ts[v]
    else
      var s := senders[|senders|-1];
      Merged(cap, signed, ReceivedAll(cap, signed, ts, v, senders[..|senders|-1], hello), v, s,
             Advertised(signed, ts[s]), hello)
  }

  /** senders lists the neighbours of v, each at least once. */
  ghost predicate Covers(g: Graph, v: byte, senders: seq<byte>) {
    forall s :: s in senders <==> Adjacent(g, v, s)
  }

  ghost predicate ReceivesRound(
      g: Graph, cap: Capacity, signed: bool, ts: TableMap, v: byte, t': Table, senders: seq<byte>, hello: byte)
    requires v in ts
  {
    && Covers(g, v, senders) && (forall s :: s in senders ==> s in ts)
    && t' == ReceivedAll(cap, signed, ts, v, senders, hello) == ReceivedAll(Unlimited, signed, ts, v, senders, hello)
  }

  /** One round without refused pushes. */
  ghost predicate IsRound(g: Graph, cap: Capacity, signed: bool, ts: TableMap, ts': TableMap) {
    && ts'.Keys == ts.Keys
    && forall v :: v in ts ==> exists senders, hello :: ReceivesRound(g, cap, signed, ts, v, ts'[v], senders, hello)
  }

  /** Tables that hold the node itself and its neighbours, and nothing else. */
  ghost predicate Initial(g: Graph, ts: TableMap) {
    && Sound(g, ts)
    && (forall v, i :: v in ts && 1 <= i < |ts[v]| ==> ts[v][i].hops == 1)
    && (forall v, s :: Adjacent(g, v, s) ==> v in ts && Net.HoldsLink(ts[v], s))
  }

  ghost predicate Good(g: Graph, ts: TableMap) {
    Sound(g, ts) && Net.WellAddressed(g) && Grounded(ts)
  }

  /** Every distance up to n is known everywhere. */
  ghost predicate KnownUpTo(g: Graph, ts: TableMap, n: nat) {
    forall v, d, j: nat :: v in ts && j <= n ==> KnownAt(g, ts[v], v, d, j)
  }

  ghost predicate KnownAt(g: Graph, t: Table, v: byte, d: byte, j: nat) {
    IsDistance(g, v, d, j) ==> Lookup(t, d).Some? && Lookup(t, d).value.hops == j
  }

  lemma InitialIsGood(g: Graph, ts: TableMap)
    requires Initial(g, ts) && Net.WellAddressed(g)
    ensures Good(g, ts)
  {
    forall v, i | v in ts && 1 <= i < |ts[v]|
      ensures Rests(ts, ts[v][i].nextHop, ts[v][i].dest, ts[v][i].hops)
    {
      var e := ts[v][i];
      assert Net.RouteOK(g, v, e);
      assert ts[e.nextHop][0].dest == e.nextHop;
      assert Chain(ts, [e.nextHop], e.dest);
      assert [e.nextHop][0] == e.nextHop && |[e.nextHop]| == 1;
    }
  }

  /** Every advertised route of s that does not lead through v is stored one link longer. */
  ghost predicate Told(t: Table, v: byte, s: byte, trs: seq<Triple>) {
    forall j :: 0 <= j < |trs| ==> trs[j].nextHop == v || Stores(t, trs[j].dest, s, trs[j].hops + 1)
  }

  lemma ToldGrows(t: Table, t': Table, v: byte, s: byte, trs: seq<Triple>)
    requires Grows(t, t') && Told(t, v, s, trs)
    ensures Told(t', v, s, trs)
  {
    forall j | 0 <= j < |trs| && trs[j].nextHop != v ensures Stores(t', trs[j].dest, s, trs[j].hops + 1) {
      StoresGrows(t, t', trs[j].dest, s, trs[j].hops + 1);
    }
  }

  /** A later table of v during a round that began with tables ts. */
  ghost predicate RoundGrowth(g: Graph, ts: TableMap, v: byte, t': Table)
    requires v in ts
  {
    Finite(t') && Grows(ts[v], t') && Net.TableOK(g, v, t') && AllRest(ts, t')
  }

  lemma {:induction false} RoundGrows(g: Graph, signed: bool, ts: TableMap, v: byte, senders: seq<byte>, hello: byte)
    requires Good(g, ts) && v in ts
    requires forall s :: s in senders ==> s in ts && Adjacent(g, v, s)
    ensures var t' := ReceivedAll(Unlimited, signed, ts, v, senders, hello);
            && RoundGrowth(g, ts, v, t')
            && forall s :: s in senders ==> Told(t', v, s, Advertised(signed, ts[s]))
  {
    if senders == [] {
      SmallHops(g, ts, v);
    } else {
      var n := |senders| - 1;
      assert senders == senders[..n] + [senders[n]];
      RoundGrows(g, signed, ts, v, senders[..n], hello);
      var t := ReceivedAll(Unlimited, signed, ts, v, senders[..n], hello);
      var t' := ReceivedAll(Unlimited, signed, ts, v, senders, hello);
      assert t' == Merged(Unlimited, signed, t, v, senders[n], Advertised(signed, ts[senders[n]]), hello);
      MergeGrowth(g, signed, ts, v, t, senders[n], hello);
      forall s | s in senders[..n] ensures Told(t', v, s, Advertised(signed, ts[s])) {
        ToldGrows(t, t', v, s, Advertised(signed, ts[s]));
      }
    }
  }

  lemma AdvertisementIsGood(g: Graph, signed: bool, ts: TableMap, s: byte)
    requires Good(g, ts) && s in ts
    ensures var trs := Advertised(signed, ts[s]);
            && FiniteFurther(trs) && GroundedTriples(ts, s, trs)
            && forall j :: 0 <= j < |trs| ==> Net.TripleOK(g, s, trs[j])
  {
    var trs := Advertised(signed, ts[s]);
    forall j | 0 <= j < |trs|
      ensures Net.TripleOK(g, s, trs[j]) && Rests(ts, s, trs[j].dest, trs[j].hops + 1) && trs[j].hops < 254
    {
      Net.AdvertisedTripleOK(g, s, signed, ts[s], j);
      AdvertisedRests(g, signed, ts, s, j);
    }
  }

  ghost predicate AllRest(ts: TableMap, t: Table) {
    forall i :: 1 <= i < |t| ==> Rests(ts, t[i].nextHop, t[i].dest, t[i].hops)
  }

  lemma MergeRests(signed: bool, ts: TableMap, v: byte, t: Table, s: byte, trs: seq<Triple>, hello: byte)
    requires Finite(t) && FiniteFurther(trs) && GroundedTriples(ts, s, trs) && AllRest(ts, t)
    ensures AllRest(ts, Merged(Unlimited, signed, t, v, s, trs, hello))
  {
    FiniteMergeGrows(signed, t, v, s, trs, hello);
    var t' := Merged(Unlimited, signed, t, v, s, trs, hello);
    forall i | 1 <= i < |t'| ensures Rests(ts, t'[i].nextHop, t'[i].dest, t'[i].hops) {
      if i < |t| {
        assert SameRoute(t[i], t'[i]);
      } else {
        var j :| 0 <= j < |trs| && t'[i].dest == trs[j].dest && t'[i].hops == trs[j].hops + 1;
      }
    }
  }

  lemma GrowsTransitive(a: Table, b: Table, c: Table)
    requires Grows(a, b) && Grows(b, c)
    ensures Grows(a, c)
  {
    forall i | 0 <= i < |a| ensures SameRoute(a[i], c[i]) {
      assert SameRoute(a[i], b[i]) && SameRoute(b[i], c[i]);
    }
  }

  lemma MergeGrowth(g: Graph, signed: bool, ts: TableMap, v: byte, t: Table, s: byte, hello: byte)
    requires Good(g, ts) && v in ts && s in ts && Adjacent(g, v, s)
    requires RoundGrowth(g, ts, v, t)
    ensures var t' := Merged(Unlimited, signed, t, v, s, Advertised(signed, ts[s]), hello);
            && Grows(t, t') && RoundGrowth(g, ts, v, t') && Told(t', v, s, Advertised(signed, ts[s]))
  {
    var trs := Advertised(signed, ts[s]);
    AdvertisementIsGood(g, signed, ts, s);
    FiniteMergeGrows(signed, t, v, s, trs, hello);
    MergeRests(signed, ts, v, t, s, trs, hello);
    Net.MergeKeepsTable(g, v, Unlimited, signed, t, s, trs, hello);
    GrowsTransitive(ts[v], t, Merged(Unlimited, signed, t, v, s, trs, hello));
  }

  lemma NodeRound(g: Graph, cap: Capacity, signed: bool, ts: TableMap, ts': TableMap, v: byte)
    requires Good(g, ts) && IsRound(g, cap, signed, ts, ts') && v in ts
    ensures RoundGrowth(g, ts, v, ts'[v])
    ensures forall s :: Adjacent(g, v, s) ==> s in ts && Told(ts'[v], v, s, Advertised(signed, ts[s]))
  {
    var senders, hello :| ReceivesRound(g, cap, signed, ts, v, ts'[v], senders, hello);
    RoundGrows(g, signed, ts, v, senders, hello);
  }

  lemma RoundKeepsGood(g: Graph, cap: Capacity, signed: bool, ts: TableMap, ts': TableMap)
    requires Good(g, ts) && IsRound(g, cap, signed, ts, ts')
    ensures Good(g, ts') && AllGrow(ts, ts')
  {
    forall v | v in ts ensures RoundGrowth(g, ts, v, ts'[v]) {
      NodeRound(g, cap, signed, ts, ts', v);
    }
    assert AllGrow(ts, ts');
    forall v, i | v in ts' && 1 <= i < |ts'[v]|
      ensures Rests(ts', ts'[v][i].nextHop, ts'[v][i].dest, ts'[v][i].hops)
    {
      assert RoundGrowth(g, ts, v, ts'[v]);
      RestsGrows(ts, ts', ts'[v][i].nextHop, ts'[v][i].dest, ts'[v][i].hops);
    }
  }

  lemma InitiallyKnown(g: Graph, ts: TableMap)
    requires Initial(g, ts) && Net.WellAddressed(g)
    ensures KnownUpTo(g, ts, 1)
  {
    InitialIsGood(g, ts);
    forall v, d, j: nat | v in ts && j <= 1 && IsDistance(g, v, d, j) ensures KnownAt(g, ts[v], v, d, j) {
      SmallHops(g, ts, v);
      if j == 0 {
        assert Stores(ts[v], d, v, 0) by { assert ts[v][0].dest == d; }
        StoredDistanceIsFound(g, v, ts[v], d, v, 0);
      } else {
        var w := CloserNeighbour(g, v, d, 1);
        assert Net.HoldsLink(ts[v], d);
        assert Stores(ts[v], d, d, 1);
        StoredDistanceIsFound(g, v, ts[v], d, d, 1);
      }
    }
  }

  /** One round extends what is known by one link. */
  lemma RoundExtendsKnown(g: Graph, cap: Capacity, signed: bool, ts: TableMap, ts': TableMap, n: nat)
    requires Good(g, ts) && IsRound(g, cap, signed, ts, ts') && KnownUpTo(g, ts, n)
    ensures KnownUpTo(g, ts', n + 1)
  {
    forall v, d, j: nat | v in ts' && j <= n + 1 && IsDistance(g, v, d, j) ensures KnownAt(g, ts'[v], v, d, j) {
      RoundTeaches(g, cap, signed, ts, ts', n, v, d, j);
    }
  }

  lemma RoundTeaches(
      g: Graph, cap: Capacity, signed: bool, ts: TableMap, ts': TableMap, n: nat, v: byte, d: byte, j: nat)
    requires Good(g, ts) && IsRound(g, cap, signed, ts, ts') && KnownUpTo(g, ts, n)
    requires v in ts' && j <= n + 1 && IsDistance(g, v, d, j)
    ensures KnownAt(g, ts'[v], v, d, j)
  {
    NodeRound(g, cap, signed, ts, ts', v);
    if j == 0 {
      assert Stores(ts'[v], d, v, 0) by { assert ts'[v][0].dest == d; }
      StoredDistanceIsFound(g, v, ts'[v], d, v, 0);
    } else {
      var s := CloserNeighbour(g, v, d, j);
      assert KnownAt(g, ts[s], s, d, j - 1);
      NeighbourTells(g, signed, ts, v, s, d, j, ts'[v]);
      StoredDistanceIsFound(g, v, ts'[v], d, s, j);
    }
  }

  lemma NeighbourTells(g: Graph, signed: bool, ts: TableMap, v: byte, s: byte, d: byte, j: nat, t': Table)
    requires Good(g, ts) && j > 0 && s in ts && IsDistance(g, v, d, j) && IsDistance(g, s, d, j - 1)
    requires Lookup(ts[s], d).Some? && Lookup(ts[s], d).value.hops == j - 1 && Told(t', v, s, Advertised(signed, ts[s]))
    ensures Stores(t', d, s, j)
  {
    var e := Lookup(ts[s], d).value;
    LookupIsWalk(g, s, ts[s], d);
    ChoiceIsAdvertised(g, signed, ts, s, d);
    var trs := Advertised(signed, ts[s]);
    var i :| 0 <= i < |trs| && trs[i] == AsTriple(e);
    assert e.nextHop != v;
  }

  ghost predicate RoundsFrom(g: Graph, cap: Capacity, signed: bool, tss: seq<TableMap>) {
    && |tss| > 0 && Initial(g, tss[0]) && Net.WellAddressed(g)
    && forall i :: 0 <= i < |tss| - 1 ==> IsRound(g, cap, signed, tss[i], tss[i+1])
  }

  lemma RoundNumber(g: Graph, cap: Capacity, signed: bool, tss: seq<TableMap>, i: nat)
    requires RoundsFrom(g, cap, signed, tss) && i + 1 < |tss|
    ensures IsRound(g, cap, signed, tss[i], tss[i+1])
  {}

  lemma {:induction false} RoundsStayGood(g: Graph, cap: Capacity, signed: bool, tss: seq<TableMap>, k: nat)
    requires RoundsFrom(g, cap, signed, tss) && k < |tss|
    ensures Good(g, tss[k])
  {
    if k == 0 {
      InitialIsGood(g, tss[0]);
    } else {
      RoundsStayGood(g, cap, signed, tss, k - 1);
      RoundKeepsGood(g, cap, signed, tss[k-1], tss[k]);
    }
  }

  lemma NextRound(g: Graph, cap: Capacity, signed: bool, tss: seq<TableMap>, i: nat)
    requires RoundsFrom(g, cap, signed, tss) && i + 1 < |tss|
    requires KnownUpTo(g, tss[i], i + 1)
    ensures KnownUpTo(g, tss[i+1], i + 2)
  {
    RoundsStayGood(g, cap, signed, tss, i);
    RoundNumber(g, cap, signed, tss, i);
    RoundExtendsKnown(g, cap, signed, tss[i], tss[i+1], i + 1);
  }

  /** Convergence by rounds: after k rounds every lookup is exact for every destination within k+1 links. */
  lemma {:induction false} RoundsConverge(g: Graph, cap: Capacity, signed: bool, tss: seq<TableMap>, k: nat)
    requires RoundsFrom(g, cap, signed, tss) && k < |tss|
    ensures KnownUpTo(g, tss[k], k + 1)
  {
    if k == 0 {
      InitiallyKnown(g, tss[0]);
    } else {
      RoundsConverge(g, cap, signed, tss, k - 1);
      NextRound(g, cap, signed, tss, k - 1);
    }
  }

  /** With n nodes, n-2 rounds make every table exact. */
  lemma RoundsReachExact(g: Graph, cap: Capacity, signed: bool, tss: seq<TableMap>, k: nat)
    requires RoundsFrom(g, cap, signed, tss) && k < |tss| && |g.nodes| <= k + 2
    ensures Exact(g, tss[k])
  {
    var ts := tss[k];
    RoundsStayGood(g, cap, signed, tss, k);
    RoundsConverge(g, cap, signed, tss, k);
    forall v, d | v in ts ensures ExactFor(g, ts, v, d) {
      if Reachable(g, v, d) {
        var j := ReachableHasDistance(g, v, d);
        DistanceBelowSize(g, v, d, j);
        assert KnownAt(g, ts[v], v, d, j);
      } else if Lookup(ts[v], d).Some? {
        LookupIsWalk(g, v, ts[v], d);
      }
    }
  }
}
