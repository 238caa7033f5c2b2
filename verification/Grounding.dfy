/** Tables as they are while nothing times out: every route is finite and stays where it is. The hop counts are
    bounded because behind every route lies a simple path of nodes, each of which holds a shorter route. */
module Grounding {
  import opened Bytes
  import opened Tables
  import opened Advertising
  import opened Graphs
  import Net = Network

  ghost predicate Finite(t: Table) {
    forall i :: 0 <= i < |t| ==> t[i].hops != INFINITY
  }

  ghost predicate SameRoute(e: Entry, e': Entry) {
    e'.dest == e.dest && e'.nextHop == e.nextHop && e'.hops == e.hops
  }

  /** Routes are only added, at the end; hello counts may change. */
  ghost predicate Grows(t: Table, t': Table) {
    |t| <= |t'| && forall i :: 0 <= i < |t| ==> SameRoute(t[i], t'[i])
  }

  ghost predicate Stores(t: Table, d: byte, nextHop: byte, hops: int) {
    exists i :: 0 <= i < |t| && t[i].dest == d && t[i].nextHop == nextHop && t[i].hops == hops
  }

  ghost predicate HoldsWithin(t: Table, d: byte, h: int) {
    exists i :: 0 <= i < |t| && t[i].dest == d && t[i].hops <= h
  }

  // ---- growth ----

  lemma FiniteUpdateGrows(t: Table, src: byte, dest: byte, hops: byte, hc: byte)
    requires Finite(t) && hops != INFINITY
    ensures var t' := Updated(Unlimited, t, src, dest, hops, hc);
            && Finite(t') && Grows(t, t') && Stores(t', dest, src, hops)
            && (if Known(t, src, dest, hops) then t' == t else t' == t + [Entry(dest, src, hops, hc)])
  {
    assert Touched(t, src, dest, hops) == t;
    var t' := Updated(Unlimited, t, src, dest, hops, hc);
    if !Known(t, src, dest, hops) {
      assert t'[|t|] == Entry(dest, src, hops, hc);
    }
  }

  ghost predicate FiniteFurther(trs: seq<Triple>) {
    forall i :: 0 <= i < |trs| ==> trs[i].hops < 254
  }

  /** Entry e is one of the advertised routes, one link further. */
  ghost predicate FromSome(e: Entry, trs: seq<Triple>) {
    exists i :: 0 <= i < |trs| && e.dest == trs[i].dest && e.hops == trs[i].hops + 1
  }

  /** Merging finite routes adds each of them that does not lead back here, changes nothing else, and is reported
      exactly when something was added. */
  lemma {:induction false} FiniteMergeGrows(signed: bool, t: Table, self: byte, src: byte, trs: seq<Triple>, hc: byte)
    requires Finite(t) && FiniteFurther(trs)
    ensures var t' := Merged(Unlimited, signed, t, self, src, trs, hc);
            && Finite(t') && Grows(t, t')
            && (MergeLearns(Unlimited, signed, t, self, src, trs, hc) <==> |t'| > |t|)
            && (|t'| == |t| ==> t' == t)
            && (forall i :: 0 <= i < |trs| && trs[i].nextHop != self ==> Stores(t', trs[i].dest, src, trs[i].hops + 1))
            && (forall k :: |t| <= k < |t'| ==> t'[k].nextHop == src && FromSome(t'[k], trs))
  {
    if trs == [] {
    } else {
      var n := |trs| - 1;
      FiniteMergeGrows(signed, t, self, src, trs[..n], hc);
      var m := Merged(Unlimited, signed, t, self, src, trs[..n], hc);
      var t' := Merged(Unlimited, signed, t, self, src, trs, hc);
      FiniteUpdateGrows(m, src, trs[n].dest, Further(trs[n].hops), hc);
      assert Grows(m, t');
      forall i | 0 <= i < |trs| && trs[i].nextHop != self ensures Stores(t', trs[i].dest, src, trs[i].hops + 1) {
        if i < n {
          assert trs[..n][i] == trs[i];
          StoresGrows(m, t', trs[i].dest, src, trs[i].hops + 1);
        }
      }
      forall k | |t| <= k < |t'|
        ensures t'[k].nextHop == src && FromSome(t'[k], trs)
      {
        if k < |m| {
          var i :| 0 <= i < n && m[k].dest == trs[..n][i].dest && m[k].hops == trs[..n][i].hops + 1;
          assert trs[..n][i] == trs[i];
        }
      }
    }
  }

  lemma StoresGrows(t: Table, t': Table, d: byte, nextHop: byte, hops: int)
    requires Grows(t, t') && Stores(t, d, nextHop, hops)
    ensures Stores(t', d, nextHop, hops)
  {
    var i :| 0 <= i < |t| && t[i].dest == d && t[i].nextHop == nextHop && t[i].hops == hops;
    assert SameRoute(t[i], t'[i]);
  }

  /** Hello counts play no part in lookups. */
  lemma {:induction false} LookupIgnoresHellos(t: Table, t': Table, d: byte)
    requires |t| == |t'| && Grows(t, t')
    ensures Lookup(t, d).Some? <==> Lookup(t', d).Some?
    ensures Lookup(t, d).Some? ==> SameRoute(Lookup(t, d).value, Lookup(t', d).value)
  {
    if t == [] {
    } else {
      var n := |t| - 1;
      assert SameRoute(t[n], t'[n]);
      assert Grows(t[..n], t'[..n]) by {
        forall i | 0 <= i < n ensures SameRoute(t[..n][i], t'[..n][i]) {
          assert SameRoute(t[i], t'[i]);
        }
      }
      LookupIgnoresHellos(t[..n], t'[..n], d);
    }
  }

  // ---- simple paths ----

  /** Different nodes in a row, where node i knows a route to d no longer than the rest of the row. */
  ghost predicate Chain(ts: TableMap, p: seq<byte>, d: byte) {
    && p != []
    && (forall i, j :: 0 <= i < j < |p| ==> p[i] != p[j])
    && (forall i :: 0 <= i < |p| ==> p[i] in ts && HoldsWithin(ts[p[i]], d, |p| - 1 - i))
  }

  /** A route to d of exactly n links behind node s rests on a simple path. */
  ghost predicate Rests(ts: TableMap, s: byte, d: byte, n: int) {
    exists p :: Chain(ts, p, d) && p[0] == s && |p| == n
  }

  ghost predicate Grounded(ts: TableMap) {
    forall v, i :: v in ts && 1 <= i < |ts[v]| ==> Rests(ts, ts[v][i].nextHop, ts[v][i].dest, ts[v][i].hops)
  }

  ghost predicate GroundedTriples(ts: TableMap, s: byte, trs: seq<Triple>) {
    forall i :: 0 <= i < |trs| ==> Rests(ts, s, trs[i].dest, trs[i].hops + 1)
  }

  ghost predicate AllGrow(ts: TableMap, ts': TableMap) {
    ts.Keys == ts'.Keys && forall v :: v in ts ==> Grows(ts[v], ts'[v])
  }

  lemma RestsGrows(ts: TableMap, ts': TableMap, s: byte, d: byte, n: int)
    requires AllGrow(ts, ts') && Rests(ts, s, d, n)
    ensures Rests(ts', s, d, n)
  {
    var p :| Chain(ts, p, d) && p[0] == s && |p| == n;
    forall i | 0 <= i < |p| ensures p[i] in ts' && HoldsWithin(ts'[p[i]], d, |p| - 1 - i) {
      assert p[i] in ts && HoldsWithin(ts[p[i]], d, |p| - 1 - i);
      var j :| 0 <= j < |ts[p[i]]| && ts[p[i]][j].dest == d && ts[p[i]][j].hops <= |p| - 1 - i;
      assert SameRoute(ts[p[i]][j], ts'[p[i]][j]);
    }
    assert Chain(ts', p, d);
  }

  lemma RestsBounded(ts: TableMap, s: byte, d: byte, n: int)
    requires Rests(ts, s, d, n)
    ensures 0 < n <= |ts.Keys|
  {
    var p :| Chain(ts, p, d) && p[0] == s && |p| == n;
    DistinctFits(p, ts.Keys);
  }

  /** A node's best route rests on a simple path that starts at the node: it cannot lie on the path behind its next
      hop, since it would then know a shorter route. */
  lemma BestRests(ts: TableMap, s: byte, k: nat)
    requires Grounded(ts) && s in ts && k < |ts[s]|
    requires k == 0 ==> ts[s][0].hops == 0
    requires forall j :: 0 <= j < |ts[s]| && ts[s][j].dest == ts[s][k].dest ==> ts[s][k].hops <= ts[s][j].hops
    ensures Rests(ts, s, ts[s][k].dest, ts[s][k].hops + 1)
  {
    var e := ts[s][k];
    assert HoldsWithin(ts[s], e.dest, e.hops);
    if k == 0 {
      assert Chain(ts, [s], e.dest);
      assert [s][0] == s && |[s]| == e.hops + 1;
    } else {
      assert Rests(ts, e.nextHop, e.dest, e.hops);
      var q :| Chain(ts, q, e.dest) && q[0] == e.nextHop && |q| == e.hops;
      var p := [s] + q;
      forall i | 0 <= i < |q| ensures q[i] != s {
        assert HoldsWithin(ts[q[i]], e.dest, |q| - 1 - i);
      }
      forall i | 0 <= i < |p| ensures p[i] in ts && HoldsWithin(ts[p[i]], e.dest, |p| - 1 - i) {
        if i > 0 {
          assert p[i] == q[i-1];
          assert HoldsWithin(ts[q[i-1]], e.dest, |q| - 1 - (i - 1));
        }
      }
      assert Chain(ts, p, e.dest);
      assert p[0] == s && |p| == e.hops + 1;
    }
  }

  /** While nothing times out, every advertised triple is the route in use and rests on a simple path. */
  lemma AdvertisedRests(g: Graph, signed: bool, ts: TableMap, s: byte, j: nat)
    requires ValidGraph(g) && Net.WellAddressed(g) && s in g.nodes && ts.Keys == g.nodes
    requires Net.TableOK(g, s, ts[s]) && Grounded(ts) && j < |Advertised(signed, ts[s])|
    ensures var trs := Advertised(signed, ts[s]);
            && Rests(ts, s, trs[j].dest, trs[j].hops + 1) && trs[j].hops < 15
  {
    var t := ts[s];
    var trs := Advertised(signed, t);
    Net.AdvertisedTripleOK(g, s, signed, t, j);
    var d := trs[j].dest;
    AdvertisedDistinct(signed, t);
    AdvertisedPerDestination(signed, t, d);
    assert IndexOf(trs, d) == j;
    SmallHops(g, ts, s);
    KeptIsLeastUnlessFrozen(signed, t, d);
    BestRests(ts, s, Kept(signed, t, d));
    RestsBounded(ts, s, d, trs[j].hops + 1);
  }

  lemma SmallHops(g: Graph, ts: TableMap, s: byte)
    requires Net.WellAddressed(g) && ts.Keys == g.nodes && s in ts && Grounded(ts) && |ts[s]| > 0 && ts[s][0].hops == 0
    ensures forall i :: 0 <= i < |ts[s]| ==> ts[s][i].hops <= 15
    ensures Finite(ts[s])
  {
    forall i | 0 <= i < |ts[s]| ensures ts[s][i].hops <= 15 {
      if i > 0 {
        RestsBounded(ts, ts[s][i].nextHop, ts[s][i].dest, ts[s][i].hops);
      }
    }
  }

  /** While nothing times out, the route in use for d is among the advertised triples. */
  lemma ChoiceIsAdvertised(g: Graph, signed: bool, ts: TableMap, s: byte, d: byte)
    requires ValidGraph(g) && Net.WellAddressed(g) && s in g.nodes && ts.Keys == g.nodes
    requires Net.TableOK(g, s, ts[s]) && Grounded(ts) && Lookup(ts[s], d).Some?
    ensures AsTriple(Lookup(ts[s], d).value) in Advertised(signed, ts[s])
  {
    Net.AdvertisedIsSmall(g, s, signed, ts[s]);
    SmallHops(g, ts, s);
    AdvertisedIsUsed(signed, ts[s], d);
  }
}
