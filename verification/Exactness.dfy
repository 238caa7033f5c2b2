/** What it means for the tables of a whole network to be right, and what follows for the routes they choose. */
module Exactness {
  import opened Bytes
  import opened Tables
  import opened Graphs
  import opened Grounding
  import Net = Network

  /** `lookup` at v answers for d exactly when d can be reached, and then with the true distance. */
  ghost predicate ExactFor(g: Graph, ts: TableMap, v: byte, d: byte)
    requires v in ts
  {
    && (Lookup(ts[v], d).Some? <==> Reachable(g, v, d))
    && (Lookup(ts[v], d).Some? ==> IsDistance(g, v, d, Lookup(ts[v], d).value.hops))
  }

  ghost predicate Sound(g: Graph, ts: TableMap) {
    ValidGraph(g) && ts.Keys == g.nodes && forall v :: v in ts ==> Net.TableOK(g, v, ts[v])
  }

  ghost predicate Exact(g: Graph, ts: TableMap) {
    Sound(g, ts) && forall v, d :: v in ts ==> ExactFor(g, ts, v, d)
  }

  /** No host has the broadcast address, which a lookup response uses for "no route". */
  predicate NoBroadcast(g: Graph) {
    NO_ROUTE !in g.nodes
  }

  /** A looked-up route is a walk. */
  lemma LookupIsWalk(g: Graph, v: byte, t: Table, d: byte)
    requires Net.TableOK(g, v, t) && Lookup(t, d).Some?
    ensures var e := Lookup(t, d).value;
            && e.dest == d && e.hops != INFINITY && Walk(g, v, d, e.hops)
            && (e.hops == 0 <==> e.nextHop == v && d == v && e.hops == 0)
            && (e.hops > 0 ==> Adjacent(g, v, e.nextHop) && Walk(g, e.nextHop, d, e.hops - 1))
  {
    LookupIsFirstMinimum(t, d);
    var i :| IsChoice(t, d, i) && Lookup(t, d).value == t[i];
    assert i > 0 ==> Net.RouteOK(g, v, t[i]);
  }

  /** A stored route of the true distance is what lookup returns. */
  lemma StoredDistanceIsFound(g: Graph, v: byte, t: Table, d: byte, nextHop: byte, k: nat)
    requires Net.TableOK(g, v, t) && IsDistance(g, v, d, k) && Stores(t, d, nextHop, k) && k < INFINITY
    ensures Lookup(t, d).Some? && Lookup(t, d).value.hops == k
  {
    var i :| 0 <= i < |t| && t[i].dest == d && t[i].nextHop == nextHop && t[i].hops == k;
    assert HasFinite(t, d);
    LookupHopsIsMinimum(t, d);
    LookupIsFirstMinimum(t, d);
    LookupIsWalk(g, v, t, d);
  }

  lemma ReachableHasDistance(g: Graph, u: byte, v: byte) returns (k: nat)
    requires Reachable(g, u, v)
    ensures IsDistance(g, u, v, k)
  {
    var j: nat :| Walk(g, u, v, j);
    k := DistanceExists(g, u, v, j);
  }

  /** The next hop chosen towards another node is a neighbour strictly closer to the destination, and itself knows
      a route. */
  lemma NextHopIsCloser(g: Graph, ts: TableMap, v: byte, d: byte)
    requires Exact(g, ts) && v in ts && v != d && Lookup(ts[v], d).Some?
    ensures var e := Lookup(ts[v], d).value;
            && e.hops > 0 && e.nextHop in ts && Adjacent(g, v, e.nextHop)
            && IsDistance(g, e.nextHop, d, e.hops - 1)
            && Lookup(ts[e.nextHop], d).Some? && Lookup(ts[e.nextHop], d).value.hops == e.hops - 1
  {
    var e := Lookup(ts[v], d).value;
    LookupIsWalk(g, v, ts[v], d);
    assert ExactFor(g, ts, v, d) && Walk(g, e.nextHop, d, e.hops - 1);
    forall j: nat | j < e.hops - 1 ensures !Walk(g, e.nextHop, d, j) {
      if Walk(g, e.nextHop, d, j) {
        assert Walk(g, v, d, j + 1);
      }
    }
    assert ExactFor(g, ts, e.nextHop, d) && Reachable(g, e.nextHop, d);
    DistanceUnique(g, e.nextHop, d, e.hops - 1, Lookup(ts[e.nextHop], d).value.hops);
  }

  /** The nodes visited by following next hops towards d; no node before the last is d itself. */
  ghost predicate Follows(ts: TableMap, p: seq<byte>, d: byte) {
    && (forall i :: 0 <= i < |p| ==> p[i] in ts && Lookup(ts[p[i]], d).Some?)
    && (forall i :: 0 <= i < |p| - 1 ==> p[i] != d && p[i+1] == Lookup(ts[p[i]], d).value.nextHop)
  }

  function HopsAt(ts: TableMap, v: byte, d: byte): int {
    if v in ts && Lookup(ts[v], d).Some? then Lookup(ts[v], d).value.hops else 0
  }

  lemma FollowingDescends(g: Graph, ts: TableMap, p: seq<byte>, d: byte, i: nat)
    requires Exact(g, ts) && Follows(ts, p, d) && i + 1 < |p|
    ensures HopsAt(ts, p[i+1], d) == HopsAt(ts, p[i], d) - 1
  {
    NextHopIsCloser(g, ts, p[i], d);
  }

  lemma {:induction false} HopsDescend(ts: TableMap, p: seq<byte>, d: byte, i: nat, j: nat)
    requires forall k :: 0 <= k < |p| - 1 ==> HopsAt(ts, p[k+1], d) == HopsAt(ts, p[k], d) - 1
    requires i <= j < |p|
    ensures HopsAt(ts, p[j], d) == HopsAt(ts, p[i], d) - (j - i)
    decreases j - i
  {
    if i < j {
      HopsDescend(ts, p, d, i, j - 1);
      var k := j - 1;
      assert HopsAt(ts, p[k+1], d) == HopsAt(ts, p[k], d) - 1;
    }
  }

  /** Loop freedom: with exact tables, following next hops towards any destination never visits a node twice. */
  lemma LoopFree(g: Graph, ts: TableMap, p: seq<byte>, d: byte)
    requires Exact(g, ts) && Follows(ts, p, d)
    ensures forall i, j :: 0 <= i < j < |p| ==> p[i] != p[j]
  {
    forall k | 0 <= k < |p| - 1 ensures HopsAt(ts, p[k+1], d) == HopsAt(ts, p[k], d) - 1 {
      FollowingDescends(g, ts, p, d, k);
    }
    forall i, j | 0 <= i < j < |p| ensures p[i] != p[j] {
      HopsDescend(ts, p, d, i, j);
    }
  }
}
