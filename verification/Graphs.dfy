/** Finite undirected graphs of MIP addresses, walks and distances. */
module Graphs {
  import opened Bytes

  datatype Graph = Graph(nodes: set<byte>, links: set<(byte, byte)>)

  ghost predicate Adjacent(g: Graph, u: byte, v: byte) {
    (u, v) in g.links
  }

  ghost predicate ValidGraph(g: Graph) {
    && (forall u, v :: Adjacent(g, u, v) ==> u in g.nodes && v in g.nodes && u != v)
    && (forall u, v :: Adjacent(g, u, v) ==> Adjacent(g, v, u))
  }

  /** Some walk of exactly k links leads from u to v. */
  ghost predicate Walk(g: Graph, u: byte, v: byte, k: nat)
    decreases k
  {
    if k == 0 then u == v else exists w :: Adjacent(g, u, w) && Walk(g, w, v, k - 1)
  }

  ghost predicate IsDistance(g: Graph, u: byte, v: byte, k: nat) {
    Walk(g, u, v, k) && forall j: nat :: j < k ==> !Walk(g, u, v, j)
  }

  ghost predicate Reachable(g: Graph, u: byte, v: byte) {
    exists k: nat :: Walk(g, u, v, k)
  }

  lemma {:induction false} DistanceExists(g: Graph, u: byte, v: byte, k: nat) returns (d: nat)
    requires Walk(g, u, v, k)
    ensures d <= k && IsDistance(g, u, v, d)
    decreases k
  {
    if j: nat :| j < k && Walk(g, u, v, j) {
      d := DistanceExists(g, u, v, j);
    } else {
      d := k;
    }
  }

  lemma DistanceUnique(g: Graph, u: byte, v: byte, j: nat, k: nat)
    requires IsDistance(g, u, v, j) && IsDistance(g, u, v, k)
    ensures j == k
  {}

  /** On a shortest route, some neighbour is one link closer. */
  lemma CloserNeighbour(g: Graph, u: byte, v: byte, k: nat) returns (w: byte)
    requires k > 0 && IsDistance(g, u, v, k)
    ensures Adjacent(g, u, w) && IsDistance(g, w, v, k - 1)
  {
    w :| Adjacent(g, u, w) && Walk(g, w, v, k - 1);
    if j: nat :| j < k - 1 && Walk(g, w, v, j) {
      assert Walk(g, u, v, j + 1);
      assert false;
    }
  }

  /** A set has room for at most |s| different elements in a row. */
  lemma {:induction false} DistinctFits<T>(p: seq<T>, s: set<T>)
    requires forall i :: 0 <= i < |p| ==> p[i] in s
    requires forall i, j :: 0 <= i < j < |p| ==> p[i] != p[j]
    ensures |p| <= |s|
    decreases |p|
  {
    if p == [] {
    } else {
      var q, r := p[1..], s - {p[0]};
      forall i | 0 <= i < |q| ensures q[i] in r {
        assert q[i] == p[i+1];
      }
      DistinctFits(q, r);
    }
  }

  /** The nodes of a shortest route. */
  lemma {:induction false} ShortestPath(g: Graph, u: byte, v: byte, k: nat) returns (p: seq<byte>)
    decreases k
    requires ValidGraph(g) && u in g.nodes && IsDistance(g, u, v, k)
    ensures |p| == k + 1
    ensures forall i :: 0 <= i < |p| ==> p[i] in g.nodes && IsDistance(g, p[i], v, k - i)
  {
    if k == 0 {
      p := [u];
    } else {
      var w := CloserNeighbour(g, u, v, k);
      p := ShortestPath(g, w, v, k - 1);
      p := [u] + p;
    }
  }

  /** Distances stay below the number of nodes. */
  lemma DistanceBelowSize(g: Graph, u: byte, v: byte, k: nat)
    requires ValidGraph(g) && u in g.nodes && IsDistance(g, u, v, k)
    ensures k < |g.nodes|
  {
    var p := ShortestPath(g, u, v, k);
    forall i, j | 0 <= i < j < |p| ensures p[i] != p[j] {
      assert IsDistance(g, p[i], v, k - i) && IsDistance(g, p[j], v, k - j);
    }
    DistinctFits(p, g.nodes);
  }
}
