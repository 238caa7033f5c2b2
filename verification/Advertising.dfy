/** What a node tells its neighbours: the table compressed to one route per destination by `send_update`. */
module Advertising {
  import opened Bytes
  import opened Tables

  function AsTriple(e: Entry): Triple {
    Triple(e.dest, e.nextHop, e.hops)
  }

  /** Position of the first triple for d, or |trs| when there is none. */
  function IndexOf(trs: seq<Triple>, d: byte): (j: nat)
    ensures j <= |trs|
    ensures j < |trs| ==> trs[j].dest == d
    ensures forall k :: 0 <= k < j ==> trs[k].dest != d
  {
    if trs == [] then 0
    else if trs[0].dest == d then 0
    else
      var r := IndexOf(trs[1..], d);
      assert forall k :: 0 < k < r + 1 ==> trs[k] == trs[1..][k-1];
      r + 1
  }

  /** One turn of the collection loop. A destination of 0 is taken for an unused slot, so it is never advertised.
      When `char` is signed, a destination of 128 or more never equals the byte stored for it, and a stored hop
      count of 128 or more reads as negative and is never improved on. */
  function Collected(signed: bool, trs: seq<Triple>, e: Entry): seq<Triple> {
    if e.dest == 0 then trs
    else if CharValue(signed, e.dest) != e.dest then trs + [AsTriple(e)]
    else
      var j := IndexOf(trs, e.dest);
      if j == |trs| then trs + [AsTriple(e)]
      else if e.hops < CharValue(signed, trs[j].hops) then trs[j := AsTriple(e)]
      else trs
  }

  function Advertised(signed: bool, t: Table): seq<Triple> {
    if t == [] then [] else Collected(signed, Advertised(signed, t[..|t|-1]), t[|t|-1])
  }

  /** Addresses below 128 and other than 0. */
  predicate PlainDests(t: Table) {
    forall i :: 0 <= i < |t| ==> 0 < t[i].dest < 128
  }

  /** First position of destination d in the table, or |t|. */
  function FirstListed(t: Table, d: byte): (i: nat)
    ensures i <= |t|
    ensures i < |t| ==> t[i].dest == d
    ensures forall k :: 0 <= k < i ==> t[k].dest != d
  {
    if t == [] then 0
    else
      var r := FirstListed(t[..|t|-1], d);
      assert forall k :: 0 <= k < |t|-1 ==> t[..|t|-1][k] == t[k];
      if r < |t|-1 then r else if t[|t|-1].dest == d then |t|-1 else |t|
  }

  /** The first entry for d of minimal hop count, INFINITY counting as a hop count. */
  ghost predicate IsFirstLeast(t: Table, d: byte, i: int) {
    && 0 <= i < |t| && t[i].dest == d
    && (forall j :: 0 <= j < |t| && t[j].dest == d ==> t[i].hops <= t[j].hops)
    && (forall j :: 0 <= j < i && t[j].dest == d ==> t[i].hops < t[j].hops)
  }

  /** A signed `char` reads the first hop count stored for d as negative. */
  predicate Frozen(signed: bool, t: Table, d: byte) {
    FirstListed(t, d) < |t| && CharValue(signed, t[FirstListed(t, d)].hops) < 0
  }

  /** Position of the entry whose triple the collection loop ends up with for d, or |t|. */
  function Kept(signed: bool, t: Table, d: byte): (i: nat)
    ensures i <= |t|
    ensures i < |t| ==> t[i].dest == d
    ensures i == |t| <==> FirstListed(t, d) == |t|
  {
    if t == [] then 0
    else
      var n := |t| - 1;
      var r := Kept(signed, t[..n], d);
      if r == n then (if t[n].dest == d then n else |t|)
      else if t[n].dest == d && t[n].hops < CharValue(signed, t[r].hops) then n
      else r
  }

  lemma FirstListedPrefix(t: Table, d: byte)
    requires t != []
    ensures FirstListed(t[..|t|-1], d) < |t|-1 ==> FirstListed(t, d) == FirstListed(t[..|t|-1], d)
  {}

  lemma LeastOneMore(t: Table, d: byte, r: nat)
    requires t != [] && IsFirstLeast(t[..|t|-1], d, r)
    ensures var n := |t| - 1;
            IsFirstLeast(t, d, if t[n].dest == d && t[n].hops < t[r].hops then n else r)
  {
    var n := |t| - 1;
    assert forall j :: 0 <= j < n ==> t[..n][j] == t[j];
  }

  lemma {:induction false} KeptIsLeastUnlessFrozen(signed: bool, t: Table, d: byte)
    requires FirstListed(t, d) < |t|
    ensures if Frozen(signed, t, d) then Kept(signed, t, d) == FirstListed(t, d)
            else IsFirstLeast(t, d, Kept(signed, t, d))
  {
    var n := |t| - 1;
    assert forall j :: 0 <= j < n ==> t[..n][j] == t[j];
    if FirstListed(t[..n], d) < n {
      KeptIsLeastUnlessFrozen(signed, t[..n], d);
      assert FirstListed(t, d) == FirstListed(t[..n], d);
      assert Frozen(signed, t, d) <==> Frozen(signed, t[..n], d);
      if !Frozen(signed, t, d) {
        LeastOneMore(t, d, Kept(signed, t[..n], d));
      }
    } else {
      assert FirstListed(t, d) == n == Kept(signed, t, d);
    }
  }

  /** One turn of the loop, seen from destination d. */
  lemma CollectedAt(signed: bool, trs: seq<Triple>, e: Entry, d: byte)
    requires 0 < e.dest < 128
    ensures var trs' := Collected(signed, trs, e);
            var j, j' := IndexOf(trs, d), IndexOf(trs', d);
            && |trs| <= |trs'| <= |trs| + 1
            && (|trs'| > |trs| <==> IndexOf(trs, e.dest) == |trs|)
            && (forall k :: 0 <= k < |trs| ==> trs'[k].dest == trs[k].dest)
            && (|trs'| > |trs| ==> trs'[|trs|].dest == e.dest)
            && (j' < |trs'| <==> j < |trs| || e.dest == d)
            && (j' < |trs'| ==>
                  j' == j &&
                  trs'[j'] == if e.dest == d && (j == |trs| || e.hops < CharValue(signed, trs[j].hops))
                              then AsTriple(e) else trs[j])
  {
    var trs' := Collected(signed, trs, e);
    var j, j' := IndexOf(trs, d), IndexOf(trs', d);
    assert forall k :: 0 <= k < |trs| ==> trs'[k].dest == trs[k].dest;
    if j < |trs| {
      assert j' == j;
    }
  }

  /** The collected list holds exactly one triple per destination, that of the kept entry. */
  lemma {:induction false} AdvertisedPerDestination(signed: bool, t: Table, d: byte)
    requires PlainDests(t)
    ensures var trs := Advertised(signed, t);
            && |trs| <= |t|
            && (IndexOf(trs, d) < |trs| <==> FirstListed(t, d) < |t|)
            && (IndexOf(trs, d) < |trs| ==> trs[IndexOf(trs, d)] == AsTriple(t[Kept(signed, t, d)]))
  {
    if t == [] {
    } else {
      var n := |t| - 1;
      AdvertisedPerDestination(signed, t[..n], d);
      CollectedAt(signed, Advertised(signed, t[..n]), t[n], d);
      var k := Kept(signed, t[..n], d);
      assert k < n ==> t[..n][k] == t[k];
    }
  }

  ghost predicate DistinctDests(trs: seq<Triple>) {
    forall j, k :: 0 <= j < k < |trs| ==> trs[j].dest != trs[k].dest
  }

  /** No destination is listed twice. */
  lemma {:induction false} AdvertisedDistinct(signed: bool, t: Table)
    requires PlainDests(t)
    ensures DistinctDests(Advertised(signed, t))
  {
    if t == [] {
    } else {
      var n := |t| - 1;
      AdvertisedDistinct(signed, t[..n]);
      CollectedAt(signed, Advertised(signed, t[..n]), t[n], t[n].dest);
    }
  }

  /** Triples appear in the order in which their destinations first appear in the table. */
  lemma {:induction false} AdvertisedInFirstAppearanceOrder(signed: bool, t: Table)
    requires PlainDests(t)
    ensures var trs := Advertised(signed, t);
            && (forall j, k :: 0 <= j < k < |trs| ==> FirstListed(t, trs[j].dest) < FirstListed(t, trs[k].dest))
            && (forall j :: 0 <= j < |trs| ==> FirstListed(t, trs[j].dest) < |t|)
  {
    if t == [] {
    } else {
      var n := |t| - 1;
      AdvertisedInFirstAppearanceOrder(signed, t[..n]);
      AdvertisedPerDestination(signed, t[..n], t[n].dest);
      var before, trs := Advertised(signed, t[..n]), Advertised(signed, t);
      CollectedAt(signed, before, t[n], t[n].dest);
      forall j | 0 <= j < |before| ensures FirstListed(t, trs[j].dest) == FirstListed(t[..n], before[j].dest) {
        FirstListedPrefix(t, before[j].dest);
      }
    }
  }

  /** What is advertised is what is used. The triple for d is the route `lookup` returns exactly when the platform's
      `char` is unsigned, or the first route listed for d has fewer than 128 hops, or that first route is itself the
      one looked up. */
  lemma AdvertisedIsUsed(signed: bool, t: Table, d: byte)
    requires PlainDests(t)
    requires Lookup(t, d).Some?
    ensures var trs := Advertised(signed, t);
            && FirstListed(t, d) < |t| && IndexOf(trs, d) < |trs|
            && (trs[IndexOf(trs, d)] == AsTriple(Lookup(t, d).value) <==>
                  !signed || t[FirstListed(t, d)].hops < 128 || t[FirstListed(t, d)].hops == Lookup(t, d).value.hops)
  {
    LookupIsFirstMinimum(t, d);
    var i :| IsChoice(t, d, i) && Lookup(t, d).value == t[i];
    AdvertisedPerDestination(signed, t, d);
    KeptIsLeastUnlessFrozen(signed, t, d);
  }

  /** A destination whose every route is unreachable is advertised as unreachable. */
  lemma UnreachableIsAdvertised(signed: bool, t: Table, d: byte)
    requires PlainDests(t)
    requires Lookup(t, d).None? && FirstListed(t, d) < |t|
    ensures var trs := Advertised(signed, t);
            IndexOf(trs, d) < |trs| && trs[IndexOf(trs, d)].hops == INFINITY
  {
    LookupIsFirstMinimum(t, d);
    AdvertisedPerDestination(signed, t, d);
  }

  // ---- addresses outside the plain range ----

  /** The triples for destination d, in order. */
  function Of(trs: seq<Triple>, d: byte): seq<Triple> {
    if trs == [] then []
    else Of(trs[..|trs|-1], d) + if trs[|trs|-1].dest == d then [trs[|trs|-1]] else []
  }

  function AsTriples(t: Table): (trs: seq<Triple>)
    ensures |trs| == |t|
  {
    seq(|t|, i requires 0 <= i < |t| => AsTriple(t[i]))
  }

  lemma {:induction false} OfOthers(trs: seq<Triple>, j: nat, tr: Triple, d: byte)
    requires j < |trs| && trs[j].dest != d && tr.dest != d
    ensures Of(trs[j := tr], d) == Of(trs, d)
  {
    var n := |trs| - 1;
    if j < n {
      OfOthers(trs[..n], j, tr, d);
      assert trs[j := tr][..n] == trs[..n][j := tr];
    } else {
      assert trs[j := tr][..n] == trs[..n];
    }
  }

  lemma OfAppended(trs: seq<Triple>, tr: Triple, d: byte)
    ensures Of(trs + [tr], d) == Of(trs, d) + if tr.dest == d then [tr] else []
  {
    assert (trs + [tr])[..|trs|] == trs;
  }

  /** With a signed `char` the routes to an address of 128 or more are not compressed: every one is advertised. */
  lemma {:induction false} HighDestsRepeat(t: Table, d: byte)
    requires d >= 128
    ensures Of(Advertised(true, t), d) == Of(AsTriples(t), d)
  {
    if t == [] {
    } else {
      var n := |t| - 1;
      var trs := Advertised(true, t[..n]);
      HighDestsRepeat(t[..n], d);
      assert AsTriples(t) == AsTriples(t[..n]) + [AsTriple(t[n])];
      OfAppended(AsTriples(t[..n]), AsTriple(t[n]), d);
      OfAppended(trs, AsTriple(t[n]), d);
      var j := IndexOf(trs, t[n].dest);
      if j < |trs| && t[n].dest < 128 {
        OfOthers(trs, j, AsTriple(t[n]), d);
      }
    }
  }

  /** A destination of 0 is never advertised. */
  lemma {:induction false} ZeroIsNotAdvertised(signed: bool, t: Table)
    ensures forall j :: 0 <= j < |Advertised(signed, t)| ==> Advertised(signed, t)[j].dest != 0
  {
    if t == [] {
    } else {
      ZeroIsNotAdvertised(signed, t[..|t|-1]);
    }
  }

  /** A better route can stay unannounced: with a signed `char` the unreachable first route freezes the triple. */
  lemma FrozenRouteWitness()
    ensures var t := [Entry(20, 20, 0, 0), Entry(30, 40, INFINITY, 0), Entry(30, 50, 2, 0)];
            && PlainDests(t)
            && Lookup(t, 30) == Some(Entry(30, 50, 2, 0))
            && Advertised(true, t) == [Triple(20, 20, 0), Triple(30, 40, INFINITY)]
            && Advertised(false, t) == [Triple(20, 20, 0), Triple(30, 50, 2)]
  {
    var t := [Entry(20, 20, 0, 0), Entry(30, 40, INFINITY, 0), Entry(30, 50, 2, 0)];
    var t1, t2 := [t[0]], [t[0], t[1]];
    assert t1[..0] == [] && t2[..1] == t1 && t[..2] == t2;
    assert Lookup(t1, 30).None?;
    assert Lookup(t2, 30).None?;
    var trs := [Triple(20, 20, 0), Triple(30, 40, INFINITY)];
    forall signed ensures Advertised(signed, t2) == trs {
      assert Advertised(signed, t1) == [Triple(20, 20, 0)];
      assert IndexOf([Triple(20, 20, 0)], 30) == 1;
    }
    assert IndexOf(trs, 30) == 1;
  }
}
