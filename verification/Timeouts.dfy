/** Detection of silent neighbours: `check_for_timeouts` and the loop of `main` that drives it. */
module Timeouts {
  import opened Bytes
  import opened Tables

  predicate Stale(e: Entry, hello: byte) {
    e.hops == 1 && e.helloCount != hello
  }

  predicate AnyStale(t: Table, hello: byte) {
    exists i :: 0 <= i < |t| && Stale(t[i], hello)
  }

  /** The next hop of entry e is that of some stale 1-hop entry. */
  predicate ViaStale(t: Table, hello: byte, nextHop: byte) {
    exists i :: 0 <= i < |t| && Stale(t[i], hello) && t[i].nextHop == nextHop
  }

  /** All timeouts at once. */
  function Expired(t: Table, hello: byte): Table {
    seq(|t|, i requires 0 <= i < |t| =>
      if ViaStale(t, hello, t[i].nextHop) then t[i].(hops := INFINITY) else t[i])
  }

  /** One timeout: every route through nextHop becomes unreachable. */
  function GroupExpired(t: Table, nextHop: byte): Table {
    seq(|t|, i requires 0 <= i < |t| => if t[i].nextHop == nextHop then t[i].(hops := INFINITY) else t[i])
  }

  ghost function StaleCount(t: Table, hello: byte): nat {
    if t == [] then 0 else StaleCount(t[..|t|-1], hello) + if Stale(t[|t|-1], hello) then 1 else 0
  }

  lemma {:induction false} StaleCountDrops(t: Table, hello: byte, k: nat)
    requires k < |t| && Stale(t[k], hello)
    ensures StaleCount(GroupExpired(t, t[k].nextHop), hello) < StaleCount(t, hello)
    decreases |t|
  {
    var n := |t| - 1;
    var g := GroupExpired(t, t[k].nextHop);
    assert g[..n] == GroupExpired(t[..n], t[k].nextHop);
    StaleCountAtMost(t[..n], hello, t[k].nextHop);
    if k < n {
      StaleCountDrops(t[..n], hello, k);
    }
  }

  lemma {:induction false} StaleCountAtMost(t: Table, hello: byte, nextHop: byte)
    ensures StaleCount(GroupExpired(t, nextHop), hello) <= StaleCount(t, hello)
  {
    if t == [] {
    } else {
      var n := |t| - 1;
      assert GroupExpired(t, nextHop)[..n] == GroupExpired(t[..n], nextHop);
      StaleCountAtMost(t[..n], hello, nextHop);
    }
  }

  /** Whichever stale neighbour is expired first, the simultaneous result still to be reached is the same. */
  lemma ExpiryOrderIrrelevant(t: Table, hello: byte, k: nat)
    requires k < |t| && Stale(t[k], hello)
    ensures Expired(GroupExpired(t, t[k].nextHop), hello) == Expired(t, hello)
  {
    var nh := t[k].nextHop;
    var g := GroupExpired(t, nh);
    forall i | 0 <= i < |t|
      ensures Expired(g, hello)[i] == Expired(t, hello)[i]
    {
      if t[i].nextHop != nh {
        assert ViaStale(g, hello, t[i].nextHop) <==> ViaStale(t, hello, t[i].nextHop) by {
          if ViaStale(t, hello, t[i].nextHop) {
            var m :| 0 <= m < |t| && Stale(t[m], hello) && t[m].nextHop == t[i].nextHop;
            assert g[m] == t[m];
          }
        }
      }
    }
  }

  /** Any sequence of single timeouts, each of a neighbour stale at that moment. */
  ghost predicate ExpiryRun(t: Table, hello: byte, picks: seq<nat>, t': Table)
    decreases |picks|
  {
    if picks == [] then t == t'
    else picks[0] < |t| && Stale(t[picks[0]], hello) &&
         ExpiryRun(GroupExpired(t, t[picks[0]].nextHop), hello, picks[1..], t')
  }

  /** Every run of timeouts ends, and every run that leaves nothing stale ends in the simultaneous result. */
  lemma {:induction false} ExpiryConfluent(t: Table, hello: byte, picks: seq<nat>, t': Table)
    requires ExpiryRun(t, hello, picks, t')
    ensures |picks| <= StaleCount(t, hello)
    ensures !AnyStale(t', hello) ==> t' == Expired(t, hello)
    decreases |picks|
  {
    if picks == [] {
      assert !AnyStale(t, hello) ==> Expired(t, hello) == t;
    } else {
      StaleCountDrops(t, hello, picks[0]);
      ExpiryOrderIrrelevant(t, hello, picks[0]);
      ExpiryConfluent(GroupExpired(t, t[picks[0]].nextHop), hello, picks[1..], t');
    }
  }

  lemma ExpiredLeavesNothingStale(t: Table, hello: byte)
    ensures !AnyStale(Expired(t, hello), hello)
    ensures ExtendsByInfinity(t, Expired(t, hello)) && |Expired(t, hello)| == |t|
  {
    var x := Expired(t, hello);
    forall i | 0 <= i < |t| ensures !Stale(x[i], hello) {
      if Stale(t[i], hello) {
        assert ViaStale(t, hello, t[i].nextHop);
      }
    }
  }

  /** A timeout takes with it every route through the silent neighbour, and no other. */
  lemma ExpiredExactly(t: Table, hello: byte)
    ensures var t' := Expired(t, hello);
            && |t'| == |t|
            && forall i :: 0 <= i < |t| ==>
                 t'[i] == if exists k :: 0 <= k < |t| && t[k].hops == 1 && t[k].helloCount != hello &&
                                         t[k].nextHop == t[i].nextHop
                          then t[i].(hops := INFINITY) else t[i]
  {
    forall i | 0 <= i < |t|
      ensures ViaStale(t, hello, t[i].nextHop) <==>
              exists k :: 0 <= k < |t| && t[k].hops == 1 && t[k].helloCount != hello && t[k].nextHop == t[i].nextHop
    {
      if k :| 0 <= k < |t| && t[k].hops == 1 && t[k].helloCount != hello && t[k].nextHop == t[i].nextHop {
        assert Stale(t[k], hello);
      }
    }
  }

  /** So lookup never leads through a silent neighbour any more, and keeps its answer if that did not. */
  lemma ExpiredLookup(t: Table, hello: byte, d: byte)
    ensures Lookup(Expired(t, hello), d).Some? ==> !ViaStale(t, hello, Lookup(Expired(t, hello), d).value.nextHop)
    ensures Lookup(t, d).Some? && !ViaStale(t, hello, Lookup(t, d).value.nextHop) ==>
              Lookup(Expired(t, hello), d) == Lookup(t, d)
  {
    var t' := Expired(t, hello);
    LookupIsFirstMinimum(t, d);
    LookupIsFirstMinimum(t', d);
    if i :| IsChoice(t, d, i) && !ViaStale(t, hello, t[i].nextHop) {
      assert IsChoice(t', d, i);
    }
  }

  /** The first stale entry, if there is one. */
  method CheckForTimeouts(rt: RoutingTable, hello: byte) returns (found: bool, k: nat)
    ensures found == AnyStale(rt.entries, hello)
    ensures found ==> k < |rt.entries| && Stale(rt.entries[k], hello)
    ensures found ==> forall j :: 0 <= j < k ==> !Stale(rt.entries[j], hello)
  {
    k := 0;
    while k < |rt.entries|
      invariant 0 <= k <= |rt.entries|
      invariant forall j :: 0 <= j < k ==> !Stale(rt.entries[j], hello)
    {
      if rt.entries[k].hops == 1 && rt.entries[k].helloCount != hello {
        return true, k;
      }
      k := k + 1;
    }
    return false, 0;
  }

  method ExpireRoutes(rt: RoutingTable, hello: byte) returns (updated: bool)
    modifies rt
    ensures rt.entries == Expired(old(rt.entries), hello)
    ensures updated == AnyStale(old(rt.entries), hello)
  {
    ghost var was := rt.entries;
    updated := false;
    var found, k := CheckForTimeouts(rt, hello);
    while found
      invariant found == AnyStale(rt.entries, hello)
      invariant found ==> 0 <= k < |rt.entries| && Stale(rt.entries[k], hello)
      invariant Expired(rt.entries, hello) == Expired(was, hello)
      invariant !updated ==> rt.entries == was
      invariant updated ==> AnyStale(was, hello)
      decreases StaleCount(rt.entries, hello)
    {
      ExpiryOrderIrrelevant(rt.entries, hello, k);
      StaleCountDrops(rt.entries, hello, k);
      ghost var before := rt.entries;
      var nextHop := rt.entries[k].nextHop;
      rt.entries := rt.entries[k := rt.entries[k].(hops := INFINITY)];
      var i := 0;
      while i < |rt.entries|
        invariant 0 <= i <= |rt.entries| == |before|
        invariant forall j :: 0 <= j < i ==> rt.entries[j] == GroupExpired(before, nextHop)[j]
        invariant forall j :: i <= j < |before| ==>
                    rt.entries[j] == if j == k then before[k].(hops := INFINITY) else before[j]
      {
        if rt.entries[i].nextHop == nextHop {
          rt.entries := rt.entries[i := rt.entries[i].(hops := INFINITY)];
        }
        i := i + 1;
      }
      assert rt.entries == GroupExpired(before, nextHop);
      updated := true;
      found, k := CheckForTimeouts(rt, hello);
    }
    assert rt.entries == Expired(rt.entries, hello);
  }
}
