/** What update_entry and update_table do to any table, unreachable routes included: withdrawn routes come back. */
module Revival {
  import opened Bytes
  import opened Tables
  import opened Advertising
  import opened Codec
  import opened Grounding

  function Min(a: byte, b: byte): byte {
    if a <= b then a else b
  }

  /** n entries fit. */
  predicate RoomFor(cap: Capacity, n: nat) {
    cap.AtMost? ==> n <= cap.size
  }

  /** Every entry for d through src that was unreachable now has the given hop count, and is otherwise as it was. */
  ghost predicate Revived(t: Table, t': Table, d: byte, src: byte, hops: byte) {
    && |t| <= |t'|
    && forall i :: 0 <= i < |t| && t[i].dest == d && t[i].nextHop == src && t[i].hops == INFINITY ==>
         t'[i] == t[i].(hops := hops)
  }

  ghost predicate Unreachable(t: Table, d: byte, src: byte) {
    Stores(t, d, src, INFINITY)
  }

  ghost predicate AllUnreachable(t: Table, d: byte, src: byte) {
    forall i :: 0 <= i < |t| && t[i].dest == d && t[i].nextHop == src ==> t[i].hops == INFINITY
  }

  // ---- one route ----

  /** A finite route told by src is stored: an unreachable entry comes back to life, or else a new entry is added
      unless the very same route is there. */
  lemma UpdateStores(cap: Capacity, t: Table, src: byte, d: byte, hops: byte, hc: byte)
    requires hops != INFINITY && RoomFor(cap, |t| + 1)
    ensures var t' := Updated(cap, t, src, d, hops, hc);
            && Stores(t', d, src, hops) && Revived(t, t', d, src, hops)
            && (if Unreachable(t, d, src) || Stores(t, d, src, hops) then |t'| == |t|
                else t' == t + [Entry(d, src, hops, hc)])
            && (forall i :: 0 <= i < |t| && !(t[i].dest == d && t[i].nextHop == src && t[i].hops == INFINITY) ==>
                  t'[i] == t[i])
  {
    var t' := Updated(cap, t, src, d, hops, hc);
    if i :| 0 <= i < |t| && Matches(t[i], src, d) && (t[i].hops == hops || t[i].hops == INFINITY) {
      assert t'[i].dest == d && t'[i].nextHop == src && t'[i].hops == hops;
    } else {
      assert Touched(t, src, d, hops) == t;
      assert t'[|t|] == Entry(d, src, hops, hc);
    }
  }

  /** A full table still revives, but loses a new route without a trace. */
  lemma FullUpdate(cap: Capacity, t: Table, src: byte, d: byte, hops: byte, hc: byte)
    requires cap.AtMost? && |t| == cap.size && hops != INFINITY
    ensures var t' := Updated(cap, t, src, d, hops, hc);
            && |t'| == |t| && Revived(t, t', d, src, hops)
            && (!Unreachable(t, d, src) ==> t' == t)
  {
    var t' := Updated(cap, t, src, d, hops, hc);
    assert forall i :: 0 <= i < |t| ==> t'[i] == Touch(t[i], src, d, hops);
    if !Unreachable(t, d, src) {
      assert forall i :: 0 <= i < |t| ==> t'[i] == t[i];
    }
  }

  /** So a finite route lowers the looked-up hop count of its destination to its own, if that is lower, and changes
      no other lookup. */
  lemma UpdateLookups(cap: Capacity, t: Table, src: byte, d: byte, hops: byte, hc: byte, req: byte)
    requires hops != INFINITY && RoomFor(cap, |t| + 1)
    ensures LookupHops(Updated(cap, t, src, d, hops, hc), req) ==
            if req == d then Min(hops, LookupHops(t, req)) else LookupHops(t, req)
  {
    var t' := Updated(cap, t, src, d, hops, hc);
    UpdateStores(cap, t, src, d, hops, hc);
    FiniteUpdateNeverWorsens(cap, t, src, d, hops, hc, req);
    LookupHopsIsMinimum(t, req);
    LookupHopsIsMinimum(t', req);
    if LookupHops(t', req) != INFINITY {
      var i :| 0 <= i < |t'| && t'[i].dest == req && t'[i].hops == LookupHops(t', req);
      assert i < |t| ==> t'[i] == t[i] || t'[i].hops == hops;
    }
  }

  // ---- a whole advertisement ----

  predicate Tells(trs: seq<Triple>, d: byte) {
    exists j :: 0 <= j < |trs| && trs[j].dest == d
  }

  /** Destinations that are not mentioned are not touched, and at most one entry is added for each triple. */
  lemma {:induction false} MergeLeaves(
      cap: Capacity, signed: bool, t: Table, self: byte, src: byte, trs: seq<Triple>, hc: byte)
    ensures var t' := Merged(cap, signed, t, self, src, trs, hc);
            && |t| <= |t'| <= |t| + |trs|
            && (forall i :: 0 <= i < |t| && !Tells(trs, t[i].dest) ==> t'[i] == t[i])
            && (forall i :: |t| <= i < |t'| ==> Tells(trs, t'[i].dest))
  {
    if trs == [] {
    } else {
      var n := |trs| - 1;
      MergeLeaves(cap, signed, t, self, src, trs[..n], hc);
      forall d | Tells(trs[..n], d) ensures Tells(trs, d) {
        var j :| 0 <= j < n && trs[..n][j].dest == d;
        assert trs[j].dest == d;
      }
      assert Tells(trs, trs[n].dest);
      UpdateEvolution(cap, Merged(cap, signed, t, self, src, trs[..n], hc), src, trs[n].dest, Further(trs[n].hops), hc);
    }
  }

  /** What becomes of triple number j. */
  ghost predicate Absorbed(t: Table, t': Table, src: byte, tr: Triple) {
    if tr.hops < 254
    then Stores(t', tr.dest, src, tr.hops + 1) && Revived(t, t', tr.dest, src, tr.hops + 1)
    else AllUnreachable(t', tr.dest, src)
  }

  /** Each triple that does not lead back here is stored one hop longer, entries withdrawn before included; triples
      at INFINITY, or at 254 hops, withdraw the route. */
  lemma {:induction false} MergeStores(
      cap: Capacity, signed: bool, t: Table, self: byte, src: byte, trs: seq<Triple>, hc: byte, j: nat)
    requires DistinctDests(trs) && RoomFor(cap, |t| + |trs|)
    requires j < |trs| && CharValue(signed, trs[j].nextHop) != self
    ensures Absorbed(t, Merged(cap, signed, t, self, src, trs, hc), src, trs[j])
  {
    var n := |trs| - 1;
    var m, t' := Merged(cap, signed, t, self, src, trs[..n], hc), Merged(cap, signed, t, self, src, trs, hc);
    MergeLeaves(cap, signed, t, self, src, trs[..n], hc);
    if j < n {
      MergeStores(cap, signed, t, self, src, trs[..n], hc, j);
      UpdateEvolution(cap, m, src, trs[n].dest, Further(trs[n].hops), hc);
      OtherDestination(t, m, t', src, trs[j], trs[n].dest);
    } else {
      LastIsStored(cap, t, m, src, trs, hc);
    }
  }

  /** An update of another destination changes nothing for this one. */
  lemma OtherDestination(t: Table, m: Table, t': Table, src: byte, tr: Triple, other: byte)
    requires Absorbed(t, m, src, tr) && tr.dest != other && |t| <= |m| <= |t'|
    requires forall i :: 0 <= i < |m| && m[i].dest != other ==> t'[i] == m[i]
    requires forall i :: 0 <= i < |m| ==> t'[i].dest == m[i].dest
    requires forall i :: |m| <= i < |t'| ==> t'[i].dest == other
    ensures Absorbed(t, t', src, tr)
  {
    if tr.hops < 254 {
      var i :| 0 <= i < |m| && m[i].dest == tr.dest && m[i].nextHop == src && m[i].hops == tr.hops + 1;
      assert t'[i] == m[i];
    }
  }

  lemma LastIsStored(cap: Capacity, t: Table, m: Table, src: byte, trs: seq<Triple>, hc: byte)
    requires trs != [] && DistinctDests(trs) && RoomFor(cap, |t| + |trs|) && |t| <= |m| < |t| + |trs|
    requires forall i :: 0 <= i < |t| && !Tells(trs[..|trs|-1], t[i].dest) ==> m[i] == t[i]
    ensures var tr := trs[|trs|-1]; Absorbed(t, Updated(cap, m, src, tr.dest, Further(tr.hops), hc), src, tr)
  {
    var tr := trs[|trs|-1];
    assert !Tells(trs[..|trs|-1], tr.dest);
    if tr.hops < 254 {
      UpdateStores(cap, m, src, tr.dest, tr.hops + 1, hc);
    } else {
      WithdrawPoisons(cap, m, src, tr.dest, hc);
    }
  }

  /** Lookups of d depend on the entries for d only. */
  lemma SameEntriesSameLookup(t: Table, t': Table, d: byte)
    requires |t| <= |t'| && forall i :: 0 <= i < |t| && (t[i].dest == d || t'[i].dest == d) ==> t'[i] == t[i]
    requires forall i :: |t| <= i < |t'| ==> t'[i].dest != d
    ensures Lookup(t', d) == Lookup(t, d)
  {
    LookupIsFirstMinimum(t, d);
    LookupIsFirstMinimum(t', d);
    if i :| IsChoice(t, d, i) {
      assert IsChoice(t', d, i);
    }
    if i :| IsChoice(t', d, i) {
      assert IsChoice(t, d, i);
    }
  }

  lemma UpdateElsewhere(cap: Capacity, t: Table, src: byte, dest: byte, hops: byte, hc: byte, d: byte)
    requires d != dest
    ensures Lookup(Updated(cap, t, src, dest, hops, hc), d) == Lookup(t, d)
  {
    UpdateEvolution(cap, t, src, dest, hops, hc);
    SameEntriesSameLookup(t, Updated(cap, t, src, dest, hops, hc), d);
  }

  /** What lookup answers after a whole advertisement: the shorter of the told route and the one it had; routes that
      lead back here, and destinations that are not told, change nothing. */
  lemma {:induction false} MergeLookups(
      cap: Capacity, signed: bool, t: Table, self: byte, src: byte, trs: seq<Triple>, hc: byte, j: nat)
    requires DistinctDests(trs) && RoomFor(cap, |t| + |trs|) && j < |trs| && trs[j].hops < 254
    ensures LookupHops(Merged(cap, signed, t, self, src, trs, hc), trs[j].dest) ==
            if CharValue(signed, trs[j].nextHop) == self then LookupHops(t, trs[j].dest)
            else Min(trs[j].hops + 1, LookupHops(t, trs[j].dest))
  {
    var n, d := |trs| - 1, trs[j].dest;
    var m := Merged(cap, signed, t, self, src, trs[..n], hc);
    MergeLeaves(cap, signed, t, self, src, trs[..n], hc);
    if j < n {
      MergeLookups(cap, signed, t, self, src, trs[..n], hc, j);
      UpdateElsewhere(cap, m, src, trs[n].dest, Further(trs[n].hops), hc, d);
    } else {
      UntoldLookup(cap, signed, t, self, src, trs[..n], hc, d);
      if CharValue(signed, trs[j].nextHop) != self {
        UpdateLookups(cap, m, src, d, trs[j].hops + 1, hc, d);
      }
    }
  }

  lemma {:induction false} UntoldLookup(
      cap: Capacity, signed: bool, t: Table, self: byte, src: byte, trs: seq<Triple>, hc: byte, d: byte)
    requires !Tells(trs, d)
    ensures Lookup(Merged(cap, signed, t, self, src, trs, hc), d) == Lookup(t, d)
  {
    MergeLeaves(cap, signed, t, self, src, trs, hc);
    MergeEvolution(cap, signed, t, self, src, trs, hc);
    SameEntriesSameLookup(t, Merged(cap, signed, t, self, src, trs, hc), d);
  }

  // ---- a first advertisement ----

  function EntriesOf(trs: seq<Triple>, src: byte, hc: byte): (t: Table)
    ensures |t| == |trs|
  {
    seq(|trs|, j requires 0 <= j < |trs| => Entry(trs[j].dest, src, Further(trs[j].hops), hc))
  }

  /** What a neighbour tells for the first time is copied down in the order told, one hop longer, with the current
      hello count. */
  lemma {:induction false} FirstAdvertisement(cap: Capacity, t: Table, src: byte, trs: seq<Triple>, hc: byte)
    requires DistinctDests(trs) && RoomFor(cap, |t| + |trs|)
    requires forall i :: 0 <= i < |t| && t[i].nextHop == src ==> !Tells(trs, t[i].dest)
    ensures MergedWhole(cap, t, src, trs, hc) == t + EntriesOf(trs, src, hc)
    ensures LearnsWhole(cap, t, src, trs, hc) <==> trs != []
  {
    if trs == [] {
      assert t + EntriesOf(trs, src, hc) == t;
    } else {
      var n := |trs| - 1;
      forall i | 0 <= i < |t| && t[i].nextHop == src ensures !Tells(trs[..n], t[i].dest) && t[i].dest != trs[n].dest {
        assert !Tells(trs, t[i].dest);
        assert forall j :: 0 <= j < n ==> trs[..n][j] == trs[j];
      }
      FirstAdvertisement(cap, t, src, trs[..n], hc);
      NewRouteIsAppended(cap, t + EntriesOf(trs[..n], src, hc), src, trs[n], hc);
      assert EntriesOf(trs, src, hc) ==
             EntriesOf(trs[..n], src, hc) + [Entry(trs[n].dest, src, Further(trs[n].hops), hc)];
    }
  }

  lemma NewRouteIsAppended(cap: Capacity, t: Table, src: byte, tr: Triple, hc: byte)
    requires RoomFor(cap, |t| + 1) && forall i :: 0 <= i < |t| ==> !Matches(t[i], src, tr.dest)
    ensures Updated(cap, t, src, tr.dest, Further(tr.hops), hc) == t + [Entry(tr.dest, src, Further(tr.hops), hc)]
    ensures !Known(t, src, tr.dest, Further(tr.hops))
  {
    assert Touched(t, src, tr.dest, Further(tr.hops)) == t;
  }

  /** An update is reported if and only if it brings an entry that was not there, room provided. */
  lemma {:induction false} LearnsIffGrows(
      cap: Capacity, signed: bool, t: Table, self: byte, src: byte, trs: seq<Triple>, hc: byte)
    requires RoomFor(cap, |t| + |trs|)
    ensures MergeLearns(cap, signed, t, self, src, trs, hc) <==> |Merged(cap, signed, t, self, src, trs, hc)| > |t|
  {
    if trs == [] {
    } else {
      var n := |trs| - 1;
      LearnsIffGrows(cap, signed, t, self, src, trs[..n], hc);
      MergeLeaves(cap, signed, t, self, src, trs[..n], hc);
    }
  }
}
