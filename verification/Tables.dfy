/** The "all paths" routing table of source/mip_routing.c: an append-only list of routes changed in place. */
module Tables {
  import opened Bytes

  /** How many entries the underlying queue takes; the source fixes AtMost(MAX_QUEUE_SIZE). */
  datatype Capacity = Unlimited | AtMost(size: nat) {
    predicate Full(n: nat) { AtMost? && n == size }
  }

  datatype Entry = Entry(dest: byte, nextHop: byte, hops: byte, helloCount: byte)
  type Table = seq<Entry>
  type TableMap = map<byte, Table>      // one table per node

  /** One advertised route: destination, the sender's next hop, and its hop count. */
  datatype Triple = Triple(dest: byte, nextHop: byte, hops: byte)

  predicate Matches(e: Entry, src: byte, dest: byte) {
    e.dest == dest && e.nextHop == src
  }

  /** What the update loop leaves in one slot. */
  function Touch(e: Entry, src: byte, dest: byte, hops: byte): Entry {
    if Matches(e, src, dest) && (e.hops == INFINITY || hops == INFINITY) then e.(hops := hops) else e
  }

  function Touched(t: Table, src: byte, dest: byte, hops: byte): Table {
    seq(|t|, i requires 0 <= i < |t| => Touch(t[i], src, dest, hops))
  }

  /** The route is already stored, or is stored as unreachable and gets revived. */
  predicate Known(t: Table, src: byte, dest: byte, hops: byte) {
    exists i :: 0 <= i < |t| && Matches(t[i], src, dest) && (t[i].hops == hops || t[i].hops == INFINITY)
  }

  /** The table after `update_entry`; a push refused by a full queue is lost silently. */
  function Updated(cap: Capacity, t: Table, src: byte, dest: byte, hops: byte, hello: byte): Table {
    if Known(t, src, dest, hops) || cap.Full(|t|)
    then Touched(t, src, dest, hops)
    else Touched(t, src, dest, hops) + [Entry(dest, src, hops, hello)]
  }

  function Further(hops: byte): byte {
    if hops == INFINITY then INFINITY else hops + 1
  }

  /** The receiver leaves out routes through itself. The next hop is read as a plain `char`, so when that is signed
      an address of 128 or more never matches. */
  predicate Skips(signed: bool, self: byte, tr: Triple) {
    CharValue(signed, tr.nextHop) == self
  }

  function Absorb(cap: Capacity, signed: bool, t: Table, self: byte, src: byte, tr: Triple, hello: byte): Table {
    if Skips(signed, self, tr) then t else Updated(cap, t, src, tr.dest, Further(tr.hops), hello)
  }

  predicate Learns(signed: bool, t: Table, self: byte, src: byte, tr: Triple) {
    !Skips(signed, self, tr) && !Known(t, src, tr.dest, Further(tr.hops))
  }

  /** A received advertisement, folded in from left to right. */
  function Merged(cap: Capacity, signed: bool, t: Table, self: byte, src: byte, trs: seq<Triple>, hello: byte): Table {
    if trs == [] then t
    else
      var before := Merged(cap, signed, t, self, src, trs[..|trs|-1], hello);
      Absorb(cap, signed, before, self, src, trs[|trs|-1], hello)
  }

  predicate MergeLearns(cap: Capacity, signed: bool, t: Table, self: byte, src: byte, trs: seq<Triple>, hello: byte) {
    trs != [] &&
    (MergeLearns(cap, signed, t, self, src, trs[..|trs|-1], hello) ||
     Learns(signed, Merged(cap, signed, t, self, src, trs[..|trs|-1], hello), self, src, trs[|trs|-1]))
  }

  // ---- the advertisement inside a payload ----

  /** The payload of a received routing packet: MAX_RT_PKT_SIZE bytes, of which 3*payload[4]+5 are read. */
  predicate Readable(payload: seq<byte>) {
    |payload| == MAX_RT_PKT_SIZE && 3 * payload[4] + 5 <= |payload|
  }

  function Decode(payload: seq<byte>): seq<Triple>
    requires Readable(payload)
  {
    seq(payload[4], i requires 0 <= i < payload[4] =>
      Triple(payload[3*i+5], payload[3*i+6], payload[3*i+7]))
  }

  // ---- lookup ----

  /** Last-to-first reading of `lookup`: a strictly better finite route replaces the one found so far. */
  function Lookup(t: Table, req: byte): Option<Entry> {
    if t == [] then None
    else
      var r := Lookup(t[..|t|-1], req);
      var e := t[|t|-1];
      if e.dest == req && e.hops != INFINITY && (r.None? || e.hops < r.value.hops) then Some(e) else r
  }

  /** Position i holds the first route of minimal finite hop count to req. */
  ghost predicate IsChoice(t: Table, req: byte, i: int) {
    && 0 <= i < |t|
    && t[i].dest == req && t[i].hops != INFINITY
    && (forall j :: 0 <= j < |t| && t[j].dest == req ==> t[i].hops <= t[j].hops)
    && (forall j :: 0 <= j < i && t[j].dest == req ==> t[i].hops < t[j].hops)
  }

  ghost predicate HasFinite(t: Table, req: byte) {
    exists i :: 0 <= i < |t| && t[i].dest == req && t[i].hops != INFINITY
  }

  lemma {:induction false} LookupFinds(t: Table, req: byte) returns (i: int)
    ensures Lookup(t, req).None? ==> !HasFinite(t, req)
    ensures Lookup(t, req).Some? ==> IsChoice(t, req, i) && Lookup(t, req).value == t[i]
  {
    if t == [] {
      return 0;
    }
    var n := |t| - 1;
    i := LookupFinds(t[..n], req);
    assert forall j :: 0 <= j < n ==> t[..n][j] == t[j];
    if Lookup(t, req) != Lookup(t[..n], req) {
      i := n;
    }
  }

  lemma ChoiceIsUnique(t: Table, req: byte, i: int, j: int)
    requires IsChoice(t, req, i) && IsChoice(t, req, j)
    ensures i == j
  {}

  /** `lookup` answers exactly when a finite route is stored, and then with the first of minimal hop count. */
  lemma LookupIsFirstMinimum(t: Table, req: byte)
    ensures Lookup(t, req).Some? <==> HasFinite(t, req)
    ensures Lookup(t, req).Some? ==> exists i :: IsChoice(t, req, i) && Lookup(t, req).value == t[i]
    ensures forall i :: IsChoice(t, req, i) ==> Lookup(t, req) == Some(t[i])
  {
    var k := LookupFinds(t, req);
    forall i | IsChoice(t, req, i) ensures Lookup(t, req) == Some(t[i]) {
      ChoiceIsUnique(t, req, i, k);
    }
  }

  /** The hop count of a lookup, with 255 standing for "no route" as in the reply packet. */
  function LookupHops(t: Table, req: byte): byte {
    if Lookup(t, req).Some? then Lookup(t, req).value.hops else INFINITY
  }

  lemma LookupHopsIsMinimum(t: Table, req: byte)
    ensures forall i :: 0 <= i < |t| && t[i].dest == req ==> LookupHops(t, req) <= t[i].hops
    ensures LookupHops(t, req) != INFINITY ==>
              exists i ::
                0 <= i < |t| && t[i].dest == req && t[i].hops == LookupHops(t, req) && Lookup(t, req) == Some(t[i])
  {
    LookupIsFirstMinimum(t, req);
  }

  // ---- evolution of the table ----

  /** Entries are never removed or reordered, and their destination and next hop never change. */
  ghost predicate Extends(t: Table, t': Table) {
    && |t| <= |t'|
    && forall i :: 0 <= i < |t| ==> t'[i].dest == t[i].dest && t'[i].nextHop == t[i].nextHop
  }

  /** Extends, and every hop count that changed did so to or from INFINITY; no hello count changed. */
  ghost predicate ExtendsByInfinity(t: Table, t': Table) {
    && Extends(t, t')
    && forall i :: 0 <= i < |t| ==>
         && (t'[i].hops == t[i].hops || t'[i].hops == INFINITY || t[i].hops == INFINITY)
         && t'[i].helloCount == t[i].helloCount
  }

  lemma UpdateEvolution(cap: Capacity, t: Table, src: byte, dest: byte, hops: byte, hello: byte)
    ensures ExtendsByInfinity(t, Updated(cap, t, src, dest, hops, hello))
    ensures |Updated(cap, t, src, dest, hops, hello)| ==
            |t| + if Known(t, src, dest, hops) || cap.Full(|t|) then 0 else 1
    ensures forall i :: 0 <= i < |t| && !Matches(t[i], src, dest) ==> Updated(cap, t, src, dest, hops, hello)[i] == t[i]
  {}

  /** Withdrawing a route leaves every (dest, src) entry at INFINITY and all others untouched, and the next lookup
      of dest avoids src. A withdrawn finite route does not count as existing: the table grows by one more
      unreachable entry unless some (dest, src) entry was at INFINITY already. */
  lemma WithdrawPoisons(cap: Capacity, t: Table, src: byte, dest: byte, hello: byte)
    ensures var t' := Updated(cap, t, src, dest, INFINITY, hello);
            && (forall i :: 0 <= i < |t'| && Matches(t'[i], src, dest) ==> t'[i].hops == INFINITY)
            && (forall i :: 0 <= i < |t| && !Matches(t[i], src, dest) ==> t'[i] == t[i])
            && (Lookup(t', dest).Some? ==> Lookup(t', dest).value.nextHop != src)
            && (!cap.Full(|t|) ==>
                  (|t'| == |t| <==> exists i :: 0 <= i < |t| && Matches(t[i], src, dest) && t[i].hops == INFINITY))
  {
    var t' := Updated(cap, t, src, dest, INFINITY, hello);
    LookupIsFirstMinimum(t', dest);
    if Lookup(t', dest).Some? {
      var i :| IsChoice(t', dest, i) && Lookup(t', dest).value == t'[i];
      assert !Matches(t'[i], src, dest);
    }
  }

  /** A finite advertisement never makes any lookup worse. */
  lemma FiniteUpdateNeverWorsens(cap: Capacity, t: Table, src: byte, dest: byte, hops: byte, hello: byte, req: byte)
    requires hops != INFINITY
    ensures LookupHops(Updated(cap, t, src, dest, hops, hello), req) <= LookupHops(t, req)
  {
    var t' := Updated(cap, t, src, dest, hops, hello);
    LookupHopsIsMinimum(t, req);
    LookupHopsIsMinimum(t', req);
    if LookupHops(t, req) != INFINITY {
      var i :| 0 <= i < |t| && t[i].dest == req && t[i].hops == LookupHops(t, req);
      assert t'[i].dest == req && t'[i].hops == t[i].hops;
    }
  }

  lemma {:induction false} MergeEvolution(
      cap: Capacity, signed: bool, t: Table, self: byte, src: byte, trs: seq<Triple>, hello: byte)
    ensures var t' := Merged(cap, signed, t, self, src, trs, hello);
            && Extends(t, t')
            && (forall i :: 0 <= i < |t| ==> t'[i].helloCount == t[i].helloCount)
            && (forall i :: 0 <= i < |t| && t[i].nextHop != src ==> t'[i] == t[i])
            && (forall i :: |t| <= i < |t'| ==> t'[i].nextHop == src)
  {
    if trs == [] {
    } else {
      MergeEvolution(cap, signed, t, self, src, trs[..|trs|-1], hello);
      var m := Merged(cap, signed, t, self, src, trs[..|trs|-1], hello);
      var tr := trs[|trs|-1];
      UpdateEvolution(cap, m, src, tr.dest, Further(tr.hops), hello);
    }
  }

  // ---- hello counts ----

  predicate IsLinkTo(e: Entry, src: byte) {
    e.hops == 1 && e.dest == src
  }

  /** `update_hello_count`: only the first 1-hop entry for src is refreshed. */
  function Refreshed(t: Table, src: byte, hello: byte): Table {
    if t == [] then []
    else if IsLinkTo(t[0], src) then [t[0].(helloCount := hello)] + t[1..]
    else [t[0]] + Refreshed(t[1..], src, hello)
  }

  predicate IsFirstLink(t: Table, src: byte, i: nat)
    requires i < |t|
  {
    IsLinkTo(t[i], src) && forall j :: 0 <= j < i ==> !IsLinkTo(t[j], src)
  }

  function RefreshedAt(t: Table, src: byte, hello: byte, i: nat): Entry
    requires i < |t|
  {
    if IsFirstLink(t, src, i) then t[i].(helloCount := hello) else t[i]
  }

  lemma {:induction false} RefreshedFirstOnly(t: Table, src: byte, hello: byte)
    ensures |Refreshed(t, src, hello)| == |t|
    ensures forall i :: 0 <= i < |t| ==> Refreshed(t, src, hello)[i] == RefreshedAt(t, src, hello, i)
  {
    if t != [] && !IsLinkTo(t[0], src) {
      RefreshedFirstOnly(t[1..], src, hello);
      var r := Refreshed(t[1..], src, hello);
      forall i | 0 <= i < |t|
        ensures Refreshed(t, src, hello)[i] == RefreshedAt(t, src, hello, i)
      {
        if i > 0 {
          assert t[1..][i-1] == t[i];
          assert forall j :: 0 < j < i ==> t[j] == t[1..][j-1];
          assert IsFirstLink(t, src, i) <==> IsFirstLink(t[1..], src, i-1);
        }
      }
    }
  }

  /** The routing table of one daemon: the list read along `next`, with the methods that change it in place. */
  class RoutingTable {
    const cap: Capacity
    var entries: Table

    constructor (cap: Capacity)
      ensures entries == [] && this.cap == cap
    {
      this.cap := cap;
      entries := [];
    }

    method TailPush(e: Entry)
      modifies this
      ensures entries == if cap.Full(|old(entries)|) then old(entries) else old(entries) + [e]
      ensures cap.AtMost? && |old(entries)| == cap.size ==> entries == old(entries)
      ensures cap.Unlimited? || |old(entries)| < cap.size ==> entries == old(entries) + [e]
    {
      if !cap.Full(|entries|) {
        entries := entries + [e];
      }
    }

    method UpdateEntry(src: byte, dest: byte, hops: byte, hello: byte) returns (updated: bool)
      modifies this
      ensures entries == Updated(cap, old(entries), src, dest, hops, hello)
      ensures updated == !Known(old(entries), src, dest, hops)
      ensures !updated <==> exists i :: 0 <= i < |old(entries)| && old(entries)[i].dest == dest &&
                                        old(entries)[i].nextHop == src && old(entries)[i].hops in {hops, INFINITY}
    {
      var newEntry := Entry(dest, src, hops, hello);
      if |entries| == 0 {
        TailPush(newEntry);
        return true;
      }
      var existing := false;
      ghost var was := entries;
      var i := 0;
      while i < |entries|
        invariant 0 <= i <= |entries| == |was|
        invariant forall k :: 0 <= k < i ==> entries[k] == Touch(was[k], src, dest, hops)
        invariant forall k :: i <= k < |was| ==> entries[k] == was[k]
        invariant existing <==> Known(was[..i], src, dest, hops)
      {
        var re := entries[i];
        assert was[..i+1] == was[..i] + [was[i]];
        assert forall k :: 0 <= k < i ==> was[..i+1][k] == was[..i][k];
        assert Known(was[..i+1], src, dest, hops) <==>
               Known(was[..i], src, dest, hops) ||
               (Matches(was[i], src, dest) && (was[i].hops == hops || was[i].hops == INFINITY)) by {
          assert was[..i+1][i] == was[i];
        }
        if re.dest == dest && re.nextHop == src && re.hops == hops {
          existing := true;
        } else if re.dest == dest && re.nextHop == src && re.hops == INFINITY {
          entries := entries[i := re.(hops := hops)];
          existing := true;
        } else if re.dest == dest && re.nextHop == src && hops == INFINITY {
          entries := entries[i := re.(hops := hops)];
        }
        i := i + 1;
      }
      assert was[..i] == was;
      assert entries == Touched(was, src, dest, hops);
      if !existing {
        TailPush(newEntry);
        return true;
      }
      return false;
    }

    method UpdateTable(signed: bool, payload: seq<byte>, self: byte, hello: byte) returns (updated: bool)
      requires Readable(payload)
      modifies this
      ensures entries == Merged(cap, signed, old(entries), self, payload[3], Decode(payload), hello)
      ensures updated == MergeLearns(cap, signed, old(entries), self, payload[3], Decode(payload), hello)
    {
      updated := false;
      var size := payload[4];
      ghost var was, trs := entries, Decode(payload);
      var i := 0;
      while i < size
        invariant 0 <= i <= size
        invariant entries == Merged(cap, signed, was, self, payload[3], trs[..i], hello)
        invariant updated == MergeLearns(cap, signed, was, self, payload[3], trs[..i], hello)
      {
        assert trs[..i+1][..i] == trs[..i];
        if CharValue(signed, payload[i * 3 + 6]) != self {
          var src := payload[3];
          var dest := payload[i * 3 + 5];
          var hops := if payload[i * 3 + 7] == INFINITY then payload[i * 3 + 7] else payload[i * 3 + 7] + 1;
          var k := UpdateEntry(src, dest, hops, hello);
          if k {
            updated := true;
          }
        }
        i := i + 1;
      }
      assert trs[..i] == trs;
    }

    /** Walks the list; the result is a copy of the chosen entry. */
    method Find(req: byte) returns (hops: byte, nextHop: byte)
      ensures Lookup(entries, req).None? ==> hops == INFINITY && nextHop == NO_ROUTE
      ensures Lookup(entries, req).Some? ==>
                hops == Lookup(entries, req).value.hops && nextHop == Lookup(entries, req).value.nextHop
    {
      hops, nextHop := INFINITY, 0;
      var i := 0;
      while i < |entries|
        invariant 0 <= i <= |entries|
        invariant Lookup(entries[..i], req).None? <==> hops == INFINITY
        invariant Lookup(entries[..i], req).Some? ==>
                    && hops == Lookup(entries[..i], req).value.hops
                    && nextHop == Lookup(entries[..i], req).value.nextHop
      {
        assert entries[..i+1][..i] == entries[..i];
        var re := entries[i];
        if re.dest == req && re.hops != INFINITY {
          if re.hops < hops {
            hops, nextHop := re.hops, re.nextHop;
          }
        }
        i := i + 1;
      }
      assert entries[..i] == entries;
      if hops == INFINITY {
        nextHop := NO_ROUTE;
      }
    }

    method UpdateHelloCount(src: byte, hello: byte)
      modifies this
      ensures entries == Refreshed(old(entries), src, hello)
    {
      ghost var was := entries;
      RefreshedFirstOnly(was, src, hello);
      var i := 0;
      while i < |entries|
        invariant 0 <= i <= |entries|
        invariant entries == was
        invariant forall k :: 0 <= k < i ==> !IsLinkTo(was[k], src)
      {
        if entries[i].hops == 1 && entries[i].dest == src {
          entries := entries[i := entries[i].(helloCount := hello)];
          assert entries == Refreshed(was, src, hello);
          return;
        }
        i := i + 1;
      }
      assert entries == Refreshed(was, src, hello);
    }
  }
}
