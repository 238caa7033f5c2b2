/** Update packets as bytes: the buffer of `send_update` and its poison loop. */
module Wire {
  import opened Bytes
  import opened Tables
  import opened Advertising

  // ---- the buffer ----

  /** Offset of record j behind the header of UPD_SIZE bytes. */
  function At(j: nat): nat {
    UPD_SIZE + 3 * j
  }

  ghost predicate ShowsAt(buf: seq<byte>, j: nat, tr: Triple) {
    At(j) + 3 <= |buf| && buf[At(j)] == tr.dest && buf[At(j)+1] == tr.nextHop && buf[At(j)+2] == tr.hops
  }

  /** The records after the header hold trs, in order. */
  ghost predicate Shows(buf: seq<byte>, trs: seq<Triple>) {
    At(|trs|) <= |buf| && forall j :: 0 <= j < |trs| ==> ShowsAt(buf, j, trs[j])
  }

  /** An update of `self` whatever its target (byte 0) and time to live (byte 1). */
  ghost predicate IsUpdate(buf: seq<byte>, self: byte, trs: seq<Triple>) {
    && Shows(buf, trs)
    && buf[2] == U && buf[3] == P && buf[4] == D && buf[5] == self && buf[6] as int == |trs|
  }

  function HeaderByte(self: byte, count: byte, k: nat): byte {
    if k == 2 then U else if k == 3 then P else if k == 4 then D
    else if k == 5 then self else if k == 6 then count else 0
  }

  function RecordByte(trs: seq<Triple>, k: nat): byte {
    if k / 3 >= |trs| then 0
    else if k % 3 == 0 then trs[k/3].dest
    else if k % 3 == 1 then trs[k/3].nextHop
    else trs[k/3].hops
  }

  /** Header with the given count byte, the records of trs, and zeros up to n records. */
  function Layout(self: byte, count: byte, trs: seq<Triple>, n: nat): (buf: seq<byte>)
    ensures |buf| == At(n)
  {
    seq(At(n), k requires 0 <= k < At(n) => if k < 7 then HeaderByte(self, count, k) else RecordByte(trs, k - 7))
  }

  /** The number of triples is truncated to the count byte. */
  function UpdateBuffer(self: byte, trs: seq<Triple>, n: nat): (buf: seq<byte>)
    ensures |buf| == At(n)
  {
    Layout(self, |trs| % 256, trs, n)
  }

  function Nth(trs: seq<Triple>, j: nat): Triple {
    if j < |trs| then trs[j] else Triple(0, 0, 0)
  }

  /** Every one of the n records is that of trs, or zero. */
  ghost predicate Laid(buf: seq<byte>, trs: seq<Triple>, n: nat) {
    |buf| == At(n) && |trs| <= n && forall j :: 0 <= j < n ==> ShowsAt(buf, j, Nth(trs, j))
  }

  lemma LayoutIsLaid(self: byte, count: byte, trs: seq<Triple>, n: nat)
    requires |trs| <= n
    ensures Laid(Layout(self, count, trs, n), trs, n)
    ensures Shows(Layout(self, count, trs, n), trs)
  {
    var buf := Layout(self, count, trs, n);
    forall j | 0 <= j < n
      ensures ShowsAt(buf, j, Nth(trs, j))
    {
      assert At(j) - 7 == 3 * j;
      assert (3 * j) / 3 == (3 * j + 1) / 3 == (3 * j + 2) / 3 == j;
      assert buf[At(j)] == RecordByte(trs, 3 * j);
      assert buf[At(j)+1] == RecordByte(trs, 3 * j + 1);
      assert buf[At(j)+2] == RecordByte(trs, 3 * j + 2);
    }
    forall j | 0 <= j < |trs| ensures ShowsAt(buf, j, trs[j]) {
      assert Nth(trs, j) == trs[j];
    }
  }

  /** A buffer is laid out once its header and every record are right. */
  lemma LayoutDetermined(buf: seq<byte>, self: byte, count: byte, trs: seq<Triple>, n: nat)
    requires Laid(buf, trs, n)
    requires forall k :: 0 <= k < 7 ==> buf[k] == HeaderByte(self, count, k)
    ensures buf == Layout(self, count, trs, n)
  {
    LayoutIsLaid(self, count, trs, n);
    var l := Layout(self, count, trs, n);
    forall k | 0 <= k < |buf| ensures buf[k] == l[k] {
      if k >= 7 {
        var j := (k - 7) / 3;
        assert k == At(j) || k == At(j) + 1 || k == At(j) + 2;
        assert ShowsAt(buf, j, Nth(trs, j)) && ShowsAt(l, j, Nth(trs, j));
      }
    }
  }

  /** The buffer with tr written into record j. */
  function Put(buf: seq<byte>, j: nat, tr: Triple): (r: seq<byte>)
    requires At(j) + 3 <= |buf|
    ensures |r| == |buf|
  {
    buf[At(j) := tr.dest][At(j)+1 := tr.nextHop][At(j)+2 := tr.hops]
  }

  /** Writing a record of a laid-out buffer is updating, or appending to, its list of triples. */
  lemma PutIsLayout(self: byte, trs: seq<Triple>, n: nat, j: nat, tr: Triple)
    requires j <= |trs| <= n && j < n
    ensures Put(Layout(self, 0, trs, n), j, tr) == Layout(self, 0, if j < |trs| then trs[j := tr] else trs + [tr], n)
  {
    var l, trs' := Layout(self, 0, trs, n), if j < |trs| then trs[j := tr] else trs + [tr];
    var r := Put(l, j, tr);
    LayoutIsLaid(self, 0, trs, n);
    forall k | 0 <= k < n
      ensures ShowsAt(r, k, Nth(trs', k))
    {
      if k != j {
        assert Nth(trs', k) == Nth(trs, k) && ShowsAt(l, k, Nth(trs, k));
        assert At(k) + 3 <= At(j) || At(j) + 3 <= At(k);
      }
    }
    LayoutDetermined(r, self, 0, trs', n);
  }

  // ---- collecting into the buffer ----

  /** What the scan of the buffer finds: the record of d's triple, or for d == 0 the first unused record. */
  lemma ScanFinds(signed: bool, self: byte, trs: seq<Triple>, d: byte, r: nat, n: nat)
    requires |trs| < n && r <= n
    requires forall j :: 0 <= j < |trs| ==> trs[j].dest != 0
    requires forall k :: 0 <= k < r ==> CharValue(signed, Layout(self, 0, trs, n)[At(k)]) != d
    requires r < n ==> CharValue(signed, Layout(self, 0, trs, n)[At(r)]) == d
    ensures d == 0 ==> r == |trs|
    ensures CharValue(signed, d) != d ==> r == n
    ensures d != 0 && CharValue(signed, d) == d ==> r == if IndexOf(trs, d) < |trs| then IndexOf(trs, d) else n
  {
    var buf := Layout(self, 0, trs, n);
    LayoutIsLaid(self, 0, trs, n);
    forall k | 0 <= k < n ensures buf[At(k)] == if k < |trs| then trs[k].dest else 0 {
      assert ShowsAt(buf, k, Nth(trs, k));
    }
    var f := IndexOf(trs, d);
    if d == 0 {
      assert buf[At(|trs|)] == 0;
    } else if CharValue(signed, d) == d && f < |trs| {
      assert buf[At(f)] == d;
    }
  }

  method Scan(signed: bool, buf: array<byte>, d: byte, ghost n: nat) returns (j: nat, added: bool, ghost r: nat)
    requires buf.Length == At(n)
    ensures j == At(r) && r <= n && (added <==> r < n)
    ensures forall k :: 0 <= k < r ==> CharValue(signed, buf[At(k)]) != d
    ensures added ==> CharValue(signed, buf[j]) == d
  {
    j, r := UPD_SIZE, 0;
    while j < buf.Length
      invariant j == At(r) && 0 <= r <= n
      invariant forall k :: 0 <= k < r ==> CharValue(signed, buf[At(k)]) != d
    {
      if CharValue(signed, buf[j]) == d {
        return j, true, r;
      }
      j, r := j + 3, r + 1;
    }
    added := false;
  }

  /** One turn of the collection loop on bytes. */
  method FillStep(signed: bool, buf: array<byte>, e: Entry, i: nat, ghost n: nat) returns (added: bool, ghost r: nat)
    requires buf.Length == At(n) && i < n
    modifies buf
    ensures r <= n && (added <==> r < n)
    ensures forall k :: 0 <= k < r ==> CharValue(signed, old(buf[..])[At(k)]) != e.dest
    ensures added ==> CharValue(signed, old(buf[..])[At(r)]) == e.dest
    ensures buf[..] ==
            if !added then Put(old(buf[..]), i, AsTriple(e))
            else if e.hops < CharValue(signed, old(buf[..])[At(r)+2]) then Put(old(buf[..]), r, AsTriple(e))
            else old(buf[..])
  {
    var j;
    j, added, r := Scan(signed, buf, e.dest, n);
    ghost var was := buf[..];
    if added {
      if e.hops < CharValue(signed, buf[j+2]) {
        buf[j], buf[j+1], buf[j+2] := e.dest, e.nextHop, e.hops;
        assert buf[..] == Put(was, r, AsTriple(e));
      }
    } else {
      buf[UPD_SIZE + 3 * i], buf[UPD_SIZE + 3 * i + 1], buf[UPD_SIZE + 3 * i + 2] := e.dest, e.nextHop, e.hops;
      assert buf[..] == Put(was, i, AsTriple(e));
    }
  }

  /** One turn on bytes is one turn on triples. */
  lemma FillStepCollects(signed: bool, self: byte, trs: seq<Triple>, e: Entry, r: nat, n: nat)
    requires |trs| < n && r <= n
    requires forall j :: 0 <= j < |trs| ==> trs[j].dest != 0
    requires forall k :: 0 <= k < r ==> CharValue(signed, Layout(self, 0, trs, n)[At(k)]) != e.dest
    requires r < n ==> CharValue(signed, Layout(self, 0, trs, n)[At(r)]) == e.dest
    ensures var l, trs' := Layout(self, 0, trs, n), Collected(signed, trs, e);
            && |trs'| == |trs| + (if r < n then 0 else 1)
            && Layout(self, 0, trs', n) ==
               if r == n then Put(l, |trs|, AsTriple(e))
               else if e.hops < CharValue(signed, l[At(r)+2]) then Put(l, r, AsTriple(e))
               else l
  {
    var l := Layout(self, 0, trs, n);
    ScanFinds(signed, self, trs, e.dest, r, n);
    LayoutIsLaid(self, 0, trs, n);
    if r == n {
      PutIsLayout(self, trs, n, |trs|, AsTriple(e));
    } else {
      assert ShowsAt(l, r, Nth(trs, r));
      if r < |trs| {
        PutIsLayout(self, trs, n, r, AsTriple(e));
      }
    }
  }

  lemma {:induction false} AdvertisedFits(signed: bool, t: Table)
    ensures |Advertised(signed, t)| <= |t|
    ensures forall j :: 0 <= j < |Advertised(signed, t)| ==> Advertised(signed, t)[j].dest != 0
  {
    if t == [] {
    } else {
      AdvertisedFits(signed, t[..|t|-1]);
    }
  }

  method CollectStep(
      signed: bool, buf: array<byte>, e: Entry, i: nat, ghost self: byte, ghost trs: seq<Triple>, ghost n: nat)
    returns (added: bool)
    requires i == |trs| < n && buf[..] == Layout(self, 0, trs, n)
    requires forall j :: 0 <= j < |trs| ==> trs[j].dest != 0
    modifies buf
    ensures buf[..] == Layout(self, 0, Collected(signed, trs, e), n)
    ensures |Collected(signed, trs, e)| == i + if added then 0 else 1
  {
    ghost var r;
    added, r := FillStep(signed, buf, e, i, n);
    FillStepCollects(signed, self, trs, e, r, n);
  }

  method NewBuffer(self: byte, n: nat) returns (buf: array<byte>)
    ensures fresh(buf) && buf[..] == Layout(self, 0, [], n)
  {
    buf := new byte[UPD_SIZE + 3 * n](_ => 0);
    buf[1], buf[2], buf[3], buf[4], buf[5] := 0, U, P, D, self;
    EmptyLayout(buf[..], self, n);
  }

  /** The first half of `send_update`: compress the table into the buffer. */
  method FillBuffer(signed: bool, rt: RoutingTable, self: byte) returns (buf: array<byte>, size: nat)
    requires 0 < |rt.entries|
    ensures fresh(buf)
    ensures |Advertised(signed, rt.entries)| <= |rt.entries|
    ensures size == At(|Advertised(signed, rt.entries)|)
    ensures buf[..] == UpdateBuffer(self, Advertised(signed, rt.entries), |rt.entries|)
  {
    ghost var t := rt.entries;
    var n := |rt.entries|;
    buf := NewBuffer(self, n);
    size := UPD_SIZE;

    var i, m := 0, 0;
    ghost var trs := [];
    while i < n
      invariant fresh(buf) && rt.entries == t && buf.Length == At(n)
      invariant 0 <= i <= m < n && size == At(i)
      invariant trs == Advertised(signed, t[..m]) && i == |trs|
      invariant buf[..] == Layout(self, 0, trs, n)
      decreases n - m
    {
      var e := rt.entries[m];
      AdvertisedFits(signed, t[..m]);
      assert t[..m+1][..m] == t[..m];
      var added := CollectStep(signed, buf, e, i, self, trs, n);
      trs := Collected(signed, trs, e);
      if added {
        i := i - 1;
      } else {
        size := size + 3;
      }
      m := m + 1;
      if m == n { break; }
      i := i + 1;
    }
    assert t[..n] == t;
    AdvertisedFits(signed, t);
    WriteCount(buf, size, self, trs, n);
  }

  method WriteCount(buf: array<byte>, size: nat, ghost self: byte, ghost trs: seq<Triple>, ghost n: nat)
    requires |trs| <= n && size == At(|trs|) && buf[..] == Layout(self, 0, trs, n)
    modifies buf
    ensures buf[..] == UpdateBuffer(self, trs, n)
  {
    buf[6] := (size - UPD_SIZE) / 3 % 256;
    CountFilled(buf[..], self, trs, n);
  }

  lemma EmptyLayout(buf: seq<byte>, self: byte, n: nat)
    requires |buf| == At(n)
    requires forall k :: 0 <= k < At(n) ==> buf[k] == if k < 7 then HeaderByte(self, 0, k) else 0
    ensures buf == Layout(self, 0, [], n)
  {
    var l := Layout(self, 0, [], n);
    forall k | 0 <= k < |buf| ensures buf[k] == l[k] {
      if k >= 7 {
        assert RecordByte([], k - 7) == 0;
      }
    }
  }

  lemma CountFilled(buf: seq<byte>, self: byte, trs: seq<Triple>, n: nat)
    requires |trs| <= n && |buf| == At(n)
    requires buf[6] as int == |trs| % 256
    requires forall k :: 0 <= k < At(n) && k != 6 ==> buf[k] == Layout(self, 0, trs, n)[k]
    ensures buf == UpdateBuffer(self, trs, n)
  {}

  // ---- the poison loop and the packets written ----

  /** The loop from byte j on: it compares header bytes 0..7 with the target and overwrites the byte after a match. */
  function Poisoned(buf: seq<byte>, j: nat): (r: seq<byte>)
    requires |buf| > 8 && j <= 8
    ensures |r| == |buf|
    decreases 8 - j
  {
    if j == 8 then buf
    else Poisoned(if buf[j] == buf[0] then buf[j+1 := INFINITY] else buf, j + 1)
  }

  /** The packets written for the 1-hop entries of t, in list order; the buffer is shared and never restored. */
  function Frames(buf: seq<byte>, t: Table, size: nat, last: byte): seq<seq<byte>>
    requires |buf| > 8 && size <= |buf|
    decreases |t|
  {
    if t == [] then []
    else if t[0].hops == 1 && t[0].nextHop != last then
      var b := Poisoned(buf[0 := t[0].nextHop], 0);
      [b[..size]] + Frames(b, t[1..], size, last)
    else Frames(buf, t[1..], size, last)
  }

  /** All that `send_update` writes. */
  function UpdateFrames(signed: bool, self: byte, t: Table, last: byte): seq<seq<byte>>
  {
    AdvertisedFits(signed, t);
    if t == [] then []
    else
      var trs := Advertised(signed, t);
      Frames(UpdateBuffer(self, trs, |t|), t, At(|trs|), last)
  }

  /** The body of the write loop: poison the header for this neighbour and write the packet. */
  method WriteFrame(buf: array<byte>, nextHop: byte, size: nat) returns (frame: seq<byte>)
    requires buf.Length > 8 && size <= buf.Length
    modifies buf
    ensures buf[..] == Poisoned(old(buf[..])[0 := nextHop], 0)
    ensures frame == buf[..size]
  {
    ghost var before := buf[..];
    buf[0] := nextHop;
    assert buf[..] == before[0 := nextHop];
    var j := 0;
    while j < UPD_SIZE + 1
      invariant 0 <= j <= 8
      invariant Poisoned(buf[..], j) == Poisoned(before[0 := nextHop], 0)
    {
      ghost var b := buf[..];
      if buf[j] == buf[0] {
        buf[j+1] := INFINITY;
        assert buf[..] == b[j+1 := INFINITY];
      }
      j := j + 1;
    }
    frame := buf[..size];
  }

  method SendUpdate(signed: bool, rt: RoutingTable, last: byte, self: byte) returns (frames: seq<seq<byte>>)
    ensures frames == UpdateFrames(signed, self, rt.entries, last)
  {
    frames := [];
    if |rt.entries| == 0 {
      return;
    }
    ghost var t := rt.entries;
    var n := |rt.entries|;
    var buf, size := FillBuffer(signed, rt, self);
    assert t[0..] == t;
    var m := 0;
    while m < n
      invariant 0 <= m <= n && rt.entries == t && buf.Length == At(n)
      invariant frames + Frames(buf[..], t[m..], size, last) == UpdateFrames(signed, self, t, last)
    {
      var e := rt.entries[m];
      assert t[m..][1..] == t[m+1..];
      if e.hops == 1 && e.nextHop != last {
        ghost var rest := Frames(buf[..], t[m..], size, last);
        var frame := WriteFrame(buf, e.nextHop, size);
        assert rest == [frame] + Frames(buf[..], t[m+1..], size, last);
        frames := frames + [frame];
      }
      m := m + 1;
    }
  }
}
