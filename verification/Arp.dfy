/** The ARP table of source/mip_arp.c: an array of MAX_TABLE_SIZE slots, used up to the first empty one. */
module Arp {
  import opened Bytes

  class ArpEntry {
    const mipAddress: byte
    const destMac: seq<byte>
    const interface: seq<byte>
    const ifindex: int

    constructor (mipAddress: byte, destMac: seq<byte>, interface: seq<byte>, ifindex: int)
      ensures this.mipAddress == mipAddress && this.destMac == destMac
      ensures this.interface == interface && this.ifindex == ifindex
    {
      this.mipAddress, this.destMac, this.interface, this.ifindex := mipAddress, destMac, interface, ifindex;
    }
  }

  /** Number of slots before the first empty one. */
  function Used(slots: seq<ArpEntry?>): (n: nat)
    ensures n <= |slots|
    ensures forall i :: 0 <= i < n ==> slots[i] != null
    ensures n < |slots| ==> slots[n] == null
  {
    if slots == [] || slots[0] == null then 0 else 1 + Used(slots[1..])
  }

  ghost predicate IsPrefix(slots: seq<ArpEntry?>) {
    forall i :: Used(slots) <= i < |slots| ==> slots[i] == null
  }

  lemma UsedIs(slots: seq<ArpEntry?>, n: nat)
    requires n <= |slots| && forall i :: 0 <= i < n ==> slots[i] != null
    requires n < |slots| ==> slots[n] == null
    ensures Used(slots) == n
  {}

  function Find(s: seq<ArpEntry?>, a: byte): Option<ArpEntry>
    requires forall i :: 0 <= i < |s| ==> s[i] != null
  {
    if s == [] then None else if s[0].mipAddress == a then Some(s[0]) else Find(s[1..], a)
  }

  /** Position of the first entry for address a, or |s|. */
  function IndexOf(s: seq<ArpEntry?>, a: byte): (i: nat)
    requires forall i :: 0 <= i < |s| ==> s[i] != null
    ensures i <= |s|
    ensures i < |s| ==> s[i].mipAddress == a && Find(s, a) == Some(s[i])
    ensures i == |s| ==> Find(s, a) == None
    ensures forall j :: 0 <= j < i ==> s[j].mipAddress != a
  {
    if s == [] then 0 else if s[0].mipAddress == a then 0 else 1 + IndexOf(s[1..], a)
  }

  lemma FindIs(s: seq<ArpEntry?>, a: byte, i: nat)
    requires forall k :: 0 <= k < |s| ==> s[k] != null
    requires i <= |s| && (i < |s| ==> s[i].mipAddress == a) && forall j :: 0 <= j < i ==> s[j].mipAddress != a
    ensures Find(s, a) == if i < |s| then Some(s[i]) else None
  {
    var j := IndexOf(s, a);
  }

  /** Adding at the end never changes the answer for an address already found. */
  lemma AddingKeepsAnswers(s: seq<ArpEntry?>, e: ArpEntry, a: byte)
    requires forall k :: 0 <= k < |s| ==> s[k] != null
    ensures Find(s + [e], a) ==
            if Find(s, a).Some? then Find(s, a) else if e.mipAddress == a then Some(e) else None
  {
    var i := IndexOf(s, a);
    if i < |s| || e.mipAddress == a {
      FindIs(s + [e], a, i);
    } else {
      FindIs(s + [e], a, i + 1);
    }
  }

  ghost predicate IsFirst(s: seq<ArpEntry?>, k: nat, e: ArpEntry?) {
    k < |s| && s[k] == e && e !in s[..k]
  }

  function Without(s: seq<ArpEntry?>, k: nat): seq<ArpEntry?>
    requires k < |s|
  {
    s[..k] + s[k+1..]
  }

  /** Removing entry number k changes the answer only for the address it was the answer for. */
  lemma RemovingKeepsOtherAnswers(s: seq<ArpEntry?>, k: nat, a: byte)
    requires (forall i :: 0 <= i < |s| ==> s[i] != null) && k < |s|
    ensures IndexOf(s, a) != k ==> Find(Without(s, k), a) == Find(s, a)
    ensures IndexOf(s, a) == k ==> Find(Without(s, k), a) == Find(s[k+1..], a)
  {
    var r := Without(s, k);
    var i := IndexOf(s, a);
    if i < k {
      FindIs(r, a, i);
    } else if i > k {
      FindIs(r, a, i - 1);
    } else {
      var j := IndexOf(s[k+1..], a);
      FindIs(r, a, k + j);
    }
  }

  class ArpTable {
    const entries: array<ArpEntry?>

    ghost predicate Valid()
      reads this, entries
    {
      entries.Length == MAX_TABLE_SIZE && IsPrefix(entries[..])
    }

    /** The entries in use, in order. */
    ghost function Contents(): (s: seq<ArpEntry?>)
      reads this, entries
      ensures forall i :: 0 <= i < |s| ==> s[i] != null
    {
      entries[..Used(entries[..])]
    }

    constructor ()
      ensures Valid() && Contents() == [] && fresh(entries)
    {
      entries := new ArpEntry?[MAX_TABLE_SIZE](_ => null);
    }

    method AddEntry(mipAddress: byte, mac: seq<byte>, interface: seq<byte>, ifindex: int) returns (r: ArpEntry?)
      requires Valid()
      modifies entries
      ensures Valid()
      ensures r == null <==> |old(Contents())| == MAX_TABLE_SIZE
      ensures r == null ==> Contents() == old(Contents())
      ensures r != null ==> fresh(r) && Contents() == old(Contents()) + [r]
      ensures r != null ==>
                r.mipAddress == mipAddress && r.destMac == mac && r.interface == interface && r.ifindex == ifindex
    {
      var newEntry := new ArpEntry(mipAddress, mac, interface, ifindex);
      ghost var was := entries[..];
      var i := 0;
      while i < MAX_TABLE_SIZE
        invariant 0 <= i <= MAX_TABLE_SIZE && entries[..] == was
        invariant forall j :: 0 <= j < i ==> was[j] != null
      {
        if entries[i] == null {
          UsedIs(was, i);
          entries[i] := newEntry;
          UsedIs(entries[..], i + 1);
          assert entries[..i+1] == was[..i] + [newEntry];
          return newEntry;
        }
        i := i + 1;
      }
      UsedIs(was, i);
      r := null;
    }

    method GetByMipAddress(a: byte) returns (found: bool, e: ArpEntry?)
      requires Valid()
      ensures found <==> Find(Contents(), a).Some?
      ensures found ==> Find(Contents(), a) == Some(e)
    {
      var i := 0;
      while i < MAX_TABLE_SIZE && entries[i] != null
        invariant 0 <= i <= |Contents()|
        invariant forall j :: 0 <= j < i ==> Contents()[j].mipAddress != a
      {
        if entries[i].mipAddress == a {
          FindIs(Contents(), a, i);
          return true, entries[i];
        }
        i := i + 1;
      }
      FindIs(Contents(), a, i);
      return false, null;
    }

    method GetByIfindex(ifindex: int) returns (found: bool, e: ArpEntry?)
      requires Valid()
      ensures found ==> exists i :: 0 <= i < |Contents()| && Contents()[i] == e && Contents()[i].ifindex == ifindex &&
                                    forall j :: 0 <= j < i ==> Contents()[j].ifindex != ifindex
      ensures !found ==> forall i :: 0 <= i < |Contents()| ==> Contents()[i].ifindex != ifindex
    {
      var i := 0;
      while i < MAX_TABLE_SIZE && entries[i] != null
        invariant 0 <= i <= |Contents()|
        invariant forall j :: 0 <= j < i ==> Contents()[j].ifindex != ifindex
      {
        if entries[i].ifindex == ifindex {
          assert Contents()[i] == entries[i];
          return true, entries[i];
        }
        i := i + 1;
      }
      return false, null;
    }

    /** Removal by identity. The shifting loop stops at an empty slot, so an entry of a full table may not be
        removed: the loop would run off the array. */
    method RemoveEntry(entry: ArpEntry?) returns (rc: int)
      requires Valid()
      requires |Contents()| < MAX_TABLE_SIZE || entry !in Contents()
      modifies entries
      ensures Valid()
      ensures rc == -1 <==> entry !in old(Contents())
      ensures rc == -1 ==> Contents() == old(Contents())
      ensures rc != -1 ==>
                rc == 0 && exists k :: IsFirst(old(Contents()), k, entry) && Contents() == Without(old(Contents()), k)
    {
      ghost var was, n := entries[..], Used(entries[..]);
      var i := 0;
      var e: ArpEntry? := null;
      while i < MAX_TABLE_SIZE && entries[i] != null
        invariant 0 <= i <= n && entries[..] == was
        invariant forall j :: 0 <= j < i ==> was[j] != entry
      {
        if entries[i] == entry {
          e := entries[i];
          assert was[i] == was[..n][i];
          Shift(i, n);
          UsedIs(entries[..], n - 1);
          assert entries[..n-1] == was[..i] + was[i+1..n];
          assert Without(was[..n], i) == was[..i] + was[i+1..n];
          assert IsFirst(was[..n], i, entry);
          return 0;
        }
        i := i + 1;
      }
      assert i == n;
      rc := -1;
    }

    method Shift(k: nat, ghost n: nat)
      requires Valid() && n == Used(entries[..]) && k < n < MAX_TABLE_SIZE
      modifies entries
      ensures forall j :: 0 <= j < k ==> entries[j] == old(entries[j])
      ensures forall j :: k <= j < n - 1 ==> entries[j] == old(entries[j+1])
      ensures forall j :: n - 1 <= j < MAX_TABLE_SIZE ==> entries[j] == null
    {
      var i := k;
      while entries[i] != null
        invariant k <= i <= n
        invariant forall j :: 0 <= j < k ==> entries[j] == old(entries[j])
        invariant forall j :: k <= j < i ==> entries[j] == old(entries[j+1])
        invariant forall j :: i <= j < MAX_TABLE_SIZE ==> entries[j] == old(entries[j])
        decreases n - i
      {
        entries[i] := entries[i+1];
        i := i + 1;
      }
    }
  }
}
