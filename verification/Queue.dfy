/** The linked queue of source/queue.c. Its two users keep to two disciplines, and each needs its own reading:
    tail pushes never set `prev`, so what the routing table builds is a list only along `next`; head pushes never
    set `next`, so what the packet buffer builds is a list only along `prev`. */
module Queue {
  import opened Bytes

  class Entry<T> {
    var next: Entry?<T>
    var prev: Entry?<T>
    const data: T

    constructor (data: T)
      ensures next == null && prev == null && this.data == data
    {
      this.data := data;
      next, prev := null, null;
    }
  }

  function Data<T>(spine: seq<Entry<T>>): (s: seq<T>)
    ensures |s| == |spine|
  {
    seq(|spine|, i requires 0 <= i < |spine| => spine[i].data)
  }

  /** The entry after number i, if any. */
  function Successor<T>(spine: seq<Entry<T>>, i: nat): Entry?<T> {
    if i + 1 < |spine| then spine[i+1] else null
  }

  class Queue<T> {
    var head: Entry?<T>
    var tail: Entry?<T>
    var length: nat
    ghost var spine: seq<Entry<T>>        // the entries, oldest first

    /** The data, oldest first. */
    ghost function Contents(): seq<T>
      reads this
    {
      Data(spine)
    }

    ghost predicate Sized()
      reads this
    {
      && length == |spine| <= MAX_QUEUE_SIZE
      && (forall i, j :: 0 <= i < j < |spine| ==> spine[i] != spine[j])
    }

    /** Oldest entry at the head, newer ones along `next`, newest at the tail. */
    ghost predicate ForwardValid()
      reads this, spine
    {
      && Sized()
      && (if spine == [] then head == tail == null else head == spine[0] && tail == spine[|spine|-1])
      && (forall i :: 0 <= i < |spine| ==> spine[i].prev == null)
      && (forall i :: 0 <= i < |spine| ==> spine[i].next == Successor(spine, i))
    }

    /** Oldest entry at the tail, newer ones along `prev`, newest at the head. */
    ghost predicate BackwardValid()
      reads this, spine
    {
      && Sized()
      && (if spine == [] then head == tail == null else tail == spine[0] && head == spine[|spine|-1])
      && (forall i :: 0 <= i < |spine| ==> spine[i].next == null)
      && (forall i :: 0 <= i < |spine| ==> spine[i].prev == Successor(spine, i))
    }

    constructor ()
      ensures ForwardValid() && BackwardValid() && Contents() == [] && fresh(spine)
    {
      head, tail, length, spine := null, null, 0, [];
    }

    predicate IsFull()
      reads this
    {
      length == MAX_QUEUE_SIZE
    }

    method TailPush(x: T) returns (ok: bool)
      requires ForwardValid()
      modifies this, spine
      ensures ForwardValid() && fresh(set e | e in spine && e !in old(spine))
      ensures ok == (|old(Contents())| < 16)
      ensures Contents() == if ok then old(Contents()) + [x] else old(Contents())
      ensures !ok ==> unchanged(this) && forall e :: e in spine ==> unchanged(e)
    {
      if IsFull() {
        return false;
      }
      var entry := new Entry<T>(x);
      ghost var n := |spine|;
      assert n > 0 ==> spine[n-1].next == Successor(spine, n - 1) == null;
      if tail == null {
        head, tail := entry, entry;
      } else {
        tail.next := entry;
        tail := entry;
      }
      length := length + 1;
      assert Data(spine + [entry]) == Data(spine) + [x];
      spine := spine + [entry];
      ok := true;
    }

    method HeadPush(x: T) returns (ok: bool)
      requires BackwardValid()
      modifies this, spine
      ensures BackwardValid() && fresh(set e | e in spine && e !in old(spine))
      ensures ok == (|old(Contents())| < 16)
      ensures Contents() == if ok then old(Contents()) + [x] else old(Contents())
      ensures !ok ==> unchanged(this) && forall e :: e in spine ==> unchanged(e)
    {
      if IsFull() {
        return false;
      }
      var entry := new Entry<T>(x);
      if head == null {
        head, tail := entry, entry;
      } else {
        head.prev := entry;
        head := entry;
      }
      length := length + 1;
      assert Data(spine + [entry]) == Data(spine) + [x];
      spine := spine + [entry];
      ok := true;
    }

    /** Serves both readings: the oldest entry of a forward queue, or the only entry of a backward one. On a backward
        queue of two or more it would cut the tail off, which is why `queue_flush` suits forward queues only. */
    method HeadPop()
      requires ForwardValid() || BackwardValid()
      modifies this, spine
      ensures old(spine) == [] ==> unchanged(this)
      ensures old(ForwardValid()) && old(spine) != [] ==>
                ForwardValid() && spine == old(spine)[1..] && Contents() == old(Contents())[1..]
      ensures old(BackwardValid()) && |old(spine)| == 1 ==> BackwardValid() && spine == []
      ensures old(BackwardValid()) && |old(spine)| > 1 ==> head == tail == null && length == |old(spine)| - 1 > 0
    {
      if length == 0 {
        return;
      }
      assert spine[0] in spine && spine[|spine|-1] in spine;
      assert ForwardValid() ==> spine[0].next == Successor(spine, 0);
      assert Data(spine[1..]) == Data(spine)[1..];
      var entry := head;
      head := entry.next;
      if head == null {
        tail := null;
      } else {
        head.prev := null;
      }
      length := length - 1;
      spine := spine[1..];
    }

    method TailPop()
      requires BackwardValid()
      modifies this, spine
      ensures BackwardValid()
      ensures spine == if old(spine) == [] then [] else old(spine)[1..]
      ensures Contents() == if old(Contents()) == [] then [] else old(Contents())[1..]
    {
      if length == 0 {
        return;
      }
      assert spine[0].prev == Successor(spine, 0);
      assert Data(spine[1..]) == Data(spine)[1..];
      var entry := tail;
      tail := entry.prev;
      if tail == null {
        head := null;
      } else {
        tail.next := null;
      }
      length := length - 1;
      spine := spine[1..];
    }

    /** `queue_entry_destroy` as the packet buffer uses it: on the tail, which is also the head when it is alone. */
    method DestroyTail()
      requires BackwardValid() && tail != null
      modifies this, spine
      ensures BackwardValid()
      ensures spine == old(spine)[1..] && Contents() == old(Contents())[1..]
    {
      if tail == head {
        assert |spine| == 1;
        HeadPop();
      } else {
        TailPop();
      }
    }

    /** Reads entry number k of a forward queue by walking `next`, as every table loop does. */
    method Walk(k: nat) returns (x: T)
      requires ForwardValid() && k < |spine|
      ensures x == Contents()[k]
    {
      var qe := head;
      var i := 0;
      while i < k
        invariant 0 <= i <= k && qe == spine[i]
      {
        qe := qe.next;
        i := i + 1;
      }
      x := qe.data;
    }

    method Flush()
      requires ForwardValid()
      modifies this, spine
      ensures ForwardValid() && Contents() == [] && head == tail == null
    {
      while length != 0
        invariant ForwardValid()
        invariant length <= |old(spine)| && spine == old(spine)[|old(spine)| - length..]
        decreases length
      {
        assert forall i :: 0 <= i < |spine| ==> spine[i] in old(spine);
        HeadPop();
      }
    }
  }
}
