/**
 * `SCQueue` of c++-reference/include/LSCQueue.hpp: a bounded queue of item
 * pointers over two SCQ index rings of order `order` and an array `val` of
 * half = 2^order cells. `aq` holds, in queue order, the indices of the
 * cells that hold queued items; `fq` holds the free indices. An enqueue
 * takes a free index, stores the item in its cell and publishes the index
 * in `aq`; a dequeue takes the oldest index from `aq`, reads its cell and
 * gives the index back to `fq`.
 *
 * A `T*` is an `Option<T>`: `None` is a null pointer.
 */
module Lscq {
  import opened Wrappers
  import opened Bits
  import opened Lfring
  import opened LfringRing

  // ---------------------------------------------------------------------
  // `intLog2`.

  /** The number of halvings that take v down to 1: floor(log2 v), and 0 for v <= 1. */
  function Log2(v: nat): nat
  {
    if v <= 1 then 0 else 1 + Log2(v / 2)
  }

  /** `Log2` is the floor of the binary logarithm. */
  lemma {:induction false} Log2Bounds(v: nat)
    requires v >= 1
    ensures Pow(Log2(v)) <= v < Pow(Log2(v) + 1)
  {
    if v > 1 {
      Log2Bounds(v / 2);
    }
  }

  /** `intLog2(v)`: shift v right until it is zero, counting the shifts that left it nonzero. */
  method IntLog2(v0: nat) returns (r: nat)
    ensures r == Log2(v0)
  {
    r := 0;
    var v: nat := v0 / 2;
    while v != 0
      invariant v == 0 ==> r == Log2(v0)
      invariant v != 0 ==> Log2(v0) == r + 1 + Log2(v)
      decreases v
    {
      r := r + 1;
      v := v / 2;
    }
  }

  // ---------------------------------------------------------------------
  // The two rings split the indices.

  predicate Distinct(s: seq<nat>)
  {
    forall i, j :: 0 <= i < j < |s| ==> s[i] != s[j]
  }

  /**
   * The queued indices `a` and the free indices `f` together list every
   * index below half exactly once.
   */
  predicate Partition(a: seq<nat>, f: seq<nat>, half: nat)
  {
    && |a| + |f| == half
    && Distinct(a + f)
    && (forall x :: x in a + f ==> x < half)
    && (forall i: nat :: i < half ==> i in a + f)
  }

  /** Every index below half is in exactly one of the two rings, once; no other index is in either. */
  lemma ExactlyOne(a: seq<nat>, f: seq<nat>, half: nat, i: nat)
    requires Partition(a, f, half)
    ensures i < half <==> (i in a || i in f)
    ensures !(i in a && i in f)
    ensures multiset(a)[i] + multiset(f)[i] == (if i < half then 1 else 0)
  {
    var s := a + f;
    assert multiset(s) == multiset(a) + multiset(f);
    if i in s {
      var j :| 0 <= j < |s| && s[j] == i;
      Once(s, j);
    } else {
      assert multiset(s)[i] == 0;
    }
  }

  /** An element of a sequence without repeats occurs once. */
  lemma {:induction false} Once(s: seq<nat>, j: nat)
    requires Distinct(s) && j < |s|
    ensures multiset(s)[s[j]] == 1
  {
    if j == 0 {
      assert s == [s[0]] + s[1..];
      assert s[0] !in s[1..];
    } else {
      var t := s[1..];
      assert s == [s[0]] + t;
      assert Distinct(t) by {
        forall i, k | 0 <= i < k < |t|
          ensures t[i] != t[k]
        {
          assert t[i] == s[i + 1] && t[k] == s[k + 1];
        }
      }
      Once(t, j - 1);
      assert t[j - 1] == s[j] && s[0] != s[j];
    }
  }

  /** Position in x + [e] + y of the element at position k of x + y + [e]. */
  function From(k: nat, lx: nat, ly: nat): nat
  {
    if k < lx then k else if k < lx + ly then k + 1 else lx
  }

  /** Moving one element to the end keeps the elements and their distinctness. */
  lemma MoveBack(x: seq<nat>, e: nat, y: seq<nat>)
    requires Distinct(x + [e] + y)
    ensures Distinct(x + y + [e])
    ensures forall v :: v in x + y + [e] <==> v in x + [e] + y
  {
    var s := x + [e] + y;
    var t := x + y + [e];
    forall i, j | 0 <= i < j < |t|
      ensures t[i] != t[j]
    {
      var mi := From(i, |x|, |y|);
      var mj := From(j, |x|, |y|);
      assert t[i] == s[mi] && t[j] == s[mj];
      if mi < mj {
        assert s[mi] != s[mj];
      } else {
        assert s[mj] != s[mi];
      }
    }
    assert multiset(t) == multiset(s);
    forall v
      ensures v in t <==> v in s
    {
      assert v in t <==> v in multiset(t);
      assert v in s <==> v in multiset(s);
    }
  }

  /** A queued index is never free. */
  lemma Disjoint(a: seq<nat>, f: seq<nat>, half: nat, i: nat, j: nat)
    requires Partition(a, f, half) && i < |a| && j < |f|
    ensures a[i] != f[j]
  {
    assert (a + f)[i] == a[i] && (a + f)[|a| + j] == f[j];
  }

  /** The queued indices alone are distinct. */
  lemma QueuedDistinct(a: seq<nat>, f: seq<nat>, half: nat)
    requires Partition(a, f, half)
    ensures Distinct(a) && forall x :: x in a ==> x < half
  {
    forall i, j | 0 <= i < j < |a|
      ensures a[i] != a[j]
    {
      assert (a + f)[i] == a[i] && (a + f)[j] == a[j];
    }
    forall x | x in a
      ensures x < half
    {
      assert x in a + f;
    }
  }

  /** Publishing the first free index. */
  lemma PartitionPublish(a: seq<nat>, f: seq<nat>, half: nat)
    requires Partition(a, f, half) && |f| > 0
    ensures Partition(a + [f[0]], f[1..], half)
  {
    assert (a + [f[0]]) + f[1..] == a + f;
  }

  /** Putting the first free index back at the end of the free ring. */
  lemma PartitionRefuse(a: seq<nat>, f: seq<nat>, half: nat)
    requires Partition(a, f, half) && |f| > 0
    ensures Partition(a, f[1..] + [f[0]], half)
  {
    assert a + f == a + [f[0]] + f[1..];
    MoveBack(a, f[0], f[1..]);
    assert a + (f[1..] + [f[0]]) == a + f[1..] + [f[0]];
  }

  /** Giving the oldest queued index back to the free ring. */
  lemma PartitionFree(a: seq<nat>, f: seq<nat>, half: nat)
    requires Partition(a, f, half) && |a| > 0
    ensures Partition(a[1..], f + [a[0]], half)
  {
    assert a + f == [] + [a[0]] + (a[1..] + f);
    MoveBack([], a[0], a[1..] + f);
    assert a[1..] + (f + [a[0]]) == [] + (a[1..] + f) + [a[0]];
  }

  /** `lfring_init_full` puts every index below half into the free ring once. */
  lemma FullPartition(order: nat, minOrder: nat, w: nat)
    requires Shape(order, minOrder, w)
    ensures Partition([], FullState(order, minOrder, w).q, Pow(order))
  {
    var f := FullState(order, minOrder, w).q;
    assert [] + f == f;
    FullDistinct(order, minOrder, w);
    FullCovers(order, minOrder, w);
  }

  lemma FullDistinct(order: nat, minOrder: nat, w: nat)
    requires Shape(order, minOrder, w)
    ensures Distinct(FullState(order, minOrder, w).q)
  {
    var f := FullState(order, minOrder, w).q;
    forall i, j | 0 <= i < j < |f|
      ensures f[i] != f[j]
    {
      LowSmall(i, order);
      LowSmall(j, order);
      RawMapInjective(i, j, order, minOrder, w);
    }
  }

  lemma FullCovers(order: nat, minOrder: nat, w: nat)
    requires Shape(order, minOrder, w)
    ensures forall x :: x in FullState(order, minOrder, w).q ==> x < Pow(order)
    ensures forall i: nat :: i < Pow(order) ==> i in FullState(order, minOrder, w).q
  {
    var f := FullState(order, minOrder, w).q;
    forall x | x in f
      ensures x < Pow(order)
    {
      var i :| 0 <= i < |f| && f[i] == x;
      RawMapRange(i, order, minOrder, w);
    }
    forall i: nat | i < Pow(order)
      ensures i in f
    {
      RawMapOnto(i, order, minOrder, w);
      assert f[Unrotate(i, order, minOrder)] == i;
    }
  }

  /** The cells of the queued indices `a` hold the queued items `c`, in order. */
  ghost predicate Cells<T>(a: seq<nat>, cells: seq<Option<T>>, c: seq<Option<T>>)
  {
    && |c| == |a|
    && forall i :: 0 <= i < |a| ==> a[i] < |cells| && cells[a[i]] == c[i]
  }

  /** Storing an item in a cell that is not queued and publishing its index appends the item. */
  lemma CellsPublish<T>(a: seq<nat>, cells: seq<Option<T>>, c: seq<Option<T>>, e: nat, x: Option<T>)
    requires Cells(a, cells, c) && e < |cells| && e !in a
    ensures Cells(a + [e], cells[e := x], c + [x])
  {
    forall i | 0 <= i < |a|
      ensures a[i] != e
    {
      assert a[i] in a;
    }
  }

  /** Storing an item in a cell that is not queued changes no queued item. */
  lemma CellsStore<T>(a: seq<nat>, cells: seq<Option<T>>, c: seq<Option<T>>, e: nat, x: Option<T>)
    requires Cells(a, cells, c) && e < |cells| && e !in a
    ensures Cells(a, cells[e := x], c)
  {
    forall i | 0 <= i < |a|
      ensures a[i] != e
    {
      assert a[i] in a;
    }
  }

  /** Taking the oldest queued index takes the oldest item, which its cell holds. */
  lemma CellsTake<T>(a: seq<nat>, cells: seq<Option<T>>, c: seq<Option<T>>)
    requires Cells(a, cells, c) && |a| > 0
    ensures a[0] < |cells| && cells[a[0]] == c[0] && Cells(a[1..], cells, c[1..])
  {
    assert forall i :: 0 <= i < |a| - 1 ==> a[1..][i] == a[i + 1] && c[1..][i] == c[i + 1];
  }

  // ---------------------------------------------------------------------
  // The ring calls `SCQueue` makes, all with `nonempty = false`.

  /**
   * `lfring_dequeue(ring, order, false)` on a live ring: the oldest index,
   * or EMPTY when there is none. A closed ring that the dequeue reopens
   * (`Reopens`) comes out open with head and tail at the old tail.
   */
  method TakeIndex(r: Ring) returns (e: nat)
    requires r.Valid() && Live(r.State()) && r.tail + 1 < Limit(r.w) && r.head + 1 < Limit(r.w)
    modifies r, r.slots
    ensures r.Valid() && Live(r.State()) && r.tail <= old(r.tail) + 1
    ensures r.closed == (old(r.closed) && !Reopens(old(r.State())))
    ensures Reopens(old(r.State())) ==> r.head == old(r.tail) && r.tail == old(r.tail)
    ensures old(|r.q|) > 0 ==> e == old(r.q[0]) && r.q == old(r.q[1..])
    ensures old(|r.q|) == 0 ==> e == Empty(r.w) && r.q == []
  {
    DequeueSpec(r.State(), r.order, false, r.w, AsWritten);
    e := r.Dequeue(false);
  }

  /** `lfring_enqueue(ring, order, e, false)`: a closed ring refuses; an open one appends `e` and is live. */
  method PutIndex(r: Ring, e: nat) returns (ok: bool)
    requires r.Valid() && Live(r.State()) && r.tail + 1 < Limit(r.w)
    requires e < Pow(r.order + 1) && (!r.closed ==> |r.q| < Pow(r.order + 1))
    modifies r, r.slots
    ensures r.Valid() && Live(r.State()) && r.closed == old(r.closed) && r.tail == old(r.tail) + 1
    ensures ok == !r.closed && r.q == if ok then old(r.q) + [e] else old(r.q)
  {
    EnqueueSpec(r.State(), r.order, e, false);
    ok := r.Enqueue(e, false);
  }

  // ---------------------------------------------------------------------
  // The queue.

  class SCQueue<T> {
    /** `SCQD_ORDER`. */
    const order: nat
    const aq: Ring
    const fq: Ring
    const val: array<Option<T>>
    const startIndex: nat
    /** The queued items, oldest first. */
    ghost var Contents: seq<Option<T>>

    /** The two rings are well formed, separate, of the queue's order, and live; `fq` is never closed. */
    ghost predicate Rings()
      reads this, aq, fq, aq.slots, fq.slots
    {
      && aq != fq && aq.slots != fq.slots
      && aq.order == order && fq.order == order && aq.minOrder == fq.minOrder && aq.w == fq.w
      && aq.Valid() && fq.Valid()
      && val.Length == Pow(order)
      && !fq.closed && Live(aq.State()) && Live(fq.State())
    }

    ghost predicate Valid()
      reads this, aq, fq, aq.slots, fq.slots, val
    {
      && Rings()
      && Partition(aq.q, fq.q, Pow(order))
      && Cells(aq.q, val[..], Contents)
    }

    /** `SCQueue(start)` for `ring_size`: an empty `aq` and a full `fq`. */
    constructor (ringSize: nat, start: nat, minOrder: nat, w: nat)
      requires Shape(Log2(ringSize), minOrder, w)
      ensures order == Log2(ringSize) && startIndex == start && aq.minOrder == minOrder && aq.w == w
      ensures Valid() && Contents == [] && !aq.closed
      ensures fresh(aq) && fresh(fq) && fresh(aq.slots) && fresh(fq.slots) && fresh(val)
    {
      var ord := IntLog2(ringSize);
      order, startIndex := ord, start;
      aq := new Ring.InitEmpty(ord, minOrder, w);
      fq := new Ring.InitFull(ord, minOrder, w);
      var half := Pow2(ord);
      Pow2Is(ord);
      val := new Option<T>[half](_ => None);
      Contents := [];
      new;
      FullPartition(ord, minOrder, w);
      InitFullWf(ord, minOrder, w);
    }

    /**
     * `enqueue(item)`: with no free index, close `aq` and refuse; otherwise
     * store the item in the free index's cell and publish the index, or,
     * when the closed `aq` refuses it, return the index to `fq`.
     */
    method Enqueue(item: Option<T>) returns (ok: bool)
      requires Valid() && aq.tail + 1 < Limit(aq.w) && fq.tail + 2 < Limit(fq.w)
      modifies this, aq, aq.slots, fq, fq.slots, val
      ensures Valid()
      ensures ok <==> |old(Contents)| < Pow(order) && !old(aq.closed)
      ensures Contents == if ok then old(Contents) + [item] else old(Contents)
      ensures aq.closed <==> old(aq.closed) || |old(Contents)| == Pow(order)
    {
      var half := Pow2(order);
      Pow2Is(order);
      ghost var f := fq.q;
      var eidx := TakeIndex(fq);
      if eidx == Empty(fq.w) {
        if |f| > 0 {
          ExactlyOne(aq.q, f, half, f[0]);
          PowMonotone(order + 1, fq.w);
          assert false;
        }
        aq.Close();
        return false;
      }
      ok := Publish(item, eidx, f);
    }

    /**
     * The rest of `enqueue` once `fq` gave its oldest free index `eidx`:
     * store the item in its cell and publish the index in `aq`, or, when
     * the closed `aq` refuses it, return the index to `fq`.
     */
    method Publish(item: Option<T>, eidx: nat, ghost f: seq<nat>) returns (ok: bool)
      requires Rings() && |f| > 0 && eidx == f[0] && fq.q == f[1..]
      requires Partition(aq.q, f, Pow(order)) && Cells(aq.q, val[..], Contents)
      requires aq.tail + 1 < Limit(aq.w) && fq.tail + 1 < Limit(fq.w)
      modifies this, aq, aq.slots, fq, fq.slots, val
      ensures Valid() && aq.closed == old(aq.closed)
      ensures ok == !old(aq.closed)
      ensures Contents == if ok then old(Contents) + [item] else old(Contents)
    {
      var half := Pow2(order);
      Pow2Is(order);
      ghost var a := aq.q;
      ghost var cells := val[..];
      ExactlyOne(a, f, half, eidx);
      PowMonotone(order, order + 1);
      val[eidx] := item;
      assert val[..] == cells[eidx := item];
      ok := PutIndex(aq, eidx);
      if ok {
        PartitionPublish(a, f, half);
        CellsPublish(a, cells, Contents, eidx, item);
        Contents := Contents + [item];
        return;
      }
      CellsStore(a, cells, Contents, eidx, item);
      PartitionRefuse(a, f, half);
      var _ := PutIndex(fq, eidx);
    }

    /**
     * `dequeue()`: null when `aq` gives EMPTY; otherwise the item in the
     * cell of the oldest queued index, whose index goes back to `fq`. An
     * EMPTY dequeue of a closed `aq` whose tail is one past the ticket it
     * takes reopens `aq` (`Reopens`).
     */
    method Dequeue() returns (r: Option<T>)
      requires Valid() && aq.tail + 1 < Limit(aq.w) && aq.head + 1 < Limit(aq.w) && fq.tail + 1 < Limit(fq.w)
      modifies this, aq, aq.slots, fq, fq.slots
      ensures Valid() && aq.closed == (old(aq.closed) && !Reopens(old(aq.State())))
      ensures r == if old(Contents) == [] then None else old(Contents)[0]
      ensures Contents == if old(Contents) == [] then [] else old(Contents)[1..]
    {
      var half := Pow2(order);
      Pow2Is(order);
      ghost var a := aq.q;
      ghost var f := fq.q;
      var eidx := TakeIndex(aq);
      if eidx == Empty(aq.w) {
        if |a| > 0 {
          ExactlyOne(a, f, half, a[0]);
          PowMonotone(order + 1, aq.w);
          assert false;
        }
        return None;
      }
      CellsTake(a, val[..], Contents);
      r := val[eidx];
      PartitionFree(a, f, half);
      QueuedDistinct(a, f, half);
      PowMonotone(order, order + 1);
      var _ := PutIndex(fq, eidx);
      Contents := Contents[1..];
    }

    /** `isEmpty`: the head counter of `aq` has reached its tail counter. */
    method IsEmpty() returns (b: bool)
      requires Valid()
      ensures b ==> Contents == []
      ensures !aq.closed ==> (b <==> Contents == [])
    {
      var h := aq.GetHead();
      var t := aq.GetTail();
      b := h >= t;
    }

    /** `getHeadIndex`: the head counter of `aq`, offset by the segment's start index. */
    method GetHeadIndex() returns (i: nat)
      requires Valid()
      ensures i == aq.head + startIndex
    {
      var h := aq.GetHead();
      i := h + startIndex;
    }

    /** `getTailIndex`: the tail counter of `aq`, offset by the segment's start index. */
    method GetTailIndex() returns (i: nat)
      requires Valid()
      ensures i == aq.tail + startIndex
      ensures !aq.closed ==> i == aq.head + startIndex + |Contents|
      ensures Contents != [] ==> i >= aq.head + startIndex + |Contents|
    {
      var t := aq.GetTail();
      i := t + startIndex;
    }

    /** `prepareDequeueAfterNextLinked`: reset the threshold of `aq`. */
    method PrepareDequeueAfterNextLinked()
      requires Valid()
      modifies aq
      ensures Valid() && Contents == old(Contents) && aq.State() == ResetFrom(old(aq.State()), order)
    {
      ResetSpec(aq.State(), order);
      aq.ResetThreshold();
    }
  }
}
