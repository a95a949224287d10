/**
 * The `LPRQ` of rust-queues/src/lprq/arc_lprq/lprq.rs: the same linked
 * chain of ring segments as `Lprq`, over the `PRQ` of arc_lprq/prq.rs,
 * with `head` and `tail` held as `AtomicArc`s that are never null.
 * Reference counting frees a segment once nothing points at it; the
 * model does not track counts, and `drop` only drains the queue.
 *
 * The chain is `Lprq`'s `Chain` with kind `Arc`, so the queue's meaning
 * and its FIFO lemmas are the ones proved there. The segment counters
 * are 63-bit words here, so the methods ask for room below 2^63.
 */
module ArcLprq {
  import opened Wrappers
  import P = Prq
  import A = ArcPrq
  import L = Lprq

  // ---------------------------------------------------------------------
  // Room below the closed bit.

  /** Segment `s` has both counters at least `k` below 2^63. */
  predicate RoomAt<T>(s: P.Segment<T>, k: nat)
  {
    s.head + k < A.CLOSED_BIT && s.tail + k < A.CLOSED_BIT
  }

  /** Every segment from head on has room `k`. */
  predicate Roomy<T>(c: L.Chain<T>, k: nat)
  {
    forall i :: c.head <= i < |c.segs| ==> RoomAt(c.segs[i], k)
  }

  /** One segment dequeue uses up at most one unit of room. */
  lemma SegDequeueRoom<T>(s: P.Segment<T>, k: nat)
    requires P.Wf(s) && RoomAt(s, k + 1)
    ensures RoomAt(L.SegDequeue(L.Arc, s).1, k)
  {
    A.DequeueBounds(s);
  }

  /**
   * A dequeue from an `Arc` chain uses up at most two units of room: it
   * dequeues at most twice from each segment it visits, and it leaves
   * every segment it passes behind head.
   */
  lemma {:induction false} DequeueKeepsRoom<T>(c: L.Chain<T>, k: nat)
    requires L.WfChain(c) && c.kind == L.Arc && Roomy(c, k + 2)
    ensures Roomy(L.DequeueFrom(c).1, k)
    decreases |c.segs| - c.head
  {
    var h := c.head;
    SegDequeueRoom(c.segs[h], k + 1);
    var (x, s1) := L.SegDequeue(c.kind, c.segs[h]);
    if x.Some? {
      L.DequeueSomeStep(c);
    } else if h + 1 == |c.segs| {
      L.DequeueNoneStep(c);
    } else {
      SegDequeueRoom(s1, k);
      var (y, s2) := L.SegDequeue(c.kind, s1);
      if y.Some? {
        L.DequeueSecondStep(c);
      } else {
        L.DequeueMoveStep(c);
        DequeueKeepsRoom(c.(segs := c.segs[h := s2], head := h + 1), k);
      }
    }
  }

  /** Draining as in `Lprq.Drained`, with two units of room per value left and two to spare. */
  ghost predicate DrainedRoom<T>(c: L.Chain<T>, vs: seq<T>, dropped: seq<P.Slot<T>>)
  {
    L.Drained(c, vs, dropped) && c.kind == L.Arc && Roomy(c, 2 * (|vs| - |dropped|) + 2)
  }

  /** One dequeue while draining has the room it needs and keeps enough for the rest. */
  lemma DrainedRoomStep<T>(c: L.Chain<T>, vs: seq<T>, dropped: seq<P.Slot<T>>)
    requires DrainedRoom(c, vs, dropped)
    ensures Roomy(c, 2)
    ensures var (x, c') := L.DequeueFrom(c);
      && (x.Some? ==> DrainedRoom(c', vs, dropped + [x.value]))
      && (x.None? ==> L.Drained(c', vs, dropped) && |dropped| == |vs| && c'.head == c'.tail)
  {
    L.DrainedStep(c, vs, dropped);
    var (x, c') := L.DequeueFrom(c);
    if x.Some? {
      var d' := dropped + [x.value];
      var k := 2 * (|vs| - |d'|) + 2;
      assert 2 * (|vs| - |dropped|) + 2 == k + 2;
      DequeueKeepsRoom(c, k);
      assert Roomy(c', k);
    }
  }

  // ---------------------------------------------------------------------
  // Per-segment facts of a list of `Arc` segment objects.

  /**
   * Segment object `c[i]` has `n` cells, holds the value `ss[i]` and links
   * to `c[i + 1]`, or to null when it is the last.
   */
  ghost predicate SegHolds<T>(n: nat, c: seq<A.ArcPRQ<T>>, ss: seq<P.Segment<T>>, i: nat)
    reads if i < |c| then {c[i], c[i].stamps, c[i].values} else {}
  {
    && i < |c| && i < |ss|
    && c[i].Wf() && c[i].n == n && c[i].State() == ss[i]
    && c[i].next == (if i + 1 < |c| then c[i + 1] else null)
  }

  /** Segment object `c[i]` and its two arrays are owned at position `i`. */
  ghost predicate OwnedAt<T>(c: seq<A.ArcPRQ<T>>, own: map<object, nat>, i: nat)
  {
    && i < |c|
    && c[i] in own && own[c[i]] == i
    && c[i].stamps in own && own[c[i].stamps] == i
    && c[i].values in own && own[c[i].values] == i
  }

  /** Owning a new segment and its arrays at a new position keeps the old owners. */
  lemma OwnedExtend<T>(c: seq<A.ArcPRQ<T>>, own: map<object, nat>, i: nat, x: A.ArcPRQ<T>, k: nat)
    requires OwnedAt(c, own, i) && x !in own && x.stamps !in own && x.values !in own
    ensures OwnedAt(c + [x], own[x := k][x.stamps := k][x.values := k], i)
  {
  }

  /** Linking a segment after the last leaves the earlier ones' facts as they were. */
  lemma SegHoldsExtend<T>(n: nat, c: seq<A.ArcPRQ<T>>, ss: seq<P.Segment<T>>, i: nat,
                          x: A.ArcPRQ<T>, s: P.Segment<T>)
    requires SegHolds(n, c, ss, i) && i + 1 < |c|
    ensures SegHolds(n, c + [x], ss + [s], i)
  {
  }

  /**
   * Linking a new, unowned segment `x` holding `s` after the last segment
   * `c[|c| - 1]`, whose `next` now points at `x`, extends the facts of
   * the segments from `h` on to the longer list.
   */
  lemma LinkAll<T>(n: nat, c: seq<A.ArcPRQ<T>>, ss: seq<P.Segment<T>>, own: map<object, nat>, h: nat,
                   x: A.ArcPRQ<T>, s: P.Segment<T>, own': map<object, nat>)
    requires h < |c| == |ss|
    requires forall i :: h <= i < |c| ==> OwnedAt(c, own, i)
    requires forall i :: h <= i < |c| - 1 ==> SegHolds(n, c, ss, i)
    requires c[|c| - 1].Wf() && c[|c| - 1].n == n && c[|c| - 1].State() == ss[|c| - 1]
    requires c[|c| - 1].next == x
    requires x.Wf() && x.n == n && x.State() == s && x.next == null
    requires x !in own && x.stamps !in own && x.values !in own
    requires own' == own[x := |c|][x.stamps := |c|][x.values := |c|]
    ensures forall i :: h <= i < |c| + 1 ==> OwnedAt(c + [x], own', i) && SegHolds(n, c + [x], ss + [s], i)
  {
    forall i | h <= i < |c| + 1
      ensures OwnedAt(c + [x], own', i) && SegHolds(n, c + [x], ss + [s], i)
    {
      if i < |c| {
        OwnedExtend(c, own, i, x, |c|);
      }
      if i < |c| - 1 {
        SegHoldsExtend(n, c, ss, i, x, s);
      }
    }
  }

  // ---------------------------------------------------------------------
  // The queue object.

  /**
   * `LPRQ` of arc_lprq/lprq.rs: `head` and `tail` point at `Arc` segments
   * linked through their `next` fields. The ghost `chain` lists every
   * segment ever linked and `segs` their abstract values; the segments
   * before `hIdx` are no longer reachable from the queue. `owner` maps
   * each segment and its two arrays to the segment's position, which
   * keeps them all distinct.
   */
  class ArcLPRQ<T(==)> {
    const n: nat
    var head: A.ArcPRQ<T>
    var tail: A.ArcPRQ<T>
    ghost var chain: seq<A.ArcPRQ<T>>
    ghost var segs: seq<P.Segment<T>>
    ghost var hIdx: nat
    ghost var tIdx: nat
    ghost var owner: map<object, nat>

    /** The ghost bookkeeping: positions in range, head and tail where they belong. */
    ghost predicate Shape()
      reads this
    {
      && n > 0 && 2 * n + 1 < A.CLOSED_BIT
      && |chain| == |segs| && hIdx < |chain| && tIdx == |chain| - 1
      && head == chain[hIdx] && tail == chain[tIdx]
      && (forall i :: 0 <= i < |segs| ==> P.Wf(segs[i]) && segs[i].n == n)
    }

    /**
     * Segment `i` is owned at position `i`, holds the value `segs[i]` and
     * links to the next segment, or to null when last.
     */
    ghost predicate Holds(i: nat)
      reads this`chain, this`segs, this`owner, owner.Keys
    {
      OwnedAt(chain, owner, i) && SegHolds(n, chain, segs, i)
    }

    /** The segments from head on form a list ending at tail and hold the values `segs` lists. */
    ghost predicate Linked()
      reads this, owner.Keys
    {
      Shape() && forall i :: hIdx <= i < |chain| ==> Holds(i)
    }

    /** Only the last segment has a null `next`. */
    lemma NullNextIsLast()
      requires Linked()
      ensures head.next == null <==> hIdx == |chain| - 1
    {
      assert Holds(hIdx);
      if hIdx < |chain| - 1 {
        assert chain[hIdx].next == chain[hIdx + 1];
      }
    }

    /** The chain the object stands for. */
    ghost function Abs(): L.Chain<T>
      reads this
    {
      L.Chain(L.Arc, n, segs, hIdx, tIdx)
    }

    /** The tail segment can take one more ticket and still open a new round. */
    ghost predicate EnqueueRoom()
      reads this
      requires Shape()
    {
      segs[tIdx].tail + 1 < A.CLOSED_BIT && segs[tIdx].head + n + 1 < A.CLOSED_BIT
    }

    /** `LPRQ::new()`: head and tail point at one new empty segment. */
    constructor (n: nat)
      requires 0 < n && 2 * n + 1 < A.CLOSED_BIT
      ensures Linked() && Abs() == L.Init(L.Arc, n) && head == tail && fresh(owner.Keys)
    {
      this.n := n;
      var initial := new A.ArcPRQ<T>(n);
      head := initial;
      tail := initial;
      chain := [initial];
      segs := [initial.State()];
      hIdx := 0;
      tIdx := 0;
      owner := map[initial := 0, initial.stamps := 0, initial.values := 0];
    }

    /** `enqueue` on the tail segment. */
    method TailEnqueue(v: T, threadId: bv64) returns (r: Result<(), ()>)
      requires Linked() && EnqueueRoom()
      modifies tail`tailWord, tail.stamps, tail.values, this`segs
      ensures Linked() && segs == old(segs)[tIdx := segs[tIdx]]
      ensures (r, segs[tIdx]) == A.EnqueueFrom(old(segs[tIdx]), v)
    {
      assert Holds(tIdx);
      r := tail.Enqueue(v, threadId);
      segs := segs[tIdx := tail.State()];
      forall i | hIdx <= i < |chain|
        ensures Holds(i)
      {
        assert old(Holds(i));
        if i != tIdx {
          assert owner[chain[i]] != owner[tail];
          assert owner[chain[i].stamps] != owner[tail.stamps];
          assert owner[chain[i].values] != owner[tail.values];
        }
      }
    }

    /** `dequeue` on the head segment. */
    method HeadDequeue() returns (x: Option<P.Slot<T>>)
      requires Linked() && segs[hIdx].head + 1 < A.CLOSED_BIT
      modifies head`head, head`tailWord, head.stamps, head.values, this`segs
      ensures Linked() && segs == old(segs)[hIdx := segs[hIdx]]
      ensures (x, segs[hIdx]) == A.DequeueFrom(old(segs[hIdx]))
    {
      assert Holds(hIdx);
      x := head.Dequeue();
      segs := segs[hIdx := head.State()];
      forall i | hIdx <= i < |chain|
        ensures Holds(i)
      {
        assert old(Holds(i));
        if i != hIdx {
          assert owner[chain[i]] != owner[head];
          assert owner[chain[i].stamps] != owner[head.stamps];
          assert owner[chain[i].values] != owner[head.values];
        }
      }
    }

    /**
     * The compare-exchange of the tail segment's `next` from None to
     * `newTail`, then of `tail` from that segment to `newTail`. Both
     * succeed under one thread: tail is the last segment.
     */
    method LinkTail(newTail: A.ArcPRQ<T>)
      requires Linked() && newTail.Wf() && newTail.n == n && newTail.next == null
      requires newTail !in owner && newTail.stamps !in owner && newTail.values !in owner
      modifies tail`next, this`tail, this`tIdx, this`chain, this`segs, this`owner
      ensures Linked() && hIdx == old(hIdx) && tIdx == old(tIdx) + 1
      ensures chain == old(chain) + [newTail] && segs == old(segs) + [newTail.State()]
      ensures owner.Keys == old(owner.Keys) + {newTail, newTail.stamps, newTail.values}
    {
      var queue := tail;
      assert Holds(tIdx);
      if queue.next == null {
        ghost var c, ss, k := chain, segs, |chain|;
        forall i | hIdx <= i < k
          ensures OwnedAt(c, owner, i)
        {
          assert Holds(i);
        }
        queue.next := newTail;
        forall i | hIdx <= i < k - 1
          ensures SegHolds(n, c, ss, i)
        {
          assert old(Holds(i));
          assert owner[c[i]] != owner[queue];
        }
        ghost var own' := owner[newTail := k][newTail.stamps := k][newTail.values := k];
        LinkAll(n, c, ss, owner, hIdx, newTail, newTail.State(), own');
        chain, segs, owner := chain + [newTail], segs + [newTail.State()], own';
        if tail == queue {
          tail := newTail;
        }
        tIdx := tIdx + 1;
        forall i | hIdx <= i < |chain|
          ensures Holds(i)
        {
          assert SegHolds(n, chain, segs, i);
        }
      } else {
        assert false;
      }
    }

    /**
     * The compare-exchange of `head` from the drained head segment to its
     * `next`, which cannot fail under one thread.
     */
    method AdvanceHead(next: A.ArcPRQ<T>)
      requires Linked() && head.next == next
      modifies this`head, this`hIdx
      ensures Linked() && hIdx == old(hIdx) + 1 && head == next
    {
      var queue := head;
      NullNextIsLast();
      assert Holds(hIdx);
      if head == queue {
        head := next;
        hIdx := hIdx + 1;
        assert Shape();
        forall i | hIdx <= i < |chain|
          ensures Holds(i)
        {
          assert old(Holds(i));
        }
      }
    }

    /**
     * `enqueue(val)`: into the tail segment; when it refuses, a new
     * segment holding the value is linked after it and becomes tail. The
     * retry after losing the race to link cannot happen under one thread.
     */
    method Enqueue(v: T, threadId: bv64)
      requires Linked() && EnqueueRoom()
      modifies this, owner.Keys
      ensures Linked() && Abs() == L.EnqueueFrom(old(Abs()), v)
      ensures hIdx == old(hIdx) && chain[..|old(chain)|] == old(chain)
      ensures fresh(owner.Keys - old(owner.Keys))
    {
      ghost var c0 := Abs();
      assert Holds(tIdx);
      var r := TailEnqueue(v, threadId);
      if r.Ok? {
        L.EnqueueOkStep(c0, v);
        return;
      }
      var newTail := new A.ArcPRQ<T>.WithItem(n, v, threadId);
      LinkTail(newTail);
      L.EnqueueLinkStep(c0, v);
    }

    /**
     * One pass of the `dequeue` loop: a value from the head segment; when
     * it is empty, its `next` None means the queue is empty; otherwise
     * `Retry` goes on.
     */
    method DequeueRound() returns (done: bool, r: Option<P.Slot<T>>)
      requires Linked() && Roomy(Abs(), 2)
      modifies head`head, head`tailWord, head.stamps, head.values, this`segs, this`head, this`hIdx
      ensures Linked() && chain == old(chain) && owner == old(owner)
      ensures done ==> (r, Abs()) == L.DequeueFrom(old(Abs()))
      ensures !done ==> && hIdx == old(hIdx) + 1 && L.DequeueFrom(Abs()) == L.DequeueFrom(old(Abs()))
                        && Roomy(Abs(), 2)
    {
      ghost var c0 := Abs();
      assert Holds(hIdx) && RoomAt(segs[hIdx], 2);
      SegDequeueRoom(segs[hIdx], 1);
      var x := HeadDequeue();
      assert Abs() == c0.(segs := c0.segs[c0.head := segs[hIdx]]);
      if x.Some? {
        L.DequeueSomeStep(c0);
        return true, x;
      }
      NullNextIsLast();
      var next := head.next;
      if next == null {
        L.DequeueNoneStep(c0);
        return true, None;
      }
      assert L.DequeueFrom(c0) == L.RetryFrom(Abs());
      done, r := Retry(next);
    }

    /**
     * The second try of a `dequeue` pass, then the compare-exchange of
     * head to `next`.
     */
    method Retry(next: A.ArcPRQ<T>) returns (done: bool, r: Option<P.Slot<T>>)
      requires Linked() && head.next == next
      requires segs[hIdx].head + 1 < A.CLOSED_BIT && Roomy(Abs().(head := hIdx + 1), 2)
      modifies head`head, head`tailWord, head.stamps, head.values, this`segs, this`head, this`hIdx
      ensures Linked() && chain == old(chain) && owner == old(owner)
      ensures old(hIdx) + 1 < |chain|
      ensures done ==> (r, Abs()) == old(L.RetryFrom(Abs()))
      ensures !done ==> && hIdx == old(hIdx) + 1 && L.DequeueFrom(Abs()) == old(L.RetryFrom(Abs()))
                        && Roomy(Abs(), 2)
    {
      NullNextIsLast();
      ghost var c1 := Abs();
      assert Holds(hIdx);
      var y := HeadDequeue();
      ghost var s2 := segs[hIdx];
      assert Abs() == c1.(segs := c1.segs[c1.head := s2]);
      if y.Some? {
        return true, y;
      }
      AdvanceHead(next);
      assert Abs() == c1.(segs := c1.segs[c1.head := s2], head := c1.head + 1);
      return false, None;
    }

    /** `dequeue()`: rounds until one returns. */
    method Dequeue() returns (r: Option<P.Slot<T>>)
      requires Linked() && Roomy(Abs(), 2)
      modifies this, owner.Keys
      ensures Linked() && (r, Abs()) == L.DequeueFrom(old(Abs()))
      ensures chain == old(chain) && owner == old(owner)
    {
      var done := false;
      r := None;
      while !done
        invariant Linked() && chain == old(chain) && owner == old(owner)
        invariant !done ==> L.DequeueFrom(Abs()) == L.DequeueFrom(old(Abs())) && Roomy(Abs(), 2)
        invariant done ==> (r, Abs()) == L.DequeueFrom(old(Abs()))
        decreases !done, |chain| - hIdx
      {
        assert Holds(hIdx);
        done, r := DequeueRound();
      }
    }

    /**
     * `drop`: `while let Some(_) = self.dequeue() {}`, which returns the
     * values in order and leaves head at the tail segment. Each dequeue
     * uses up at most two units of room, hence the bound.
     */
    method Drop() returns (dropped: seq<P.Slot<T>>)
      requires Linked() && L.ValidChain(Abs()) && Roomy(Abs(), 2 * |L.Contents(Abs())| + 2)
      modifies this, owner.Keys
      ensures Linked() && chain == old(chain) && owner == old(owner) && hIdx == tIdx
      ensures L.ValidChain(Abs()) && L.Contents(Abs()) == []
      ensures var vs := old(L.Contents(Abs()));
        |dropped| == |vs| && forall i :: 0 <= i < |vs| ==> dropped[i] == P.Ptr(vs[i])
    {
      ghost var vs := L.Contents(Abs());
      dropped := [];
      assert vs[0..] == vs;
      var done := false;
      while !done
        invariant Linked() && chain == old(chain) && owner == old(owner)
        invariant !done ==> DrainedRoom(Abs(), vs, dropped)
        invariant done ==> L.Drained(Abs(), vs, dropped) && |dropped| == |vs| && hIdx == tIdx
        decreases !done, |vs| - |dropped|
      {
        ghost var c := Abs();
        DrainedRoomStep(c, vs, dropped);
        var x := Dequeue();
        assert x == L.DequeueFrom(c).0 && Abs() == L.DequeueFrom(c).1;
        if x.None? {
          done := true;
        } else {
          dropped := dropped + [x.value];
        }
      }
    }
  }
}
