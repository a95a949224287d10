/**
 * The Michael-Scott queue of rust-queues/src/ms_queue/msq_hazp.rs. Nodes hold
 * raw `*const T` values supplied by the caller; the dummy node holds a null
 * value. Hazard pointers are the caller's; retiring becomes the ghost set
 * `retired`.
 */
module MsQueueHazp {
  import opened Wrappers

  /** A raw `*const T`: null, or pointing at a `T`. */
  datatype RawPtr<T> = Null | To(target: T)

  class Node<T> {
    const value: RawPtr<T>
    var next: Node?<T>
    /** The node's position in its queue's list, which keeps the nodes distinct. */
    ghost var idx: nat

    /** `Node::new`: the given value and a null `next`. */
    constructor (value: RawPtr<T>)
      ensures this.value == value && next == null && idx == 0
    {
      this.value := value;
      next := null;
      idx := 0;
    }

    /** `Node::empty`: a null value and a null `next`. */
    constructor Empty()
      ensures value == Null && next == null && idx == 0
    {
      value := Null;
      next := null;
      idx := 0;
    }
  }

  class Queue<T> {
    var head: Node<T>
    var tail: Node<T>
    /**
     * Every node this queue has linked, in list order: `all[h]` is the
     * sentinel, `all[h+1..]` hold the contents and `all[ti]` is the tail.
     */
    ghost var all: seq<Node<T>>
    ghost var h: nat
    ghost var ti: nat
    ghost var retired: set<Node<T>>
    ghost var Contents: seq<RawPtr<T>>
    ghost var Repr: set<object>

    ghost predicate Valid()
      reads this, Repr
    {
      this in Repr && retired <= Repr
      && h <= ti < |all|
      && head == all[h] && tail == all[ti]
      && (forall i :: 0 <= i < |all| ==> all[i] in Repr && all[i].idx == i)
      && (forall i :: h <= i < |all| - 1 ==> all[i].next == all[i + 1])
      && all[|all| - 1].next == null
      && (forall n :: n in retired ==> n.idx < h)
      && |Contents| == |all| - h - 1
      && (forall i :: 0 <= i < |Contents| ==> Contents[i] == all[h + 1 + i].value)
    }

    /** Only the last node of the list has a null `next`. */
    lemma NullNextIsLast(i: nat)
      requires Valid() && h <= i < |all|
      ensures all[i].next == null <==> i == |all| - 1
    {
      if i < |all| - 1 {
        assert all[i].next == all[i + 1];
      }
    }

    /** `new`: head and tail at one empty dummy node. */
    constructor ()
      ensures Valid() && fresh(Repr)
      ensures Contents == [] && retired == {}
      ensures head == tail && head.value == Null && head.next == null
    {
      var dummy := new Node.Empty();
      head, tail := dummy, dummy;
      all, h, ti := [dummy], 0, 0;
      retired, Contents := {}, [];
      Repr := {this, dummy};
    }

    /** The CAS of `node.next` from null to `desired`: it links `desired` after the last node. */
    method CasNext(node: Node<T>, desired: Node<T>) returns (ok: bool)
      requires Valid() && node == tail
      requires desired !in Repr && desired.next == null && desired.idx == |all|
      modifies node`next, this`all, this`Contents, this`Repr
      ensures Valid() && ok == (old(node.next) == null)
      ensures ok ==> all == old(all) + [desired] && Contents == old(Contents) + [desired.value]
      ensures ok ==> Repr == old(Repr) + {desired} && node.next == desired
      ensures !ok ==> all == old(all) && Contents == old(Contents) && Repr == old(Repr)
    {
      NullNextIsLast(ti);
      if node.next == null {
        node.next := desired;
        all := all + [desired];
        Contents, Repr := Contents + [desired.value], Repr + {desired};
        ok := true;
      } else {
        ok := false;
      }
    }

    /** The CAS of `tail` from `expected` to `desired`, used only to move tail one node on. */
    method CasTail(expected: Node<T>, desired: Node<T>) returns (ok: bool)
      requires Valid() && (expected == tail ==> tail.next == desired)
      modifies this`tail, this`ti
      ensures Valid()
      ensures ok == (old(tail) == expected)
      ensures ok ==> tail == desired && ti == old(ti) + 1
      ensures !ok ==> tail == old(tail) && ti == old(ti)
    {
      if tail == expected {
        NullNextIsLast(ti);
        tail, ti := desired, ti + 1;
        ok := true;
      } else {
        ok := false;
      }
    }

    /** The CAS of `head` from `expected` to `desired`, used only past a non-lagging tail. */
    method CasHead(expected: Node<T>, desired: Node<T>) returns (ok: bool)
      requires Valid() && (expected == head ==> head != tail && head.next == desired)
      modifies this`head, this`h, this`Contents
      ensures Valid()
      ensures ok == (old(head) == expected)
      ensures ok ==> head == desired && h == old(h) + 1 && Contents == old(Contents)[1..]
      ensures !ok ==> head == old(head) && h == old(h) && Contents == old(Contents)
    {
      if head == expected {
        head, h := desired, h + 1;
        Contents := Contents[1..];
        ok := true;
      } else {
        ok := false;
      }
    }

    /** Retiring a node unlinked by a head CAS: it joins the ghost set `retired`. */
    ghost method Retire(n: Node<T>)
      requires Valid() && 0 < h && n == all[h - 1]
      modifies this`retired
      ensures Valid() && retired == old(retired) + {n}
    {
      retired := retired + {n};
    }

    /**
     * `enqueue`: restart on a stale tail snapshot; swing a lagging tail and
     * restart; otherwise link at the null `next` and try to move tail, whose
     * failure is tolerated.
     */
    method Enqueue(value: RawPtr<T>)
      requires Valid()
      modifies Repr
      ensures Valid() && fresh(Repr - old(Repr))
      ensures Contents == old(Contents) + [value]
      ensures head == old(head) && retired == old(retired)
    {
      var node := new Node(value);
      node.idx := |all|;
      var done := false;
      while !done
        invariant Valid() && fresh(node) && node.value == value && head == old(head) && retired == old(retired)
        invariant !done ==> node.next == null && node.idx == |all|
        invariant !done ==> Contents == old(Contents) && Repr == old(Repr) && all == old(all)
        invariant done ==> Contents == old(Contents) + [value] && Repr == old(Repr) + {node}
        decreases !done, |all| - ti
      {
        done := EnqueueRound(node);
      }
    }

    /** One pass of `enqueue`'s loop; `done` when `node` was linked. */
    method EnqueueRound(node: Node<T>) returns (done: bool)
      requires Valid() && node !in Repr && node.next == null && node.idx == |all|
      modifies Repr
      ensures Valid() && head == old(head) && retired == old(retired)
      ensures done ==> Contents == old(Contents) + [node.value] && Repr == old(Repr) + {node}
      ensures !done ==> Contents == old(Contents) && Repr == old(Repr) && all == old(all) && ti > old(ti)
    {
      var tailNode := tail;
      var nextPtr := tailNode.next;
      // A stale tail snapshot restarts the loop.
      if tailNode == tail {
        if nextPtr != null {
          // Swing a lagging tail to its `next`.
          var _ := CasTail(tailNode, nextPtr);
          return false;
        } else {
          var linked := CasNext(tailNode, node);
          if linked {
            var _ := CasTail(tailNode, node);
            return true;
          }
        }
      }
      assert false;
    }

    /**
     * `dequeue`: None as soon as the sentinel has no `next`, before head is
     * compared with tail; if head and tail coincide, only tail advances;
     * otherwise the value is read, head is swung and the old sentinel retired.
     */
    method Dequeue() returns (r: Option<RawPtr<T>>)
      requires Valid()
      modifies this
      ensures Valid() && Repr == old(Repr) && all == old(all)
      ensures r.None? <==> old(Contents) == []
      ensures r.None? ==> Contents == [] && head == old(head) && retired == old(retired)
      ensures r.Some? ==> r.value == old(Contents)[0] && Contents == old(Contents)[1..]
      ensures r.Some? ==> head == old(head.next) && retired == old(retired) + {old(head)}
    {
      while true
        invariant Valid()
        invariant Contents == old(Contents) && Repr == old(Repr) && all == old(all)
        invariant head == old(head) && h == old(h) && retired == old(retired)
        decreases |all| - ti
      {
        var headNode := head;
        var tailPtr := tail;
        var nextPtr := headNode.next;
        if headNode != head {
          continue;
        }
        NullNextIsLast(h);
        if nextPtr == null {
          return None;
        }
        var nextNode: Node<T> := nextPtr;
        if headNode == tailPtr {
          // Tail is lagging: advance it.
          var _ := CasTail(tailPtr, nextNode);
          continue;
        }
        // The source's `assert!(head_ptr != next_ptr)`.
        assert headNode != nextNode by {
          assert nextNode == all[h + 1];
          assert headNode.idx == h && nextNode.idx == h + 1;
        }
        var val := nextNode.value;
        var swung := CasHead(headNode, nextNode);
        if swung {
          Retire(headNode);
          return Some(val);
        }
      }
    }
  }

  /** With a valid list, None is returned exactly when the sentinel has no `next`. */
  lemma EmptyIff<T>(q: Queue<T>)
    requires q.Valid()
    ensures q.Contents == [] <==> q.head.next == null
  {
    q.NullNextIsLast(q.h);
  }

  /** Lines 240-242 of the test: enqueue pointers to 0, 1, 2 on the new queue. */
  method BasicsFill(q: Queue<nat>)
    requires q.Valid() && q.Contents == []
    modifies q.Repr
    ensures q.Valid() && fresh(q.Repr - old(q.Repr)) && q.Contents == [To(0), To(1), To(2)]
  {
    q.Enqueue(To(0));
    q.Enqueue(To(1));
    q.Enqueue(To(2));
  }

  /** Lines 245-250: dequeue 0 and 1, then enqueue 3 and 4. */
  method BasicsRefill(q: Queue<nat>) returns (outs: seq<Option<RawPtr<nat>>>)
    requires q.Valid() && q.Contents == [To(0), To(1), To(2)]
    modifies q.Repr
    ensures q.Valid() && fresh(q.Repr - old(q.Repr)) && q.Contents == [To(2), To(3), To(4)]
    ensures outs == [Some(To(0)), Some(To(1))]
  {
    var a := q.Dequeue();
    var b := q.Dequeue();
    q.Enqueue(To(3));
    q.Enqueue(To(4));
    outs := [a, b];
  }

  /** Lines 253-256: dequeue 2, 3, 4, and then None. */
  method BasicsDrain(q: Queue<nat>) returns (outs: seq<Option<RawPtr<nat>>>)
    requires q.Valid() && q.Contents == [To(2), To(3), To(4)]
    modifies q.Repr
    ensures q.Valid() && q.Repr == old(q.Repr) && q.Contents == []
    ensures outs == [Some(To(2)), Some(To(3)), Some(To(4)), None]
  {
    var c := q.Dequeue();
    var d := q.Dequeue();
    var e := q.Dequeue();
    var f := q.Dequeue();
    outs := [c, d, e, f];
  }

  /** Lines 259-265: enqueue 5, 6 and dequeue 5, 6, None. */
  method BasicsAgain(q: Queue<nat>) returns (outs: seq<Option<RawPtr<nat>>>)
    requires q.Valid() && q.Contents == []
    modifies q.Repr
    ensures q.Valid() && fresh(q.Repr - old(q.Repr)) && q.Contents == []
    ensures outs == [Some(To(5)), Some(To(6)), None]
  {
    q.Enqueue(To(5));
    q.Enqueue(To(6));
    var g := q.Dequeue();
    var h := q.Dequeue();
    var i := q.Dequeue();
    outs := [g, h, i];
  }

  /**
   * The in-file test at lines 233-266; `To(k)` stands for a pointer to
   * `NUMBERS[k]`, which holds k.
   */
  method Basics() returns (outs: seq<Option<RawPtr<nat>>>)
    ensures outs == [Some(To(0)), Some(To(1)), Some(To(2)), Some(To(3)), Some(To(4)), None,
                     Some(To(5)), Some(To(6)), None]
  {
    var q := new Queue<nat>();
    BasicsFill(q);
    var first := BasicsRefill(q);
    var second := BasicsDrain(q);
    var third := BasicsAgain(q);
    outs := first + second + third;
  }
}
