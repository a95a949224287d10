/**
 * The Michael-Scott queue of ms-rust/src/experimental_msq.rs over crossbeam
 * epoch pointers. A `Shared` word is a node address with a tag, and two words
 * are equal when both parts are. The tag is kept as an unbounded counter: its
 * width is crossbeam's. A successful dequeue returns a copy of the old
 * sentinel's value and frees nothing.
 */
module MsqExperimental {
  import opened Wrappers
  import opened MachineInts

  /** A tagged epoch pointer: a node address, or null, with its tag. */
  datatype Shared = Shared(ptr: Node?, tag: nat)

  class Node {
    const value: i32
    var next: Shared
    /** The node's position in its queue's list, which keeps the nodes distinct. */
    ghost var idx: nat

    /** `Node::new`: the value and `Atomic::null()`, null with tag 0. */
    constructor (value: i32)
      ensures this.value == value && next == Shared(null, 0) && idx == 0
    {
      this.value := value;
      next := Shared(null, 0);
      idx := 0;
    }
  }

  class Queue {
    var head: Shared
    var tail: Shared
    /**
     * Every node this queue has linked, in list order: `all[h]` is the
     * sentinel, `all[h+1..]` hold the contents and `all[ti]` is the tail.
     */
    ghost var all: seq<Node>
    ghost var h: nat
    ghost var ti: nat
    ghost var Contents: seq<i32>
    ghost var Repr: set<object>

    /** Head's tag counts head swings and tail's counts tail swings; every link has tag 1. */
    ghost predicate Valid()
      reads this, Repr
    {
      this in Repr
      && h <= ti < |all|
      && head == Shared(all[h], h)
      && tail == Shared(all[ti], ti)
      && (forall i :: 0 <= i < |all| ==> all[i] in Repr && all[i].idx == i)
      && (forall i :: h <= i < |all| - 1 ==> all[i].next == Shared(all[i + 1], 1))
      && all[|all| - 1].next == Shared(null, 0)
      && |Contents| == |all| - h - 1
      && (forall i :: 0 <= i < |Contents| ==> Contents[i] == all[h + 1 + i].value)
    }

    /** Only the last node of the list has a null `next`. */
    lemma NullNextIsLast(i: nat)
      requires Valid() && h <= i < |all|
      ensures all[i].next.ptr == null <==> i == |all| - 1
    {
      if i < |all| - 1 {
        assert all[i].next == Shared(all[i + 1], 1);
      }
    }

    /** `new`: head and tail both the dummy node holding -1, tag 0. */
    constructor ()
      ensures Valid() && fresh(Repr) && Contents == []
      ensures head == tail && head.tag == 0 && head.ptr != null
      ensures head.ptr.value == -1 && head.ptr.next == Shared(null, 0)
    {
      var dummy := new Node(-1);
      head, tail := Shared(dummy, 0), Shared(dummy, 0);
      all, h, ti := [dummy], 0, 0;
      Contents := [];
      Repr := {this, dummy};
    }

    /** The CAS of `node.next` from `expected` (a null address) to `desired`. */
    method CasNext(node: Node, expected: Shared, desired: Shared) returns (ok: bool)
      requires Valid() && node == tail.ptr && expected.ptr == null && desired.tag == expected.tag + 1
      requires desired.ptr != null && desired.ptr !in Repr && desired.ptr.next == Shared(null, 0)
      requires desired.ptr.idx == |all|
      modifies node`next, this`all, this`Contents, this`Repr
      ensures Valid() && ok == (old(node.next) == expected)
      ensures ok ==> node.next == desired && all == old(all) + [desired.ptr]
      ensures ok ==> Contents == old(Contents) + [desired.ptr.value] && Repr == old(Repr) + {desired.ptr}
      ensures !ok ==> all == old(all) && Contents == old(Contents) && Repr == old(Repr)
    {
      if node.next == expected {
        NullNextIsLast(ti);
        var d: Node := desired.ptr;
        node.next := desired;
        all := all + [d];
        Contents, Repr := Contents + [d.value], Repr + {d};
        ok := true;
      } else {
        ok := false;
      }
    }

    /** The CAS of `tail` from `expected` to `desired`, used only to move tail one node on. */
    method CasTail(expected: Shared, desired: Shared) returns (ok: bool)
      requires Valid()
      requires expected == tail ==> desired.ptr != null && desired.ptr == tail.ptr.next.ptr
      requires expected == tail ==> desired.tag == tail.tag + 1
      modifies this`tail, this`ti
      ensures Valid()
      ensures ok == (old(tail) == expected)
      ensures ok ==> tail == desired && ti == old(ti) + 1
      ensures !ok ==> tail == old(tail) && ti == old(ti)
    {
      if tail == expected {
        NullNextIsLast(ti);
        tail, ti := desired, ti + 1;
        ok := true;
      } else {
        ok := false;
      }
    }

    /** The CAS of `head` from `expected` to `desired`, used only past a non-lagging tail. */
    method CasHead(expected: Shared, desired: Shared) returns (ok: bool)
      requires Valid()
      requires expected == head ==> head != tail && desired.ptr == head.ptr.next.ptr
      requires expected == head ==> desired.tag == head.tag + 1
      modifies this`head, this`h, this`Contents
      ensures Valid()
      ensures ok == (old(head) == expected)
      ensures ok ==> head == desired && h == old(h) + 1 && Contents == old(Contents)[1..]
      ensures !ok ==> head == old(head) && h == old(h) && Contents == old(Contents)
    {
      if head == expected {
        NullNextIsLast(h);
        head, h := desired, h + 1;
        Contents := Contents[1..];
        ok := true;
      } else {
        ok := false;
      }
    }

    /**
     * `enqueue`: on a fresh tail snapshot, link the node at a null `next`
     * with that word's tag + 1, then try to swing tail with its tag + 1; a
     * lagging tail is first swung to its `next`.
     */
    method Enqueue(value: i32)
      requires Valid()
      modifies Repr
      ensures Valid() && fresh(Repr - old(Repr))
      ensures Contents == old(Contents) + [value]
      ensures head == old(head)
    {
      var node := new Node(value);
      node.idx := |all|;
      var done := false;
      while !done
        invariant Valid() && fresh(node) && node.value == value && head == old(head)
        invariant !done ==> node.next == Shared(null, 0) && node.idx == |all|
        invariant !done ==> Contents == old(Contents) && Repr == old(Repr) && all == old(all)
        invariant done ==> Contents == old(Contents) + [value] && Repr == old(Repr) + {node}
        decreases !done, |all| - ti
      {
        done := EnqueueRound(node);
      }
    }

    /** One pass of `enqueue`'s loop; `done` when `node` was linked. */
    method EnqueueRound(node: Node) returns (done: bool)
      requires Valid() && node !in Repr && node.next == Shared(null, 0) && node.idx == |all|
      modifies Repr
      ensures Valid() && head == old(head)
      ensures done ==> Contents == old(Contents) + [node.value] && Repr == old(Repr) + {node}
      ensures !done ==> Contents == old(Contents) && Repr == old(Repr) && all == old(all) && ti > old(ti)
    {
      var tailPtr := tail;
      var tailNode: Node := tailPtr.ptr;
      var nextPtr := tailNode.next;
      if tailPtr == tail {
        if nextPtr.ptr == null {
          var linked := CasNext(tailNode, nextPtr, Shared(node, nextPtr.tag + 1));
          if linked {
            var _ := CasTail(tailPtr, Shared(node, tailPtr.tag + 1));
            return true;
          } else {
            return false;
          }
        }
        // Swing a lagging tail to its `next`.
        var _ := CasTail(tailPtr, Shared(nextPtr.ptr, tailPtr.tag + 1));
        return false;
      }
      assert false;
    }

    /**
     * `dequeue`: None when the tagged head equals the tagged tail and `next`
     * is null; a lagging tail is advanced; otherwise head is swung to `next`
     * with its tag + 1 and a copy of the old sentinel's value is returned.
     */
    method Dequeue() returns (r: Option<i32>)
      requires Valid()
      modifies this
      ensures Valid() && Repr == old(Repr) && all == old(all)
      ensures r.None? <==> old(Contents) == []
      ensures r.None? ==> Contents == [] && head == old(head)
      ensures r.Some? ==> r.value == old(head.ptr.value) && Contents == old(Contents)[1..]
      ensures r.Some? ==> head.ptr != null && head.ptr.value == old(Contents)[0] && head.tag == old(head.tag) + 1
    {
      while true
        invariant Valid()
        invariant Contents == old(Contents) && Repr == old(Repr) && all == old(all)
        invariant head == old(head) && h == old(h)
        decreases |all| - ti
      {
        var headPtr := head;
        var tailPtr := tail;
        var headNode: Node := headPtr.ptr;
        var nextPtr := headNode.next;
        var headCount := headPtr.tag;
        var tailCount := tailPtr.tag;
        if headPtr == head {
          NullNextIsLast(h);
          if headPtr == tailPtr {
            if nextPtr.ptr == null {
              return None;
            }
            // Tail is lagging: advance it.
            var _ := CasTail(tailPtr, Shared(nextPtr.ptr, tailCount + 1));
          } else {
            var swung := CasHead(headPtr, Shared(nextPtr.ptr, headCount + 1));
            if swung {
              return Some(headNode.value);
            } else {
              continue;
            }
          }
        }
      }
    }
  }

  /** With a valid list, the queue is empty exactly when the source's None test holds. */
  lemma EmptyIff(q: Queue)
    requires q.Valid()
    ensures q.Contents == [] <==> q.head == q.tail && q.head.ptr.next.ptr == null
  {
    q.NullNextIsLast(q.h);
  }

  /** Tagged head and tail are equal exactly when they hold the same address. */
  lemma SameWordIffSameNode(q: Queue)
    requires q.Valid()
    ensures q.head == q.tail <==> q.head.ptr == q.tail.ptr
  {
    assert q.head.ptr.idx == q.h && q.tail.ptr.idx == q.ti;
  }

  /** After enqueueing 1 and 2, the two dequeues return the dummy's -1 and then 1. */
  method LaggedValues() returns (outs: seq<Option<i32>>)
    ensures outs == [Some(-1), Some(1)]
  {
    var q := new Queue();
    q.Enqueue(1);
    q.Enqueue(2);
    var a := q.Dequeue();
    var b := q.Dequeue();
    outs := [a, b];
  }
}
