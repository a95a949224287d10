/**
 * The Michael-Scott queue of ms-rust/src/main.rs, over u64 values with a
 * dummy holding 0. A successful dequeue frees the old sentinel and returns
 * the value stored in it: the value of the node dequeued one call earlier,
 * or the dummy's 0. Freeing a node becomes adding it to the ghost set
 * `freed`.
 */
module MsqMain {
  import opened Wrappers
  import opened MachineInts

  class Node {
    const value: u64
    var next: Node?
    /** The node's position in its queue's list, which keeps the nodes distinct. */
    ghost var idx: nat

    /** `Node::new_raw`: the value and a null `next`. */
    constructor (value: u64)
      ensures this.value == value && next == null && idx == 0
    {
      this.value := value;
      next := null;
      idx := 0;
    }
  }

  class Queue {
    var head: Node
    var tail: Node
    /**
     * Every node this queue has linked, in list order: `all[h]` is the
     * sentinel, `all[h+1..]` hold the contents and `all[ti]` is the tail.
     */
    ghost var all: seq<Node>
    ghost var h: nat
    ghost var ti: nat
    ghost var freed: set<Node>
    ghost var Contents: seq<u64>
    ghost var Repr: set<object>

    ghost predicate Valid()
      reads this, Repr
    {
      this in Repr && freed <= Repr
      && h <= ti < |all|
      && head == all[h] && tail == all[ti]
      && (forall i :: 0 <= i < |all| ==> all[i] in Repr && all[i].idx == i)
      && (forall i :: h <= i < |all| - 1 ==> all[i].next == all[i + 1])
      && all[|all| - 1].next == null
      && (forall n :: n in freed ==> n.idx < h)
      && |Contents| == |all| - h - 1
      && (forall i :: 0 <= i < |Contents| ==> Contents[i] == all[h + 1 + i].value)
    }

    /** Only the last node of the list has a null `next`. */
    lemma NullNextIsLast(i: nat)
      requires Valid() && h <= i < |all|
      ensures all[i].next == null <==> i == |all| - 1
    {
      if i < |all| - 1 {
        assert all[i].next == all[i + 1];
      }
    }

    /** `new`: head and tail at one node holding 0. */
    constructor ()
      ensures Valid() && fresh(Repr)
      ensures Contents == [] && freed == {}
      ensures head == tail && head.value == 0 && head.next == null
    {
      var node := new Node(0);
      head, tail := node, node;
      all, h, ti := [node], 0, 0;
      freed, Contents := {}, [];
      Repr := {this, node};
    }

    /** The CAS of `node.next` from null to `desired`: it links `desired` after the last node. */
    method CasNext(node: Node, desired: Node) returns (ok: bool)
      requires Valid() && node == tail
      requires desired !in Repr && desired.next == null && desired.idx == |all|
      modifies node`next, this`all, this`Contents, this`Repr
      ensures Valid() && ok == (old(node.next) == null)
      ensures ok ==> all == old(all) + [desired] && Contents == old(Contents) + [desired.value]
      ensures ok ==> Repr == old(Repr) + {desired} && node.next == desired
      ensures !ok ==> all == old(all) && Contents == old(Contents) && Repr == old(Repr)
    {
      NullNextIsLast(ti);
      if node.next == null {
        node.next := desired;
        all := all + [desired];
        Contents, Repr := Contents + [desired.value], Repr + {desired};
        ok := true;
      } else {
        ok := false;
      }
    }

    /** The CAS of `tail` from `expected` to `desired`, used only to move tail one node on. */
    method CasTail(expected: Node, desired: Node) returns (ok: bool)
      requires Valid() && (expected == tail ==> tail.next == desired)
      modifies this`tail, this`ti
      ensures Valid()
      ensures ok == (old(tail) == expected)
      ensures ok ==> tail == desired && ti == old(ti) + 1
      ensures !ok ==> tail == old(tail) && ti == old(ti)
    {
      if tail == expected {
        NullNextIsLast(ti);
        tail, ti := desired, ti + 1;
        ok := true;
      } else {
        ok := false;
      }
    }

    /** The CAS of `head` from `expected` to `desired`, used only past a non-lagging tail. */
    method CasHead(expected: Node, desired: Node?) returns (ok: bool)
      requires Valid() && (expected == head ==> head != tail && head.next == desired)
      modifies this`head, this`h, this`Contents
      ensures Valid()
      ensures ok == (old(head) == expected)
      ensures ok ==> head == desired && h == old(h) + 1 && Contents == old(Contents)[1..]
      ensures !ok ==> head == old(head) && h == old(h) && Contents == old(Contents)
    {
      if head == expected {
        NullNextIsLast(h);
        var d: Node := desired;
        head, h := d, h + 1;
        Contents := Contents[1..];
        ok := true;
      } else {
        ok := false;
      }
    }

    /** `Box::from_raw` on a node unlinked by a head CAS: it joins the ghost set `freed`. */
    ghost method Free(n: Node)
      requires Valid() && 0 < h && n == all[h - 1]
      modifies this`freed
      ensures Valid() && freed == old(freed) + {n}
    {
      freed := freed + {n};
    }

    /**
     * `enqueue`: link a new node at a null `next` of the tail snapshot, then
     * try to move tail onto it; a lagging tail is swung to its `next`.
     */
    method Enqueue(value: u64)
      requires Valid()
      modifies Repr
      ensures Valid() && fresh(Repr - old(Repr))
      ensures Contents == old(Contents) + [value]
      ensures head == old(head) && freed == old(freed)
    {
      var newNode := new Node(value);
      newNode.idx := |all|;
      var done := false;
      while !done
        invariant Valid() && fresh(newNode) && newNode.value == value && head == old(head) && freed == old(freed)
        invariant !done ==> newNode.next == null && newNode.idx == |all|
        invariant !done ==> Contents == old(Contents) && Repr == old(Repr) && all == old(all)
        invariant done ==> Contents == old(Contents) + [value] && Repr == old(Repr) + {newNode}
        decreases !done, |all| - ti
      {
        done := EnqueueRound(newNode);
      }
    }

    /** One pass of `enqueue`'s loop; `done` when `newNode` was linked. */
    method EnqueueRound(newNode: Node) returns (done: bool)
      requires Valid() && newNode !in Repr && newNode.next == null && newNode.idx == |all|
      modifies Repr
      ensures Valid() && head == old(head) && freed == old(freed)
      ensures done ==> Contents == old(Contents) + [newNode.value] && Repr == old(Repr) + {newNode}
      ensures !done ==> Contents == old(Contents) && Repr == old(Repr) && all == old(all) && ti > old(ti)
    {
      var tailPtr := tail;
      var nextPtr := tailPtr.next;
      if tailPtr == tail {
        if nextPtr == null {
          var linked := CasNext(tailPtr, newNode);
          if linked {
            var _ := CasTail(tailPtr, newNode);
            return true;
          } else {
            return false;
          }
        } else {
          var _ := CasTail(tailPtr, nextPtr);
          return false;
        }
      }
      assert false;
    }

    /**
     * `dequeue` as written: None when head and tail coincide and the sentinel
     * has no `next`; a lagging tail is advanced; otherwise head is swung to
     * `next`, and the old sentinel is freed and its own value returned.
     */
    method Dequeue() returns (r: Option<u64>)
      requires Valid()
      modifies this
      ensures Valid() && Repr == old(Repr) && all == old(all)
      ensures r.None? <==> old(Contents) == []
      ensures r.None? ==> Contents == [] && head == old(head) && freed == old(freed)
      ensures r.Some? ==> r.value == old(head.value) && head.value == old(Contents)[0]
      ensures r.Some? ==> Contents == old(Contents)[1..] && freed == old(freed) + {old(head)}
    {
      while true
        invariant Valid()
        invariant Contents == old(Contents) && Repr == old(Repr) && all == old(all)
        invariant head == old(head) && h == old(h) && freed == old(freed)
        decreases |all| - ti
      {
        var headPtr := head;
        var tailPtr := tail;
        var nextPtr := headPtr.next;
        if headPtr == head {
          NullNextIsLast(h);
          if headPtr == tailPtr {
            if nextPtr == null {
              return None;
            }
            var _ := CasTail(tailPtr, nextPtr);
          } else {
            var swung := CasHead(headPtr, nextPtr);
            if swung {
              Free(headPtr);
              return Some(headPtr.value);
            } else {
              continue;
            }
          }
        }
      }
    }

    /**
     * The dequeue the test at lines 158-189 expects: the same steps, but the
     * value returned is the one in `next`, read before the head CAS.
     */
    method DequeueIntended() returns (r: Option<u64>)
      requires Valid()
      modifies this
      ensures Valid() && Repr == old(Repr) && all == old(all)
      ensures r.None? <==> old(Contents) == []
      ensures r.None? ==> Contents == [] && head == old(head) && freed == old(freed)
      ensures r.Some? ==> r.value == old(Contents)[0] && Contents == old(Contents)[1..]
      ensures r.Some? ==> freed == old(freed) + {old(head)}
    {
      while true
        invariant Valid()
        invariant Contents == old(Contents) && Repr == old(Repr) && all == old(all)
        invariant head == old(head) && h == old(h) && freed == old(freed)
        decreases |all| - ti
      {
        var headPtr := head;
        var tailPtr := tail;
        var nextPtr := headPtr.next;
        if headPtr == head {
          NullNextIsLast(h);
          if headPtr == tailPtr {
            if nextPtr == null {
              return None;
            }
            var _ := CasTail(tailPtr, nextPtr);
          } else {
            var nextNode: Node := nextPtr;
            var val := nextNode.value;
            var swung := CasHead(headPtr, nextNode);
            if swung {
              Free(headPtr);
              return Some(val);
            } else {
              continue;
            }
          }
        }
      }
    }

    /**
     * `drop`: the walk from head along `next`, freeing each node; `dropped`
     * lists the nodes in the order they are freed.
     */
    method Drop() returns (dropped: seq<Node>)
      requires Valid()
      ensures dropped == all[h..]
      ensures forall i, j :: 0 <= i < j < |dropped| ==> dropped[i] != dropped[j]
      ensures forall i :: 0 <= i < |dropped| ==> dropped[i] !in freed
    {
      dropped := [];
      var current: Node? := head;
      ghost var k := h;
      while current != null
        invariant h <= k <= |all| && dropped == all[h..k]
        invariant current == if k < |all| then all[k] else null
        decreases |all| - k
      {
        var node: Node := current;
        NullNextIsLast(k);
        dropped := dropped + [node];
        current := node.next;
        k := k + 1;
      }
      assert forall i :: 0 <= i < |dropped| ==> dropped[i].idx == h + i;
    }
  }

  /** With a valid list, the queue is empty exactly when the source's None test holds. */
  lemma EmptyIff(q: Queue)
    requires q.Valid()
    ensures q.Contents == [] <==> q.head == q.tail && q.head.next == null
  {
    q.NullNextIsLast(q.h);
  }

  /** Lines 163-165 of the test: enqueue 1, 2, 3 on the new queue. */
  method BasicsFill(q: Queue)
    requires q.Valid() && q.Contents == []
    modifies q.Repr
    ensures q.Valid() && fresh(q.Repr - old(q.Repr)) && q.Contents == [1, 2, 3]
    ensures q.head == old(q.head)
  {
    q.Enqueue(1);
    q.Enqueue(2);
    q.Enqueue(3);
  }

  /** Lines 168-173 as written: two dequeues give the dummy's 0 and then 1. */
  method AsWrittenRefill(q: Queue) returns (outs: seq<Option<u64>>)
    requires q.Valid() && q.Contents == [1, 2, 3] && q.head.value == 0
    modifies q.Repr
    ensures q.Valid() && fresh(q.Repr - old(q.Repr)) && q.Contents == [3, 4, 5] && q.head.value == 2
    ensures outs == [Some(0), Some(1)]
  {
    var a := q.Dequeue();
    var b := q.Dequeue();
    q.Enqueue(4);
    q.Enqueue(5);
    outs := [a, b];
  }

  /** Lines 176-179 as written: the dequeues give 2, 3, 4, then None. */
  method AsWrittenDrain(q: Queue) returns (outs: seq<Option<u64>>)
    requires q.Valid() && q.Contents == [3, 4, 5] && q.head.value == 2
    modifies q.Repr
    ensures q.Valid() && q.Repr == old(q.Repr) && q.Contents == [] && q.head.value == 5
    ensures outs == [Some(2), Some(3), Some(4), None]
  {
    var c := q.Dequeue();
    var d := q.Dequeue();
    var e := q.Dequeue();
    var f := q.Dequeue();
    outs := [c, d, e, f];
  }

  /** Lines 182-188 as written: enqueue 6, 7, and the dequeues give 5, 6, None. */
  method AsWrittenAgain(q: Queue) returns (outs: seq<Option<u64>>)
    requires q.Valid() && q.Contents == [] && q.head.value == 5
    modifies q.Repr
    ensures q.Valid() && fresh(q.Repr - old(q.Repr)) && q.Contents == []
    ensures outs == [Some(5), Some(6), None]
  {
    q.Enqueue(6);
    q.Enqueue(7);
    var g := q.Dequeue();
    var h := q.Dequeue();
    var i := q.Dequeue();
    outs := [g, h, i];
  }

  /**
   * The test at lines 158-189 replayed on the dequeue as written: every value
   * comes out one call late, so the first result is 0 where line 168
   * expects `Some(1)`.
   */
  method BasicsAsWritten() returns (outs: seq<Option<u64>>)
    ensures outs == [Some(0), Some(1), Some(2), Some(3), Some(4), None, Some(5), Some(6), None]
    ensures outs[0] != Some(1)
  {
    var q := new Queue();
    BasicsFill(q);
    var first := AsWrittenRefill(q);
    var second := AsWrittenDrain(q);
    var third := AsWrittenAgain(q);
    outs := first + second + third;
  }

  /** Lines 168-173 with the intended dequeue: dequeue 1, 2, then enqueue 4, 5. */
  method IntendedRefill(q: Queue) returns (outs: seq<Option<u64>>)
    requires q.Valid() && q.Contents == [1, 2, 3]
    modifies q.Repr
    ensures q.Valid() && fresh(q.Repr - old(q.Repr)) && q.Contents == [3, 4, 5]
    ensures outs == [Some(1), Some(2)]
  {
    var a := q.DequeueIntended();
    var b := q.DequeueIntended();
    q.Enqueue(4);
    q.Enqueue(5);
    outs := [a, b];
  }

  /** Lines 176-179 with the intended dequeue: 3, 4, 5, then None. */
  method IntendedDrain(q: Queue) returns (outs: seq<Option<u64>>)
    requires q.Valid() && q.Contents == [3, 4, 5]
    modifies q.Repr
    ensures q.Valid() && q.Repr == old(q.Repr) && q.Contents == []
    ensures outs == [Some(3), Some(4), Some(5), None]
  {
    var c := q.DequeueIntended();
    var d := q.DequeueIntended();
    var e := q.DequeueIntended();
    var f := q.DequeueIntended();
    outs := [c, d, e, f];
  }

  /** Lines 182-188 with the intended dequeue: enqueue 6, 7, dequeue 6, 7, None. */
  method IntendedAgain(q: Queue) returns (outs: seq<Option<u64>>)
    requires q.Valid() && q.Contents == []
    modifies q.Repr
    ensures q.Valid() && fresh(q.Repr - old(q.Repr)) && q.Contents == []
    ensures outs == [Some(6), Some(7), None]
  {
    q.Enqueue(6);
    q.Enqueue(7);
    var g := q.DequeueIntended();
    var h := q.DequeueIntended();
    var i := q.DequeueIntended();
    outs := [g, h, i];
  }

  /** The test at lines 158-189, met by the intended dequeue. */
  method BasicsIntended() returns (outs: seq<Option<u64>>)
    ensures outs == [Some(1), Some(2), Some(3), Some(4), Some(5), None, Some(6), Some(7), None]
  {
    var q := new Queue();
    BasicsFill(q);
    var first := IntendedRefill(q);
    var second := IntendedDrain(q);
    var third := IntendedAgain(q);
    outs := first + second + third;
  }
}
