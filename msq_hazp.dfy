/**
 * The Michael-Scott queue of ms-rust/src/msq_hazp.rs: a linked list whose
 * first node is a sentinel, with `head` at the sentinel and `tail` at the
 * last node or lagging behind it. Values are i32. Hazard-pointer protection
 * is left to the library; retiring a node becomes adding it to the ghost set
 * `retired`.
 */
module MsqHazp {
  import opened Wrappers
  import opened MachineInts

  class Node {
    const value: i32
    var next: Node?
    /** The node's position in its queue's list, which keeps the nodes distinct. */
    ghost var idx: nat

    constructor (value: i32)
      ensures this.value == value && next == null && idx == 0
    {
      this.value := value;
      next := null;
      idx := 0;
    }
  }

  class Queue {
    var head: Node
    var tail: Node
    /**
     * Every node this queue has linked, in list order: `all[h]` is the
     * sentinel, `all[h+1..]` hold the contents and `all[ti]` is the tail.
     */
    ghost var all: seq<Node>
    ghost var h: nat
    ghost var ti: nat
    ghost var retired: set<Node>
    ghost var Contents: seq<i32>
    ghost var Repr: set<object>

    ghost predicate Valid()
      reads this, Repr
    {
      this in Repr && retired <= Repr
      && h <= ti < |all|
      && head == all[h] && tail == all[ti]
      && (forall i :: 0 <= i < |all| ==> all[i] in Repr && all[i].idx == i)
      && (forall i :: h <= i < |all| - 1 ==> all[i].next == all[i + 1])
      && all[|all| - 1].next == null
      && (forall n :: n in retired ==> n.idx < h)
      && |Contents| == |all| - h - 1
      && (forall i :: 0 <= i < |Contents| ==> Contents[i] == all[h + 1 + i].value)
    }

    /** Only the last node of the list has a null `next`. */
    lemma NullNextIsLast(i: nat)
      requires Valid() && h <= i < |all|
      ensures all[i].next == null <==> i == |all| - 1
    {
      if i < |all| - 1 {
        assert all[i].next == all[i + 1];
      }
    }

    /** `new`: head and tail at one dummy node holding -1. */
    constructor ()
      ensures Valid() && fresh(Repr)
      ensures Contents == [] && retired == {}
      ensures head == tail && head.value == -1 && head.next == null
    {
      var dummy := new Node(-1);
      head, tail := dummy, dummy;
      all, h, ti := [dummy], 0, 0;
      retired, Contents := {}, [];
      Repr := {this, dummy};
    }

    /** The CAS of `node.next` from null to `desired`: it links `desired` after the last node. */
    method CasNext(node: Node, desired: Node) returns (ok: bool)
      requires Valid() && node == tail
      requires desired !in Repr && desired.next == null && desired.idx == |all|
      modifies node`next, this`all, this`Contents, this`Repr
      ensures Valid() && ok == (old(node.next) == null)
      ensures ok ==> all == old(all) + [desired] && Contents == old(Contents) + [desired.value]
      ensures ok ==> Repr == old(Repr) + {desired} && node.next == desired
      ensures !ok ==> all == old(all) && Contents == old(Contents) && Repr == old(Repr)
    {
      NullNextIsLast(ti);
      if node.next == null {
        node.next := desired;
        all := all + [desired];
        Contents, Repr := Contents + [desired.value], Repr + {desired};
        ok := true;
      } else {
        ok := false;
      }
    }

    /** The CAS of `tail` from `expected` to `desired`, used only to move tail one node on. */
    method CasTail(expected: Node, desired: Node) returns (ok: bool)
      requires Valid() && (expected == tail ==> tail.next == desired)
      modifies this`tail, this`ti
      ensures Valid()
      ensures ok == (old(tail) == expected)
      ensures ok ==> tail == desired && ti == old(ti) + 1
      ensures !ok ==> tail == old(tail) && ti == old(ti)
    {
      if tail == expected {
        NullNextIsLast(ti);
        tail, ti := desired, ti + 1;
        ok := true;
      } else {
        ok := false;
      }
    }

    /** The CAS of `head` from `expected` to `desired`, used only past a non-lagging tail. */
    method CasHead(expected: Node, desired: Node) returns (ok: bool)
      requires Valid() && (expected == head ==> head != tail && head.next == desired)
      modifies this`head, this`h, this`Contents
      ensures Valid()
      ensures ok == (old(head) == expected)
      ensures ok ==> head == desired && h == old(h) + 1 && Contents == old(Contents)[1..]
      ensures !ok ==> head == old(head) && h == old(h) && Contents == old(Contents)
    {
      if head == expected {
        head, h := desired, h + 1;
        Contents := Contents[1..];
        ok := true;
      } else {
        ok := false;
      }
    }

    /** Retiring a node unlinked by a head CAS: it joins the ghost set `retired`. */
    ghost method Retire(n: Node)
      requires Valid() && 0 < h && n == all[h - 1]
      modifies this`retired
      ensures Valid() && retired == old(retired) + {n}
    {
      retired := retired + {n};
    }

    /**
     * `enqueue`: link a new node at a null `next` of the tail snapshot, then
     * try to move tail onto it; a lagging tail is first swung to its `next`.
     */
    method Enqueue(value: i32)
      requires Valid()
      modifies Repr
      ensures Valid() && fresh(Repr - old(Repr))
      ensures Contents == old(Contents) + [value]
      ensures head == old(head) && retired == old(retired)
    {
      var node := new Node(value);
      node.idx := |all|;
      var done := false;
      while !done
        invariant Valid() && fresh(node) && node.value == value && head == old(head) && retired == old(retired)
        invariant !done ==> node.next == null && node.idx == |all|
        invariant !done ==> Contents == old(Contents) && Repr == old(Repr) && all == old(all)
        invariant done ==> Contents == old(Contents) + [value] && Repr == old(Repr) + {node}
        decreases !done, |all| - ti
      {
        done := EnqueueRound(node);
      }
    }

    /** One pass of `enqueue`'s loop; `done` when `node` was linked. */
    method EnqueueRound(node: Node) returns (done: bool)
      requires Valid() && node !in Repr && node.next == null && node.idx == |all|
      modifies Repr
      ensures Valid() && head == old(head) && retired == old(retired)
      ensures done ==> Contents == old(Contents) + [node.value] && Repr == old(Repr) + {node}
      ensures !done ==> Contents == old(Contents) && Repr == old(Repr) && all == old(all) && ti > old(ti)
    {
      var tailPtr := tail;
      var nextPtr := tailPtr.next;
      if tailPtr == tail {
        if nextPtr == null {
          var linked := CasNext(tailPtr, node);
          if linked {
            var _ := CasTail(tailPtr, node);
            return true;
          } else {
            return false;
          }
        }
        // Swing a lagging tail to its `next`.
        var _ := CasTail(tailPtr, nextPtr);
        return false;
      }
      assert false;
    }

    /**
     * `dequeue`: None when head and tail coincide and the sentinel has no
     * `next`; when they coincide otherwise the lagging tail is advanced;
     * else the value of `next` is read, head is swung to `next` and the old
     * sentinel is retired.
     */
    method Dequeue() returns (r: Option<i32>)
      requires Valid()
      modifies this
      ensures Valid() && Repr == old(Repr) && all == old(all)
      ensures r.None? <==> old(Contents) == []
      ensures r.None? ==> Contents == [] && head == old(head) && retired == old(retired)
      ensures r.Some? ==> r.value == old(Contents)[0] && Contents == old(Contents)[1..]
      ensures r.Some? ==> head == old(head.next) && retired == old(retired) + {old(head)}
    {
      while true
        invariant Valid()
        invariant Contents == old(Contents) && Repr == old(Repr) && all == old(all)
        invariant head == old(head) && h == old(h) && retired == old(retired)
        decreases |all| - ti
      {
        var headPtr := head;
        var tailPtr := tail;
        var nextPtr := headPtr.next;
        if headPtr == head {
          NullNextIsLast(h);
          if headPtr == tailPtr {
            if nextPtr == null {
              return None;
            }
            // Tail is lagging: advance it.
            var _ := CasTail(tailPtr, nextPtr);
          } else {
            // Tail lies past the sentinel, so `next` is a node.
            var nextNode: Node := nextPtr;
            var val := nextNode.value;
            var swung := CasHead(headPtr, nextNode);
            if swung {
              Retire(headPtr);
              return Some(val);
            } else {
              continue;
            }
          }
        }
      }
    }
  }

  /** With a valid list, the queue is empty exactly when the source's None test holds. */
  lemma EmptyIff(q: Queue)
    requires q.Valid()
    ensures q.Contents == [] <==> q.head == q.tail && q.head.next == null
  {
    q.NullNextIsLast(q.h);
  }

  /** Lines 186-188 of the test: enqueue 1, 2, 3 on the new queue. */
  method BasicsFill(q: Queue)
    requires q.Valid() && q.Contents == []
    modifies q.Repr
    ensures q.Valid() && fresh(q.Repr - old(q.Repr)) && q.Contents == [1, 2, 3]
  {
    q.Enqueue(1);
    q.Enqueue(2);
    q.Enqueue(3);
  }

  /** Lines 191-196: dequeue 1 and 2, then enqueue 4 and 5. */
  method BasicsRefill(q: Queue) returns (outs: seq<Option<i32>>)
    requires q.Valid() && q.Contents == [1, 2, 3]
    modifies q.Repr
    ensures q.Valid() && fresh(q.Repr - old(q.Repr)) && q.Contents == [3, 4, 5]
    ensures outs == [Some(1), Some(2)]
  {
    var a := q.Dequeue();
    var b := q.Dequeue();
    q.Enqueue(4);
    q.Enqueue(5);
    outs := [a, b];
  }

  /** Lines 199-202: dequeue 3, 4, 5, and then None. */
  method BasicsDrain(q: Queue) returns (outs: seq<Option<i32>>)
    requires q.Valid() && q.Contents == [3, 4, 5]
    modifies q.Repr
    ensures q.Valid() && q.Repr == old(q.Repr) && q.Contents == []
    ensures outs == [Some(3), Some(4), Some(5), None]
  {
    var c := q.Dequeue();
    var d := q.Dequeue();
    var e := q.Dequeue();
    var f := q.Dequeue();
    outs := [c, d, e, f];
  }

  /** Lines 205-211: after running empty, enqueue 6, 7 and dequeue 6, 7, None. */
  method BasicsAgain(q: Queue) returns (outs: seq<Option<i32>>)
    requires q.Valid() && q.Contents == []
    modifies q.Repr
    ensures q.Valid() && fresh(q.Repr - old(q.Repr)) && q.Contents == []
    ensures outs == [Some(6), Some(7), None]
  {
    q.Enqueue(6);
    q.Enqueue(7);
    var g := q.Dequeue();
    var h := q.Dequeue();
    var i := q.Dequeue();
    outs := [g, h, i];
  }

  /** The in-file test at lines 181-212, replayed on the model. */
  method Basics() returns (outs: seq<Option<i32>>)
    ensures outs == [Some(1), Some(2), Some(3), Some(4), Some(5), None, Some(6), Some(7), None]
  {
    var q := new Queue();
    BasicsFill(q);
    var first := BasicsRefill(q);
    var second := BasicsDrain(q);
    var third := BasicsAgain(q);
    outs := first + second + third;
  }
}
