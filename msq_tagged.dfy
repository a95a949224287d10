/**
 * The Michael-Scott queue of ms-rust/src/old_code/msq_tagged_ptr.rs. `head`,
 * `tail`, `first` and every `next` link are tagged words: a node address
 * with a u16 tag in bits 48..63. Equality of tagged words is equality of both
 * parts (OldAtomicTagged.EqIffFields), so here a word is the pair
 * `Tagged(ptr, tag)`. Dequeue frees nothing: the dequeued nodes stay linked
 * from `first` until `Drop`.
 */
module MsqTagged {
  import opened Wrappers
  import opened MachineInts

  /** The tag after one more CAS, `tag() + 1` on a u16, wrapping past 65535. */
  function Bump(t: u16): (r: u16)
    ensures r as int == (t as int + 1) % 0x1_0000
  {
    if t == 0xFFFF then 0 else t + 1
  }

  /** The tag of a word that has been swung `n` times counts `n` modulo 2^16. */
  function Count(n: nat): u16
  {
    (n % 0x1_0000) as u16
  }

  /** One more swing adds one to the tag. */
  lemma BumpCount(n: nat)
    ensures Bump(Count(n)) == Count(n + 1)
  {
    if n % 0x1_0000 == 0xFFFF {
      assert (n + 1) % 0x1_0000 == 0;
    } else {
      assert (n + 1) % 0x1_0000 == n % 0x1_0000 + 1;
    }
  }

  /** A tagged word: a node address, or null, with its tag. */
  datatype Tagged = Tagged(ptr: Node?, tag: u16)

  class Node {
    const value: i32
    var next: Tagged
    /** The node's position in its queue's list, which keeps the nodes distinct. */
    ghost var idx: nat

    /** `Node::new`: the value, and the default `next`, null with tag 0. */
    constructor (value: i32)
      ensures this.value == value && next == Tagged(null, 0) && idx == 0
    {
      this.value := value;
      next := Tagged(null, 0);
      idx := 0;
    }
  }

  class Queue {
    var head: Tagged
    var tail: Tagged
    var first: Tagged
    /**
     * Every node ever linked, in list order from the first dummy: `all[h]` is
     * the sentinel, `all[h+1..]` hold the contents and `all[ti]` is the tail.
     */
    ghost var all: seq<Node>
    ghost var h: nat
    ghost var ti: nat
    ghost var Contents: seq<i32>
    ghost var Repr: set<object>

    ghost predicate Valid()
      reads this, Repr
    {
      this in Repr
      && h <= ti < |all|
      && head == Tagged(all[h], Count(h))
      && tail == Tagged(all[ti], Count(ti))
      && first == Tagged(all[0], 0)
      && (forall i :: 0 <= i < |all| ==> all[i] in Repr && all[i].idx == i)
      && (forall i :: 0 <= i < |all| - 1 ==> all[i].next == Tagged(all[i + 1], 1))
      && all[|all| - 1].next == Tagged(null, 0)
      && |Contents| == |all| - h - 1
      && (forall i :: 0 <= i < |Contents| ==> Contents[i] == all[h + 1 + i].value)
    }

    /** Only the last node of the list has a null `next` address. */
    lemma NullNextIsLast(i: nat)
      requires Valid() && i < |all|
      ensures all[i].next.ptr == null <==> i == |all| - 1
    {
      if i < |all| - 1 {
        assert all[i].next == Tagged(all[i + 1], 1);
      }
    }

    /** `new`: head, tail and first at one dummy node holding -1, all with tag 0. */
    constructor ()
      ensures Valid() && fresh(Repr) && Contents == []
      ensures head == tail == first && head.tag == 0 && head.ptr != null
      ensures head.ptr.value == -1 && head.ptr.next == Tagged(null, 0)
    {
      var dummy := new Node(-1);
      head, tail, first := Tagged(dummy, 0), Tagged(dummy, 0), Tagged(dummy, 0);
      all, h, ti := [dummy], 0, 0;
      Contents := [];
      Repr := {this, dummy};
    }

    /** The CAS of `node.next` from `expected` (a null address) to `desired`. */
    method CasNext(node: Node, expected: Tagged, desired: Tagged) returns (ok: bool)
      requires Valid() && node == tail.ptr && expected.ptr == null && desired.tag == Bump(expected.tag)
      requires desired.ptr != null && desired.ptr !in Repr && desired.ptr.next == Tagged(null, 0)
      requires desired.ptr.idx == |all|
      modifies node`next, this`all, this`Contents, this`Repr
      ensures Valid() && ok == (old(node.next) == expected)
      ensures ok ==> node.next == desired && all == old(all) + [desired.ptr]
      ensures ok ==> Contents == old(Contents) + [desired.ptr.value] && Repr == old(Repr) + {desired.ptr}
      ensures !ok ==> all == old(all) && Contents == old(Contents) && Repr == old(Repr)
    {
      if node.next == expected {
        NullNextIsLast(ti);
        var d: Node := desired.ptr;
        node.next := desired;
        all := all + [d];
        Contents, Repr := Contents + [d.value], Repr + {d};
        ok := true;
      } else {
        ok := false;
      }
    }

    /** The CAS of `tail` from `expected` to `desired`, used only to move tail one node on. */
    method CasTail(expected: Tagged, desired: Tagged) returns (ok: bool)
      requires Valid()
      requires expected == tail ==> desired.ptr != null && desired.ptr == tail.ptr.next.ptr
      requires expected == tail ==> desired.tag == Bump(tail.tag)
      modifies this`tail, this`ti
      ensures Valid()
      ensures ok == (old(tail) == expected)
      ensures ok ==> tail == desired && ti == old(ti) + 1
      ensures !ok ==> tail == old(tail) && ti == old(ti)
    {
      if tail == expected {
        NullNextIsLast(ti);
        BumpCount(ti);
        tail, ti := desired, ti + 1;
        ok := true;
      } else {
        ok := false;
      }
    }

    /** The CAS of `head` from `expected` to `desired`, used only past a non-lagging tail. */
    method CasHead(expected: Tagged, desired: Tagged) returns (ok: bool)
      requires Valid()
      requires expected == head ==> head.ptr != tail.ptr && desired.ptr == head.ptr.next.ptr
      requires expected == head ==> desired.tag == Bump(head.tag)
      modifies this`head, this`h, this`Contents
      ensures Valid()
      ensures ok == (old(head) == expected)
      ensures ok ==> head == desired && h == old(h) + 1 && Contents == old(Contents)[1..]
      ensures !ok ==> head == old(head) && h == old(h) && Contents == old(Contents)
    {
      if head == expected {
        NullNextIsLast(h);
        BumpCount(h);
        head, h := desired, h + 1;
        Contents := Contents[1..];
        ok := true;
      } else {
        ok := false;
      }
    }

    /**
     * `enqueue`: on a fresh tail snapshot, link the node at a null `next` with
     * that word's tag + 1 and then try to swing tail with its tag + 1; a
     * lagging tail is first swung to its `next`.
     */
    method Enqueue(value: i32)
      requires Valid()
      modifies Repr
      ensures Valid() && fresh(Repr - old(Repr))
      ensures Contents == old(Contents) + [value]
      ensures head == old(head) && first == old(first)
    {
      var node := new Node(value);
      node.idx := |all|;
      var done := false;
      while !done
        invariant Valid() && fresh(node) && node.value == value && head == old(head) && first == old(first)
        invariant !done ==> node.next == Tagged(null, 0) && node.idx == |all|
        invariant !done ==> Contents == old(Contents) && Repr == old(Repr) && all == old(all)
        invariant done ==> Contents == old(Contents) + [value] && Repr == old(Repr) + {node}
        decreases !done, |all| - ti
      {
        done := EnqueueRound(node);
      }
    }

    /** One pass of `enqueue`'s loop; `done` when `node` was linked. */
    method EnqueueRound(node: Node) returns (done: bool)
      requires Valid() && node !in Repr && node.next == Tagged(null, 0) && node.idx == |all|
      modifies Repr
      ensures Valid() && head == old(head) && first == old(first)
      ensures done ==> Contents == old(Contents) + [node.value] && Repr == old(Repr) + {node}
      ensures !done ==> Contents == old(Contents) && Repr == old(Repr) && all == old(all) && ti > old(ti)
    {
      var taggedTail := tail;
      var tailNode: Node := taggedTail.ptr;
      var taggedNext := tailNode.next;
      if taggedTail == tail {
        if taggedNext.ptr == null {
          var linked := CasNext(tailNode, taggedNext, Tagged(node, Bump(taggedNext.tag)));
          if linked {
            var _ := CasTail(taggedTail, Tagged(node, Bump(taggedTail.tag)));
            return true;
          } else {
            return false;
          }
        }
        // Swing a lagging tail to its `next`.
        var _ := CasTail(taggedTail, Tagged(taggedNext.ptr, Bump(taggedTail.tag)));
        return false;
      }
      assert false;
    }

    /**
     * `dequeue`: None when head and tail hold the same address and the
     * sentinel's `next` is null; a lagging tail is advanced; otherwise the
     * value of `next` is read and head is swung to it with its tag + 1.
     */
    method Dequeue() returns (r: Option<i32>)
      requires Valid()
      modifies this
      ensures Valid() && Repr == old(Repr) && all == old(all) && first == old(first)
      ensures r.None? <==> old(Contents) == []
      ensures r.None? ==> Contents == [] && head == old(head)
      ensures r.Some? ==> r.value == old(Contents)[0] && Contents == old(Contents)[1..]
      ensures r.Some? ==> head == Tagged(old(head.ptr.next.ptr), Bump(old(head.tag)))
    {
      while true
        invariant Valid()
        invariant Contents == old(Contents) && Repr == old(Repr) && all == old(all)
        invariant head == old(head) && h == old(h) && first == old(first)
        decreases |all| - ti
      {
        var taggedHead := head;
        var taggedTail := tail;
        var headNode: Node := taggedHead.ptr;
        var taggedNext := headNode.next;
        if taggedHead == head {
          NullNextIsLast(h);
          if taggedHead.ptr == taggedTail.ptr {
            if taggedNext.ptr == null {
              return None;
            }
            // Tail is lagging: advance it.
            var _ := CasTail(taggedTail, Tagged(taggedNext.ptr, Bump(taggedTail.tag)));
          } else {
            var nextNode: Node := taggedNext.ptr;
            var dequeuedValue := nextNode.value;
            var swung := CasHead(taggedHead, Tagged(nextNode, Bump(taggedHead.tag)));
            if swung {
              return Some(dequeuedValue);
            } else {
              continue;
            }
          }
        }
      }
    }

    /**
     * `drop`: the walk from `first` along the `next` addresses, freeing each
     * node; `freed` lists the nodes in the order they are freed.
     */
    method Drop() returns (freed: seq<Node>)
      requires Valid()
      ensures freed == all
      ensures forall i, j :: 0 <= i < j < |freed| ==> freed[i] != freed[j]
    {
      freed := [];
      var current := first.ptr;
      ghost var k := 0;
      while current != null
        invariant 0 <= k <= |all| && freed == all[..k]
        invariant current == if k < |all| then all[k] else null
        decreases |all| - k
      {
        var node: Node := current;
        freed := freed + [node];
        current := node.next.ptr;
        k := k + 1;
      }
      assert forall i :: 0 <= i < |freed| ==> freed[i].idx == i;
    }
  }

  /** With a valid list, the queue is empty exactly when the source's None test holds. */
  lemma EmptyIff(q: Queue)
    requires q.Valid()
    ensures q.Contents == [] <==> q.head.ptr == q.tail.ptr && q.head.ptr.next.ptr == null
  {
    q.NullNextIsLast(q.h);
  }
}
