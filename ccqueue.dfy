/**
 * The CC-queue of c++-reference/third-party/ccqueue/ccqueue.c: a linked
 * list whose first node is a dummy, with counters of the enqueues and
 * dequeues done, where each handle keeps at most one spare node for its
 * next enqueue. Enqueues and dequeues run serially through a combining
 * lock (`ccsynch_apply`); with a single thread that is a direct call of
 * `serialEnqueue` or `serialDequeue`, which is how it is modelled.
 *
 * A `void *` item is a `nat`; `EMPTY` is the pointer value `(void *) -1`.
 */
module Ccqueue {
  /** `(void *) -1` on a 64-bit target. */
  const EMPTY: nat := 0xFFFF_FFFF_FFFF_FFFF

  class Node {
    var data: nat
    var next: Node?

    /** `align_malloc`: a node whose fields the caller sets. */
    constructor ()
      ensures next == null
    {
      data, next := 0, null;
    }
  }

  /** A thread's handle: the spare node it may reuse. */
  class Handle {
    var next: Node?

    /** `queue_register`: a handle with a spare node. */
    constructor ()
      ensures next != null && fresh(next)
    {
      next := new Node();
    }
  }

  class Queue {
    var head: Node
    var tail: Node
    var numEnqs: nat
    var numDeqs: nat
    /** The nodes from `head` to `tail`; the first is the dummy. */
    ghost var nodes: seq<Node>
    /** The queued items, oldest first: the data of the nodes after the dummy. */
    ghost var Contents: seq<nat>
    /** The vacated nodes dequeue hands to `free`, in order. */
    ghost var freed: seq<Node>

    ghost predicate Valid()
      reads this, nodes
    {
      && |nodes| == |Contents| + 1
      && nodes[0] == head && nodes[|nodes| - 1] == tail
      && (forall i, j :: 0 <= i < j < |nodes| ==> nodes[i] != nodes[j])
      && (forall i :: 0 <= i < |nodes| - 1 ==> nodes[i].next == nodes[i + 1])
      && tail.next == null
      && (forall i :: 0 <= i < |Contents| ==> nodes[i + 1].data == Contents[i])
      && numEnqs == numDeqs + |Contents|
    }

    /** A handle's spare node is not one of the queue's nodes. */
    ghost predicate Spare(h: Handle)
      reads this, h
    {
      h.next == null || h.next !in nodes
    }

    /** `queue_init`: a lone dummy node with null data and both counters at zero. */
    constructor ()
      ensures Valid() && Contents == [] && numEnqs == 0 && numDeqs == 0 && freed == []
      ensures head == tail && fresh(head) && head.data == 0
    {
      var dummy := new Node();
      dummy.data := 0;
      dummy.next := null;
      head, tail := dummy, dummy;
      numDeqs, numEnqs := 0, 0;
      nodes := [dummy];
      Contents := [];
      freed := [];
    }

    /** `serialEnqueue`: link `node` after the tail and count the enqueue. */
    method SerialEnqueue(node: Node)
      requires Valid() && node !in nodes && node.next == null
      modifies this, tail
      ensures Valid()
      ensures nodes == old(nodes) + [node] && Contents == old(Contents) + [node.data]
      ensures head == old(head) && tail == node && freed == old(freed)
      ensures numEnqs == old(numEnqs) + 1 && numDeqs == old(numDeqs)
    {
      tail.next := node;
      tail := node;
      numEnqs := numEnqs + 1;
      nodes := nodes + [node];
      Contents := Contents + [node.data];
    }

    /**
     * `serialDequeue`: when a node follows the dummy, move its data into
     * the dummy, make it the new dummy, count the dequeue and return the
     * old dummy; otherwise return `(void *) -1`, here `null`, and change
     * nothing.
     */
    method SerialDequeue() returns (node: Node?)
      requires Valid()
      modifies this, head
      ensures Valid() && tail == old(tail) && numEnqs == old(numEnqs)
      ensures old(Contents) == [] ==> node == null && unchanged(this) && unchanged(old(head))
      ensures old(Contents) != [] ==>
        && node == old(head) && node.data == old(Contents[0]) && node !in nodes
        && nodes == old(nodes[1..]) && Contents == old(Contents[1..])
        && head == old(nodes[1]) && numDeqs == old(numDeqs) + 1 && freed == old(freed)
    {
      node := head;
      var next := node.next;
      assert |nodes| > 1 ==> next == nodes[1];
      if next != null {
        node.data := next.data;
        head := next;
        numDeqs := numDeqs + 1;
        assert forall i :: 0 <= i < |nodes| - 1 ==> nodes[1..][i] == nodes[i + 1];
        nodes := nodes[1..];
        Contents := Contents[1..];
      } else {
        node := null;
      }
    }

    /**
     * `enqueue`: take the handle's spare node, or a new one when it has
     * none, store `data` in it and append it.
     */
    method Enqueue(h: Handle, data: nat)
      requires Valid() && Spare(h)
      modifies this, tail, h, h.next
      ensures Valid() && Spare(h) && h.next == null
      ensures Contents == old(Contents) + [data]
      ensures nodes[..|nodes| - 1] == old(nodes)
      ensures old(h.next) != null ==> nodes[|nodes| - 1] == old(h.next)
      ensures old(h.next) == null ==> fresh(nodes[|nodes| - 1])
      ensures numEnqs == old(numEnqs) + 1 && numDeqs == old(numDeqs) && freed == old(freed)
    {
      var node := h.next;
      if node != null {
        h.next := null;
      } else {
        node := new Node();
      }
      node.data := data;
      node.next := null;
      SerialEnqueue(node);
    }

    /**
     * `dequeue`: the oldest item, or `EMPTY` when there is none; the node
     * the dequeue vacates becomes the handle's spare, or is freed when the
     * handle already has one.
     */
    method Dequeue(h: Handle) returns (data: nat)
      requires Valid() && Spare(h)
      modifies this, head, h
      ensures Valid() && Spare(h) && numEnqs == old(numEnqs)
      ensures data == if old(Contents) == [] then EMPTY else old(Contents[0])
      ensures Contents == if old(Contents) == [] then [] else old(Contents[1..])
      ensures nodes == if old(Contents) == [] then old(nodes) else old(nodes[1..])
      ensures h.next == if old(Contents) == [] || old(h.next) != null then old(h.next) else old(head)
      ensures freed == if old(Contents) == [] || old(h.next) == null then old(freed) else old(freed) + [old(head)]
    {
      var node := SerialDequeue();
      if node == null {
        data := EMPTY;
      } else {
        data := node.data;
        if h.next == null {
          h.next := node;
        } else {
          freed := freed + [node];
        }
      }
    }

    /** `queue_size`: the enqueues done less the dequeues done, which is the number of queued items. */
    method Size() returns (n: nat)
      requires Valid()
      ensures n == |Contents|
    {
      n := numEnqs - numDeqs;
    }

    /**
     * `queue_free`: dequeue until the result is null or `EMPTY`, so the
     * drain stops after the first queued null or `EMPTY` item.
     */
    method Free(h: Handle)
      requires Valid() && Spare(h)
      modifies this, nodes, h
      ensures Valid() && Spare(h)
      ensures Contents == old(Contents)[Drained(old(Contents))..]
    {
      ghost var c0 := Contents;
      ghost var n0 := nodes;
      var r := Dequeue(h);
      ghost var k := if c0 == [] then 0 else 1;
      while r != 0 && r != EMPTY
        invariant Valid() && Spare(h)
        invariant k <= |c0| && Contents == c0[k..] && nodes == n0[k..]
        invariant Stops(r) ==> Drained(c0) == k
        invariant !Stops(r) ==> 0 < k && Drained(c0) == k + Drained(c0[k..])
        decreases |Contents| + if Stops(r) then 0 else 1
      {
        if Contents != [] {
          assert c0[k..][1..] == c0[k + 1..];
        }
        r := Dequeue(h);
        k := if Contents == c0[k..] then k else k + 1;
        assert n0[k - 1..][1..] == n0[k..];
      }
    }
  }

  /** The item values that end the drain of `queue_free`. */
  predicate Stops(x: nat)
  {
    x == 0 || x == EMPTY
  }

  /** How many items `queue_free` dequeues from the queued items `c`: up to and including the first that stops it. */
  function Drained(c: seq<nat>): (k: nat)
    ensures k <= |c|
    ensures forall i :: 0 <= i < k - 1 ==> !Stops(c[i])
    ensures k < |c| ==> 0 < k && Stops(c[k - 1])
  {
    if c == [] then 0 else if Stops(c[0]) then 1 else 1 + Drained(c[1..])
  }
}
