/**
 * Per-segment facts of a list of `PRQ` segment objects, kept apart so that
 * the queue proofs use each of them as one fact.
 */
module SegmentLinks {
  import P = Prq

  /**
   * Segment object `c[i]` has `n` cells, holds the value `ss[i]` and links
   * to `c[i + 1]`, or to null when it is the last.
   */
  ghost predicate SegHolds<T>(n: nat, c: seq<P.PRQ<T>>, ss: seq<P.Segment<T>>, i: nat)
    reads if i < |c| then {c[i], c[i].stamps, c[i].values} else {}
  {
    && i < |c| && i < |ss|
    && c[i].Wf() && c[i].n == n && c[i].State() == ss[i]
    && c[i].next == (if i + 1 < |c| then c[i + 1] else null)
  }

  /** Segment object `c[i]` and its two arrays are owned at position `i`. */
  ghost predicate OwnedAt<T>(c: seq<P.PRQ<T>>, own: map<object, nat>, i: nat)
  {
    && i < |c|
    && c[i] in own && own[c[i]] == i
    && c[i].stamps in own && own[c[i].stamps] == i
    && c[i].values in own && own[c[i].values] == i
  }

  /** Owning a new segment and its arrays at a new position keeps the old owners. */
  lemma OwnedExtend<T>(c: seq<P.PRQ<T>>, own: map<object, nat>, i: nat, x: P.PRQ<T>, k: nat)
    requires OwnedAt(c, own, i) && x !in own && x.stamps !in own && x.values !in own
    ensures OwnedAt(c + [x], own[x := k][x.stamps := k][x.values := k], i)
  {
  }

  /** Linking a segment after the last leaves the earlier ones' facts as they were. */
  lemma SegHoldsExtend<T>(n: nat, c: seq<P.PRQ<T>>, ss: seq<P.Segment<T>>, i: nat, x: P.PRQ<T>, s: P.Segment<T>)
    requires SegHolds(n, c, ss, i) && i + 1 < |c|
    ensures SegHolds(n, c + [x], ss + [s], i)
  {
  }

  /**
   * Linking a new, unowned segment `x` holding `s` after the last segment
   * `c[|c| - 1]`, whose `next` now points at `x`, extends the facts of
   * the segments from `h` on to the longer list.
   */
  lemma LinkAll<T>(n: nat, c: seq<P.PRQ<T>>, ss: seq<P.Segment<T>>, own: map<object, nat>, h: nat,
                   x: P.PRQ<T>, s: P.Segment<T>, own': map<object, nat>)
    requires h < |c| == |ss|
    requires forall i :: h <= i < |c| ==> OwnedAt(c, own, i)
    requires forall i :: h <= i < |c| - 1 ==> SegHolds(n, c, ss, i)
    requires c[|c| - 1].Wf() && c[|c| - 1].n == n && c[|c| - 1].State() == ss[|c| - 1]
    requires c[|c| - 1].next == x
    requires x.Wf() && x.n == n && x.State() == s && x.next == null
    requires x !in own && x.stamps !in own && x.values !in own
    requires own' == own[x := |c|][x.stamps := |c|][x.values := |c|]
    ensures forall i :: h <= i < |c| + 1 ==> OwnedAt(c + [x], own', i) && SegHolds(n, c + [x], ss + [s], i)
  {
    forall i | h <= i < |c| + 1
      ensures OwnedAt(c + [x], own', i) && SegHolds(n, c + [x], ss + [s], i)
    {
      if i < |c| {
        OwnedExtend(c, own, i, x, |c|);
      }
      if i < |c| - 1 {
        SegHoldsExtend(n, c, ss, i, x, s);
      }
    }
  }
}

/**
 * The linked chain of ring segments `LPRQ` of rust-queues/src/lprq/lprq.rs
 * (and of its epoch and leak variants, which share this meaning): head and
 * tail point at `PRQ` segments linked through `next`.
 *
 * A `Chain` value lists every segment ever linked, oldest first; `head`
 * and `tail` are indices into it, and the segments before `head` are the
 * ones dequeue has unlinked. The queue's contents are the items of the
 * segments from `head` on, in order.
 */
module Lprq {
  import opened Wrappers
  import P = Prq
  import G = Gather
  import opened SegmentLinks
  import A = ArcPrq

  type Segment<T> = P.Segment<T>

  /**
   * The ring segment a chain is made of: the `PRQ` of lprq/prq.rs, used
   * by the hazard-pointer, epoch and leak queues, or the `PRQ` of
   * lprq/arc_lprq/prq.rs, used by the `Arc` queue. Both share the
   * segment state `Segment`; they differ in their transitions.
   */
  datatype Kind = Plain | Arc

  datatype Chain<T> = Chain(kind: Kind, n: nat, segs: seq<Segment<T>>, head: nat, tail: nat)

  // ---------------------------------------------------------------------
  // The segment operations, by kind.

  function SegEnqueue<T>(k: Kind, s: Segment<T>, v: T): (r: (Result<(), ()>, Segment<T>))
    requires P.Wf(s)
    ensures P.Wf(r.1) && r.1.n == s.n
  {
    if k.Plain? then P.EnqueueFrom(s, v) else A.EnqueueFrom(s, v)
  }

  function SegDequeue<T>(k: Kind, s: Segment<T>): (r: (Option<P.Slot<T>>, Segment<T>))
    requires P.Wf(s)
    ensures P.Wf(r.1) && r.1.n == s.n
  {
    if k.Plain? then P.DequeueFrom(s) else A.DequeueFrom(s)
  }

  /** The states single-threaded use reaches, for either kind. */
  predicate SegValid<T>(k: Kind, s: Segment<T>)
  {
    if k.Plain? then P.Valid(s) else A.Valid(s)
  }

  /** `PRQ::new_with_item(value)`: a new open segment holding that one value. */
  function SegWithItem<T>(k: Kind, n: nat, v: T): (r: Segment<T>)
    requires n > 0
    ensures SegValid(k, r) && P.Wf(r) && r.n == n && P.Items(r) == [v]
  {
    if k.Plain? then P.InitWithItem(n, v) else A.InitWithItem(n, v)
  }

  lemma SegInitValid<T>(k: Kind, n: nat)
    requires n > 0
    ensures SegValid(k, P.Init<T>(n)) && P.Items(P.Init<T>(n)) == []
  {
    if k.Plain? {
      P.InitValid<T>(n);
    } else {
      A.InitValid<T>(n);
    }
  }

  /** Either segment appends an accepted value and keeps its items when it refuses one. */
  lemma SegEnqueueSpec<T>(k: Kind, s: Segment<T>, v: T)
    requires SegValid(k, s)
    ensures var (r, s') := SegEnqueue(k, s, v);
      && SegValid(k, s')
      && (r.Ok? ==> P.Items(s') == P.Items(s) + [v])
      && (r.Err? ==> P.Items(s') == P.Items(s))
  {
    if k.Plain? {
      P.EnqueueSpec(s, v);
    } else {
      A.EnqueueSpec(s, v);
    }
  }

  /** Either segment dequeues its first item, or returns None exactly when it holds none. */
  lemma SegDequeueSpec<T>(k: Kind, s: Segment<T>)
    requires SegValid(k, s)
    ensures var (x, s') := SegDequeue(k, s);
      && SegValid(k, s')
      && (P.Items(s) == [] ==> x == None && P.Items(s') == [])
      && (P.Items(s) != [] ==> x == Some(P.Ptr(P.Items(s)[0])) && P.Items(s') == P.Items(s)[1..])
  {
    if k.Plain? {
      P.DequeueSpec(s);
    } else {
      A.DequeueSpec(s);
    }
  }

  // ---------------------------------------------------------------------
  // The contents of a run of segments.

  /** The items of the segments `ss`, segment after segment. */
  function AllItems<T>(ss: seq<Segment<T>>): seq<T>
    decreases |ss|
  {
    if ss == [] then [] else AllItems(ss[..|ss| - 1]) + P.Items(ss[|ss| - 1])
  }

  lemma AllItemsAppend<T>(ss: seq<Segment<T>>, x: Segment<T>)
    ensures AllItems(ss + [x]) == AllItems(ss) + P.Items(x)
  {
    assert (ss + [x])[..|ss|] == ss;
  }

  lemma {:induction false} AllItemsFront<T>(x: Segment<T>, ss: seq<Segment<T>>)
    ensures AllItems([x] + ss) == P.Items(x) + AllItems(ss)
    decreases |ss|
  {
    if ss != [] {
      var init := ss[..|ss| - 1];
      assert ([x] + ss)[..|ss|] == [x] + init;
      AllItemsFront(x, init);
    }
  }

  // ---------------------------------------------------------------------
  // Chains.

  predicate WfChain<T>(c: Chain<T>)
  {
    && c.n > 0 && c.head < |c.segs| && c.tail < |c.segs|
    && forall i :: 0 <= i < |c.segs| ==> P.Wf(c.segs[i]) && c.segs[i].n == c.n
  }

  /** The values the queue holds: those of the segments from head on. */
  function Contents<T>(c: Chain<T>): seq<T>
    requires c.head <= |c.segs|
  {
    AllItems(c.segs[c.head..])
  }

  /** `LPRQ::new()`: one empty segment, both head and tail. */
  function Init<T>(k: Kind, n: nat): (c: Chain<T>)
    requires n > 0
    ensures WfChain(c) && Contents(c) == [] && c.kind == k
  {
    assert [P.Init<T>(n)][0..] == [P.Init<T>(n)];
    AllItemsFront(P.Init<T>(n), []);
    Chain(k, n, [P.Init(n)], 0, 0)
  }

  /**
   * `enqueue`: enqueue into the tail segment; if it refuses, link a new
   * segment holding the value after it when its `next` is null, and move
   * tail there; when `next` is already set, only move tail there and retry.
   */
  function EnqueueFrom<T>(c: Chain<T>, v: T): (r: Chain<T>)
    requires WfChain(c)
    ensures WfChain(r) && r.kind == c.kind && r.n == c.n && r.head == c.head && |r.segs| >= |c.segs|
    decreases |c.segs| - c.tail
  {
    var t := c.tail;
    var (res, s') := SegEnqueue(c.kind, c.segs[t], v);
    var c1 := c.(segs := c.segs[t := s']);
    if res.Ok? then c1
    else if t + 1 == |c.segs| then c1.(segs := c1.segs + [SegWithItem(c.kind, c.n, v)], tail := t + 1)
    else EnqueueFrom(c1.(tail := t + 1), v)
  }

  /**
   * `dequeue`: dequeue from the head segment; when it is empty and has no
   * `next`, the queue is empty; when it has a `next`, dequeue from it once
   * more and, if that is empty too, move head to `next` and retry.
   */
  function DequeueFrom<T>(c: Chain<T>): (r: (Option<P.Slot<T>>, Chain<T>))
    requires WfChain(c)
    ensures WfChain(r.1) && r.1.kind == c.kind && r.1.n == c.n && r.1.tail == c.tail && |r.1.segs| == |c.segs|
    decreases |c.segs| - c.head, 1
  {
    var h := c.head;
    var (x, s1) := SegDequeue(c.kind, c.segs[h]);
    if x.Some? then (x, c.(segs := c.segs[h := s1]))
    else if h + 1 == |c.segs| then (None, c.(segs := c.segs[h := s1]))
    else RetryFrom(c.(segs := c.segs[h := s1]))
  }

  /**
   * The rest of `dequeue` once the head segment was found empty and has a
   * successor: one more dequeue from it, else head moves on and dequeue
   * starts over.
   */
  function RetryFrom<T>(c: Chain<T>): (r: (Option<P.Slot<T>>, Chain<T>))
    requires WfChain(c) && c.head + 1 < |c.segs|
    ensures WfChain(r.1) && r.1.kind == c.kind && r.1.n == c.n && r.1.tail == c.tail && |r.1.segs| == |c.segs|
    decreases |c.segs| - c.head, 0
  {
    var h := c.head;
    var (y, s2) := SegDequeue(c.kind, c.segs[h]);
    if y.Some? then (y, c.(segs := c.segs[h := s2]))
    else DequeueFrom(c.(segs := c.segs[h := s2], head := h + 1))
  }

  /**
   * The chains single-threaded use reaches: tail is the last segment and
   * every segment from head on is a valid segment.
   */
  predicate ValidChain<T>(c: Chain<T>)
  {
    && WfChain(c) && c.tail == |c.segs| - 1
    && forall i :: c.head <= i < |c.segs| ==> SegValid(c.kind, c.segs[i])
  }

  lemma InitValid<T>(k: Kind, n: nat)
    requires n > 0
    ensures ValidChain(Init<T>(k, n)) && Contents(Init<T>(k, n)) == []
  {
    SegInitValid<T>(k, n);
  }

  /** Splitting off the last segment of the live run. */
  lemma ContentsLast<T>(c: Chain<T>)
    requires c.head < |c.segs|
    ensures Contents(c) == AllItems(c.segs[c.head..|c.segs| - 1]) + P.Items(c.segs[|c.segs| - 1])
  {
    assert c.segs[c.head..] == c.segs[c.head..|c.segs| - 1] + [c.segs[|c.segs| - 1]];
    AllItemsAppend(c.segs[c.head..|c.segs| - 1], c.segs[|c.segs| - 1]);
  }

  /** Splitting off the head segment. */
  lemma ContentsFront<T>(c: Chain<T>)
    requires c.head < |c.segs|
    ensures Contents(c) == P.Items(c.segs[c.head]) + AllItems(c.segs[c.head + 1..])
  {
    assert c.segs[c.head..] == [c.segs[c.head]] + c.segs[c.head + 1..];
    AllItemsFront(c.segs[c.head], c.segs[c.head + 1..]);
  }

  /** Replacing the last of the segments `ss` by one with `xs` appended. */
  lemma AllItemsLast<T>(ss: seq<Segment<T>>, x: Segment<T>, xs: seq<T>)
    requires ss != [] && P.Items(x) == P.Items(ss[|ss| - 1]) + xs
    ensures AllItems(ss[|ss| - 1 := x]) == AllItems(ss) + xs
  {
    var k := |ss| - 1;
    assert ss[k := x][..k] == ss[..k];
    var pre := AllItems(ss[..k]);
    assert pre + (P.Items(ss[k]) + xs) == (pre + P.Items(ss[k])) + xs;
  }

  /** Replacing the last segment by one with the items `xs` appended. */
  lemma ReplaceLast<T>(c: Chain<T>, s': Segment<T>, xs: seq<T>)
    requires c.head < |c.segs| && P.Items(s') == P.Items(c.segs[|c.segs| - 1]) + xs
    ensures Contents(c.(segs := c.segs[|c.segs| - 1 := s'])) == Contents(c) + xs
  {
    var live := c.segs[c.head..];
    assert c.segs[|c.segs| - 1 := s'][c.head..] == live[|live| - 1 := s'];
    AllItemsLast(live, s', xs);
  }

  /** Appending a segment appends its items. */
  lemma AppendSegment<T>(c: Chain<T>, x: Segment<T>)
    requires c.head <= |c.segs|
    ensures Contents(c.(segs := c.segs + [x])) == Contents(c) + P.Items(x)
  {
    assert (c.segs + [x])[c.head..] == c.segs[c.head..] + [x];
    AllItemsAppend(c.segs[c.head..], x);
  }

  /** The tail segment accepted the value. */
  lemma EnqueueOkStep<T>(c: Chain<T>, v: T)
    requires WfChain(c) && SegEnqueue(c.kind, c.segs[c.tail], v).0.Ok?
    ensures EnqueueFrom(c, v) == c.(segs := c.segs[c.tail := SegEnqueue(c.kind, c.segs[c.tail], v).1])
  {
  }

  /** The last segment refused the value: a new segment holding it is linked. */
  lemma EnqueueLinkStep<T>(c: Chain<T>, v: T)
    requires WfChain(c) && SegEnqueue(c.kind, c.segs[c.tail], v).0.Err? && c.tail + 1 == |c.segs|
    ensures EnqueueFrom(c, v) ==
      c.(segs := c.segs[c.tail := SegEnqueue(c.kind, c.segs[c.tail], v).1] + [SegWithItem(c.kind, c.n, v)],
         tail := c.tail + 1)
  {
  }

  /** Appending a valid segment as the new tail keeps the chain valid. */
  lemma ValidAppend<T>(c: Chain<T>, x: Segment<T>)
    requires ValidChain(c) && SegValid(c.kind, x) && x.n == c.n
    ensures ValidChain(c.(segs := c.segs + [x], tail := c.tail + 1))
  {
  }

  /** The tail segment accepted the value: it is appended to the contents. */
  lemma EnqueueAccepted<T>(c: Chain<T>, v: T)
    requires ValidChain(c) && SegEnqueue(c.kind, c.segs[c.tail], v).0.Ok?
    ensures var c' := EnqueueFrom(c, v);
      ValidChain(c') && Contents(c') == Contents(c) + [v]
  {
    var t := c.tail;
    SegEnqueueSpec(c.kind, c.segs[t], v);
    var s' := SegEnqueue(c.kind, c.segs[t], v).1;
    ValidUpdate(c, t, s');
    EnqueueOkStep(c, v);
    ReplaceLast(c, s', [v]);
  }

  /** A refusing tail segment keeps its items and stays valid. */
  lemma RefusedKeeps<T>(c: Chain<T>, v: T)
    requires ValidChain(c) && SegEnqueue(c.kind, c.segs[c.tail], v).0.Err?
    ensures var c1 := c.(segs := c.segs[c.tail := SegEnqueue(c.kind, c.segs[c.tail], v).1]);
      ValidChain(c1) && Contents(c1) == Contents(c)
  {
    var t := c.tail;
    SegEnqueueSpec(c.kind, c.segs[t], v);
    var s' := SegEnqueue(c.kind, c.segs[t], v).1;
    ValidUpdate(c, t, s');
    ReplaceLast(c, s', []);
  }

  /** Linking a new segment holding `v` after the tail appends `v`. */
  lemma LinkNew<T>(c: Chain<T>, v: T)
    requires ValidChain(c)
    ensures var c2 := c.(segs := c.segs + [SegWithItem(c.kind, c.n, v)], tail := c.tail + 1);
      ValidChain(c2) && Contents(c2) == Contents(c) + [v]
  {
    var w := SegWithItem(c.kind, c.n, v);
    AppendSegment(c, w);
    ValidAppend(c, w);
  }

  /** The tail segment refused the value: the new segment holding it is appended. */
  lemma EnqueueRefused<T>(c: Chain<T>, v: T)
    requires ValidChain(c) && SegEnqueue(c.kind, c.segs[c.tail], v).0.Err?
    ensures var c' := EnqueueFrom(c, v);
      ValidChain(c') && Contents(c') == Contents(c) + [v]
  {
    RefusedKeeps(c, v);
    LinkNew(c.(segs := c.segs[c.tail := SegEnqueue(c.kind, c.segs[c.tail], v).1]), v);
    EnqueueLinkStep(c, v);
  }

  /** Enqueue into a valid chain appends the value to the contents. */
  lemma EnqueueSpec<T>(c: Chain<T>, v: T)
    requires ValidChain(c)
    ensures var c' := EnqueueFrom(c, v);
      ValidChain(c') && Contents(c') == Contents(c) + [v]
  {
    if SegEnqueue(c.kind, c.segs[c.tail], v).0.Ok? {
      EnqueueAccepted(c, v);
    } else {
      EnqueueRefused(c, v);
    }
  }

  /** The dequeue outcome a valid chain promises. */
  ghost predicate DequeuePost<T>(c: Chain<T>, x: Option<P.Slot<T>>, c': Chain<T>)
    requires c.head <= |c.segs|
  {
    && ValidChain(c')
    && (Contents(c) == [] ==> x == None && Contents(c') == [])
    && (Contents(c) != [] ==> x == Some(P.Ptr(Contents(c)[0])) && Contents(c') == Contents(c)[1..])
  }

  /** Replacing the head segment replaces its items at the front. */
  lemma HeadReplaced<T>(c: Chain<T>, s': Segment<T>)
    requires c.head < |c.segs|
    ensures Contents(c.(segs := c.segs[c.head := s'])) == P.Items(s') + AllItems(c.segs[c.head + 1..])
  {
    var c' := c.(segs := c.segs[c.head := s']);
    ContentsFront(c');
    assert c'.segs[c.head + 1..] == c.segs[c.head + 1..];
  }

  /** Putting a valid segment at a live position keeps the chain valid. */
  lemma ValidUpdate<T>(c: Chain<T>, i: nat, s': Segment<T>)
    requires ValidChain(c) && c.head <= i < |c.segs| && SegValid(c.kind, s') && s'.n == c.n
    ensures ValidChain(c.(segs := c.segs[i := s']))
  {
  }

  /** The head segment gave a value: that is the result. */
  lemma DequeueSomeStep<T>(c: Chain<T>)
    requires WfChain(c) && SegDequeue(c.kind, c.segs[c.head]).0.Some?
    ensures var (x, s1) := SegDequeue(c.kind, c.segs[c.head]);
      DequeueFrom(c) == (x, c.(segs := c.segs[c.head := s1]))
  {
  }

  /** The head segment is empty and last: the queue is empty. */
  lemma DequeueNoneStep<T>(c: Chain<T>)
    requires WfChain(c) && SegDequeue(c.kind, c.segs[c.head]).0.None? && c.head + 1 == |c.segs|
    ensures var (x, s1) := SegDequeue(c.kind, c.segs[c.head]);
      DequeueFrom(c) == (None, c.(segs := c.segs[c.head := s1]))
  {
  }

  /** The head segment is empty twice and has a successor: head moves on. */
  lemma DequeueMoveStep<T>(c: Chain<T>)
    requires WfChain(c) && SegDequeue(c.kind, c.segs[c.head]).0.None? && c.head + 1 < |c.segs|
    requires SegDequeue(c.kind, SegDequeue(c.kind, c.segs[c.head]).1).0.None?
    ensures var s2 := SegDequeue(c.kind, SegDequeue(c.kind, c.segs[c.head]).1).1;
      DequeueFrom(c) == DequeueFrom(c.(segs := c.segs[c.head := s2], head := c.head + 1))
  {
    var (x, s1) := SegDequeue(c.kind, c.segs[c.head]);
    G.UpdateTwice(c.segs, c.head, s1, SegDequeue(c.kind, s1).1);
  }

  /** A value in the head segment is taken from there. */
  lemma DequeueHeadHolds<T>(c: Chain<T>)
    requires ValidChain(c) && P.Items(c.segs[c.head]) != []
    ensures DequeuePost(c, DequeueFrom(c).0, DequeueFrom(c).1)
  {
    var h := c.head;
    SegDequeueSpec(c.kind, c.segs[h]);
    var (x, s1) := SegDequeue(c.kind, c.segs[h]);
    DequeueSomeStep(c);
    var c' := c.(segs := c.segs[h := s1]);
    ValidUpdate(c, h, s1);
    ContentsFront(c);
    HeadReplaced(c, s1);
    G.ConcatTail(P.Items(c.segs[h]), AllItems(c.segs[h + 1..]));
  }

  /** With the head segment empty and no successor, the queue is empty. */
  lemma DequeueLastEmpty<T>(c: Chain<T>)
    requires ValidChain(c) && P.Items(c.segs[c.head]) == [] && c.head + 1 == |c.segs|
    ensures DequeuePost(c, DequeueFrom(c).0, DequeueFrom(c).1)
  {
    var h := c.head;
    SegDequeueSpec(c.kind, c.segs[h]);
    var (x, s1) := SegDequeue(c.kind, c.segs[h]);
    DequeueNoneStep(c);
    ValidUpdate(c, h, s1);
    ContentsFront(c);
    HeadReplaced(c, s1);
    assert c.segs[h + 1..] == [];
  }

  /** With the head segment empty and a successor, head moves on and nothing is lost. */
  lemma DequeueMoveOn<T>(c: Chain<T>)
    requires ValidChain(c) && P.Items(c.segs[c.head]) == [] && c.head + 1 < |c.segs|
    ensures var s2 := SegDequeue(c.kind, SegDequeue(c.kind, c.segs[c.head]).1).1;
      var c2 := c.(segs := c.segs[c.head := s2], head := c.head + 1);
      && DequeueFrom(c) == DequeueFrom(c2)
      && ValidChain(c2) && Contents(c2) == Contents(c) && |c2.segs| - c2.head < |c.segs| - c.head
  {
    var h := c.head;
    SegDequeueSpec(c.kind, c.segs[h]);
    var (x, s1) := SegDequeue(c.kind, c.segs[h]);
    SegDequeueSpec(c.kind, s1);
    var (y, s2) := SegDequeue(c.kind, s1);
    DequeueMoveStep(c);
    ContentsFront(c);
    HeadAdvanced(c, s2);
  }

  /** Moving head past a replaced head segment: the rest of the chain is what remains. */
  lemma HeadAdvanced<T>(c: Chain<T>, s': Segment<T>)
    requires ValidChain(c) && c.head + 1 < |c.segs| && P.Wf(s') && s'.n == c.n
    ensures var c2 := c.(segs := c.segs[c.head := s'], head := c.head + 1);
      ValidChain(c2) && Contents(c2) == AllItems(c.segs[c.head + 1..])
  {
    var c2 := c.(segs := c.segs[c.head := s'], head := c.head + 1);
    assert c2.segs[c.head + 1..] == c.segs[c.head + 1..];
  }

  /** FIFO: dequeue from a valid chain returns its first value, or None exactly when it is empty. */
  lemma {:induction false} DequeueSpec<T>(c: Chain<T>)
    requires ValidChain(c)
    ensures DequeuePost(c, DequeueFrom(c).0, DequeueFrom(c).1)
    decreases |c.segs| - c.head
  {
    if P.Items(c.segs[c.head]) != [] {
      DequeueHeadHolds(c);
    } else if c.head + 1 == |c.segs| {
      DequeueLastEmpty(c);
    } else {
      DequeueMoveOn(c);
      var s2 := SegDequeue(c.kind, SegDequeue(c.kind, c.segs[c.head]).1).1;
      DequeueSpec(c.(segs := c.segs[c.head := s2], head := c.head + 1));
    }
  }

  /** The second dequeue from the head segment gave a value: that is the result. */
  lemma DequeueSecondStep<T>(c: Chain<T>)
    requires WfChain(c) && SegDequeue(c.kind, c.segs[c.head]).0.None? && c.head + 1 < |c.segs|
    requires SegDequeue(c.kind, SegDequeue(c.kind, c.segs[c.head]).1).0.Some?
    ensures var (y, s2) := SegDequeue(c.kind, SegDequeue(c.kind, c.segs[c.head]).1);
      DequeueFrom(c) == (y, c.(segs := c.segs[c.head := s2]))
  {
    var (x, s1) := SegDequeue(c.kind, c.segs[c.head]);
    G.UpdateTwice(c.segs, c.head, s1, SegDequeue(c.kind, s1).1);
  }

  // ---------------------------------------------------------------------
  // Several operations in a row.

  function EnqueueAll<T>(c: Chain<T>, vs: seq<T>): (r: Chain<T>)
    requires WfChain(c)
    ensures WfChain(r) && r.n == c.n
    decreases |vs|
  {
    if vs == [] then c else EnqueueAll(EnqueueFrom(c, vs[0]), vs[1..])
  }

  function DequeueAll<T>(c: Chain<T>, k: nat): (r: (Chain<T>, seq<Option<P.Slot<T>>>))
    requires WfChain(c)
    ensures WfChain(r.0) && r.0.n == c.n && |r.1| == k
    decreases k
  {
    if k == 0 then (c, [])
    else
      var (x, c1) := DequeueFrom(c);
      var (c2, xs) := DequeueAll(c1, k - 1);
      (c2, [x] + xs)
  }

  /** Enqueueing values one after another appends them all, across as many segments as it takes. */
  lemma {:induction false} FillChain<T>(c: Chain<T>, vs: seq<T>)
    requires ValidChain(c)
    ensures ValidChain(EnqueueAll(c, vs)) && Contents(EnqueueAll(c, vs)) == Contents(c) + vs
    decreases |vs|
  {
    if vs != [] {
      EnqueueSpec(c, vs[0]);
      FillChain(EnqueueFrom(c, vs[0]), vs[1..]);
      G.AppendFront(Contents(c), vs);
    }
  }

  /** One dequeue from a valid chain holding values takes the first. */
  lemma DrainStep<T>(c: Chain<T>)
    requires ValidChain(c) && Contents(c) != []
    ensures var (x, c1) := DequeueFrom(c);
      ValidChain(c1) && x == Some(P.Ptr(Contents(c)[0])) && Contents(c1) == Contents(c)[1..]
  {
    DequeueSpec(c);
  }

  /** `k` dequeues from a valid chain holding at least `k` values return its first `k`, in order. */
  lemma {:induction false} DrainChain<T>(c: Chain<T>, k: nat)
    requires ValidChain(c) && k <= |Contents(c)|
    ensures var (c', xs) := DequeueAll(c, k);
      && ValidChain(c') && Contents(c') == Contents(c)[k..]
      && forall i :: 0 <= i < k ==> xs[i] == Some(P.Ptr(Contents(c)[i]))
    decreases k
  {
    if k > 0 {
      DrainStep(c);
      var (x, c1) := DequeueFrom(c);
      DrainChain(c1, k - 1);
      var (c2, xs) := DequeueAll(c1, k - 1);
      G.DropTwice(Contents(c), k);
      ConsSlots(x, xs, Contents(c), k);
    }
  }

  /** The slot of the first value, then the slots of the next `k - 1`: the slots of the first `k`. */
  lemma ConsSlots<T>(x: Option<P.Slot<T>>, xs: seq<Option<P.Slot<T>>>, a: seq<T>, k: nat)
    requires 0 < k <= |a| && |xs| == k - 1 && x == Some(P.Ptr(a[0]))
    requires forall i :: 0 <= i < k - 1 ==> xs[i] == Some(P.Ptr(a[1..][i]))
    ensures forall i :: 0 <= i < k ==> ([x] + xs)[i] == Some(P.Ptr(a[i]))
  {
    forall i | 0 <= i < k
      ensures ([x] + xs)[i] == Some(P.Ptr(a[i]))
    {
      if i > 0 {
        assert ([x] + xs)[i] == xs[i - 1] == Some(P.Ptr(a[1..][i - 1]));
      }
    }
  }

  /** The last of `k + 1` dequeues runs from the chain the first `k` leave. */
  lemma {:induction false} DequeueAllLast<T>(c: Chain<T>, k: nat)
    requires WfChain(c)
    ensures DequeueAll(c, k + 1).1 == DequeueAll(c, k).1 + [DequeueFrom(DequeueAll(c, k).0).0]
    decreases k
  {
    if k > 0 {
      DequeueAllLast(DequeueFrom(c).1, k - 1);
    }
  }

  /** Draining a valid chain: its values in order, then empty. */
  lemma DrainThenEmpty<T>(c: Chain<T>)
    requires ValidChain(c)
    ensures var xs := DequeueAll(c, |Contents(c)| + 1).1;
      && (forall i :: 0 <= i < |Contents(c)| ==> xs[i] == Some(P.Ptr(Contents(c)[i])))
      && xs[|Contents(c)|] == None
  {
    var k := |Contents(c)|;
    DrainChain(c, k);
    DequeueSpec(DequeueAll(c, k).0);
    DequeueAllLast(c, k);
  }

  /** Filling a new queue: it holds exactly the values enqueued. */
  lemma FillFromNew<T>(k: Kind, n: nat, vs: seq<T>)
    requires n > 0
    ensures ValidChain(EnqueueAll(Init<T>(k, n), vs)) && Contents(EnqueueAll(Init<T>(k, n), vs)) == vs
  {
    var c := Init<T>(k, n);
    InitValid<T>(k, n);
    FillChain(c, vs);
    assert Contents(c) + vs == vs;
  }

  /**
   * The `basic` test, for every segment size and all values: enqueueing
   * the values into a new queue and dequeueing as many returns them in
   * order, however many segments they fill; one more dequeue finds the
   * queue empty.
   */
  lemma EnqueueThenDequeue<T>(k: Kind, n: nat, vs: seq<T>)
    requires n > 0
    ensures var xs := DequeueAll(EnqueueAll(Init<T>(k, n), vs), |vs| + 1).1;
      && (forall i :: 0 <= i < |vs| ==> xs[i] == Some(P.Ptr(vs[i])))
      && xs[|vs|] == None
  {
    FillFromNew(k, n, vs);
    DrainThenEmpty(EnqueueAll(Init<T>(k, n), vs));
  }

  /** An empty dequeue leaves head at the tail segment. */
  lemma {:induction false} EmptyAtTail<T>(c: Chain<T>)
    requires ValidChain(c) && DequeueFrom(c).0.None?
    ensures DequeueFrom(c).1.head == c.tail
    decreases |c.segs| - c.head
  {
    if P.Items(c.segs[c.head]) != [] {
      DequeueHeadHolds(c);
      ContentsFront(c);
    } else if c.head + 1 < |c.segs| {
      DequeueMoveOn(c);
      var s2 := SegDequeue(c.kind, SegDequeue(c.kind, c.segs[c.head]).1).1;
      EmptyAtTail(c.(segs := c.segs[c.head := s2], head := c.head + 1));
    }
  }

  /** `dropped` lists, as slots, the first values of `vs`, and the chain holds the rest. */
  ghost predicate Drained<T>(c: Chain<T>, vs: seq<T>, dropped: seq<P.Slot<T>>)
  {
    && ValidChain(c) && |dropped| <= |vs| && Contents(c) == vs[|dropped|..]
    && forall i :: 0 <= i < |dropped| ==> dropped[i] == P.Ptr(vs[i])
  }

  /**
   * One dequeue while draining: a value extends `dropped`; none means
   * every value has been dropped and head has reached the tail segment.
   */
  lemma DrainedStep<T>(c: Chain<T>, vs: seq<T>, dropped: seq<P.Slot<T>>)
    requires Drained(c, vs, dropped)
    ensures var (x, c') := DequeueFrom(c);
      && (x.Some? ==> Drained(c', vs, dropped + [x.value]))
      && (x.None? ==> Drained(c', vs, dropped) && |dropped| == |vs| && c'.head == c'.tail)
  {
    DequeueSpec(c);
    var (x, c') := DequeueFrom(c);
    if x.None? {
      EmptyAtTail(c);
    } else {
      var k := |dropped|;
      assert vs[k..][0] == vs[k] && vs[k..][1..] == vs[k + 1..];
      var d' := dropped + [x.value];
      forall i | 0 <= i < |d'|
        ensures d'[i] == P.Ptr(vs[i])
      {
        if i < k {
          assert d'[i] == dropped[i];
        }
      }
    }
  }

  // ---------------------------------------------------------------------
  // The queue object.

  /**
   * How a queue frees the segments dequeue unlinks: through hazard
   * pointers (lprq.rs), through `crossbeam_epoch` (epoch_lprq/lprq.rs), or
   * never (leak_lprq/lprq.rs). The freeing itself is not modelled.
   */
  datatype Reclamation = HazardPointers | EpochBased | Leak

  /** The segments of `chain` before `h` that were handed to the reclamation scheme. */
  ghost function Unlinked<S>(k: Reclamation, chain: seq<S>, h: nat): seq<S>
    requires h <= |chain|
  {
    if k == Leak then [] else chain[..h]
  }

  /**
   * `LPRQ` of lprq.rs, epoch_lprq/lprq.rs and leak_lprq/lprq.rs, which
   * differ only in `reclaim`: `head` and `tail` point at `PRQ` segments
   * linked through their `next` fields. The ghost `chain` lists every
   * segment ever linked and `segs` their abstract values; the segments
   * before `hIdx` have been unlinked. `retired` records, in order, those
   * handed to `retire` or `defer_destroy`; the leak queue hands none, so
   * it stays empty there. `owner` maps each
   * segment and its two arrays to the segment's position, which keeps
   * them all distinct.
   */
  class LPRQ<T(==)> {
    const n: nat
    const reclaim: Reclamation
    var head: P.PRQ?<T>
    var tail: P.PRQ<T>
    ghost var chain: seq<P.PRQ<T>>
    ghost var segs: seq<Segment<T>>
    ghost var hIdx: nat
    ghost var tIdx: nat
    ghost var retired: seq<P.PRQ<T>>
    ghost var owner: map<object, nat>

    /** The ghost bookkeeping: positions in range, head and tail where they belong. */
    ghost predicate Shape()
      reads this
    {
      && n > 0 && |chain| == |segs| && hIdx < |chain| && tIdx == |chain| - 1
      && head == chain[hIdx] && tail == chain[tIdx]
      && retired == Unlinked(reclaim, chain, hIdx)
      && (forall i :: 0 <= i < |segs| ==> P.Wf(segs[i]) && segs[i].n == n)
    }

    /**
     * Segment `i` is owned at position `i`, holds the value `segs[i]` and
     * links to the next segment, or to null when last.
     */
    ghost predicate Holds(i: nat)
      reads this`chain, this`segs, this`owner, owner.Keys
    {
      OwnedAt(chain, owner, i) && SegHolds(n, chain, segs, i)
    }

    /**
     * The segments from head on form a list ending at tail and hold the
     * values `segs` lists; those before head are the retired ones.
     */
    ghost predicate Linked()
      reads this, owner.Keys
    {
      Shape() && forall i :: hIdx <= i < |chain| ==> Holds(i)
    }

    /** Only the last segment has a null `next`. */
    lemma NullNextIsLast()
      requires Linked()
      ensures head.next == null <==> hIdx == |chain| - 1
    {
      assert Holds(hIdx);
      if hIdx < |chain| - 1 {
        assert chain[hIdx].next == chain[hIdx + 1];
      }
    }

    /** The chain the object stands for. */
    ghost function Abs(): Chain<T>
      reads this
    {
      Chain(Plain, n, segs, hIdx, tIdx)
    }

    /** `LPRQ::new()`: head and tail point at one new empty segment. */
    constructor (n: nat, reclaim: Reclamation)
      requires n > 0
      ensures Linked() && Abs() == Init(Plain, n) && head == tail && fresh(owner.Keys)
      ensures this.reclaim == reclaim && retired == []
    {
      this.n := n;
      this.reclaim := reclaim;
      var initial := new P.PRQ<T>(n);
      head := initial;
      tail := initial;
      chain := [initial];
      segs := [initial.State()];
      hIdx := 0;
      tIdx := 0;
      retired := [];
      owner := map[initial := 0, initial.stamps := 0, initial.values := 0];
    }

    /** `enqueue` on the tail segment. */
    method TailEnqueue(v: T, threadId: bv64) returns (r: Result<(), ()>)
      requires Linked()
      modifies tail, tail.stamps, tail.values, this`segs
      ensures Linked() && segs == old(segs)[tIdx := segs[tIdx]]
      ensures (r, segs[tIdx]) == P.EnqueueFrom(old(segs[tIdx]), v)
    {
      assert Holds(tIdx);
      r := tail.Enqueue(v, threadId);
      segs := segs[tIdx := tail.State()];
      forall i | hIdx <= i < |chain|
        ensures Holds(i)
      {
        assert old(Holds(i));
        if i != tIdx {
          assert owner[chain[i]] != owner[tail];
          assert owner[chain[i].stamps] != owner[tail.stamps];
          assert owner[chain[i].values] != owner[tail.values];
        }
      }
    }

    /** `dequeue` on the head segment. */
    method HeadDequeue() returns (x: Option<P.Slot<T>>)
      requires Linked()
      modifies head`head, head`tail, head.stamps, head.values, this`segs
      ensures Linked() && segs == old(segs)[hIdx := segs[hIdx]]
      ensures (x, segs[hIdx]) == P.DequeueFrom(old(segs[hIdx]))
    {
      assert Holds(hIdx);
      x := head.Dequeue();
      segs := segs[hIdx := head.State()];
      forall i | hIdx <= i < |chain|
        ensures Holds(i)
      {
        assert old(Holds(i));
        if i != hIdx {
          assert owner[chain[i]] != owner[head];
          assert owner[chain[i].stamps] != owner[head.stamps];
          assert owner[chain[i].values] != owner[head.values];
        }
      }
    }

    /**
     * The compare-exchange of the tail segment's `next` from null to
     * `newTail`, then of `tail` from that segment to `newTail`. Both
     * succeed under one thread: tail is the last segment.
     */
    method LinkTail(newTail: P.PRQ<T>)
      requires Linked() && newTail.Wf() && newTail.n == n && newTail.next == null
      requires newTail !in owner && newTail.stamps !in owner && newTail.values !in owner
      modifies tail`next, this`tail, this`tIdx, this`chain, this`segs, this`owner
      ensures Linked() && hIdx == old(hIdx) && tIdx == old(tIdx) + 1
      ensures chain == old(chain) + [newTail] && segs == old(segs) + [newTail.State()]
      ensures owner.Keys == old(owner.Keys) + {newTail, newTail.stamps, newTail.values}
    {
      var queue := tail;
      assert Holds(tIdx);
      if queue.next == null {
        ghost var c, ss, k := chain, segs, |chain|;
        forall i | hIdx <= i < k
          ensures OwnedAt(c, owner, i)
        {
          assert Holds(i);
        }
        queue.next := newTail;
        forall i | hIdx <= i < k - 1
          ensures SegHolds(n, c, ss, i)
        {
          assert old(Holds(i));
          assert owner[c[i]] != owner[queue];
        }
        ghost var own' := owner[newTail := k][newTail.stamps := k][newTail.values := k];
        LinkAll(n, c, ss, owner, hIdx, newTail, newTail.State(), own');
        chain, segs, owner := chain + [newTail], segs + [newTail.State()], own';
        if tail == queue {
          tail := newTail;
        }
        tIdx := tIdx + 1;
        forall i | hIdx <= i < |chain|
          ensures Holds(i)
        {
          assert SegHolds(n, chain, segs, i);
        }
      } else {
        assert false;
      }
    }

    /**
     * The compare-exchange of `head` from the drained head segment to its
     * `next`, which cannot fail under one thread; the old head is retired
     * (hazard pointers) or deferred (epochs), and the leak queue drops it.
     */
    method AdvanceHead(next: P.PRQ<T>)
      requires Linked() && head.next == next
      modifies this`head, this`hIdx, this`retired
      ensures Linked() && hIdx == old(hIdx) + 1 && head == next
      ensures retired == if reclaim == Leak then old(retired) else old(retired) + [old(head)]
    {
      var queue := head;
      NullNextIsLast();
      assert Holds(hIdx);
      if head == queue {
        assert chain[..hIdx + 1] == chain[..hIdx] + [queue];
        head := next;
        if reclaim != Leak {
          retired := retired + [queue];
        }
        hIdx := hIdx + 1;
        assert Shape();
        forall i | hIdx <= i < |chain|
          ensures Holds(i)
        {
          assert old(Holds(i));
        }
      }
    }

    /**
     * `enqueue(val)`: into the tail segment; when it refuses, a new
     * segment holding the value is linked after it and becomes tail. The
     * retry after losing the race to link cannot happen under one thread.
     */
    method Enqueue(v: T, threadId: bv64)
      requires Linked()
      modifies this, owner.Keys
      ensures Linked() && Abs() == EnqueueFrom(old(Abs()), v)
      ensures hIdx == old(hIdx) && chain[..|old(chain)|] == old(chain)
      ensures fresh(owner.Keys - old(owner.Keys))
    {
      ghost var c0 := Abs();
      assert Holds(tIdx);
      var r := TailEnqueue(v, threadId);
      if r.Ok? {
        EnqueueOkStep(c0, v);
        return;
      }
      var newTail := new P.PRQ<T>.WithItem(n, v, threadId);
      LinkTail(newTail);
      EnqueueLinkStep(c0, v);
    }

    /**
     * One pass of the `dequeue` loop: a value from the head segment; when
     * it is empty, its `next` null means the queue is empty; otherwise
     * `Retry` goes on.
     */
    method DequeueRound() returns (done: bool, r: Option<P.Slot<T>>)
      requires Linked()
      modifies head`head, head`tail, head.stamps, head.values, this`segs, this`head, this`hIdx, this`retired
      ensures Linked() && chain == old(chain) && owner == old(owner)
      ensures done ==> (r, Abs()) == DequeueFrom(old(Abs()))
      ensures !done ==> hIdx == old(hIdx) + 1 && DequeueFrom(Abs()) == DequeueFrom(old(Abs()))
    {
      ghost var c0 := Abs();
      assert Holds(hIdx);
      var x := HeadDequeue();
      assert Abs() == c0.(segs := c0.segs[c0.head := segs[hIdx]]);
      if x.Some? {
        DequeueSomeStep(c0);
        return true, x;
      }
      NullNextIsLast();
      var next := head.next;
      if next == null {
        DequeueNoneStep(c0);
        return true, None;
      }
      assert DequeueFrom(c0) == RetryFrom(Abs());
      done, r := Retry(next);
    }

    /**
     * The second try of a `dequeue` pass, then the compare-exchange of
     * head to `next`.
     */
    method Retry(next: P.PRQ<T>) returns (done: bool, r: Option<P.Slot<T>>)
      requires Linked() && head.next == next
      modifies head`head, head`tail, head.stamps, head.values, this`segs, this`head, this`hIdx, this`retired
      ensures Linked() && chain == old(chain) && owner == old(owner)
      ensures old(hIdx) + 1 < |chain|
      ensures done ==> (r, Abs()) == old(RetryFrom(Abs()))
      ensures !done ==> hIdx == old(hIdx) + 1 && DequeueFrom(Abs()) == old(RetryFrom(Abs()))
    {
      NullNextIsLast();
      ghost var c1 := Abs();
      assert Holds(hIdx);
      var y := HeadDequeue();
      ghost var s2 := segs[hIdx];
      assert Abs() == c1.(segs := c1.segs[c1.head := s2]);
      if y.Some? {
        return true, y;
      }
      AdvanceHead(next);
      assert Abs() == c1.(segs := c1.segs[c1.head := s2], head := c1.head + 1);
      return false, None;
    }

    /** `dequeue()`: rounds until one returns. */
    method Dequeue() returns (r: Option<P.Slot<T>>)
      requires Linked()
      modifies this, owner.Keys
      ensures Linked() && (r, Abs()) == DequeueFrom(old(Abs()))
      ensures chain == old(chain) && owner == old(owner)
    {
      var done := false;
      r := None;
      while !done
        invariant Linked() && chain == old(chain) && owner == old(owner)
        invariant !done ==> DequeueFrom(Abs()) == DequeueFrom(old(Abs()))
        invariant done ==> (r, Abs()) == DequeueFrom(old(Abs()))
        decreases !done, |chain| - hIdx
      {
        assert Holds(hIdx);
        done, r := DequeueRound();
      }
    }

    /** The `while let Some(_) = self.dequeue(..)` loop of `drop`: the values, in order. */
    method DrainAll() returns (dropped: seq<P.Slot<T>>)
      requires Linked() && ValidChain(Abs())
      modifies this, owner.Keys
      ensures Linked() && chain == old(chain) && owner == old(owner) && hIdx == tIdx
      ensures ValidChain(Abs()) && Contents(Abs()) == []
      ensures var vs := old(Contents(Abs()));
        |dropped| == |vs| && forall i :: 0 <= i < |vs| ==> dropped[i] == P.Ptr(vs[i])
    {
      ghost var vs := Contents(Abs());
      dropped := [];
      assert vs[0..] == vs;
      var done := false;
      while !done
        invariant Linked() && Drained(Abs(), vs, dropped) && chain == old(chain) && owner == old(owner)
        invariant done ==> |dropped| == |vs| && hIdx == tIdx
        decreases !done, |vs| - |dropped|
      {
        ghost var c := Abs();
        DrainedStep(c, vs, dropped);
        var x := Dequeue();
        assert x == DequeueFrom(c).0 && Abs() == DequeueFrom(c).1;
        if x.None? {
          done := true;
        } else {
          assert Drained(Abs(), vs, dropped + [x.value]);
          dropped := dropped + [x.value];
        }
      }
    }

    /**
     * `drop`: dequeues until a dequeue finds the queue empty, which leaves
     * head and tail at one segment; `dropped` lists the values dequeued,
     * in order. The epoch queue then only flushes its guard. The others
     * check head == tail, which always holds here, so their panic cannot
     * happen, and swap head to null; the hazard-pointer queue retires
     * that last segment, the leak queue does not.
     */
    method Drop() returns (dropped: seq<P.Slot<T>>)
      requires Linked() && ValidChain(Abs())
      modifies this, owner.Keys
      ensures var vs := old(Contents(Abs()));
        |dropped| == |vs| && forall i :: 0 <= i < |vs| ==> dropped[i] == P.Ptr(vs[i])
      ensures chain == old(chain) && hIdx == |chain| - 1
      ensures reclaim == EpochBased ==> Linked() && head == tail && Contents(Abs()) == []
      ensures reclaim != EpochBased ==> head == null
      ensures retired == match reclaim
        case HazardPointers => chain
        case EpochBased => chain[..|chain| - 1]
        case Leak => []
    {
      dropped := DrainAll();
      if reclaim == EpochBased {
        return;
      }
      assert Holds(hIdx);
      if head == tail {
        var last := head;
        head := null;
        if reclaim == HazardPointers {
          retired := retired + [last];
          G.TakeAll(chain, hIdx);
        }
      } else {
        assert false;
      }
    }
  }
}
