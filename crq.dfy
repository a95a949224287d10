/**
 * The ring segment of rust-queues/src/lcrq/crq.rs. Its cells, tickets and
 * packing are those of rust-queues/src/lprq/prq.rs (module `Prq`); it
 * differs in four ways, each modelled here:
 *
 *  - the cell lock is the raw thread id; under one thread a token found in
 *    a cell is always the caller's own, so "is my token" is `Token?`;
 *  - the full check subtracts in `usize`: `tail_val - head >= N`, which
 *    wraps when head has overtaken tail;
 *  - a dequeue that finds the segment empty returns without repairing tail;
 *  - values are boxed: enqueue boxes its value and frees the box on both
 *    refusals, dequeue unboxes, and `drop` frees every box still stored.
 *
 * On segments whose head has not overtaken tail, enqueue is exactly
 * `Prq.EnqueueFrom` and dequeue is `Prq.DequeueFrom` up to the tail repair,
 * so the segment queue properties carry over (`FillThenDrain`). After an
 * empty dequeue the wrapped subtraction makes the next enqueue close the
 * segment instead of storing its value (`EmptyThenEnqueue`); with the
 * comparison of prq.rs, `tail_val >= head + N`, it succeeds
 * (`EmptyThenEnqueueIntended`).
 */
module Crq {
  import opened Wrappers
  import opened Tickets
  import P = Prq

  /** 2^64: `usize` arithmetic wraps modulo this. */
  const U64: nat := 0x1_0000_0000_0000_0000

  /** `a - b` on `usize`, as a release build computes it. */
  function UsizeSub(a: nat, b: nat): (r: nat)
    ensures r < U64
    ensures b <= a < b + U64 ==> r == a - b
  {
    (a - b) % U64
  }

  predicate Wf<T>(s: P.Segment<T>)
  {
    P.Wf(s) && s.n < U64
  }

  /**
   * `enqueue`, as written: the eligibility test of prq.rs, then the full
   * check `tail_val - head >= N` in wrapping `usize` arithmetic.
   */
  function EnqueueFrom<T>(s: P.Segment<T>, v: T): (r: (Result<(), ()>, P.Segment<T>))
    requires Wf(s)
    ensures Wf(r.1) && r.1.n == s.n && r.1.head == s.head && r.1.tail > s.tail
    decreases if UsizeSub(s.tail, s.head) < s.n then s.n - UsizeSub(s.tail, s.head) else 0
  {
    var t := s.tail;
    var s1 := s.(tail := t + 1);
    if s.closed then (Err(()), s1)
    else
      var i := t % s.n;
      var c := t / s.n;
      if P.Unoccupied(s.values[i]) && s.stamps[i].epoch < c && (s.stamps[i].safe || s.head <= t) then
        (Ok(()), s1.(stamps := s.stamps[i := P.Stamp(true, c)], values := s.values[i := P.Ptr(v)]))
      else if UsizeSub(t, s.head) >= s.n then
        (Err(()), s1.(closed := true))
      else
        assert UsizeSub(t + 1, s.head) == UsizeSub(t, s.head) + 1 by {
          SubStep(t, s.head, s.n);
        }
        EnqueueFrom(s1, v)
  }

  /** One more ticket adds one to a difference that is still below `n`. */
  lemma SubStep(t: nat, h: nat, n: nat)
    requires n < U64 && UsizeSub(t, h) < n
    ensures UsizeSub(t + 1, h) == UsizeSub(t, h) + 1
  {
    var d := UsizeSub(t, h);
    var q := (t - h) / U64;
    assert t - h == q * U64 + d;
    assert t + 1 - h == q * U64 + (d + 1);
  }

  /**
   * `deqeue`: the cell-update loop is that of prq.rs (its extra retry
   * after two different stamp reads cannot happen under one thread); an
   * empty result leaves tail where it is.
   */
  function DequeueFrom<T>(s: P.Segment<T>): (r: (Option<P.Slot<T>>, P.Segment<T>))
    requires Wf(s)
    ensures Wf(r.1) && r.1.n == s.n
    decreases if s.head <= s.tail then s.tail - s.head else 0
  {
    var h := s.head;
    var (x, s1) := P.Transition(s.(head := h + 1), h);
    if x.Some? then (x, s1)
    else if s1.tail <= h + 1 then (None, s1)
    else DequeueFrom(s1)
  }

  // ---------------------------------------------------------------------
  // Agreement with prq.rs while head has not overtaken tail.

  /** Without wrap-around the two full checks agree, so the enqueues agree. */
  lemma {:induction false} EnqueueAgrees<T>(s: P.Segment<T>, v: T)
    requires Wf(s) && s.head <= s.tail && (s.closed || s.tail <= s.head + s.n)
    ensures EnqueueFrom(s, v) == P.EnqueueFrom(s, v)
    decreases s.head + s.n - s.tail
  {
    var t := s.tail;
    if !s.closed {
      var i, c := t % s.n, t / s.n;
      if !(P.Unoccupied(s.values[i]) && s.stamps[i].epoch < c && (s.stamps[i].safe || s.head <= t)) {
        if t < s.head + s.n {
          EnqueueAgrees(s.(tail := t + 1), v);
        }
      }
    }
  }

  /** The dequeues agree, except that prq.rs repairs tail after an empty result. */
  lemma {:induction false} DequeueAgrees<T>(s: P.Segment<T>)
    requires Wf(s)
    ensures P.DequeueFrom(s).0 == DequeueFrom(s).0
    ensures P.DequeueFrom(s).1 == if DequeueFrom(s).0.None? then P.Fix(DequeueFrom(s).1) else DequeueFrom(s).1
    decreases if s.head <= s.tail then s.tail - s.head else 0
  {
    var h := s.head;
    var (x, s1) := P.Transition(s.(head := h + 1), h);
    P.DequeueRound(s, x, s1);
    if x.None? && s1.tail > h + 1 {
      DequeueAgrees(s1);
    }
  }

  /** A valid segment's enqueue is that of prq.rs, and so keeps the segment valid. */
  lemma EnqueueSpec<T>(s: P.Segment<T>, v: T)
    requires Wf(s) && P.Valid(s)
    ensures EnqueueFrom(s, v) == P.EnqueueFrom(s, v)
    ensures var (r, s') := EnqueueFrom(s, v);
      && P.Valid(s') && Wf(s')
      && (r.Ok? <==> !s.closed && |P.Items(s)| < s.n)
      && (r.Ok? ==> P.Items(s') == P.Items(s) + [v])
      && (r.Err? ==> P.Items(s') == P.Items(s) && s'.closed)
  {
    EnqueueAgrees(s, v);
    P.EnqueueSpec(s, v);
  }

  /**
   * A valid segment's dequeue returns what prq.rs returns; the state it
   * leaves is valid once tail is raised to head (done by prq.rs and not
   * here), and holds the remaining values.
   */
  lemma DequeueSpec<T>(s: P.Segment<T>)
    requires Wf(s) && P.Valid(s)
    ensures var (r, s') := DequeueFrom(s);
      && P.DequeuePost(s, r, P.Fix(s'))
      && (r.Some? ==> s' == P.DequeueFrom(s).1)
  {
    DequeueAgrees(s);
    P.DequeueSpec(s);
  }

  // ---------------------------------------------------------------------
  // Several operations in a row.

  function EnqueueAll<T>(s: P.Segment<T>, vs: seq<T>): (r: (P.Segment<T>, seq<Result<(), ()>>))
    requires Wf(s)
    ensures Wf(r.0) && r.0.n == s.n && |r.1| == |vs|
    decreases |vs|
  {
    if vs == [] then (s, [])
    else
      var (r, s1) := EnqueueFrom(s, vs[0]);
      var (s2, rs) := EnqueueAll(s1, vs[1..]);
      (s2, [r] + rs)
  }

  function DequeueAll<T>(s: P.Segment<T>, k: nat): (r: (P.Segment<T>, seq<Option<P.Slot<T>>>))
    requires Wf(s)
    ensures Wf(r.0) && r.0.n == s.n && |r.1| == k
    decreases k
  {
    if k == 0 then (s, [])
    else
      var (x, s1) := DequeueFrom(s);
      var (s2, xs) := DequeueAll(s1, k - 1);
      (s2, [x] + xs)
  }

  /** From a valid segment, a run of enqueues is that of prq.rs. */
  lemma {:induction false} EnqueueAllAgrees<T>(s: P.Segment<T>, vs: seq<T>)
    requires Wf(s) && P.Valid(s)
    ensures EnqueueAll(s, vs) == P.EnqueueAll(s, vs)
    decreases |vs|
  {
    if vs != [] {
      EnqueueSpec(s, vs[0]);
      EnqueueAllAgrees(EnqueueFrom(s, vs[0]).1, vs[1..]);
    }
  }

  /** Dequeues that each find a value are those of prq.rs. */
  lemma {:induction false} DequeueAllAgrees<T>(s: P.Segment<T>, k: nat)
    requires Wf(s) && P.Valid(s) && k <= |P.Items(s)|
    ensures DequeueAll(s, k) == P.DequeueAll(s, k)
    decreases k
  {
    if k > 0 {
      DequeueSpec(s);
      P.DequeueSpec(s);
      DequeueAllAgrees(DequeueFrom(s).1, k - 1);
    }
  }

  /** The last of `k + 1` dequeues runs from the state the first `k` leave. */
  lemma {:induction false} DequeueAllLast<T>(s: P.Segment<T>, k: nat)
    requires Wf(s)
    ensures DequeueAll(s, k + 1).1 == DequeueAll(s, k).1 + [DequeueFrom(DequeueAll(s, k).0).0]
    decreases k
  {
    if k > 0 {
      DequeueAllLast(DequeueFrom(s).1, k - 1);
    }
  }

  /** Draining a valid segment returns what prq.rs returns. */
  lemma DrainAgrees<T>(s: P.Segment<T>)
    requires Wf(s) && P.Valid(s)
    ensures DequeueAll(s, |P.Items(s)| + 1).1 == P.DequeueAll(s, |P.Items(s)| + 1).1
  {
    var k := |P.Items(s)|;
    DequeueAllAgrees(s, k);
    DequeueAllLast(s, k);
    P.DequeueAllLast(s, k);
    DequeueAgrees(P.DequeueAll(s, k).0);
  }

  /** A valid segment drained of its values, then dequeued once more, returns them in order and then `None`. */
  lemma DrainThenEmpty<T>(s: P.Segment<T>)
    requires Wf(s) && P.Valid(s)
    ensures var xs := DequeueAll(s, |P.Items(s)| + 1).1;
      && (forall i :: 0 <= i < |P.Items(s)| ==> xs[i] == Some(P.Ptr(P.Items(s)[i])))
      && xs[|P.Items(s)|] == None
  {
    DrainAgrees(s);
    P.DrainThenEmpty(s);
  }

  /**
   * The `basic_prq` test (lines 214-229), for every capacity below 2^64
   * and all values: `n` enqueues into a new segment succeed and one more
   * is refused; `n` dequeues then return the values in order, and one
   * more finds the segment empty.
   */
  lemma FillThenDrain<T>(n: nat, vs: seq<T>, w: T)
    requires 0 < n < U64 && |vs| == n
    ensures var (s, rs) := EnqueueAll(P.Init<T>(n), vs);
      && (forall r <- rs :: r == Ok(()))
      && EnqueueFrom(s, w).0 == Err(())
      && var xs := DequeueAll(EnqueueFrom(s, w).1, n + 1).1;
      && (forall i :: 0 <= i < n ==> xs[i] == Some(P.Ptr(vs[i])))
      && xs[n] == None
  {
    P.InitValid<T>(n);
    EnqueueAllAgrees(P.Init<T>(n), vs);
    FillThenDrainTail(n, vs, w);
    P.FillThenDrain(n, vs, w);
  }

  /** The part of `FillThenDrain` after the first `n` enqueues. */
  lemma FillThenDrainTail<T>(n: nat, vs: seq<T>, w: T)
    requires 0 < n < U64 && |vs| == n
    ensures var s := P.EnqueueAll(P.Init<T>(n), vs).0;
      && Wf(s)
      && EnqueueFrom(s, w) == P.EnqueueFrom(s, w)
      && DequeueAll(EnqueueFrom(s, w).1, n + 1).1 == P.DequeueAll(P.EnqueueFrom(s, w).1, n + 1).1
  {
    var s := P.EnqueueAll(P.Init<T>(n), vs).0;
    P.FillFromNew(n, vs);
    EnqueueSpec(s, w);
    P.CapacityFromNew(n, vs, w);
    DrainAgrees(EnqueueFrom(s, w).1);
  }

  // ---------------------------------------------------------------------
  // An empty dequeue, then an enqueue.

  /** A new segment's first dequeue finds nothing and leaves head one past tail. */
  lemma EmptyDequeue<T>(n: nat)
    requires 0 < n < U64
    ensures var (r, s) := DequeueFrom(P.Init<T>(n));
      && r == None && s.head == n + 1 && s.tail == n && !s.closed
      && s.stamps == P.Init<T>(n).stamps[0 := P.Stamp(true, 1)] && s.values == P.Init<T>(n).values
  {
    Unique(1, 0, n);
  }

  /**
   * As written: after that empty dequeue, `tail_val - head` is `n - (n + 1)`,
   * which wraps to 2^64 - 1 (a debug build panics instead), so the enqueue
   * closes the segment and refuses its value.
   */
  lemma EmptyThenEnqueue<T>(n: nat, v: T)
    requires 0 < n < U64
    ensures var s := DequeueFrom(P.Init<T>(n)).1;
      && EnqueueFrom(s, v).0 == Err(()) && EnqueueFrom(s, v).1.closed
  {
    EmptyDequeue<T>(n);
    Unique(1, 0, n);
    assert UsizeSub(n, n + 1) == U64 - 1;
  }

  /**
   * Intended: with prq.rs's `tail_val >= head + N`, the enqueue skips the
   * cell the dequeue stamped, stores its value in the next ticket, and the
   * next dequeue returns it.
   */
  lemma EmptyThenEnqueueIntended<T>(n: nat, v: T)
    requires 0 < n < U64
    ensures var s := DequeueFrom(P.Init<T>(n)).1;
      && P.EnqueueFrom(s, v).0 == Ok(())
      && DequeueFrom(P.EnqueueFrom(s, v).1).0 == Some(P.Ptr(v))
  {
    EmptyDequeue<T>(n);
    Unique(1, 0, n);
    if n == 1 {
      Unique(2, 0, 1);
    } else {
      Unique(1, 1, n);
    }
  }

  // ---------------------------------------------------------------------
  // The segment object, owning boxed values.

  /** `Box<T>`: a heap cell holding one value. */
  class Box<T> {
    const value: T

    constructor (value: T)
      ensures this.value == value
    {
      this.value := value;
    }
  }

  /** `Box::from_raw(value)` then `*`, for the slots dequeue can return. */
  function Unbox<T>(x: Option<P.Slot<Box<T>>>): Option<T>
    reads if x.Some? && x.value.Ptr? then {x.value.v} else {}
  {
    if x.Some? && x.value.Ptr? then Some(x.value.v.value) else None
  }

  predicate NoTokens<T>(s: P.Segment<T>)
  {
    forall i :: 0 <= i < |s.values| ==> !s.values[i].Token?
  }

  class CRQ<T> {
    const n: nat
    var head: nat
    var tail: nat
    var closed: bool
    const stamps: array<P.Stamp>
    const values: array<P.Slot<Box<T>>>
    /** The boxes freed so far. */
    ghost var freed: set<Box<T>>

    ghost predicate Wf()
      reads this
    {
      0 < n < U64 && stamps.Length == n && values.Length == n
    }

    ghost function State(): P.Segment<Box<T>>
      reads this, stamps, values
    {
      P.Segment(n, head, tail, closed, stamps[..], values[..])
    }

    /** `PRQ::new()`. */
    constructor (n: nat)
      requires 0 < n < U64
      ensures Wf() && State() == P.Init(n) && freed == {}
      ensures fresh(stamps) && fresh(values)
    {
      this.n := n;
      head := n;
      tail := n;
      closed := false;
      stamps := new P.Stamp[n](_ => P.Stamp(true, 0));
      values := new P.Slot<Box<T>>[n](_ => P.Null);
      freed := {};
    }

    method CasValue(i: nat, current: P.Slot<Box<T>>, desired: P.Slot<Box<T>>) returns (ok: bool)
      requires i < values.Length
      modifies values
      ensures ok <==> old(values[i]) == current
      ensures values[..] == if ok then old(values[..])[i := desired] else old(values[..])
    {
      ok := values[i] == current;
      if ok {
        values[i] := desired;
      }
    }

    method CasStamp(i: nat, current: P.Stamp, desired: P.Stamp) returns (ok: bool)
      requires i < stamps.Length
      modifies stamps
      ensures ok <==> old(stamps[i]) == current
      ensures stamps[..] == if ok then old(stamps[..])[i := desired] else old(stamps[..])
    {
      ok := stamps[i] == current;
      if ok {
        stamps[i] := desired;
      }
    }

    /**
     * `enqueue(val)`: the value is boxed on entry, and the box is freed
     * when the segment refuses it.
     */
    method Enqueue(val: T) returns (r: Result<(), ()>, ghost box: Box<T>)
      requires Wf()
      modifies this, stamps, values
      ensures Wf() && fresh(box) && box.value == val
      ensures (r, State()) == EnqueueFrom(old(State()), box)
      ensures freed == if r.Ok? then old(freed) else old(freed) + {box}
    {
      var valuePtr := new Box(val);
      box := valuePtr;
      r := EnqueuePtr(valuePtr);
      if r.Err? {
        freed := freed + {valuePtr};
      }
    }

    /** The ticket loop of `enqueue` for the boxed value `valuePtr`. */
    method EnqueuePtr(valuePtr: Box<T>) returns (r: Result<(), ()>)
      requires Wf()
      modifies this`tail, this`closed, stamps, values
      ensures (r, State()) == EnqueueFrom(old(State()), valuePtr)
    {
      var done := false;
      r := Err(());
      while !done
        invariant !done ==> EnqueueFrom(State(), valuePtr) == EnqueueFrom(old(State()), valuePtr)
        invariant done ==> (r, State()) == EnqueueFrom(old(State()), valuePtr)
        decreases !done, Room()
      {
        done, r := EnqueueRound(valuePtr);
      }
    }

    /** How many more tickets `enqueue` may take before its full check holds. */
    ghost function Room(): nat
      reads this
    {
      if UsizeSub(tail, head) < n then n - UsizeSub(tail, head) else 0
    }

    /** One pass of `enqueue`'s loop: a result, or the next ticket with less room. */
    method EnqueueRound(valuePtr: Box<T>) returns (done: bool, r: Result<(), ()>)
      requires Wf()
      modifies this`tail, this`closed, stamps, values
      ensures done ==> (r, State()) == EnqueueFrom(old(State()), valuePtr)
      ensures !done ==> EnqueueFrom(State(), valuePtr) == EnqueueFrom(old(State()), valuePtr) && Room() < old(Room())
    {
      ghost var s0 := State();
      var tailVal := tail;
      tail := tail + 1;
      assert State() == s0.(tail := tailVal + 1);
      if closed {
        return true, Err(());
      }
      var published := TryPublish(tailVal, valuePtr);
      if published {
        return true, Ok(());
      }
      assert State() == s0.(tail := tailVal + 1);
      if UsizeSub(tailVal, head) >= n {
        closed := true;
        return true, Err(());
      }
      SubStep(tailVal, head, n);
      return false, Err(());
    }

    /**
     * Enqueue's attempt at ticket `tailVal`: if the cell is eligible, lock
     * it with the token, stamp it and publish the value. Under one thread
     * no compare-exchange here can fail.
     */
    method TryPublish(tailVal: nat, valuePtr: Box<T>) returns (ok: bool)
      requires Wf()
      modifies stamps, values
      ensures var i, c := tailVal % n, tailVal / n;
        && (ok <==> P.Unoccupied(old(values[i])) && old(stamps[i]).epoch < c && (old(stamps[i]).safe || head <= tailVal))
        && stamps[..] == (if ok then old(stamps[..])[i := P.Stamp(true, c)] else old(stamps[..]))
        && values[..] == (if ok then old(values[..])[i := P.Ptr(valuePtr)] else old(values[..]))
    {
      var cycle := tailVal / n;
      var index := tailVal % n;
      var stamp := stamps[index];
      var value := values[index];
      ok := false;
      if P.Unoccupied(value) && stamp.epoch < cycle && (stamp.safe || head <= tailVal) {
        var locked := CasValue(index, value, P.Token);
        assert locked;
        var advanced := CasStamp(index, stamp, P.Stamp(true, cycle));
        if advanced {
          ok := CasValue(index, P.Token, P.Ptr(valuePtr));
          assert ok;
        } else {
          // the cleanup CAS: unreachable, the stamp was read just before
          assert false;
        }
      }
    }

    /** The cell-update loop of `deqeue` at ticket `headVal`; as in prq.rs it runs once. */
    method UpdateCell(headVal: nat) returns (r: Option<P.Slot<Box<T>>>)
      requires Wf()
      modifies stamps, values
      ensures (r, State()) == P.Transition(old(State()), headVal)
    {
      var cycle := headVal / n;
      var index := headVal % n;
      var stamp := stamps[index];
      var value := values[index];
      if stamp.epoch == cycle && (value != P.Null || value.Token?) {
        values[index] := P.Null;
        return Some(value);
      }
      if stamp.epoch <= cycle && P.Unoccupied(value) {
        if value.Token? {
          var unlocked := CasValue(index, value, P.Null);
          assert unlocked;
        }
        var advanced := CasStamp(index, stamp, P.Stamp(stamp.safe, cycle));
        assert advanced;
        return None;
      }
      if stamp.epoch < cycle && (value != P.Null || value.Token?) {
        var marked := CasStamp(index, stamp, P.Stamp(false, stamp.epoch));
        assert marked;
        return None;
      }
      return None;
    }

    /**
     * `deqeue()`: the value found is unboxed and its box freed. Cells hold
     * no tokens between operations under one thread; a token returned as a
     * value would not be a box.
     */
    method Dequeue() returns (r: Option<T>, ghost slot: Option<P.Slot<Box<T>>>)
      requires Wf() && NoTokens(State())
      modifies this`head, stamps, values, this`freed
      ensures Wf() && (slot, State()) == DequeueFrom(old(State()))
      ensures r == Unbox(slot) && (slot.Some? ==> slot.value.Ptr?)
      ensures freed == if slot.Some? then old(freed) + {slot.value.v} else old(freed)
    {
      while true
        invariant Wf() && NoTokens(State()) && freed == old(freed)
        invariant DequeueFrom(State()) == DequeueFrom(old(State()))
        decreases if head <= tail then tail - head else 0
      {
        ghost var s0 := State();
        var headVal := head;
        head := head + 1;
        assert State() == s0.(head := headVal + 1);
        var found := UpdateCell(headVal);
        ghost var s1 := State();
        CrqRound(s0, found, s1);
        if found.Some? {
          var b := found.value.v;
          freed := freed + {b};
          return Some(b.value), found;
        }
        if tail <= headVal + 1 {
          return None, None;
        }
      }
    }

    /** `drop`: every cell whose value is not null has its box freed. */
    method Drop()
      requires Wf() && NoTokens(State())
      modifies this`freed
      ensures freed == old(freed) + set i | 0 <= i < n && values[i].Ptr? :: values[i].v
    {
      var i := 0;
      while i < n
        invariant 0 <= i <= n
        invariant freed == old(freed) + set j | 0 <= j < i && values[j].Ptr? :: values[j].v
      {
        var val := values[i];
        if val != P.Null {
          freed := freed + {val.v};
        }
        i := i + 1;
      }
    }
  }

  /** One round of `DequeueFrom`, and the absence of tokens it keeps. */
  lemma CrqRound<T>(s: P.Segment<T>, x: Option<P.Slot<T>>, s1: P.Segment<T>)
    requires Wf(s) && NoTokens(s) && (x, s1) == P.Transition(s.(head := s.head + 1), s.head)
    ensures NoTokens(s1) && (x.Some? ==> x.value.Ptr?)
    ensures DequeueFrom(s) ==
      if x.Some? then (x, s1) else if s1.tail <= s.head + 1 then (None, s1) else DequeueFrom(s1)
  {
  }
}
