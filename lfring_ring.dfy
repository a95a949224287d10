/**
 * The SCQ index ring of third-party/scqueue/lfring_cas1.c: 2^(order+1)
 * slots, a head counter, a tail word (ticket counter plus the closed bit at
 * the top) and a signed threshold counter. The ring stores indices below
 * n = 2^(order+1); SCQueue uses it for indices below half = 2^order.
 *
 * Under one thread every ticket the tail counter hands out while the ring
 * is open is written by its enqueue; once the ring is closed, enqueues still
 * take tickets but write nothing, leaving holes. The abstract state
 * `RingState` is therefore the two counters, the closed flag, the
 * threshold and the queued indices, which sit at tickets
 * [head, head + |q|); holes fill [head + |q|, tail).
 *
 * The dequeue of lfring_cas1.c runs `__lfring_catchup` when it finds the
 * ring empty. As written, that catch-up reopens a closed ring whose tail is
 * one past the head, and leaves the tail of a closed ring behind the head
 * when it is not (see `Lfring.CatchupWord`). The functions take the
 * catch-up as a parameter: `AsWritten` is what the code does and what the
 * class `Ring` is proved to compute; `KeepClosed` is the catch-up that
 * keeps the closed bit (`Lfring.CatchupKeepingClosed`).
 *
 * The single-threaded meaning of each operation is a function on
 * `RingState` (`EnqueueFrom`, `DequeueFrom`); the class `Ring` performs the
 * source's fetch-adds, loads, compare-exchanges and fetch-ors on an array
 * and is proved to compute exactly those functions. Its `Window` invariant
 * pins down every slot's word.
 */
module LfringRing {
  import opened Bits
  import opened Lfring

  datatype RingState = RingState(head: nat, tail: nat, closed: bool, threshold: int, q: seq<nat>)

  /** The ring's size parameters: `order` as SCQueue passes it, the minimum order of the slot map, the word width. */
  predicate Shape(order: nat, minOrder: nat, w: nat)
  {
    minOrder <= order && order + 1 < 32 && order + 5 <= w
  }

  /** `__lfring_threshold3(half, n)` for the ring of `order`. */
  function Threshold(order: nat): int
  {
    Threshold3(Pow(order), Pow(order + 1))
  }

  /**
   * The single-threaded invariant: queued indices are below n and at most n
   * of them, holes only on a closed ring, and the threshold never below -1.
   * The head counter passes the tail counter only on a closed ring with no
   * queued index, where the as-written catch-up leaves the tail behind.
   */
  predicate Wf(s: RingState, order: nat)
  {
    && (!s.closed || |s.q| > 0 ==> s.head + |s.q| <= s.tail)
    && |s.q| <= Pow(order + 1)
    && (!s.closed ==> |s.q| == s.tail - s.head)
    && (forall i :: 0 <= i < |s.q| ==> s.q[i] < Pow(order + 1))
    && s.threshold >= -1
  }

  /** A ring with queued indices has a nonnegative threshold: `nonempty = false` dequeues find them. */
  predicate Live(s: RingState)
  {
    |s.q| > 0 ==> s.threshold >= 0
  }

  /** `lfring_init_empty`. */
  function EmptyState(): RingState
  {
    RingState(0, 0, false, -1, [])
  }

  /** `lfring_init_full`: the first half tickets hold `raw_map(i, order, half)`. */
  function FullState(order: nat, minOrder: nat, w: nat): RingState
    requires minOrder <= order
  {
    RingState(0, Pow(order), false, Threshold(order), seq(Pow(order), (i: nat) => RawMap(i, order, Pow(order), minOrder, w)))
  }

  /** `lfring_init_fill(s, e)`: tickets [s, e) hold their own number. */
  function FilledState(s: nat, e: nat, order: nat): RingState
    requires s <= e
  {
    RingState(s, e, false, Threshold(order), seq(e - s, i => s + i))
  }

  /**
   * `lfring_enqueue(eidx, nonempty)`: the fetch-add takes ticket `tail`; a
   * closed ring refuses; otherwise the ticket's slot is free and receives
   * the index, and a `nonempty = false` enqueue restores the threshold.
   */
  function EnqueueFrom(s: RingState, order: nat, eidx: nat, nonempty: bool): (bool, RingState)
  {
    if s.closed then (false, s.(tail := s.tail + 1))
    else
      (true, s.(tail := s.tail + 1, q := s.q + [eidx],
                threshold := if nonempty then s.threshold else Threshold(order)))
  }

  /** Which catch-up an empty dequeue runs: `__lfring_catchup` as written, or one that keeps the closed bit. */
  datatype Catchup = AsWritten | KeepClosed

  /**
   * The state the catch-up leaves when a dequeue has moved the head counter
   * to `h` and found the tail counter at most `h`. As written, its first
   * compare-exchange expects the masked tail word, so it succeeds only on
   * an open ring. On a closed ring it rereads the word: a counter equal to
   * h compares below h once the closed bit is set, so the bare counter h is
   * stored and the ring is open again; a counter below h compares above it,
   * so the word is kept (`Lfring.CatchupWordIs`). The catch-up that keeps
   * the closed bit only raises the counter to h.
   */
  function CatchupFrom(s: RingState, h: nat, c: Catchup): RingState
  {
    match c
    case AsWritten => if !s.closed || s.tail == h then s.(tail := h, closed := false) else s
    case KeepClosed => s.(tail := h)
  }

  /**
   * One pass of `lfring_dequeue`'s outer loop at ticket `head`: the oldest
   * index if there is one; otherwise the ticket's slot is consumed and, for
   * `nonempty = false`, the dequeue gives up when the tail is at most one
   * past the ticket (running the catch-up `c`) or when the threshold it
   * decrements was not positive. `done` is false when the loop takes
   * another ticket.
   */
  function RoundFrom(s: RingState, order: nat, nonempty: bool, w: nat, c: Catchup): (r: (bool, nat, RingState))
    requires Wf(s, order) && (nonempty ==> |s.q| > 0) && (!nonempty ==> s.threshold >= 0)
  {
    if |s.q| > 0 then (true, s.q[0], s.(head := s.head + 1, q := s.q[1..]))
    else
      var h := s.head + 1;
      var s1 := s.(head := h, threshold := s.threshold - 1);
      if s.tail <= h then (true, Empty(w), CatchupFrom(s1, h, c))
      else if s.threshold <= 0 then (true, Empty(w), s1)
      else (false, 0, s1)
  }

  /** The passes of `lfring_dequeue`'s outer loop until one of them returns. */
  function DequeueRounds(s: RingState, order: nat, nonempty: bool, w: nat, c: Catchup): (nat, RingState)
    requires Wf(s, order) && (nonempty ==> |s.q| > 0) && (!nonempty ==> s.threshold >= 0)
    decreases s.tail - s.head
  {
    var (done, r, s1) := RoundFrom(s, order, nonempty, w, c);
    if done then (r, s1) else DequeueRounds(s1, order, nonempty, w, c)
  }

  /** `lfring_dequeue(nonempty)`: a negative threshold answers EMPTY without taking a ticket. */
  function DequeueFrom(s: RingState, order: nat, nonempty: bool, w: nat, c: Catchup): (nat, RingState)
    requires Wf(s, order) && (nonempty ==> |s.q| > 0)
  {
    if !nonempty && s.threshold < 0 then (Empty(w), s)
    else DequeueRounds(s, order, nonempty, w, c)
  }

  /**
   * A `nonempty = false` dequeue of `s` ends at the ticket just below the
   * tail of a closed ring with nothing queued: the passes over the holes
   * before it do not run the threshold out.
   */
  predicate Reopens(s: RingState)
  {
    s.closed && |s.q| == 0 && s.head < s.tail <= s.head + 1 + s.threshold
  }

  // ---------------------------------------------------------------------
  // What the functions promise.

  /** `init_empty` leaves a ring whose `nonempty = false` dequeue answers EMPTY at once, taking no ticket. */
  lemma InitEmptyDequeue(order: nat, w: nat)
    ensures Wf(EmptyState(), order) && Live(EmptyState())
    ensures DequeueFrom(EmptyState(), order, false, w, AsWritten) == (Empty(w), EmptyState())
  {
  }

  /** `init_full` and `init_fill` leave well-formed, open rings holding their tickets' indices. */
  lemma InitFullWf(order: nat, minOrder: nat, w: nat)
    requires Shape(order, minOrder, w)
    ensures Wf(FullState(order, minOrder, w), order) && Live(FullState(order, minOrder, w))
    ensures |FullState(order, minOrder, w).q| == Pow(order)
  {
    var s := FullState(order, minOrder, w);
    forall i | 0 <= i < |s.q|
      ensures s.q[i] < Pow(order + 1)
    {
      RawMapRange(i, order, minOrder, w);
    }
  }

  lemma InitFillWf(s: nat, e: nat, order: nat)
    requires s <= e <= Pow(order + 1)
    ensures Wf(FilledState(s, e, order), order) && Live(FilledState(s, e, order))
  {
  }

  /**
   * An enqueue refuses exactly when the ring is closed; an accepted index
   * goes to the back, and a `nonempty = false` enqueue leaves the threshold
   * at `3 * half - 1`. The ticket counter moves on either way.
   */
  lemma EnqueueSpec(s: RingState, order: nat, eidx: nat, nonempty: bool)
    requires Wf(s, order) && eidx < Pow(order + 1) && (!s.closed ==> |s.q| < Pow(order + 1))
    ensures var (ok, s1) := EnqueueFrom(s, order, eidx, nonempty);
      && (ok <==> !s.closed)
      && s1.q == (if ok then s.q + [eidx] else s.q)
      && s1.tail == s.tail + 1 && s1.head == s.head && s1.closed == s.closed
      && (ok && !nonempty ==> s1.threshold == 3 * Pow(order) - 1)
      && (Live(s) && (ok ==> !nonempty || s.threshold >= 0) ==> Live(s1))
      && Wf(s1, order)
  {
    Threshold3Is(order);
  }

  /**
   * A pass that takes a ticket keeps the ring well formed and its indices
   * in order. Only the catch-up of a ring with nothing queued touches the
   * tail: as written it reopens a closed ring whose tail is one past the
   * ticket and leaves a closed ring's tail where it is otherwise, behind
   * the new head; the catch-up that keeps the closed bit keeps the head at
   * or below the tail.
   */
  lemma RoundSpec(s: RingState, order: nat, nonempty: bool, w: nat, c: Catchup)
    requires Wf(s, order) && (nonempty ==> |s.q| > 0) && (!nonempty ==> s.threshold >= 0)
    ensures var (done, r, s1) := RoundFrom(s, order, nonempty, w, c);
      && Wf(s1, order) && s1.head == s.head + 1
      && s1.closed == (s.closed && !(c == AsWritten && |s.q| == 0 && s.tail == s.head + 1))
      && (|s.q| > 0 ==> done && r == s.q[0] && s1.q == s.q[1..] && s1.threshold == s.threshold)
      && (|s.q| == 0 ==> r == (if done then Empty(w) else 0) && s1.q == [] && s1.threshold == s.threshold - 1)
      && (!done ==> s1.tail - s1.head < s.tail - s.head && s1.threshold >= 0 && s1.head < s1.tail)
      && (c == AsWritten || s.head <= s.tail ==> s1.tail <= s.tail + 1) && (!done ==> s1.tail == s.tail)
      && (c == AsWritten && s.closed && |s.q| == 0 && s.tail <= s.head ==> s1.tail == s.tail)
      && (c == KeepClosed && s.head <= s.tail ==> s1.head <= s1.tail)
  {
  }

  /**
   * A dequeue of a ring with queued indices returns the oldest one and
   * drops it; a dequeue of a ring without any returns EMPTY. The ring stays
   * well formed and live. With the catch-up as written, the closed flag is
   * cleared exactly when the dequeue reopens the ring (`Reopens`), which
   * leaves head and tail at the old tail; a closed ring with nothing queued
   * whose head is not below its tail gets its head one further past the
   * tail. With the catch-up that keeps the closed bit, the flag is kept and
   * the head stays at or below the tail.
   */
  lemma {:induction false} DequeueSpec(s: RingState, order: nat, nonempty: bool, w: nat, c: Catchup)
    requires Wf(s, order) && Live(s) && (nonempty ==> |s.q| > 0)
    ensures var (r, s1) := DequeueFrom(s, order, nonempty, w, c);
      && r == (if |s.q| > 0 then s.q[0] else Empty(w))
      && s1.q == (if |s.q| > 0 then s.q[1..] else s.q)
      && Wf(s1, order) && Live(s1) && (c == AsWritten || s.head <= s.tail ==> s1.tail <= s.tail + 1)
      && s1.closed == (s.closed && !(c == AsWritten && Reopens(s)))
      && (c == AsWritten && Reopens(s) ==> s1.head == s.tail && s1.tail == s.tail)
      && (c == AsWritten && s.closed && |s.q| == 0 && s.tail <= s.head && s.threshold >= 0
          ==> s1.head == s.head + 1 && s1.tail == s.tail)
      && (c == KeepClosed && s.head <= s.tail ==> s1.head <= s1.tail)
  {
    if nonempty || s.threshold >= 0 {
      RoundsSpec(s, order, nonempty, w, c);
    }
  }

  lemma {:induction false} RoundsSpec(s: RingState, order: nat, nonempty: bool, w: nat, c: Catchup)
    requires Wf(s, order) && (nonempty ==> |s.q| > 0) && (!nonempty ==> s.threshold >= 0)
    requires Live(s)
    ensures var (r, s1) := DequeueRounds(s, order, nonempty, w, c);
      && r == (if |s.q| > 0 then s.q[0] else Empty(w))
      && s1.q == (if |s.q| > 0 then s.q[1..] else s.q)
      && Wf(s1, order) && Live(s1) && (c == AsWritten || s.head <= s.tail ==> s1.tail <= s.tail + 1)
      && s1.closed == (s.closed && !(c == AsWritten && Reopens(s)))
      && (c == AsWritten && Reopens(s) ==> s1.head == s.tail && s1.tail == s.tail)
      && (c == AsWritten && s.closed && |s.q| == 0 && s.tail <= s.head ==> s1.head == s.head + 1 && s1.tail == s.tail)
      && (c == KeepClosed && s.head <= s.tail ==> s1.head <= s1.tail)
    decreases s.tail - s.head
  {
    RoundSpec(s, order, nonempty, w, c);
    var (done, r, s1) := RoundFrom(s, order, nonempty, w, c);
    if !done {
      RoundsSpec(s1, order, nonempty, w, c);
    }
  }

  /**
   * The two halves of the catch-up finding on states: a closed ring with
   * nothing queued whose tail is one past its head is open again after an
   * EMPTY dequeue as written, and closed after one with the catch-up that
   * keeps the closed bit.
   */
  lemma DequeueReopens(s: RingState, order: nat, w: nat)
    requires Wf(s, order) && s.closed && s.q == [] && s.tail == s.head + 1 && s.threshold >= 0
    ensures DequeueFrom(s, order, false, w, AsWritten).0 == Empty(w)
    ensures !DequeueFrom(s, order, false, w, AsWritten).1.closed
    ensures DequeueFrom(s, order, false, w, KeepClosed).1.closed
  {
    DequeueSpec(s, order, false, w, AsWritten);
    DequeueSpec(s, order, false, w, KeepClosed);
  }

  /**
   * The ring `aq` of an `SCQueue` of two items (order 1) along the run that
   * shows the catch-up finding: indices 0 and 1 are enqueued, the ring is
   * closed when a third enqueue finds no free index, both are dequeued, an
   * enqueue of 0 is refused and a dequeue answers EMPTY. The enqueue after
   * that is accepted as written, and refused with the closed-keeping
   * catch-up.
   */
  lemma ReopenRun(w: nat, c: Catchup)
    ensures EnqueueFrom(EmptyState(), 1, 0, false) == (true, RingState(0, 1, false, 5, [0]))
    ensures EnqueueFrom(RingState(0, 1, false, 5, [0]), 1, 1, false) == (true, RingState(0, 2, false, 5, [0, 1]))
    ensures CloseFrom(RingState(0, 2, false, 5, [0, 1])) == RingState(0, 2, true, 5, [0, 1])
    ensures DequeueFrom(RingState(0, 2, true, 5, [0, 1]), 1, false, w, c) == (0, RingState(1, 2, true, 5, [1]))
    ensures DequeueFrom(RingState(1, 2, true, 5, [1]), 1, false, w, c) == (1, RingState(2, 2, true, 5, []))
    ensures EnqueueFrom(RingState(2, 2, true, 5, []), 1, 0, false) == (false, RingState(2, 3, true, 5, []))
    ensures DequeueFrom(RingState(2, 3, true, 5, []), 1, false, w, c)
      == (Empty(w), RingState(3, 3, c == KeepClosed, 4, []))
    ensures EnqueueFrom(RingState(3, 3, false, 4, []), 1, 1, false).0
    ensures !EnqueueFrom(RingState(3, 3, true, 4, []), 1, 1, false).0
  {
    assert Pow(1) == 2 && Pow(2) == 4;
    assert Threshold(1) == 5;
    assert [] + [0] == [0] && [0] + [1] == [0, 1];
    assert [0, 1][1..] == [1] && [1][1..] == [];
  }

  /** Into an empty live ring, an index enqueued with `nonempty = false` is the next one dequeued. */
  lemma EnqueueThenDequeue(s: RingState, order: nat, eidx: nat, w: nat, c: Catchup)
    requires Wf(s, order) && Live(s) && !s.closed && s.q == [] && eidx < Pow(order + 1)
    ensures var (ok, s1) := EnqueueFrom(s, order, eidx, false);
      ok && DequeueFrom(s1, order, false, w, c).0 == eidx
  {
    EnqueueSpec(s, order, eidx, false);
    var (ok, s1) := EnqueueFrom(s, order, eidx, false);
    DequeueSpec(s1, order, false, w, c);
  }

  /** `lfring_close`: sets the closed flag. */
  function CloseFrom(s: RingState): RingState
  {
    s.(closed := true)
  }

  /** `lfring_reset_threshold`: stores `__lfring_threshold3(half, n)`. */
  function ResetFrom(s: RingState, order: nat): RingState
  {
    s.(threshold := Threshold(order))
  }

  /**
   * A closed ring stays well formed and keeps its queued indices, and every
   * later enqueue is refused while still taking a ticket.
   */
  lemma CloseSpec(s: RingState, order: nat, eidx: nat, nonempty: bool)
    requires Wf(s, order)
    ensures Wf(CloseFrom(s), order) && CloseFrom(s).q == s.q && (Live(s) ==> Live(CloseFrom(s)))
    ensures EnqueueFrom(CloseFrom(s), order, eidx, nonempty) == (false, CloseFrom(s).(tail := s.tail + 1))
  {
  }

  /** After a threshold reset the ring is live: its queued indices reach `nonempty = false` dequeues. */
  lemma ResetSpec(s: RingState, order: nat)
    requires Wf(s, order)
    ensures Wf(ResetFrom(s, order), order) && Live(ResetFrom(s, order))
    ensures ResetFrom(s, order).threshold == 3 * Pow(order) - 1
  {
    Threshold3Is(order);
  }

  // ---------------------------------------------------------------------
  // The slots.

  /**
   * The word ticket t left in its slot, for t below the write frontier
   * head + |q|: EMPTY's all-ones pattern for a ticket before the first, a
   * consumed cycle for a ticket below head, the entry of a queued index.
   */
  function EntryOf(s: RingState, t: int, k: nat, w: nat): nat
    requires t < s.head + |s.q|
  {
    if t < s.head then Consumed(t, k, w) else Entry(t, k, s.q[t - s.head])
  }

  /** The slot of ticket u holds the word of ticket u - n. */
  ghost predicate SlotHolds(a: seq<nat>, s: RingState, u: nat, order: nat, minOrder: nat, w: nat)
    requires minOrder <= order + 1 && u < s.head + |s.q| + Pow(order + 1)
  {
    && Map(u, order, Pow(order + 1), minOrder, w) < |a|
    && a[Map(u, order, Pow(order + 1), minOrder, w)] == EntryOf(s, u - Pow(order + 1), order + 1, w)
  }

  /**
   * Every slot holds the word of the last ticket that wrote it: ticket u
   * in [F, F + n), F = head + |q|, finds in its slot the word of ticket
   * u - n. Holes write nothing, so the tail does not enter.
   */
  ghost predicate Window(a: seq<nat>, s: RingState, order: nat, minOrder: nat, w: nat)
    requires minOrder <= order + 1
  {
    forall u: nat :: s.head + |s.q| <= u < s.head + |s.q| + Pow(order + 1) ==> SlotHolds(a, s, u, order, minOrder, w)
  }

  /** The slot of the head ticket: the oldest index's entry, or a consumed word. */
  lemma HeadSlot(a: seq<nat>, s: RingState, order: nat, minOrder: nat, w: nat)
    requires Shape(order, minOrder, w) && Wf(s, order) && Window(a, s, order, minOrder, w)
    ensures Map(s.head, order, Pow(order + 1), minOrder, w) < |a|
    ensures a[Map(s.head, order, Pow(order + 1), minOrder, w)]
      == if |s.q| > 0 then Entry(s.head, order + 1, s.q[0]) else Consumed(s.head - Pow(order + 1), order + 1, w)
  {
    var n := Pow(order + 1);
    if |s.q| > 0 {
      MapPeriodic(s.head, order, minOrder, w);
      assert SlotHolds(a, s, s.head + n, order, minOrder, w);
    } else {
      assert SlotHolds(a, s, s.head, order, minOrder, w);
    }
  }

  /** The slot of the tail ticket of an open ring with room holds a consumed word. */
  lemma TailSlot(a: seq<nat>, s: RingState, order: nat, minOrder: nat, w: nat)
    requires Shape(order, minOrder, w) && Wf(s, order) && Window(a, s, order, minOrder, w)
    requires !s.closed && |s.q| < Pow(order + 1)
    ensures Map(s.tail, order, Pow(order + 1), minOrder, w) < |a|
    ensures a[Map(s.tail, order, Pow(order + 1), minOrder, w)] == Consumed(s.tail - Pow(order + 1), order + 1, w)
  {
    assert SlotHolds(a, s, s.tail, order, minOrder, w);
  }

  /** Window facts depend on head and the queued indices only. */
  lemma WindowFrame(a: seq<nat>, s: RingState, s1: RingState, order: nat, minOrder: nat, w: nat)
    requires Shape(order, minOrder, w) && Window(a, s, order, minOrder, w)
    requires s1.head == s.head && s1.q == s.q
    ensures Window(a, s1, order, minOrder, w)
  {
    forall u: nat | s1.head + |s1.q| <= u < s1.head + |s1.q| + Pow(order + 1)
      ensures SlotHolds(a, s1, u, order, minOrder, w)
    {
      assert SlotHolds(a, s, u, order, minOrder, w);
    }
  }

  /** A slot other than the one written keeps its word, and the ticket it came from keeps its meaning. */
  lemma SlotKept(a: seq<nat>, s: RingState, s1: RingState, u: nat, i: nat, x: nat, order: nat, minOrder: nat, w: nat)
    requires minOrder <= order + 1 && u < s.head + |s.q| + Pow(order + 1) && u < s1.head + |s1.q| + Pow(order + 1)
    requires SlotHolds(a, s, u, order, minOrder, w) && i != Map(u, order, Pow(order + 1), minOrder, w) && i < |a|
    requires EntryOf(s1, u - Pow(order + 1), order + 1, w) == EntryOf(s, u - Pow(order + 1), order + 1, w)
    ensures SlotHolds(a[i := x], s1, u, order, minOrder, w)
  {
  }

  /** Storing an index's entry at the tail ticket of an open ring appends the index. */
  lemma WindowEnqueue(a: seq<nat>, s: RingState, s1: RingState, e: nat, order: nat, minOrder: nat, w: nat)
    requires Shape(order, minOrder, w) && Wf(s, order) && Window(a, s, order, minOrder, w)
    requires !s.closed && |s.q| < Pow(order + 1)
    requires s1.head == s.head && s1.q == s.q + [e]
    requires Map(s.tail, order, Pow(order + 1), minOrder, w) < |a|
    ensures Window(a[Map(s.tail, order, Pow(order + 1), minOrder, w) := Entry(s.tail, order + 1, e)], s1, order, minOrder, w)
  {
    var n := Pow(order + 1);
    var t := s.tail;
    var i := Map(t, order, n, minOrder, w);
    var a1 := a[i := Entry(t, order + 1, e)];
    MapPeriodic(t, order, minOrder, w);
    forall u: nat | s1.head + |s1.q| <= u < s1.head + |s1.q| + n
      ensures SlotHolds(a1, s1, u, order, minOrder, w)
    {
      if u == t + n {
        assert EntryOf(s1, u - n, order + 1, w) == Entry(t, order + 1, e);
      } else {
        assert SlotHolds(a, s, u, order, minOrder, w);
        MapDistinct(u, t + n, order, minOrder, w);
        assert EntryOf(s1, u - n, order + 1, w) == EntryOf(s, u - n, order + 1, w);
        SlotKept(a, s, s1, u, i, Entry(t, order + 1, e), order, minOrder, w);
      }
    }
  }

  /** Consuming the head ticket's entry drops the oldest index. */
  lemma WindowTake(a: seq<nat>, s: RingState, s1: RingState, order: nat, minOrder: nat, w: nat)
    requires Shape(order, minOrder, w) && Wf(s, order) && Window(a, s, order, minOrder, w)
    requires |s.q| > 0 && s1.head == s.head + 1 && s1.q == s.q[1..]
    requires Map(s.head, order, Pow(order + 1), minOrder, w) < |a|
    ensures Window(a[Map(s.head, order, Pow(order + 1), minOrder, w) := Cycle(s.head, order + 1)], s1, order, minOrder, w)
  {
    var n := Pow(order + 1);
    var h := s.head;
    var i := Map(h, order, n, minOrder, w);
    var a1 := a[i := Cycle(h, order + 1)];
    MapPeriodic(h, order, minOrder, w);
    forall u: nat | s1.head + |s1.q| <= u < s1.head + |s1.q| + n
      ensures SlotHolds(a1, s1, u, order, minOrder, w)
    {
      if u == h + n {
        assert EntryOf(s1, u - n, order + 1, w) == Cycle(h, order + 1);
      } else {
        assert SlotHolds(a, s, u, order, minOrder, w);
        if u < h + n {
          MapDistinct(u, h + n, order, minOrder, w);
        } else {
          MapDistinct(h + n, u, order, minOrder, w);
        }
        assert EntryOf(s1, u - n, order + 1, w) == EntryOf(s, u - n, order + 1, w);
        SlotKept(a, s, s1, u, i, Cycle(h, order + 1), order, minOrder, w);
      }
    }
  }

  /** Writing the head ticket's cycle into its slot when nothing is queued moves the frontier on. */
  lemma WindowSkip(a: seq<nat>, s: RingState, s1: RingState, order: nat, minOrder: nat, w: nat)
    requires Shape(order, minOrder, w) && Wf(s, order) && Window(a, s, order, minOrder, w)
    requires |s.q| == 0 && s1.head == s.head + 1 && s1.q == []
    requires Map(s.head, order, Pow(order + 1), minOrder, w) < |a|
    ensures Window(a[Map(s.head, order, Pow(order + 1), minOrder, w) := Cycle(s.head, order + 1)], s1, order, minOrder, w)
  {
    var n := Pow(order + 1);
    var h := s.head;
    var i := Map(h, order, n, minOrder, w);
    var a1 := a[i := Cycle(h, order + 1)];
    MapPeriodic(h, order, minOrder, w);
    forall u: nat | s1.head + |s1.q| <= u < s1.head + |s1.q| + n
      ensures SlotHolds(a1, s1, u, order, minOrder, w)
    {
      if u == h + n {
        assert EntryOf(s1, u - n, order + 1, w) == Cycle(h, order + 1);
      } else {
        assert SlotHolds(a, s, u, order, minOrder, w);
        MapDistinct(h, u, order, minOrder, w);
        assert EntryOf(s1, u - n, order + 1, w) == EntryOf(s, u - n, order + 1, w);
        SlotKept(a, s, s1, u, i, Cycle(h, order + 1), order, minOrder, w);
      }
    }
  }

  // ---------------------------------------------------------------------
  // The slots of a freshly initialised ring.

  /** Round zero: ticket i < n publishes e as n + e and is consumed as 2n - 1. */
  lemma FirstRoundWords(i: nat, k: nat, e: nat)
    requires i < Pow(k)
    ensures Entry(i, k, e) == Pow(k) + e
    ensures Cycle(i, k) == 2 * Pow(k) - 1
  {
    ShrBound(i, 0, k);
    ScaleZero(k + 1);
  }

  /** The word an initialiser stores in the slot of ticket i < n: the ticket's own word below F = head + |q|, EMPTY's pattern above. */
  function FirstWord(s: RingState, i: nat, order: nat, w: nat): nat
    requires s.head + |s.q| <= Pow(order + 1)
  {
    if i < s.head + |s.q| then EntryOf(s, i, order + 1, w) else Empty(w)
  }

  /** Ticket j's round-zero word is in its slot. */
  ghost predicate PlacedAt(a: seq<nat>, s: RingState, j: nat, order: nat, minOrder: nat, w: nat)
    requires minOrder <= order + 1 && s.head + |s.q| <= Pow(order + 1)
  {
    Map(j, order, Pow(order + 1), minOrder, w) < |a| && a[Map(j, order, Pow(order + 1), minOrder, w)] == FirstWord(s, j, order, w)
  }

  /** Tickets [0, i) have their round-zero words in their slots. */
  ghost predicate Placed(a: seq<nat>, s: RingState, i: nat, order: nat, minOrder: nat, w: nat)
    requires minOrder <= order + 1 && s.head + |s.q| <= Pow(order + 1)
  {
    forall j: nat :: j < i ==> PlacedAt(a, s, j, order, minOrder, w)
  }

  /** Storing ticket i's word in its slot keeps the earlier tickets' words: the slots of n consecutive tickets differ. */
  lemma PlacedStep(a: seq<nat>, s: RingState, i: nat, x: nat, order: nat, minOrder: nat, w: nat)
    requires Shape(order, minOrder, w) && s.head + |s.q| <= Pow(order + 1)
    requires |a| == Pow(order + 1) && i < Pow(order + 1) && Placed(a, s, i, order, minOrder, w)
    requires x == FirstWord(s, i, order, w)
    ensures Map(i, order, Pow(order + 1), minOrder, w) < |a|
    ensures Placed(a[Map(i, order, Pow(order + 1), minOrder, w) := x], s, i + 1, order, minOrder, w)
  {
    var n := Pow(order + 1);
    var m := Map(i, order, n, minOrder, w);
    MapRange(i, order, minOrder, w);
    var a1 := a[m := x];
    forall j: nat | j < i + 1
      ensures PlacedAt(a1, s, j, order, minOrder, w)
    {
      if j < i {
        MapDistinct(j, i, order, minOrder, w);
        assert PlacedAt(a, s, j, order, minOrder, w);
      }
    }
  }

  /** Slots holding round zero's words satisfy the window. */
  lemma WindowFirstRound(a: seq<nat>, s: RingState, order: nat, minOrder: nat, w: nat)
    requires Shape(order, minOrder, w) && s.head + |s.q| <= Pow(order + 1)
    requires Placed(a, s, Pow(order + 1), order, minOrder, w)
    ensures Window(a, s, order, minOrder, w)
  {
    var n := Pow(order + 1);
    forall u: nat | s.head + |s.q| <= u < s.head + |s.q| + n
      ensures SlotHolds(a, s, u, order, minOrder, w)
    {
      if u >= n {
        var v := u - n;
        assert PlacedAt(a, s, v, order, minOrder, w);
        MapPeriodic(v, order, minOrder, w);
        assert v + n == u;
      } else {
        assert PlacedAt(a, s, u, order, minOrder, w);
      }
    }
  }

  // ---------------------------------------------------------------------
  // The ring invariant on values.

  /**
   * The slot words `a`, the abstract state `s` and the tail word agree:
   * the tail word carries the ticket counter and the closed bit, and every
   * slot holds the word the window gives it.
   */
  ghost predicate Inv(a: seq<nat>, s: RingState, tailWord: nat, order: nat, minOrder: nat, w: nat)
  {
    && Shape(order, minOrder, w)
    && |a| == Pow(order + 1)
    && Wf(s, order)
    && s.tail < Limit(w)
    && tailWord == TailWord(s.tail, s.closed, w)
    && Window(a, s, order, minOrder, w)
  }

  /** An enqueue on a closed ring only takes a ticket. */
  lemma InvEnqueueClosed(a: seq<nat>, s: RingState, tw: nat, eidx: nat, nonempty: bool, order: nat, minOrder: nat, w: nat)
    requires Inv(a, s, tw, order, minOrder, w) && s.closed && s.tail + 1 < Limit(w)
    ensures EnqueueFrom(s, order, eidx, nonempty) == (false, s.(tail := s.tail + 1))
    ensures Inv(a, s.(tail := s.tail + 1), tw + 1, order, minOrder, w)
  {
    WindowFrame(a, s, s.(tail := s.tail + 1), order, minOrder, w);
  }

  /**
   * An enqueue on an open ring with room finds the consumed word of the
   * ticket one round back in the tail ticket's slot, and storing the
   * index's entry there yields the state `EnqueueFrom` gives.
   */
  lemma InvEnqueue(a: seq<nat>, s: RingState, tw: nat, eidx: nat, nonempty: bool, order: nat, minOrder: nat, w: nat)
    requires Inv(a, s, tw, order, minOrder, w) && !s.closed && |s.q| < Pow(order + 1) && s.tail + 1 < Limit(w)
    requires eidx < Pow(order + 1)
    ensures Map(s.tail, order, Pow(order + 1), minOrder, w) < |a|
    ensures a[Map(s.tail, order, Pow(order + 1), minOrder, w)] == Consumed(s.tail - Pow(order + 1), order + 1, w)
    ensures Inv(a[Map(s.tail, order, Pow(order + 1), minOrder, w) := Entry(s.tail, order + 1, eidx)],
                EnqueueFrom(s, order, eidx, nonempty).1, tw + 1, order, minOrder, w)
  {
    TailSlot(a, s, order, minOrder, w);
    EnqueueSpec(s, order, eidx, nonempty);
    WindowEnqueue(a, s, EnqueueFrom(s, order, eidx, nonempty).1, eidx, order, minOrder, w);
  }

  /** `InvEnqueue`'s conclusion, stated for the slots, state and tail word a caller holds. */
  lemma InvEnqueued(a0: seq<nat>, s0: RingState, tw0: nat, tidx: nat, eidx: nat, nonempty: bool,
                    a: seq<nat>, s: RingState, tw: nat, order: nat, minOrder: nat, w: nat)
    requires Inv(a0, s0, tw0, order, minOrder, w) && !s0.closed && |s0.q| < Pow(order + 1) && s0.tail + 1 < Limit(w)
    requires eidx < Pow(order + 1) && tidx == Map(s0.tail, order, Pow(order + 1), minOrder, w) && tidx < |a0|
    requires a == a0[tidx := Entry(s0.tail, order + 1, eidx)] && tw == tw0 + 1
    requires s == s0.(tail := s0.tail + 1, q := s0.q + [eidx], threshold := if nonempty then s0.threshold else Threshold(order))
    ensures EnqueueFrom(s0, order, eidx, nonempty) == (true, s)
    ensures Inv(a, s, tw, order, minOrder, w)
  {
    InvEnqueue(a0, s0, tw0, eidx, nonempty, order, minOrder, w);
  }

  /** Taking the head ticket's index: its slot holds the index's entry, and marking the slot consumed drops the index. */
  lemma InvTake(a: seq<nat>, s: RingState, tw: nat, nonempty: bool, order: nat, minOrder: nat, w: nat)
    requires Inv(a, s, tw, order, minOrder, w) && |s.q| > 0 && (!nonempty ==> s.threshold >= 0)
    ensures Map(s.head, order, Pow(order + 1), minOrder, w) < |a| && s.q[0] < Pow(order + 1) && s.head < Limit(w)
    ensures a[Map(s.head, order, Pow(order + 1), minOrder, w)] == Entry(s.head, order + 1, s.q[0])
    ensures RoundFrom(s, order, nonempty, w, AsWritten) == (true, s.q[0], s.(head := s.head + 1, q := s.q[1..]))
    ensures Inv(a[Map(s.head, order, Pow(order + 1), minOrder, w) := Cycle(s.head, order + 1)],
                s.(head := s.head + 1, q := s.q[1..]), tw, order, minOrder, w)
  {
    HeadSlot(a, s, order, minOrder, w);
    RoundSpec(s, order, nonempty, w, AsWritten);
    WindowTake(a, s, s.(head := s.head + 1, q := s.q[1..]), order, minOrder, w);
  }

  /**
   * Skipping the head ticket of a ring without queued indices: its slot
   * holds the consumed word of the ticket one round back, an open ring has
   * its tail at the head, and writing the ticket's cycle into the slot
   * yields the state `RoundFrom` gives with the as-written catch-up, with
   * the tail word at its tail and closed flag.
   */
  lemma InvSkip(a: seq<nat>, s: RingState, tw: nat, order: nat, minOrder: nat, w: nat)
    requires Inv(a, s, tw, order, minOrder, w) && |s.q| == 0 && s.threshold >= 0 && s.tail + 1 < Limit(w)
    requires s.head + 1 < Limit(w)
    ensures Map(s.head, order, Pow(order + 1), minOrder, w) < |a|
    ensures a[Map(s.head, order, Pow(order + 1), minOrder, w)] == Consumed(s.head - Pow(order + 1), order + 1, w)
    ensures !s.closed ==> s.tail == s.head
    ensures var s1 := RoundFrom(s, order, false, w, AsWritten).2;
      Inv(a[Map(s.head, order, Pow(order + 1), minOrder, w) := Cycle(s.head, order + 1)],
          s1, TailWord(s1.tail, s1.closed, w), order, minOrder, w)
  {
    HeadSlot(a, s, order, minOrder, w);
    RoundSpec(s, order, false, w, AsWritten);
    var s1 := RoundFrom(s, order, false, w, AsWritten).2;
    WindowSkip(a, s, s1, order, minOrder, w);
  }

  /** Closing only sets the flag in the state and the top bit of the tail word. */
  lemma InvClose(a: seq<nat>, s: RingState, tw: nat, order: nat, minOrder: nat, w: nat)
    requires Inv(a, s, tw, order, minOrder, w)
    ensures s.tail < Pow(w - 1)
    ensures Inv(a, CloseFrom(s), TailWord(s.tail, true, w), order, minOrder, w)
  {
    PowMonotone(w - 3, w - 1);
    WindowFrame(a, s, CloseFrom(s), order, minOrder, w);
  }

  /** Resetting the threshold touches neither the slots nor the tail word. */
  lemma InvReset(a: seq<nat>, s: RingState, tw: nat, order: nat, minOrder: nat, w: nat)
    requires Inv(a, s, tw, order, minOrder, w)
    ensures Inv(a, ResetFrom(s, order), tw, order, minOrder, w)
  {
    WindowFrame(a, s, ResetFrom(s, order), order, minOrder, w);
  }

  /** `InvTake`'s conclusion, stated for the slots and state a caller holds. */
  lemma InvTaken(a0: seq<nat>, s0: RingState, tw: nat, hidx: nat, a: seq<nat>, s: RingState,
                 nonempty: bool, order: nat, minOrder: nat, w: nat)
    requires Inv(a0, s0, tw, order, minOrder, w) && |s0.q| > 0 && (!nonempty ==> s0.threshold >= 0)
    requires hidx == Map(s0.head, order, Pow(order + 1), minOrder, w) && hidx < |a0|
    requires a == a0[hidx := Cycle(s0.head, order + 1)] && s == s0.(head := s0.head + 1, q := s0.q[1..])
    ensures Inv(a, s, tw, order, minOrder, w)
  {
    InvTake(a0, s0, tw, nonempty, order, minOrder, w);
  }

  /** `InvSkip`'s conclusion, stated for the slots, state and tail word a caller holds. */
  lemma InvSkipped(a0: seq<nat>, s0: RingState, tw0: nat, hidx: nat, a: seq<nat>, s: RingState, tw: nat,
                   order: nat, minOrder: nat, w: nat)
    requires Inv(a0, s0, tw0, order, minOrder, w) && |s0.q| == 0 && s0.threshold >= 0 && s0.tail + 1 < Limit(w)
    requires s0.head + 1 < Limit(w)
    requires hidx == Map(s0.head, order, Pow(order + 1), minOrder, w) && hidx < |a0|
    requires a == a0[hidx := Cycle(s0.head, order + 1)] && s == RoundFrom(s0, order, false, w, AsWritten).2
    requires tw == TailWord(s.tail, s.closed, w)
    ensures Inv(a, s, tw, order, minOrder, w)
  {
    InvSkip(a0, s0, tw0, order, minOrder, w);
  }

  /**
   * The value test of `lfring_dequeue` on the slot word `entry` of head
   * ticket hd: the word's cycle is the ticket's exactly when the slot holds
   * an entry published at hd (`full`, with index v); then the index read
   * from the low bits and the word the fetch-or of n - 1 leaves behind.
   */
  method TakeEntry(hd: nat, entry: nat, n: nat, k: nat, w: nat, ghost full: bool, ghost v: nat) returns (taken: bool, idx: nat, word: nat)
    requires k + 4 <= w && hd < Limit(w) && n == Pow(k) && v < n
    requires entry == if full then Entry(hd, k, v) else Consumed(hd - n, k, w)
    ensures taken == full
    ensures full ==> idx == v && word == Cycle(hd, k)
  {
    if full {
      TakeWords(hd, entry, v, n, k, w);
    } else {
      HoleWords(hd, entry, n, k, w);
    }
    var hcycle := Or(Shl(hd, 1, w), 2 * n - 1);
    var ecycle := Or(entry, 2 * n - 1);
    taken := ecycle == hcycle;
    idx := And(entry, n - 1);
    word := Or(entry, n - 1);
  }

  /**
   * The consumed-slot path of `lfring_dequeue`'s inner loop at head ticket
   * hd, given the tail word `tl` it loads: `(entry | n) == ecycle`, so the
   * word is not an unconsumed entry of another round; the tail is past
   * hd + 1 only on a closed ring, so the loop does not go back (`again`);
   * the word compares below hd's cycle (`replace`), which is the word that
   * replaces it.
   */
  method SkipEntry(hd: nat, entry: nat, tl: nat, n: nat, k: nat, w: nat, ghost t: nat, ghost closed: bool)
    returns (again: bool, replace: bool, entryNew: nat)
    requires k + 4 <= w && hd + 1 < Limit(w) && n == Pow(k) && entry == Consumed(hd - n, k, w)
    requires t < Limit(w) && tl == TailWord(t, closed, w) && (!closed ==> t <= hd)
    ensures !again && replace && entryNew == Cycle(hd, k)
  {
    HoleWords(hd, entry, n, k, w);
    PowMonotone(w - 3, w - 1);
    TailWordBits(t, closed, w);
    DiffSmall(t, hd + 1, w);
    var hcycle := Or(Shl(hd, 1, w), 2 * n - 1);
    var ecycle := Or(entry, 2 * n - 1);
    var attempt: nat := 0;
    if Or(entry, n) != ecycle {
      // An unconsumed entry of another round: not in a ring used alone.
      assert false;
    }
    var masked := And(tl, Not(Closed(w), w));
    var isClosed := And(tl, Closed(w)) != 0;
    attempt := attempt + 1;
    again := attempt <= 4 * 1024 && !isClosed && Ge(masked, hd + 1, w);
    entryNew := Xor(hcycle, And(Not(entry, w), n));
    replace := Lt(ecycle, hcycle, w);
  }

  /** `__lfring_cmp(x, <=, y)` on two ticket counters below the closed bit. */
  method CounterAtMost(x: nat, y: nat, w: nat) returns (b: bool)
    requires w >= 3 && x < Limit(w) && y < Limit(w)
    ensures b == (x <= y)
  {
    PowMonotone(w - 3, w - 1);
    DiffSmall(x, y, w);
    b := Le(x, y, w);
  }

  /** `tail & ~__LFRING_CLOSED`: the ticket counter of a tail word. */
  method Counter(word: nat, w: nat, ghost t: nat, ghost closed: bool) returns (c: nat)
    requires w >= 3 && t < Limit(w) && word == TailWord(t, closed, w)
    ensures c == t
  {
    PowMonotone(w - 3, w - 1);
    TailWordBits(t, closed, w);
    c := And(word, Not(Closed(w), w));
  }

  /**
   * `lfring_enqueue`'s test on the slot word `entry` of tail ticket `tl`,
   * n = 2^k, and the word it stores: the entry of index `eidx` at `tl`.
   * The head load of the second alternative is read before the test; alone
   * on the ring nothing depends on when.
   */
  method EnqueueEntry(tl: nat, head: nat, entry: nat, eidx: nat, n: nat, k: nat, w: nat) returns (fits: bool, word: nat)
    requires k + 4 <= w && tl < Limit(w) && head <= tl && n == Pow(k)
    requires entry == Consumed(tl - n, k, w) && eidx < n
    ensures fits && word == Entry(tl, k, eidx)
  {
    EnqueueWords(tl, head, entry, eidx, n, k, w);
    var e := Xor(eidx, n - 1);
    var tcycle := Or(Shl(tl, 1, w), 2 * n - 1);
    var ecycle := Or(entry, 2 * n - 1);
    var headBehind := Le(head, tl, w);
    fits := Lt(ecycle, tcycle, w) && (entry == ecycle || (entry == Xor(ecycle, n) && headBehind));
    word := Xor(tcycle, e);
  }

  // ---------------------------------------------------------------------
  // The ring itself.

  /**
   * `struct __lfring`: the slot array and the three counters. The tail
   * word is the ticket counter with the closed bit on top; the ghost
   * fields name the abstract state the words encode.
   */
  class Ring {
    const order: nat
    const minOrder: nat
    const w: nat
    const slots: array<nat>
    var head: nat
    var tailWord: nat
    var threshold: int
    ghost var tail: nat
    ghost var closed: bool
    ghost var q: seq<nat>

    ghost function State(): RingState
      reads this
    {
      RingState(head, tail, closed, threshold, q)
    }

    ghost predicate Valid()
      reads this, slots
    {
      Inv(slots[..], State(), tailWord, order, minOrder, w)
    }

    /** `lfring_init_empty`: every slot holds -1, the threshold is -1. */
    constructor InitEmpty(order: nat, minOrder: nat, w: nat)
      requires Shape(order, minOrder, w)
      ensures this.order == order && this.minOrder == minOrder && this.w == w
      ensures Valid() && State() == EmptyState() && fresh(slots)
    {
      var n := Pow2(order + 1);
      Pow2Is(order + 1);
      var a := new nat[n];
      var i := 0;
      while i != n
        invariant i <= n
        invariant forall j :: 0 <= j < i ==> a[j] == Empty(w)
      {
        a[i] := Empty(w);
        i := i + 1;
      }
      forall j: nat | j < n
        ensures PlacedAt(a[..], EmptyState(), j, order, minOrder, w)
      {
        MapRange(j, order, minOrder, w);
      }
      assert Placed(a[..], EmptyState(), n, order, minOrder, w);
      WindowFirstRound(a[..], EmptyState(), order, minOrder, w);
      this.order, this.minOrder, this.w := order, minOrder, w;
      slots := a;
      head, threshold, tailWord := 0, -1, 0;
      tail, closed, q := 0, false, [];
    }

    /** `lfring_init_full`: tickets [0, half) hold `raw_map(i, order, half)`, the rest of the slots -1. */
    constructor InitFull(order: nat, minOrder: nat, w: nat)
      requires Shape(order, minOrder, w)
      ensures this.order == order && this.minOrder == minOrder && this.w == w
      ensures Valid() && State() == FullState(order, minOrder, w) && fresh(slots)
    {
      var half := Pow2(order);
      Pow2Is(order);
      var n := half * 2;
      ghost var st := FullState(order, minOrder, w);
      InitFullWf(order, minOrder, w);
      PowMonotone(order + 1, w - 3);
      var a := new nat[n];
      var i := 0;
      while i != half
        invariant i <= half
        invariant Placed(a[..], st, i, order, minOrder, w)
      {
        FirstRoundWords(i, order + 1, RawMap(i, order, half, minOrder, w));
        var word: nat := n + RawMap(i, order, half, minOrder, w);
        ghost var a0 := a[..];
        PlacedStep(a0, st, i, word, order, minOrder, w);
        a[Map(i, order, n, minOrder, w)] := word;
        assert a[..] == a0[Map(i, order, n, minOrder, w) := word];
        i := i + 1;
      }
      while i != n
        invariant half <= i <= n
        invariant Placed(a[..], st, i, order, minOrder, w)
      {
        var word: nat := Empty(w);
        ghost var a0 := a[..];
        PlacedStep(a0, st, i, word, order, minOrder, w);
        a[Map(i, order, n, minOrder, w)] := word;
        assert a[..] == a0[Map(i, order, n, minOrder, w) := word];
        i := i + 1;
      }
      WindowFirstRound(a[..], st, order, minOrder, w);
      this.order, this.minOrder, this.w := order, minOrder, w;
      slots := a;
      head, threshold, tailWord := 0, Threshold3(half, n), half;
      tail, closed, q := half, false, st.q;
      new;
      assert State() == st;
    }

    /** `lfring_init_fill(s, e)`: tickets [0, s) consumed, [s, e) holding their own number, the rest -1. */
    constructor InitFill(s: nat, e: nat, order: nat, minOrder: nat, w: nat)
      requires Shape(order, minOrder, w) && s <= e <= Pow(order + 1)
      ensures this.order == order && this.minOrder == minOrder && this.w == w
      ensures Valid() && State() == FilledState(s, e, order) && fresh(slots)
    {
      var half := Pow2(order);
      Pow2Is(order);
      var n := half * 2;
      ghost var st := FilledState(s, e, order);
      InitFillWf(s, e, order);
      PowMonotone(order + 2, w - 3);
      var a := new nat[n];
      var i := 0;
      while i != s
        invariant i <= s
        invariant Placed(a[..], st, i, order, minOrder, w)
      {
        FirstRoundWords(i, order + 1, 0);
        var word: nat := 2 * n - 1;
        ghost var a0 := a[..];
        PlacedStep(a0, st, i, word, order, minOrder, w);
        a[Map(i, order, n, minOrder, w)] := word;
        assert a[..] == a0[Map(i, order, n, minOrder, w) := word];
        i := i + 1;
      }
      while i != e
        invariant s <= i <= e
        invariant Placed(a[..], st, i, order, minOrder, w)
      {
        FirstRoundWords(i, order + 1, i);
        var word: nat := n + i;
        ghost var a0 := a[..];
        PlacedStep(a0, st, i, word, order, minOrder, w);
        a[Map(i, order, n, minOrder, w)] := word;
        assert a[..] == a0[Map(i, order, n, minOrder, w) := word];
        i := i + 1;
      }
      while i != n
        invariant e <= i <= n
        invariant Placed(a[..], st, i, order, minOrder, w)
      {
        var word: nat := Empty(w);
        ghost var a0 := a[..];
        PlacedStep(a0, st, i, word, order, minOrder, w);
        a[Map(i, order, n, minOrder, w)] := word;
        assert a[..] == a0[Map(i, order, n, minOrder, w) := word];
        i := i + 1;
      }
      WindowFirstRound(a[..], st, order, minOrder, w);
      this.order, this.minOrder, this.w := order, minOrder, w;
      slots := a;
      head, threshold, tailWord := s, Threshold3(half, n), e;
      tail, closed, q := e, false, st.q;
      new;
      assert State() == st;
    }

    /**
     * `lfring_enqueue(eidx, nonempty)`. Alone on the ring, the loaded slot
     * holds the consumed word of the ticket one round back, so the entry
     * test passes and the compare-exchange finds the word it loaded; the
     * retry paths are not taken.
     */
    method Enqueue(eidx: nat, nonempty: bool) returns (ok: bool)
      requires Valid() && eidx < Pow(order + 1)
      requires !closed ==> |q| < Pow(order + 1)
      requires tail + 1 < Limit(w)
      modifies this, slots
      ensures Valid()
      ensures (ok, State()) == EnqueueFrom(old(State()), order, eidx, nonempty)
    {
      ghost var s0 := State();
      ghost var a0 := slots[..];
      TailWordBits(tail, closed, w);
      var tl := tailWord;
      tailWord, tail := tailWord + 1, tail + 1;
      if And(tl, Closed(w)) != 0 {
        InvEnqueueClosed(a0, s0, tl, eidx, nonempty, order, minOrder, w);
        return false;
      }
      assert tl == s0.tail;
      ok := Publish(tl, eidx, nonempty, s0, a0);
    }

    /**
     * The rest of `lfring_enqueue` on an open ring, after the fetch-add
     * took ticket `tl`: load the ticket's slot, check that it is free and
     * of an earlier cycle, store the entry, and raise the threshold for
     * `nonempty = false`.
     */
    method Publish(tl: nat, eidx: nat, nonempty: bool, ghost s0: RingState, ghost a0: seq<nat>) returns (ok: bool)
      requires Inv(a0, s0, tl, order, minOrder, w) && !s0.closed && |s0.q| < Pow(order + 1)
      requires s0.tail + 1 < Limit(w) && eidx < Pow(order + 1) && tl == s0.tail
      requires slots[..] == a0 && State() == s0.(tail := s0.tail + 1) && tailWord == tl + 1
      modifies this, slots
      ensures Valid()
      ensures (ok, State()) == EnqueueFrom(s0, order, eidx, nonempty)
    {
      var half := Pow2(order);
      Pow2Is(order);
      var n := half * 2;
      assert n == Pow(order + 1);
      InvEnqueue(a0, s0, tl, eidx, nonempty, order, minOrder, w);
      var tidx := Map(tl, order, n, minOrder, w);
      var entry := slots[tidx];
      var fits, word := EnqueueEntry(tl, head, entry, eidx, n, order + 1, w);
      if fits {
        slots[tidx] := word;
        assert slots[..] == a0[tidx := Entry(s0.tail, order + 1, eidx)];
        q := q + [eidx];
        assert Threshold3(half, n) == Threshold(order);
        if !nonempty && threshold != Threshold3(half, n) {
          threshold := Threshold3(half, n);
        }
        InvEnqueued(a0, s0, tl, tidx, eidx, nonempty, slots[..], State(), tailWord, order, minOrder, w);
        return true;
      }
      assert false;
    }

    /**
     * One pass of `lfring_dequeue`'s outer loop: take a head ticket and
     * return its index, or consume its slot (`ConsumeHole`).
     */
    method DequeueRound(nonempty: bool) returns (done: bool, r: nat)
      requires Valid() && (nonempty ==> |q| > 0) && (!nonempty ==> threshold >= 0)
      requires tail + 1 < Limit(w) && head + 1 < Limit(w)
      modifies this, slots
      ensures Valid()
      ensures (done, r, State()) == RoundFrom(old(State()), order, nonempty, w, AsWritten)
    {
      ghost var s0 := State();
      ghost var a0 := slots[..];
      var n := Pow2(order + 1);
      Pow2Is(order + 1);
      var hd := head;
      head := head + 1;
      var hidx := Map(hd, order, n, minOrder, w);
      HeadSlot(a0, s0, order, minOrder, w);
      var entry := slots[hidx];
      var taken, idx, word := TakeEntry(hd, entry, n, order + 1, w, |q| > 0, if |q| > 0 then q[0] else 0);
      if taken {
        InvTake(a0, s0, tailWord, nonempty, order, minOrder, w);
        // The fetch-or of n - 1 on the slot, which still holds `entry`.
        slots[hidx] := word;
        assert slots[..] == a0[hidx := Cycle(hd, order + 1)];
        q := q[1..];
        InvTaken(a0, s0, tailWord, hidx, slots[..], State(), nonempty, order, minOrder, w);
        return true, idx;
      }
      InvSkip(a0, s0, tailWord, order, minOrder, w);
      ghost var tw0 := tailWord;
      done, r := ConsumeHole(hd, hidx, entry, nonempty, s0);
      InvSkipped(a0, s0, tw0, hidx, slots[..], State(), tailWord, order, minOrder, w);
    }

    /**
     * The rest of the pass when the head ticket's slot holds the consumed
     * word of the ticket one round back: replace it by the ticket's cycle;
     * for `nonempty = false`, give up when the tail is at most one past the
     * ticket (running `__lfring_catchup` with the masked tail) or when the
     * threshold was not positive.
     */
    method ConsumeHole(hd: nat, hidx: nat, entry: nat, nonempty: bool, ghost s0: RingState)
      returns (done: bool, r: nat)
      requires Shape(order, minOrder, w) && Wf(s0, order) && |s0.q| == 0
      requires (nonempty ==> |s0.q| > 0) && (!nonempty ==> s0.threshold >= 0)
      requires s0.tail + 1 < Limit(w) && hd + 1 < Limit(w) && (!s0.closed ==> s0.tail == hd)
      requires hd == s0.head && State() == s0.(head := hd + 1)
      requires tailWord == TailWord(tail, closed, w)
      requires hidx < slots.Length && entry == Consumed(hd - Pow(order + 1), order + 1, w)
      modifies this, slots
      ensures slots[..] == old(slots[..])[hidx := Cycle(hd, order + 1)]
      ensures (done, r, State()) == RoundFrom(s0, order, nonempty, w, AsWritten)
      ensures tailWord == TailWord(tail, closed, w)
    {
      ghost var res := RoundFrom(s0, order, nonempty, w, AsWritten);
      var n := Pow2(order + 1);
      Pow2Is(order + 1);
      var again, replace, entryNew := SkipEntry(hd, entry, tailWord, n, order + 1, w, tail, closed);
      if again {
        assert false;
      }
      if replace {
        slots[hidx] := entryNew;
      } else {
        assert false;
      }
      if !nonempty {
        var t := Counter(tailWord, w, tail, closed);
        var behind := CounterAtMost(t, hd + 1, w);
        if behind {
          CatchupWordIs(tail, closed, hd + 1, w);
          Catchup(t, hd + 1);
          if !closed || tail == hd + 1 {
            tail, closed := hd + 1, false;
          }
          threshold := threshold - 1;
          return true, Empty(w);
        }
        var before := threshold;
        threshold := threshold - 1;
        if before <= 0 {
          return true, Empty(w);
        }
        return false, 0;
      }
      assert false;
    }

    /**
     * `lfring_dequeue(nonempty)`: refuse at once when `nonempty` is false
     * and the threshold is negative; otherwise run passes until one returns.
     */
    method Dequeue(nonempty: bool) returns (r: nat)
      requires Valid() && (nonempty ==> |q| > 0) && tail + 1 < Limit(w) && head + 1 < Limit(w)
      modifies this, slots
      ensures Valid()
      ensures (r, State()) == DequeueFrom(old(State()), order, nonempty, w, AsWritten)
    {
      if !nonempty && threshold < 0 {
        return Empty(w);
      }
      ghost var s0 := State();
      var done := false;
      r := 0;
      while !done
        invariant Valid()
        invariant !done ==> (nonempty ==> |q| > 0) && (!nonempty ==> threshold >= 0) && tail == s0.tail
        invariant !done ==> head + 1 < Limit(w)
        invariant !done ==> DequeueRounds(State(), order, nonempty, w, AsWritten) == DequeueRounds(s0, order, nonempty, w, AsWritten)
        invariant done ==> (r, State()) == DequeueRounds(s0, order, nonempty, w, AsWritten)
        decreases !done, tail - head
      {
        RoundSpec(State(), order, nonempty, w, AsWritten);
        done, r := DequeueRound(nonempty);
      }
    }

    /**
     * `__lfring_catchup(ring, tl0, hd0)` as written, with the head counter
     * already at `hd0`: a compare-exchange of the whole tail word against
     * `tl0`; when it fails, reread both counters, stop if the tail word
     * compares at or above the head, else try again with the word just read.
     * `lfring_dequeue` calls it with the masked tail (`ConsumeHole`).
     */
    method Catchup(tl0: nat, hd0: nat)
      requires w >= 1 && tailWord < Pow(w) && hd0 < Pow(w) && head == hd0
      modifies this`tailWord
      ensures tailWord == CatchupWord(old(tailWord), tl0, hd0, w)
    {
      var expected, desired := tl0, hd0;
      var done := false;
      ghost var rounds := 0;
      while !done
        invariant rounds <= 2 && desired == hd0
        invariant !done && rounds == 0 ==> expected == tl0 && tailWord == old(tailWord)
        invariant !done && rounds > 0 ==> expected == tailWord == old(tailWord) && !Ge(expected, hd0, w)
        invariant !done ==> rounds < 2
        invariant done ==> tailWord == CatchupWord(old(tailWord), tl0, hd0, w)
        decreases 2 - rounds
      {
        if tailWord == expected {
          tailWord := desired;
          done := true;
        } else {
          desired := head;
          expected := tailWord;
          if Ge(expected, desired, w) {
            done := true;
          }
        }
        rounds := rounds + 1;
      }
    }

    /** `lfring_reset_threshold`. */
    method ResetThreshold()
      requires Valid()
      modifies this`threshold
      ensures Valid() && State() == ResetFrom(old(State()), order)
    {
      var half := Pow2(order);
      Pow2Is(order);
      var n := half * 2;
      assert n == Pow(order + 1);
      InvReset(slots[..], State(), tailWord, order, minOrder, w);
      threshold := Threshold3(half, n);
    }

    /** `lfring_close`: the fetch-or of the closed bit into the tail word. */
    method Close()
      requires Valid()
      modifies this`tailWord, this`closed
      ensures Valid() && State() == CloseFrom(old(State()))
    {
      InvClose(slots[..], State(), tailWord, order, minOrder, w);
      CloseWord(tail, closed, w);
      tailWord := Or(tailWord, Closed(w));
      closed := true;
    }

    /** `lfring_get_head`. */
    method GetHead() returns (h: nat)
      requires Valid()
      ensures h == State().head
    {
      h := head;
    }

    /** `lfring_get_tail`: the tail word without the closed bit is the tail ticket counter. */
    method GetTail() returns (t: nat)
      requires Valid()
      ensures t == State().tail
    {
      t := Counter(tailWord, w, tail, closed);
    }

    /**
     * The corrected tail catch-up: move the ticket counter of the tail word
     * up to `hd`, keeping the closed bit. It is the `KeepClosed` catch-up of
     * `CatchupFrom`; `lfring_dequeue` as written runs `Catchup` instead.
     */
    method CatchupKeepClosed(hd: nat)
      requires Shape(order, minOrder, w) && tail < Limit(w) && hd < Limit(w)
      requires tailWord == TailWord(tail, closed, w)
      modifies this`tailWord
      ensures old(tailWord) < Pow(w) && hd < Pow(w) && tailWord == CatchupKeepingClosed(old(tailWord), hd, w)
      ensures tailWord == TailWord(if tail < hd then hd else tail, closed, w)
    {
      CatchupKeepsClosed(tail, closed, hd, w);
      var tl := tailWord;
      var t := And(tl, Not(Closed(w), w));
      AndBound(tl, Not(Closed(w), w));
      if Lt(t, hd, w) {
        // The compare-exchange finds `tl`, its only writer being this thread.
        tailWord := Or(hd, And(tl, Closed(w)));
      }
    }
  }
}
