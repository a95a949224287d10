/**
 * The ring segment of rust-queues/src/lprq/arc_lprq/prq.rs. Cells,
 * tickets and stamps are those of `Prq`; what differs is modelled here:
 *
 *  - `closed` is bit 63 of the tail word (`TailWord`);
 *  - a cell is eligible for enqueue when its value is null, its epoch is
 *    at most the cycle, and it is safe or head is at most the CYCLE;
 *  - dequeue takes a value only when the epoch equals the cycle, and its
 *    empty and unsafe transitions both stamp the cell (false, ticket);
 *    its inner loop spins a counter `r` up to 4n before doing so;
 *  - `fix_state` overwrites the whole tail word with head, which clears
 *    the closed bit.
 *
 * A dequeue that finds a ticket empty leaves its cell unsafe with an epoch
 * that is a ticket, not a cycle; with two or more cells that cell is never
 * eligible again (`Dead`), so the segment's capacity shrinks by one. The
 * queue properties are proved with that in mind (`EnqueueSpec`,
 * `DequeueSpec`).
 */
module ArcPrq {
  import opened Wrappers
  import opened Tickets
  import G = Gather
  import P = Prq

  type Segment<T> = P.Segment<T>

  // ---------------------------------------------------------------------
  // The tail word.

  /** Bit 63 of the tail word: the segment is closed. */
  const CLOSED_BIT: nat := 0x8000_0000_0000_0000

  /** The tail word for a ticket counter below 2^63 and a closed flag. */
  function TailWord(tail: nat, closed: bool): (w: nat)
    requires tail < CLOSED_BIT
    ensures w < 2 * CLOSED_BIT
  {
    (if closed then CLOSED_BIT else 0) + tail
  }

  /** `!(1 << 63) & tail_ticket`. */
  function MaskedTail(w: nat): nat
  {
    w % CLOSED_BIT
  }

  /** `tail_ticket & (1 << 63) != 0`. */
  predicate ClosedBit(w: nat)
  {
    (w / CLOSED_BIT) % 2 == 1
  }

  /** The word gives back its ticket counter and its flag. */
  lemma TailWordRoundTrip(tail: nat, closed: bool)
    requires tail < CLOSED_BIT
    ensures MaskedTail(TailWord(tail, closed)) == tail
    ensures ClosedBit(TailWord(tail, closed)) == closed
  {
  }

  /**
   * `fetch_add(1)` moves the ticket counter and keeps the flag;
   * `fetch_or(1 << 63)` sets the flag and keeps the counter; storing head
   * (`fix_state`) leaves the flag clear.
   */
  lemma TailWordUpdates(tail: nat, closed: bool, head: nat)
    requires tail + 1 < CLOSED_BIT && head < CLOSED_BIT
    ensures TailWord(tail, closed) + 1 == TailWord(tail + 1, closed)
    ensures (if ClosedBit(TailWord(tail, closed)) then TailWord(tail, closed)
             else TailWord(tail, closed) + CLOSED_BIT) == TailWord(tail, true)
    ensures head == TailWord(head, false) && !ClosedBit(head)
  {
    TailWordRoundTrip(tail, closed);
  }

  // ---------------------------------------------------------------------
  // The operations.

  /** The eligibility test of `enqueue` at ticket `t`. */
  predicate Eligible<T>(s: Segment<T>, t: nat)
    requires P.Wf(s)
  {
    var i := t % s.n;
    s.values[i] == P.Null && s.stamps[i].epoch <= t / s.n && (s.stamps[i].safe || s.head <= t / s.n)
  }

  /**
   * `enqueue`: a ticket taken from a closed word is refused; an eligible
   * cell is locked, stamped (true, cycle) and published; otherwise a ticket
   * `n` or more ahead of head sets the closed bit and refuses.
   */
  function EnqueueFrom<T>(s: Segment<T>, v: T): (r: (Result<(), ()>, Segment<T>))
    requires P.Wf(s)
    ensures P.Wf(r.1) && r.1.n == s.n && r.1.head == s.head && r.1.tail > s.tail
    decreases if s.tail <= s.head + s.n then s.head + s.n - s.tail else 0
  {
    var t := s.tail;
    var s1 := s.(tail := t + 1);
    if s.closed then (Err(()), s1)
    else if Eligible(s, t) then (Ok(()), P.Published(s, v))
    else if t >= s.head + s.n then (Err(()), s1.(closed := true))
    else EnqueueFrom(s1, v)
  }

  /**
   * Dequeue's inner loop at ticket `h`, from pass `r`. Tail and the closed
   * bit are read on pass 0 (and every 255th); under one thread they do not
   * change in between, so the pass reads them from `s`. A compare-exchange
   * that fails and the second stamp read that differs cannot happen under
   * one thread.
   */
  function Pass<T>(s: Segment<T>, h: nat, r: nat): (x: (Option<P.Slot<T>>, Segment<T>))
    requires P.Wf(s)
    ensures P.Wf(x.1) && x.1.n == s.n && x.1.head == s.head && x.1.tail == s.tail && x.1.closed == s.closed
    decreases if r <= 4 * s.n then 4 * s.n + 1 - r else 0, if s.values[h % s.n].Token? then 1 else 0
  {
    var i := h % s.n;
    var st := s.stamps[i];
    var x := s.values[i];
    if st.epoch > h + s.n then (None, s)
    else if x.Ptr? && st.epoch == h / s.n then (Some(x), s.(values := s.values[i := P.Null]))
    else if x.Ptr? && !st.safe then (None, s)
    else if !st.safe || s.tail < h + 1 || s.closed || r > 4 * s.n then
      if x.Token? then Pass(s.(values := s.values[i := P.Null]), h, r)
      else (None, s.(stamps := s.stamps[i := P.Stamp(false, h)]))
    else Pass(s, h, r + 1)
  }

  /**
   * What the inner loop does, uncounted: when not overtaken, a value of
   * this cycle is taken; an unsafe value is left alone; anything else is
   * unlocked and stamped (false, h).
   */
  function Step<T>(s: Segment<T>, h: nat): (x: (Option<P.Slot<T>>, Segment<T>))
    requires P.Wf(s)
  {
    var i := h % s.n;
    var st := s.stamps[i];
    var x := s.values[i];
    if st.epoch > h + s.n then (None, s)
    else if x.Ptr? && st.epoch == h / s.n then (Some(x), s.(values := s.values[i := P.Null]))
    else if x.Ptr? && !st.safe then (None, s)
    else (None, s.(values := s.values[i := if x.Token? then P.Null else x],
                   stamps := s.stamps[i := P.Stamp(false, h)]))
  }

  /** The spin counter only delays: from any pass the loop ends as `Step` says. */
  lemma {:induction false} PassIsStep<T>(s: Segment<T>, h: nat, r: nat)
    requires P.Wf(s)
    ensures Pass(s, h, r) == Step(s, h)
    decreases if r <= 4 * s.n then 4 * s.n + 1 - r else 0, if s.values[h % s.n].Token? then 1 else 0
  {
    var i := h % s.n;
    var st := s.stamps[i];
    var x := s.values[i];
    if st.epoch > h + s.n || (x.Ptr? && (st.epoch == h / s.n || !st.safe)) {
    } else if !st.safe || s.tail < h + 1 || s.closed || r > 4 * s.n {
      if x.Token? {
        var s' := s.(values := s.values[i := P.Null]);
        PassIsStep(s', h, r);
        assert s'.values[i := P.Null] == s.values[i := P.Null];
      } else {
        assert s.values[i := x] == s.values;
      }
    } else {
      PassIsStep(s, h, r + 1);
    }
  }

  /** `fix_state`: when head has passed the masked tail, the word becomes head, closed bit clear. */
  function Fix<T>(s: Segment<T>): (r: Segment<T>)
    ensures r.tail >= r.head && r.tail >= s.tail
    ensures r == s || (s.head > s.tail && r == s.(tail := s.head, closed := false))
  {
    if s.head > s.tail then s.(tail := s.head, closed := false) else s
  }

  /**
   * `dequeue`: take ticket `h`, run the inner loop; a value is returned;
   * otherwise a masked tail of at most `h + 1` means empty (after
   * `fix_state`), and anything else retries.
   */
  function DequeueFrom<T>(s: Segment<T>): (r: (Option<P.Slot<T>>, Segment<T>))
    requires P.Wf(s)
    ensures P.Wf(r.1) && r.1.n == s.n
    decreases if s.head <= s.tail then s.tail - s.head else 0
  {
    var h := s.head;
    var (x, s1) := Pass(s.(head := h + 1), h, 0);
    if x.Some? then (x, s1)
    else if s1.tail <= h + 1 then (None, Fix(s1))
    else DequeueFrom(s1)
  }

  /** One round of `DequeueFrom`, with the inner loop as `Step`. */
  lemma DequeueRound<T>(s: Segment<T>, x: Option<P.Slot<T>>, s1: Segment<T>)
    requires P.Wf(s) && (x, s1) == Step(s.(head := s.head + 1), s.head)
    ensures DequeueFrom(s) ==
      if x.Some? then (x, s1) else if s1.tail <= s.head + 1 then (None, Fix(s1)) else DequeueFrom(s1)
  {
    PassIsStep(s.(head := s.head + 1), s.head, 0);
  }

  /**
   * A dequeue moves head at most one past the larger of head and tail,
   * and tail no further: the counters stay within one ticket of where
   * they were, so they stay below 2^63 when they start below it.
   */
  lemma {:induction false} DequeueBounds<T>(s: Segment<T>)
    requires P.Wf(s)
    ensures var s' := DequeueFrom(s).1;
      && s'.head <= (if s.head + 1 > s.tail then s.head + 1 else s.tail)
      && s'.tail <= (if s.head + 1 > s.tail then s.head + 1 else s.tail)
    decreases if s.head <= s.tail then s.tail - s.head else 0
  {
    var h := s.head;
    var (x, s1) := Pass(s.(head := h + 1), h, 0);
    if x.None? && s1.tail > h + 1 {
      DequeueBounds(s1);
    }
  }

  // ---------------------------------------------------------------------
  // What a segment holds, and the invariant single-threaded use keeps.

  /**
   * A cell that an empty or unsafe transition has stamped: null and
   * unsafe. With two or more cells it is never eligible again (see
   * `DeadIsIneligible`); with one cell it is, for every ticket from head on.
   */
  predicate Dead<T>(s: Segment<T>, i: nat)
    requires P.Wf(s) && i < s.n
  {
    s.n >= 2 && s.values[i] == P.Null && !s.stamps[i].safe
  }

  /**
   * The states single-threaded use reaches: no cell holds a token; an
   * unsafe cell is null and its stamp records a ticket in [n, head); a
   * pointer is safe and its ticket lies in [head, tail) and below
   * head + n; a safe null cell's ticket is below head; and an open segment
   * has at most `n` tickets in [head, tail), each present or on a dead cell.
   */
  predicate Valid<T>(s: Segment<T>)
  {
    && P.Wf(s)
    && s.n <= s.head <= s.tail
    && (forall i :: 0 <= i < s.n ==> !s.values[i].Token?)
    && (forall i :: 0 <= i < s.n && !s.stamps[i].safe ==> s.values[i] == P.Null && s.n <= s.stamps[i].epoch < s.head)
    && (forall i :: 0 <= i < s.n && s.values[i].Ptr? ==>
          s.head <= P.CellTicket(s, i) < s.tail && P.CellTicket(s, i) < s.head + s.n)
    && (forall i :: 0 <= i < s.n && s.values[i] == P.Null && s.stamps[i].safe ==> P.CellTicket(s, i) < s.head)
    && (!s.closed ==>
          && s.tail <= s.head + s.n
          && forall t :: s.head <= t < s.tail ==> P.At(s, t).Some? || Dead(s, t % s.n))
  }

  /** Enqueue can still succeed: some ticket before head + n is on a live cell. */
  predicate HasRoom<T>(s: Segment<T>)
    requires P.Wf(s)
  {
    exists t :: s.tail <= t < s.head + s.n && !Dead(s, t % s.n)
  }

  /** `new()` is a valid, open, empty segment with every cell alive. */
  lemma InitValid<T>(n: nat)
    requires n > 0
    ensures Valid(P.Init<T>(n)) && P.Items(P.Init<T>(n)) == [] && !P.Init<T>(n).closed
    ensures HasRoom(P.Init<T>(n))
  {
    assert !Dead(P.Init<T>(n), n % n);
  }

  /** In a valid segment no ticket at or beyond tail is present. */
  lemma NothingPastTail<T>(s: Segment<T>, t: nat)
    requires Valid(s) && t >= s.tail
    ensures P.At(s, t).None?
  {
    if P.At(s, t).Some? {
      P.AtTicket(s, t);
    }
  }

  /** A dead cell is refused at every ticket up to head + n. */
  lemma DeadIsIneligible<T>(s: Segment<T>, t: nat)
    requires Valid(s) && t <= s.head + s.n && Dead(s, t % s.n)
    ensures !Eligible(s, t)
  {
    SmallCycle(t, s.head, s.n);
  }

  /**
   * A ticket in [tail, head + n) of an open segment has a null cell, which
   * is eligible exactly when it is not dead.
   */
  lemma FreeCell<T>(s: Segment<T>, t: nat)
    requires Valid(s) && !s.closed && s.tail <= t < s.head + s.n
    ensures s.values[t % s.n] == P.Null
    ensures Eligible(s, t) <==> !Dead(s, t % s.n)
  {
    var n := s.n;
    var i := t % n;
    Decompose(t, n);
    var e := s.stamps[i].epoch;
    if s.values[i].Ptr? {
      Unique(e, i, n);
      CloseTicketsDiffer(P.CellTicket(s, i), t, n);
    }
    if Dead(s, i) {
      DeadIsIneligible(s, t);
    } else if s.stamps[i].safe {
      EarlierTicketEarlierEpoch(e, t, n);
    }
  }

  // ---------------------------------------------------------------------
  // Enqueue.

  lemma PublishedPointers<T>(s: Segment<T>, v: T)
    requires Valid(s) && !s.closed && s.tail < s.head + s.n
    ensures var s' := P.Published(s, v);
      forall j :: 0 <= j < s.n && s'.values[j].Ptr? ==>
        s.head <= P.CellTicket(s', j) <= s.tail && P.CellTicket(s', j) < s.head + s.n
  {
    Decompose(s.tail, s.n);
  }

  lemma PublishedPresent<T>(s: Segment<T>, v: T)
    requires Valid(s) && !s.closed && s.tail < s.head + s.n
    ensures var s' := P.Published(s, v);
      forall u :: s.head <= u <= s.tail ==> P.At(s', u).Some? || Dead(s', u % s.n)
  {
    var t, n := s.tail, s.n;
    var s' := P.Published(s, v);
    forall u | s.head <= u <= t
      ensures P.At(s', u).Some? || Dead(s', u % n)
    {
      if u < t {
        CloseTicketsDiffer(u, t, n);
        assert P.At(s, u).Some? || Dead(s, u % n);
        assert P.At(s', u) == P.At(s, u);
      } else {
        Decompose(t, n);
        assert s'.values[t % n] == P.Ptr(v) && s'.stamps[t % n].epoch == t / n;
      }
    }
  }

  lemma PublishedValid<T>(s: Segment<T>, v: T)
    requires Valid(s) && !s.closed && s.tail < s.head + s.n && s.values[s.tail % s.n] == P.Null
    ensures Valid(P.Published(s, v))
  {
    PublishedPointers(s, v);
    PublishedPresent(s, v);
  }

  /** Enqueue at a live ticket with room: the value joins the back. */
  lemma EnqueueWithRoom<T>(s: Segment<T>, v: T)
    requires Valid(s) && !s.closed && s.tail < s.head + s.n && !Dead(s, s.tail % s.n)
    ensures EnqueueFrom(s, v) == (Ok(()), P.Published(s, v))
    ensures Valid(P.Published(s, v)) && P.Items(P.Published(s, v)) == P.Items(s) + [v]
  {
    FreeCell(s, s.tail);
    PublishedValid(s, v);
    P.PublishedItems(s, v);
  }

  /** Moving tail over absent tickets adds no values. */
  lemma TailForwardItems<T>(s: Segment<T>, k: nat, closed: bool)
    requires P.Wf(s) && s.tail <= k && forall u :: s.tail <= u < k ==> P.At(s, u).None?
    ensures P.Items(s.(tail := k, closed := closed)) == P.Items(s)
  {
    var s' := s.(tail := k, closed := closed);
    P.SameCells(s, s');
    G.Congruent(P.Reader(s'), P.Reader(s), s.head, k);
    G.AbsentTail(P.Reader(s), s.head, s.tail, k);
  }

  /** Moving tail forward and closing keeps a valid segment's values. */
  lemma CloseForward<T>(s: Segment<T>, k: nat)
    requires Valid(s) && k >= s.tail
    ensures Valid(s.(tail := k, closed := true)) && P.Items(s.(tail := k, closed := true)) == P.Items(s)
  {
    forall u: nat | s.tail <= u < k
      ensures P.At(s, u).None?
    {
      NothingPastTail(s, u);
    }
    TailForwardItems(s, k, true);
  }

  /** Passing a dead ticket: the enqueue retries at the next one, nothing else changes. */
  lemma SkipDead<T>(s: Segment<T>, v: T)
    requires Valid(s) && !s.closed && s.tail < s.head + s.n && Dead(s, s.tail % s.n)
    ensures var s1 := s.(tail := s.tail + 1);
      && EnqueueFrom(s, v) == EnqueueFrom(s1, v)
      && Valid(s1) && P.Items(s1) == P.Items(s) && !s1.closed
      && (HasRoom(s) <==> HasRoom(s1))
  {
    FreeCell(s, s.tail);
    DeadTicketValid(s);
    DeadTicketRoom(s);
  }

  lemma DeadTicketValid<T>(s: Segment<T>)
    requires Valid(s) && !s.closed && s.tail < s.head + s.n && Dead(s, s.tail % s.n)
    ensures Valid(s.(tail := s.tail + 1)) && P.Items(s.(tail := s.tail + 1)) == P.Items(s)
  {
    var t := s.tail;
    var s1 := s.(tail := t + 1);
    forall u | s.head <= u < t + 1
      ensures P.At(s1, u).Some? || Dead(s1, u % s.n)
    {
      if u < t {
        assert P.At(s, u).Some? || Dead(s, u % s.n);
      }
    }
    NothingPastTail(s, t);
    TailForwardItems(s, t + 1, false);
  }

  lemma DeadTicketRoom<T>(s: Segment<T>)
    requires P.Wf(s) && s.tail < s.head + s.n && Dead(s, s.tail % s.n)
    ensures HasRoom(s) <==> HasRoom(s.(tail := s.tail + 1))
  {
    var s1 := s.(tail := s.tail + 1);
    if HasRoom(s) {
      var w :| s.tail <= w < s.head + s.n && !Dead(s, w % s.n);
      assert !Dead(s1, w % s.n);
    }
    if HasRoom(s1) {
      var w :| s1.tail <= w < s.head + s.n && !Dead(s1, w % s.n);
      assert !Dead(s, w % s.n);
    }
  }

  /** An open segment whose tickets reach head + n refuses and closes. */
  lemma CloseFull<T>(s: Segment<T>, v: T)
    requires Valid(s) && !s.closed && s.tail == s.head + s.n
    ensures EnqueueFrom(s, v) == (Err(()), s.(tail := s.tail + 1, closed := true))
    ensures Valid(s.(tail := s.tail + 1, closed := true))
    ensures P.Items(s.(tail := s.tail + 1, closed := true)) == P.Items(s)
    ensures !HasRoom(s)
  {
    var h, t := s.head, s.tail;
    NextRound(h, s.n);
    assert P.At(s, h).Some? || Dead(s, h % s.n);
    if P.At(s, h).Some? {
      P.AtTicket(s, h);
    } else {
      DeadIsIneligible(s, t);
    }
    CloseForward(s, t + 1);
  }

  /** A closed segment refuses; only the ticket counter moves. */
  lemma EnqueueWhenClosed<T>(s: Segment<T>, v: T)
    requires Valid(s) && s.closed
    ensures EnqueueFrom(s, v) == (Err(()), s.(tail := s.tail + 1))
    ensures Valid(s.(tail := s.tail + 1)) && P.Items(s.(tail := s.tail + 1)) == P.Items(s)
  {
    CloseForward(s, s.tail + 1);
  }

  lemma {:induction false} EnqueueOpen<T>(s: Segment<T>, v: T)
    requires Valid(s) && !s.closed
    ensures var (r, s') := EnqueueFrom(s, v);
      && Valid(s') && s'.head == s.head
      && (r.Ok? <==> HasRoom(s))
      && (r.Ok? ==> P.Items(s') == P.Items(s) + [v] && !s'.closed)
      && (r.Err? ==> P.Items(s') == P.Items(s) && s'.closed)
    decreases s.head + s.n - s.tail
  {
    if s.tail < s.head + s.n {
      if Dead(s, s.tail % s.n) {
        SkipDead(s, v);
        EnqueueOpen(s.(tail := s.tail + 1), v);
      } else {
        EnqueueWithRoom(s, v);
      }
    } else {
      CloseFull(s, v);
    }
  }

  /**
   * Enqueue in full: it succeeds exactly when the segment is open and some
   * ticket before head + n is on a live cell, appending the value;
   * otherwise the values stay and the segment is (or becomes) closed.
   */
  lemma EnqueueSpec<T>(s: Segment<T>, v: T)
    requires Valid(s)
    ensures var (r, s') := EnqueueFrom(s, v);
      && Valid(s') && s'.head == s.head
      && (r.Ok? <==> !s.closed && HasRoom(s))
      && (r.Ok? ==> P.Items(s') == P.Items(s) + [v] && !s'.closed)
      && (r.Err? ==> P.Items(s') == P.Items(s) && s'.closed)
  {
    if s.closed {
      EnqueueWhenClosed(s, v);
    } else {
      EnqueueOpen(s, v);
    }
  }

  // ---------------------------------------------------------------------
  // Dequeue.

  /** The cell of a present ticket holds a pointer of that cycle, which it takes. */
  lemma TakeStep<T>(s: Segment<T>)
    requires Valid(s) && P.At(s, s.head).Some?
    ensures Step(s.(head := s.head + 1), s.head) == (Some(P.Ptr(P.At(s, s.head).value)), P.Taken(s))
    ensures s.head < s.tail
  {
    P.AtTicket(s, s.head);
    CycleAtMostTicket(s.head, s.n);
    if s.head >= s.tail {
      NothingPastTail(s, s.head);
    }
  }

  lemma TakenValid<T>(s: Segment<T>)
    requires Valid(s) && P.At(s, s.head).Some? && s.head < s.tail
    ensures Valid(P.Taken(s))
  {
    var h, n := s.head, s.n;
    P.AtTicket(s, h);
    var s1 := P.Taken(s);
    forall j | 0 <= j < n && s1.values[j].Ptr?
      ensures s1.head <= P.CellTicket(s1, j)
    {
      Unique(s.stamps[j].epoch, j, n);
    }
    if !s.closed {
      forall u | h < u < s.tail
        ensures P.At(s1, u).Some? || Dead(s1, u % n)
      {
        CloseTicketsDiffer(h, u, n);
        assert P.At(s, u).Some? || Dead(s, u % n);
      }
    }
  }

  /** The segment after dequeue passes ticket `head` without a value: its cell is stamped (false, head). */
  function Killed<T>(s: Segment<T>): Segment<T>
    requires P.Wf(s)
  {
    s.(head := s.head + 1, stamps := s.stamps[s.head % s.n := P.Stamp(false, s.head)])
  }

  /** At an absent ticket the cell is null, and the inner loop stamps it (false, head). */
  lemma KillStep<T>(s: Segment<T>)
    requires Valid(s) && P.At(s, s.head).None?
    ensures Step(s.(head := s.head + 1), s.head) == (None, Killed(s))
    ensures s.values[s.head % s.n] == P.Null
  {
    var h, n := s.head, s.n;
    var i := h % n;
    Decompose(h, n);
    var e := s.stamps[i].epoch;
    if s.values[i].Ptr? {
      Unique(e, i, n);
      if P.CellTicket(s, i) > h {
        CloseTicketsDiffer(h, P.CellTicket(s, i), n);
      }
      P.TicketAt(s, i);
    }
    if s.stamps[i].safe {
      NoLaterTicketNoLaterEpoch(e, h, n);
      CycleAtMostTicket(h, n);
    }
    assert s.values[i := s.values[i]] == s.values;
  }

  /** Stamping a null cell changes no ticket's value. */
  lemma KilledCells<T>(s: Segment<T>)
    requires P.Wf(s) && s.values[s.head % s.n] == P.Null
    ensures forall u: nat :: P.At(Killed(s), u) == P.At(s, u)
  {
  }

  lemma KilledValid<T>(s: Segment<T>)
    requires Valid(s) && P.At(s, s.head).None? && s.values[s.head % s.n] == P.Null && s.head < s.tail
    ensures Valid(Killed(s))
  {
    var h, n := s.head, s.n;
    var s1 := Killed(s);
    KilledCells(s);
    forall j | 0 <= j < n && s1.values[j].Ptr?
      ensures s1.head <= P.CellTicket(s1, j)
    {
      Unique(s.stamps[j].epoch, j, n);
      Decompose(h, n);
    }
    if !s.closed {
      forall u | h < u < s.tail
        ensures P.At(s1, u).Some? || Dead(s1, u % n)
      {
        assert P.At(s, u).Some? || Dead(s, u % n);
      }
    }
  }

  lemma KilledItems<T>(s: Segment<T>)
    requires P.Wf(s) && P.At(s, s.head).None? && s.values[s.head % s.n] == P.Null && s.head < s.tail
    ensures P.Items(Killed(s)) == P.Items(s)
  {
    KilledCells(s);
    G.Front(P.Reader(s), s.head, s.tail);
    G.Congruent(P.Reader(Killed(s)), P.Reader(s), s.head + 1, s.tail);
  }

  /**
   * What a dequeue promises: from an empty segment it returns `None` and
   * leaves it empty with tail at head; otherwise it returns the front value
   * and removes exactly that one. The closed bit survives unless the
   * segment was empty with head at tail, where `fix_state` clears it.
   */
  ghost predicate DequeuePost<T>(s: Segment<T>, r: Option<P.Slot<T>>, s': Segment<T>)
  {
    && Valid(s') && s'.closed == (s.closed && s.head < s.tail)
    && (P.Items(s) == [] ==> r == None && P.Items(s') == [] && s'.tail == s'.head)
    && (P.Items(s) != [] ==> r == Some(P.Ptr(P.Items(s)[0])) && P.Items(s') == P.Items(s)[1..])
  }

  lemma DequeueTake<T>(s: Segment<T>)
    requires Valid(s) && P.At(s, s.head).Some?
    ensures DequeuePost(s, DequeueFrom(s).0, DequeueFrom(s).1)
  {
    TakeStep(s);
    TakenValid(s);
    P.TakenItems(s);
    DequeueRound(s, Some(P.Ptr(P.At(s, s.head).value)), P.Taken(s));
  }

  /** A drained segment: nothing at head and tail at most one past it. */
  lemma DrainedFix<T>(s: Segment<T>)
    requires Valid(s) && P.At(s, s.head).None? && s.tail <= s.head + 1 && s.values[s.head % s.n] == P.Null
    ensures var s' := Fix(Killed(s));
      && P.Items(s) == [] && Valid(s') && P.Items(s') == [] && s'.tail == s'.head
      && s'.closed == (s.closed && s.head < s.tail)
  {
    if s.head < s.tail {
      G.Front(P.Reader(s), s.head, s.tail);
    }
    DrainedHoldsNoPointer(s);
  }

  lemma DrainedHoldsNoPointer<T>(s: Segment<T>)
    requires Valid(s) && P.At(s, s.head).None? && s.tail <= s.head + 1
    ensures forall j :: 0 <= j < s.n ==> !s.values[j].Ptr?
  {
    forall j | 0 <= j < s.n
      ensures !s.values[j].Ptr?
    {
      if s.values[j].Ptr? {
        Unique(s.stamps[j].epoch, j, s.n);
        P.TicketAt(s, j);
      }
    }
  }

  lemma DequeueDrained<T>(s: Segment<T>)
    requires Valid(s) && P.At(s, s.head).None? && s.tail <= s.head + 1
    ensures DequeuePost(s, DequeueFrom(s).0, DequeueFrom(s).1)
  {
    KillStep(s);
    DequeueRound(s, None, Killed(s));
    DrainedFix(s);
  }

  /** Passing an absent ticket: the rest of the dequeue runs on `Killed(s)`, which holds the same values. */
  lemma KillStepRound<T>(s: Segment<T>)
    requires Valid(s) && P.At(s, s.head).None? && s.tail > s.head + 1
    ensures DequeueFrom(s) == DequeueFrom(Killed(s))
    ensures Valid(Killed(s)) && P.Items(Killed(s)) == P.Items(s)
  {
    KillStep(s);
    DequeueRound(s, None, Killed(s));
    KilledValid(s);
    KilledItems(s);
  }

  lemma {:induction false} DequeueSkip<T>(s: Segment<T>)
    requires Valid(s) && P.At(s, s.head).None? && s.tail > s.head + 1
    ensures DequeuePost(s, DequeueFrom(s).0, DequeueFrom(s).1)
    decreases s.tail - s.head, 0
  {
    KillStepRound(s);
    DequeueSpec(Killed(s));
  }

  /** Dequeue in full; see `DequeuePost`. */
  lemma {:induction false} DequeueSpec<T>(s: Segment<T>)
    requires Valid(s)
    ensures DequeuePost(s, DequeueFrom(s).0, DequeueFrom(s).1)
    decreases s.tail - s.head, 1
  {
    if P.At(s, s.head).Some? {
      DequeueTake(s);
    } else if s.tail <= s.head + 1 {
      DequeueDrained(s);
    } else {
      DequeueSkip(s);
    }
  }

  /**
   * `fix_state` reopens: a closed segment dequeued with head already at
   * tail comes back open (and empty); with head short of tail it stays closed.
   */
  lemma ReopenWhenEmpty<T>(s: Segment<T>)
    requires Valid(s) && s.closed
    ensures DequeueFrom(s).1.closed <==> s.head < s.tail
  {
    DequeueSpec(s);
  }

  /**
   * An empty dequeue on a new segment of two or more cells kills cell 0:
   * its ticket of the next round, 2n, is refused, so the segment holds at
   * most n - 1 values from then on.
   */
  lemma EmptyDequeueKillsCell<T>(n: nat)
    requires n >= 2
    ensures var (r, s) := DequeueFrom(P.Init<T>(n));
      && r == None && Valid(s) && s.head == s.tail == n + 1 && !s.closed
      && Dead(s, 0) && !Eligible(s, 2 * n)
  {
    var s0 := P.Init<T>(n);
    InitValid<T>(n);
    KillStep(s0);
    DequeueRound(s0, None, Killed(s0));
    DrainedFix(s0);
    var s := Fix(Killed(s0));
    Unique(2, 0, n);
    DeadIsIneligible(s, 2 * n);
  }

  /** `new_with_item`: the first enqueue into a new segment never fails. */
  function InitWithItem<T>(n: nat, v: T): (r: Segment<T>)
    requires n > 0
    ensures Valid(r) && !r.closed && P.Items(r) == [v]
  {
    InitValid<T>(n);
    EnqueueSpec(P.Init<T>(n), v);
    EnqueueFrom(P.Init<T>(n), v).1
  }

  /** Any word below 2^64 is a ticket counter and a closed flag. */
  lemma WordSplit(w: nat)
    requires w < 2 * CLOSED_BIT
    ensures MaskedTail(w) < CLOSED_BIT && w == TailWord(MaskedTail(w), ClosedBit(w))
  {
  }

  // ---------------------------------------------------------------------
  // The segment object.

  /**
   * The `PRQ` struct: the head counter, the tail word (ticket counter in
   * bits 0..62, closed flag in bit 63), the cells as two arrays, and the
   * `next` link. Each method is proved to compute the function of the same
   * name on `State()`. Counters are kept below 2^63 so that `fetch_add` on
   * the tail word never carries into the closed bit.
   */
  class ArcPRQ<T(==)> {
    const n: nat
    var head: nat
    var tailWord: nat
    const stamps: array<P.Stamp>
    const values: array<P.Slot<T>>
    var next: ArcPRQ?<T>

    ghost predicate Wf()
      reads this`tailWord
    {
      n > 0 && stamps.Length == n && values.Length == n && tailWord < 2 * CLOSED_BIT
    }

    ghost function State(): Segment<T>
      reads this`head, this`tailWord, stamps, values
    {
      P.Segment(n, head, MaskedTail(tailWord), ClosedBit(tailWord), stamps[..], values[..])
    }

    /** `PRQ::new()`: head and tail at `n`, every cell `Cell::default()`. */
    constructor (n: nat)
      requires 0 < n < CLOSED_BIT
      ensures Wf() && State() == P.Init(n) && next == null
      ensures fresh(stamps) && fresh(values)
    {
      this.n := n;
      head := n;
      tailWord := n;
      stamps := new P.Stamp[n](_ => P.Stamp(true, 0));
      values := new P.Slot<T>[n](_ => P.Null);
      next := null;
      new;
      TailWordRoundTrip(n, false);
    }

    /** `PRQ::new_with_item(value_ptr)`: a new segment, then one enqueue that cannot fail. */
    constructor WithItem(n: nat, valuePtr: T, threadId: bv64)
      requires 0 < n && 2 * n + 1 < CLOSED_BIT
      ensures Wf() && State() == InitWithItem(n, valuePtr) && next == null
      ensures fresh(stamps) && fresh(values)
    {
      this.n := n;
      head := n;
      tailWord := n;
      stamps := new P.Stamp[n](_ => P.Stamp(true, 0));
      values := new P.Slot<T>[n](_ => P.Null);
      next := null;
      new;
      TailWordRoundTrip(n, false);
      assert State() == P.Init(n);
      InitValid<T>(n);
      EnqueueSpec(P.Init<T>(n), valuePtr);
      var r := Enqueue(valuePtr, threadId);
      assert r.Ok?;
    }

    /** Compare-exchange on a cell's value pointer. */
    method CasValue(i: nat, current: P.Slot<T>, desired: P.Slot<T>) returns (ok: bool)
      requires i < values.Length
      modifies values
      ensures ok <==> old(values[i]) == current
      ensures values[..] == if ok then old(values[..])[i := desired] else old(values[..])
    {
      ok := values[i] == current;
      if ok {
        values[i] := desired;
      }
    }

    /** `compare_exchange_safe_and_epoch`: compare-exchange on a cell's stamp. */
    method CasStamp(i: nat, current: P.Stamp, desired: P.Stamp) returns (ok: bool)
      requires i < stamps.Length
      modifies stamps
      ensures ok <==> old(stamps[i]) == current
      ensures stamps[..] == if ok then old(stamps[..])[i := desired] else old(stamps[..])
    {
      ok := stamps[i] == current;
      if ok {
        stamps[i] := desired;
      }
    }

    /**
     * `enqueue(value_ptr)`, with the thread id as a parameter. Tail and
     * head stay below 2^63 - 1, so no ticket it takes reaches the closed bit.
     */
    method Enqueue(valuePtr: T, threadId: bv64) returns (r: Result<(), ()>)
      requires Wf() && MaskedTail(tailWord) + 1 < CLOSED_BIT && head + n + 1 < CLOSED_BIT
      modifies this`tailWord, stamps, values
      ensures Wf() && (r, State()) == EnqueueFrom(old(State()), valuePtr)
    {
      var done := false;
      r := Err(());
      while !done
        invariant Wf()
        invariant !done ==> MaskedTail(tailWord) + 1 < CLOSED_BIT
        invariant !done ==> EnqueueFrom(State(), valuePtr) == EnqueueFrom(old(State()), valuePtr)
        invariant done ==> (r, State()) == EnqueueFrom(old(State()), valuePtr)
        decreases !done, Room()
      {
        done, r := EnqueueRound(valuePtr, threadId);
      }
    }

    /** How many more tickets `enqueue` may take before its full check holds. */
    ghost function Room(): nat
      reads this`head, this`tailWord
    {
      if MaskedTail(tailWord) <= head + n then head + n - MaskedTail(tailWord) else 0
    }

    /** One pass of `enqueue`'s loop: a result, or the next ticket with less room. */
    method EnqueueRound(valuePtr: T, threadId: bv64) returns (done: bool, r: Result<(), ()>)
      requires Wf() && MaskedTail(tailWord) + 1 < CLOSED_BIT && head + n + 1 < CLOSED_BIT
      modifies this`tailWord, stamps, values
      ensures Wf()
      ensures done ==> (r, State()) == EnqueueFrom(old(State()), valuePtr)
      ensures !done ==> && EnqueueFrom(State(), valuePtr) == EnqueueFrom(old(State()), valuePtr)
                        && MaskedTail(tailWord) + 1 < CLOSED_BIT && Room() < old(Room())
    {
      ghost var s0 := State();
      var tailTicket := tailWord;
      WordSplit(tailTicket);
      TailWordUpdates(MaskedTail(tailTicket), ClosedBit(tailTicket), head);
      TailWordRoundTrip(MaskedTail(tailTicket) + 1, ClosedBit(tailTicket));
      tailWord := tailWord + 1;
      var tailVal := MaskedTail(tailTicket);
      var closed := ClosedBit(tailTicket);
      assert State() == s0.(tail := tailVal + 1);
      if closed {
        return true, Err(());
      }
      var published := TryPublish(tailVal, valuePtr, threadId);
      if published {
        return true, Ok(());
      }
      assert State() == s0.(tail := tailVal + 1);
      if tailVal >= head + n {
        TailWordRoundTrip(tailVal + 1, true);
        tailWord := TailWord(tailVal + 1, true);
        return true, Err(());
      }
      return false, Err(());
    }

    /**
     * Enqueue's attempt at ticket `tailVal`: if the cell is eligible, lock
     * it with the thread's token, stamp it (true, cycle) and publish the
     * value. Under one thread no compare-exchange here can fail.
     */
    method TryPublish(tailVal: nat, valuePtr: T, threadId: bv64) returns (ok: bool)
      requires Wf()
      modifies stamps, values
      ensures ok <==> Eligible(old(State()), tailVal)
      ensures var i, c := tailVal % n, tailVal / n;
        && stamps[..] == (if ok then old(stamps[..])[i := P.Stamp(true, c)] else old(stamps[..]))
        && values[..] == (if ok then old(values[..])[i := P.Ptr(valuePtr)] else old(values[..]))
    {
      var cycle := tailVal / n;
      var index := tailVal % n;
      var stamp := stamps[index];
      var value := values[index];
      ok := false;
      if value == P.Null && stamp.epoch <= cycle && (stamp.safe || head <= cycle) {
        var token := P.TokenSlot<T>(threadId);
        var locked := CasValue(index, value, token);
        assert locked;
        var advanced := CasStamp(index, stamp, P.Stamp(true, cycle));
        if advanced {
          ok := CasValue(index, token, P.Ptr(valuePtr));
          assert ok;
        } else {
          // the unlocking CAS: unreachable, the stamp was read just before
          assert false;
        }
      }
    }

    /**
     * `fix_state`: its retries follow a changed tail word or a failed CAS,
     * neither of which happens under one thread. Storing head clears the
     * closed bit.
     */
    method FixState()
      requires Wf() && head < CLOSED_BIT
      modifies this`tailWord
      ensures Wf() && State() == Fix(old(State()))
    {
      var tailTicket := tailWord;
      var h := head;
      assert tailTicket == tailWord;
      if h > MaskedTail(tailTicket) {
        var ok := tailWord == tailTicket;
        if ok {
          tailWord := h;
        }
        assert ok;
        TailWordUpdates(0, false, h);
      }
    }

    /**
     * The inner loop of `dequeue` at ticket `headVal`: the tail word is
     * read on every 255th pass, a token is unlocked and the pass repeated,
     * and after at most 4n + 1 passes the cell is stamped (false, headVal).
     */
    method UpdateCell(headVal: nat) returns (r: Option<P.Slot<T>>)
      requires Wf()
      modifies stamps, values
      ensures (r, State()) == Pass(old(State()), headVal, 0)
    {
      var cycle := headVal / n;
      var index := headVal % n;
      var passes: nat := 0;
      var tailSeen: nat := 0;
      var closedSeen := false;
      while true
        invariant Pass(State(), headVal, passes) == Pass(old(State()), headVal, 0)
        invariant passes > 0 ==> tailSeen == State().tail && closedSeen == State().closed
        decreases if passes <= 4 * n then 4 * n + 1 - passes else 0, if values[index].Token? then 1 else 0
      {
        var stamp := stamps[index];
        var value := values[index];
        if stamp.epoch > headVal + n {
          return None;
        }
        if value.Ptr? {
          if stamp.epoch == cycle {
            values[index] := P.Null;
            return Some(value);
          }
          if !stamp.safe {
            // the second read finds the same stamp, so the loop breaks
            var again := stamps[index];
            assert again == stamp;
            return None;
          }
        }
        if passes % 255 == 0 {
          var tailTicket := tailWord;
          tailSeen := MaskedTail(tailTicket);
          closedSeen := ClosedBit(tailTicket);
        }
        if !stamp.safe || tailSeen < headVal + 1 || closedSeen || passes > 4 * n {
          if value.Token? {
            var unlocked := CasValue(index, value, P.Null);
            assert unlocked;
            continue;
          }
          var marked := CasStamp(index, stamp, P.Stamp(false, headVal));
          assert marked;
          return None;
        }
        passes := passes + 1;
      }
    }

    /** `dequeue()`. */
    method Dequeue() returns (r: Option<P.Slot<T>>)
      requires Wf() && head + 1 < CLOSED_BIT
      modifies this`head, this`tailWord, stamps, values
      ensures Wf() && (r, State()) == DequeueFrom(old(State()))
    {
      var done := false;
      r := None;
      while !done
        invariant Wf()
        invariant !done ==> head + 1 < CLOSED_BIT && DequeueFrom(State()) == DequeueFrom(old(State()))
        invariant done ==> (r, State()) == DequeueFrom(old(State()))
        decreases !done, Backlog()
      {
        done, r := DequeueTicket();
      }
    }

    /** How many tickets lie between head and the masked tail. */
    ghost function Backlog(): nat
      reads this`head, this`tailWord
    {
      if head <= MaskedTail(tailWord) then MaskedTail(tailWord) - head else 0
    }

    /** One pass of `dequeue`'s outer loop: a result, or the next ticket with a shorter backlog. */
    method DequeueTicket() returns (done: bool, r: Option<P.Slot<T>>)
      requires Wf() && head + 1 < CLOSED_BIT
      modifies this`head, this`tailWord, stamps, values
      ensures Wf()
      ensures done ==> (r, State()) == DequeueFrom(old(State()))
      ensures !done ==> && DequeueFrom(State()) == DequeueFrom(old(State()))
                        && head + 1 < CLOSED_BIT && Backlog() < old(Backlog())
    {
      ghost var s0 := State();
      var headVal := head;
      head := head + 1;
      assert State() == s0.(head := headVal + 1);
      var found := UpdateCell(headVal);
      if found.Some? {
        return true, found;
      }
      var tailTicket := tailWord;
      if MaskedTail(tailTicket) <= headVal + 1 {
        FixState();
        return true, None;
      }
      return false, None;
    }
  }

  // ---------------------------------------------------------------------
  // Several operations in a row.

  function EnqueueAll<T>(s: Segment<T>, vs: seq<T>): (r: (Segment<T>, seq<Result<(), ()>>))
    requires P.Wf(s)
    ensures P.Wf(r.0) && r.0.n == s.n && r.0.head == s.head && |r.1| == |vs|
    decreases |vs|
  {
    if vs == [] then (s, [])
    else
      var (r, s1) := EnqueueFrom(s, vs[0]);
      var (s2, rs) := EnqueueAll(s1, vs[1..]);
      (s2, [r] + rs)
  }

  function DequeueAll<T>(s: Segment<T>, k: nat): (r: (Segment<T>, seq<Option<P.Slot<T>>>))
    requires P.Wf(s)
    ensures P.Wf(r.0) && r.0.n == s.n && |r.1| == k
    decreases k
  {
    if k == 0 then (s, [])
    else
      var (x, s1) := DequeueFrom(s);
      var (s2, xs) := DequeueAll(s1, k - 1);
      (s2, [x] + xs)
  }

  /** No cell has been killed. */
  predicate AllSafe<T>(s: Segment<T>)
  {
    forall i :: 0 <= i < |s.stamps| ==> s.stamps[i].safe
  }

  /** One step of `EnqueueAll` with room and no dead cell: the first value is published. */
  lemma FillStep<T>(s: Segment<T>, vs: seq<T>)
    requires Valid(s) && AllSafe(s) && !s.closed && s.tail < s.head + s.n && vs != []
    ensures var p := P.Published(s, vs[0]);
      && EnqueueAll(s, vs).0 == EnqueueAll(p, vs[1..]).0
      && EnqueueAll(s, vs).1 == [Ok(())] + EnqueueAll(p, vs[1..]).1
      && Valid(p) && AllSafe(p) && !p.closed && P.Items(p) == P.Items(s) + [vs[0]]
      && p.n == s.n && p.head == s.head && p.tail == s.tail + 1
  {
    EnqueueWithRoom(s, vs[0]);
  }

  lemma {:induction false} FillStaysOpen<T>(s: Segment<T>, vs: seq<T>)
    requires Valid(s) && AllSafe(s) && !s.closed && s.tail + |vs| <= s.head + s.n
    ensures var s' := EnqueueAll(s, vs).0;
      Valid(s') && AllSafe(s') && !s'.closed && s'.tail == s.tail + |vs|
    decreases |vs|
  {
    if vs != [] {
      FillStep(s, vs);
      FillStaysOpen(P.Published(s, vs[0]), vs[1..]);
    }
  }

  lemma {:induction false} FillWithRoom<T>(s: Segment<T>, vs: seq<T>)
    requires Valid(s) && AllSafe(s) && !s.closed && s.tail + |vs| <= s.head + s.n
    ensures P.Items(EnqueueAll(s, vs).0) == P.Items(s) + vs
    decreases |vs|
  {
    if vs != [] {
      FillStep(s, vs);
      FillWithRoom(P.Published(s, vs[0]), vs[1..]);
      G.AppendFront(P.Items(s), vs);
    }
  }

  lemma {:induction false} FillSucceeds<T>(s: Segment<T>, vs: seq<T>)
    requires Valid(s) && AllSafe(s) && !s.closed && s.tail + |vs| <= s.head + s.n
    ensures forall r <- EnqueueAll(s, vs).1 :: r == Ok(())
    decreases |vs|
  {
    if vs != [] {
      FillStep(s, vs);
      FillSucceeds(P.Published(s, vs[0]), vs[1..]);
    }
  }

  /** Filling a new segment: it holds the values, in order, and is still open. */
  lemma FillFromNew<T>(n: nat, vs: seq<T>)
    requires n > 0 && |vs| <= n
    ensures var (s, rs) := EnqueueAll(P.Init<T>(n), vs);
      && Valid(s) && !s.closed && P.Items(s) == vs && s.tail == s.head + |vs|
      && forall r <- rs :: r == Ok(())
  {
    InitValid<T>(n);
    FillStaysOpen(P.Init<T>(n), vs);
    FillWithRoom(P.Init<T>(n), vs);
    FillSucceeds(P.Init<T>(n), vs);
  }

  /** A new segment accepts `n` values and refuses the next one, which closes it. */
  lemma CapacityFromNew<T>(n: nat, vs: seq<T>, w: T)
    requires n > 0 && |vs| == n
    ensures var (s, rs) := EnqueueAll(P.Init<T>(n), vs);
      && (forall r <- rs :: r == Ok(())) && P.Items(s) == vs
      && var (r, s') := EnqueueFrom(s, w);
      && r == Err(()) && s'.closed && Valid(s') && P.Items(s') == vs
  {
    FillFromNew(n, vs);
    EnqueueSpec(EnqueueAll(P.Init<T>(n), vs).0, w);
  }

  /** One dequeue from a valid segment holding values takes the first. */
  lemma DrainStep<T>(s: Segment<T>)
    requires Valid(s) && P.Items(s) != []
    ensures var (x, s1) := DequeueFrom(s);
      && Valid(s1) && s1.closed == s.closed && x == Some(P.Ptr(P.Items(s)[0]))
      && P.Items(s1) == P.Items(s)[1..]
  {
    DequeueSpec(s);
  }

  /** `k` dequeues from a valid segment holding at least `k` values return its first `k`, in order. */
  lemma {:induction false} DrainInOrder<T>(s: Segment<T>, k: nat)
    requires Valid(s) && k <= |P.Items(s)|
    ensures var (s', xs) := DequeueAll(s, k);
      && Valid(s') && s'.closed == s.closed && P.Items(s') == P.Items(s)[k..]
      && forall i :: 0 <= i < k ==> xs[i] == Some(P.Ptr(P.Items(s)[i]))
    decreases k
  {
    if k > 0 {
      DrainStep(s);
      var (x, s1) := DequeueFrom(s);
      DrainInOrder(s1, k - 1);
      var (s2, xs) := DequeueAll(s1, k - 1);
      G.DropTwice(P.Items(s), k);
      forall i | 0 <= i < k
        ensures ([x] + xs)[i] == Some(P.Ptr(P.Items(s)[i]))
      {
        if i > 0 {
          assert ([x] + xs)[i] == xs[i - 1];
        }
      }
    }
  }

  /** The last of `k + 1` dequeues runs from the state the first `k` leave. */
  lemma {:induction false} DequeueAllLast<T>(s: Segment<T>, k: nat)
    requires P.Wf(s)
    ensures DequeueAll(s, k + 1).1 == DequeueAll(s, k).1 + [DequeueFrom(DequeueAll(s, k).0).0]
    decreases k
  {
    if k > 0 {
      DequeueAllLast(DequeueFrom(s).1, k - 1);
    }
  }

  /** Draining a valid segment: its values in order, then empty. */
  lemma DrainThenEmpty<T>(s: Segment<T>)
    requires Valid(s)
    ensures var xs := DequeueAll(s, |P.Items(s)| + 1).1;
      && (forall i :: 0 <= i < |P.Items(s)| ==> xs[i] == Some(P.Ptr(P.Items(s)[i])))
      && xs[|P.Items(s)|] == None
  {
    var k := |P.Items(s)|;
    DrainInOrder(s, k);
    DequeueSpec(DequeueAll(s, k).0);
    DequeueAllLast(s, k);
  }

  /**
   * The `basic_prq` test (lines 301-320), for every capacity and all
   * values: `n` enqueues into a new segment succeed and one more is
   * refused; `n` dequeues then return the values in order, and one more
   * finds the segment empty.
   */
  lemma FillThenDrain<T>(n: nat, vs: seq<T>, w: T)
    requires n > 0 && |vs| == n
    ensures !P.Init<T>(n).closed
    ensures var (s, rs) := EnqueueAll(P.Init<T>(n), vs);
      && (forall r <- rs :: r == Ok(()))
      && EnqueueFrom(s, w).0 == Err(())
      && var xs := DequeueAll(EnqueueFrom(s, w).1, n + 1).1;
      && (forall i :: 0 <= i < n ==> xs[i] == Some(P.Ptr(vs[i])))
      && xs[n] == None
  {
    CapacityFromNew(n, vs, w);
    DrainThenEmpty(EnqueueFrom(EnqueueAll(P.Init<T>(n), vs).0, w).1);
  }
}
