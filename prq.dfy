/**
 * The ring segment `PRQ` of rust-queues/src/lprq/prq.rs: a bounded array
 * of `n` cells, a head and a tail ticket counter starting at `n`, and a
 * `closed` flag. Ticket `t` uses cell `t % n` in cycle `t / n`.
 *
 * The single-threaded meaning of each operation is a function on segment
 * values (`EnqueueFrom`, `DequeueFrom`, `Fix`); the class `PRQ` below
 * performs the source's loads, fetch-adds and compare-exchanges on arrays
 * and is proved to compute exactly those functions. The queue properties
 * (FIFO order, capacity `n`, closing) are lemmas over the functions.
 */
module Prq {
  import opened Wrappers
  import opened Tickets
  import G = Gather
  import PrqCell

  /**
   * What a cell's value pointer holds: null, a thread token (an address
   * with bit 63 set) or a user pointer, modelled by what it points to.
   * User pointers are never null and never have bit 63 set.
   */
  datatype Slot<T> = Null | Token | Ptr(v: T)

  /** A cell's `safe_and_epoch` word, unpacked (see `PrqCell.PackInjective`). */
  datatype Stamp = Stamp(safe: bool, epoch: nat)

  datatype Segment<T> = Segment(
    n: nat, head: nat, tail: nat, closed: bool,
    stamps: seq<Stamp>, values: seq<Slot<T>>)

  predicate Wf<T>(s: Segment<T>)
  {
    s.n > 0 && |s.stamps| == s.n && |s.values| == s.n
  }

  /** `make_token(thread_id)` as a slot: the AND leaves 0 (null) or bit 63. */
  function TokenSlot<T>(threadId: bv64): (r: Slot<T>)
    ensures r.Token? <==> PrqCell.IsToken(PrqCell.MakeToken(threadId))
    ensures !r.Ptr?
  {
    PrqCell.TokenOfSmallIdIsNull(threadId);
    if PrqCell.MakeToken(threadId) == 0 then Null else Token
  }

  /** `value.is_null() || is_token(value)`: the cell is not occupied. */
  predicate Unoccupied<T>(x: Slot<T>)
  {
    x == Null || x.Token?
  }

  /** `PRQ::new()`: both tickets at `n`, every cell (safe, epoch 0) and null. */
  function Init<T>(n: nat): Segment<T>
  {
    Segment(n, n, n, false, seq(n, _ => Stamp(true, 0)), seq(n, _ => Null))
  }

  /**
   * `enqueue`: take ticket `t`; a closed segment refuses; an eligible cell
   * (unoccupied, older epoch, and safe or not yet dequeued past) is locked,
   * stamped (true, t / n) and published; otherwise a ticket `n` or more
   * ahead of head closes the segment, and any other ticket is retried.
   */
  function EnqueueFrom<T>(s: Segment<T>, v: T): (r: (Result<(), ()>, Segment<T>))
    requires Wf(s)
    ensures Wf(r.1) && r.1.n == s.n && r.1.head == s.head && r.1.tail > s.tail
    decreases if s.tail <= s.head + s.n then s.head + s.n - s.tail else 0
  {
    var t := s.tail;
    var s1 := s.(tail := t + 1);
    if s.closed then (Err(()), s1)
    else
      var i := t % s.n;
      var c := t / s.n;
      if Unoccupied(s.values[i]) && s.stamps[i].epoch < c && (s.stamps[i].safe || s.head <= t) then
        (Ok(()), s1.(stamps := s.stamps[i := Stamp(true, c)], values := s.values[i := Ptr(v)]))
      else if t >= s.head + s.n then
        (Err(()), s1.(closed := true))
      else
        EnqueueFrom(s1, v)
  }

  /**
   * One pass of dequeue's cell-update loop at ticket `h`: the dequeue,
   * empty and unsafe transitions, or nothing when overtaken.
   */
  function Transition<T>(s: Segment<T>, h: nat): (r: (Option<Slot<T>>, Segment<T>))
    requires Wf(s)
    ensures Wf(r.1) && r.1.n == s.n && r.1.head == s.head && r.1.tail == s.tail && r.1.closed == s.closed
  {
    var i := h % s.n;
    var c := h / s.n;
    var st := s.stamps[i];
    var x := s.values[i];
    if st.epoch == c && (x != Null || x.Token?) then
      (Some(x), s.(values := s.values[i := Null]))
    else if st.epoch <= c && Unoccupied(x) then
      (None, s.(values := if x.Token? then s.values[i := Null] else s.values,
                stamps := s.stamps[i := Stamp(st.safe, c)]))
    else if st.epoch < c && (x != Null || x.Token?) then
      (None, s.(stamps := s.stamps[i := Stamp(false, st.epoch)]))
    else
      (None, s)
  }

  /** `fix_state`: raise tail to head when head has overtaken it. */
  function Fix<T>(s: Segment<T>): (r: Segment<T>)
    ensures r.tail >= r.head && r.tail >= s.tail
    ensures r == s.(tail := r.tail)
  {
    if s.head > s.tail then s.(tail := s.head) else s
  }

  /**
   * `dequeue`: take ticket `h` and update its cell; a value found there is
   * returned; otherwise, if tail is at most `h + 1`, repair tail and return
   * `None`, else retry with the next ticket.
   */
  function DequeueFrom<T>(s: Segment<T>): (r: (Option<Slot<T>>, Segment<T>))
    requires Wf(s)
    ensures Wf(r.1) && r.1.n == s.n
    decreases if s.head <= s.tail then s.tail - s.head else 0
  {
    var h := s.head;
    var (x, s1) := Transition(s.(head := h + 1), h);
    if x.Some? then (x, s1)
    else if s1.tail <= h + 1 then (None, Fix(s1))
    else DequeueFrom(s1)
  }

  /** One round of `DequeueFrom`, for callers that run the rounds themselves. */
  lemma DequeueRound<T>(s: Segment<T>, x: Option<Slot<T>>, s1: Segment<T>)
    requires Wf(s) && (x, s1) == Transition(s.(head := s.head + 1), s.head)
    ensures DequeueFrom(s) ==
      if x.Some? then (x, s1) else if s1.tail <= s.head + 1 then (None, Fix(s1)) else DequeueFrom(s1)
  {
  }

  // ---------------------------------------------------------------------
  // What a segment holds, and the invariant single-threaded use keeps.

  /** The value of ticket `t`: its cell holds a pointer stamped with `t`'s cycle. */
  function At<T>(s: Segment<T>, t: nat): Option<T>
  {
    if !Wf(s) then None
    else
      var i := t % s.n;
      if s.values[i].Ptr? && s.stamps[i].epoch == t / s.n then Some(s.values[i].v) else None
  }

  function Reader<T>(s: Segment<T>): nat -> Option<T>
  {
    (t: nat) => At(s, t)
  }

  /** The queued values, in ticket order. */
  function Items<T>(s: Segment<T>): seq<T>
  {
    G.Gather(Reader(s), s.head, s.tail)
  }

  /** The ticket a cell's stamp records. */
  function CellTicket<T>(s: Segment<T>, i: nat): nat
    requires Wf(s) && i < s.n
  {
    Ticket(s.stamps[i].epoch, i, s.n)
  }

  /**
   * The states single-threaded use reaches: every cell is safe and holds
   * no token; a pointer's ticket lies in [head, tail); a null cell's ticket
   * is below head; and an open segment holds every ticket of
   * [head, tail), at most `n` of them.
   */
  predicate Valid<T>(s: Segment<T>)
  {
    && Wf(s)
    && s.head <= s.tail
    && (forall i :: 0 <= i < s.n ==> s.stamps[i].safe && !s.values[i].Token?)
    && (forall i :: 0 <= i < s.n && s.values[i].Ptr? ==> s.head <= CellTicket(s, i) < s.tail)
    && (forall i :: 0 <= i < s.n && s.values[i] == Null ==> CellTicket(s, i) < s.head)
    && (!s.closed ==> s.tail <= s.head + s.n && forall t :: s.head <= t < s.tail ==> At(s, t).Some?)
  }

  /** A present ticket is the one its cell records. */
  lemma AtTicket<T>(s: Segment<T>, t: nat)
    requires Wf(s) && At(s, t).Some?
    ensures s.values[t % s.n].Ptr? && CellTicket(s, t % s.n) == t
  {
    Decompose(t, s.n);
  }

  /** A pointer cell's recorded ticket is present and holds that pointer. */
  lemma TicketAt<T>(s: Segment<T>, i: nat)
    requires Wf(s) && i < s.n && s.values[i].Ptr?
    ensures At(s, CellTicket(s, i)) == Some(s.values[i].v)
  {
    Unique(s.stamps[i].epoch, i, s.n);
  }

  /** In a valid segment no ticket at or beyond tail is present. */
  lemma NothingPastTail<T>(s: Segment<T>, t: nat)
    requires Valid(s) && t >= s.tail
    ensures At(s, t).None?
  {
    if At(s, t).Some? {
      AtTicket(s, t);
    }
  }

  /** An open valid segment holds exactly `tail - head` values. */
  lemma OpenCount<T>(s: Segment<T>)
    requires Valid(s) && !s.closed
    ensures |Items(s)| == s.tail - s.head
  {
    G.AllPresent(Reader(s), s.head, s.tail);
  }

  // ---------------------------------------------------------------------
  // Properties.

  /** `new()` is a valid, open, empty segment. */
  lemma InitValid<T>(n: nat)
    requires n > 0
    ensures Valid(Init<T>(n)) && Items(Init<T>(n)) == [] && !Init<T>(n).closed
  {
  }

  /** The segment after publishing `v` at ticket `tail`. */
  function Published<T>(s: Segment<T>, v: T): Segment<T>
    requires Wf(s)
  {
    s.(tail := s.tail + 1,
       stamps := s.stamps[s.tail % s.n := Stamp(true, s.tail / s.n)],
       values := s.values[s.tail % s.n := Ptr(v)])
  }

  /** With room, the cell of ticket `tail` is null, safe and of an older epoch. */
  lemma RoomMeansEligible<T>(s: Segment<T>)
    requires Valid(s) && !s.closed && s.tail < s.head + s.n
    ensures var i := s.tail % s.n;
      s.values[i] == Null && s.stamps[i].safe && s.stamps[i].epoch < s.tail / s.n
  {
    var t, n := s.tail, s.n;
    var i := t % n;
    Decompose(t, n);
    if s.values[i].Ptr? {
      Unique(s.stamps[i].epoch, i, n);
      CloseTicketsDiffer(CellTicket(s, i), t, n);
    }
    EarlierTicketEarlierEpoch(s.stamps[i].epoch, t, n);
  }

  /** Publishing at `tail` changes no other ticket below the new tail. */
  lemma PublishedItems<T>(s: Segment<T>, v: T)
    requires Wf(s) && s.head <= s.tail < s.head + s.n
    ensures Items(Published(s, v)) == Items(s) + [v]
  {
    var t, n := s.tail, s.n;
    var s' := Published(s, v);
    forall u: nat | s.head <= u < t
      ensures At(s', u) == At(s, u)
    {
      CloseTicketsDiffer(u, t, n);
    }
    G.Congruent(Reader(s'), Reader(s), s.head, t);
    Decompose(t, n);
    assert At(s', t) == Some(v);
  }

  lemma PublishedPointers<T>(s: Segment<T>, v: T)
    requires Valid(s) && !s.closed && s.tail < s.head + s.n
    ensures var s' := Published(s, v);
      forall j :: 0 <= j < s.n && s'.values[j].Ptr? ==> s.head <= CellTicket(s', j) <= s.tail
  {
    Decompose(s.tail, s.n);
  }

  lemma PublishedPresent<T>(s: Segment<T>, v: T)
    requires Valid(s) && !s.closed && s.tail < s.head + s.n
    ensures forall u: nat :: s.head <= u <= s.tail ==> At(Published(s, v), u).Some?
  {
    var t, n := s.tail, s.n;
    var s' := Published(s, v);
    forall u: nat | s.head <= u <= t
      ensures At(s', u).Some?
    {
      if u < t {
        CloseTicketsDiffer(u, t, n);
        assert At(s, u).Some?;
        assert At(s', u) == At(s, u);
      } else {
        Decompose(t, n);
        assert s'.values[t % n] == Ptr(v) && s'.stamps[t % n].epoch == t / n;
      }
    }
  }

  lemma PublishedValid<T>(s: Segment<T>, v: T)
    requires Valid(s) && !s.closed && s.tail < s.head + s.n
    ensures Valid(Published(s, v))
  {
    PublishedPointers(s, v);
    PublishedPresent(s, v);
  }

  /** Enqueue on an open segment with room: the value joins the back. */
  lemma EnqueueWithRoom<T>(s: Segment<T>, v: T)
    requires Valid(s) && !s.closed && s.tail < s.head + s.n
    ensures EnqueueFrom(s, v) == (Ok(()), Published(s, v))
    ensures Valid(Published(s, v)) && Items(Published(s, v)) == Items(s) + [v]
  {
    RoomMeansEligible(s);
    PublishedValid(s, v);
    PublishedItems(s, v);
  }

  /** Two segments with the same cells hold the same value at every ticket. */
  lemma SameCells<T>(s: Segment<T>, s': Segment<T>)
    requires s'.n == s.n && s'.stamps == s.stamps && s'.values == s.values
    ensures forall u: nat :: At(s', u) == At(s, u)
  {
  }

  /** Moving the tail of a closed valid segment forward adds no values. */
  lemma ClosedTailForward<T>(s: Segment<T>, k: nat)
    requires Valid(s) && s.closed && k >= s.tail
    ensures Valid(s.(tail := k)) && Items(s.(tail := k)) == Items(s)
  {
    var s' := s.(tail := k);
    SameCells(s, s');
    G.Congruent(Reader(s'), Reader(s), s.head, k);
    forall u: nat | s.tail <= u < k
      ensures At(s, u).None?
    {
      NothingPastTail(s, u);
    }
    G.AbsentTail(Reader(s), s.head, s.tail, k);
  }

  /** Enqueue on an open, full segment: refused, and the segment closes. */
  lemma EnqueueWhenFull<T>(s: Segment<T>, v: T)
    requires Valid(s) && !s.closed && s.tail == s.head + s.n
    ensures EnqueueFrom(s, v) == (Err(()), s.(tail := s.tail + 1, closed := true))
    ensures Valid(s.(tail := s.tail + 1, closed := true))
    ensures Items(s.(tail := s.tail + 1, closed := true)) == Items(s)
  {
    NextRound(s.head, s.n);
    AtTicket(s, s.head);
    CloseValid(s);
    ClosedTailForward(s.(closed := true), s.tail + 1);
  }

  /** Setting the closed flag keeps a segment valid and its values unchanged. */
  lemma CloseValid<T>(s: Segment<T>)
    requires Valid(s)
    ensures Valid(s.(closed := true)) && Items(s.(closed := true)) == Items(s)
  {
    var sc := s.(closed := true);
    SameCells(s, sc);
    G.Congruent(Reader(sc), Reader(s), s.head, s.tail);
  }

  /** Enqueue on a closed segment: refused; only tail moves. */
  lemma EnqueueWhenClosed<T>(s: Segment<T>, v: T)
    requires Valid(s) && s.closed
    ensures EnqueueFrom(s, v) == (Err(()), s.(tail := s.tail + 1))
    ensures Valid(s.(tail := s.tail + 1)) && Items(s.(tail := s.tail + 1)) == Items(s)
  {
    ClosedTailForward(s, s.tail + 1);
  }

  /**
   * Enqueue in full: it succeeds exactly when the segment is open and holds
   * fewer than `n` values, appending the value; otherwise the contents stay
   * and the segment is (or becomes) closed. Head never moves.
   */
  lemma EnqueueSpec<T>(s: Segment<T>, v: T)
    requires Valid(s)
    ensures var (r, s') := EnqueueFrom(s, v);
      && Valid(s') && s'.head == s.head && s'.tail == s.tail + 1
      && (r.Ok? <==> !s.closed && |Items(s)| < s.n)
      && (r.Ok? ==> Items(s') == Items(s) + [v] && !s'.closed)
      && (r.Err? ==> Items(s') == Items(s) && s'.closed)
  {
    if s.closed {
      EnqueueWhenClosed(s, v);
    } else {
      OpenCount(s);
      if s.tail < s.head + s.n {
        EnqueueWithRoom(s, v);
      } else {
        EnqueueWhenFull(s, v);
      }
    }
  }

  /** The segment after dequeue takes the value of ticket `head`. */
  function Taken<T>(s: Segment<T>): Segment<T>
    requires Wf(s)
  {
    s.(head := s.head + 1, values := s.values[s.head % s.n := Null])
  }

  lemma TakenItems<T>(s: Segment<T>)
    requires Wf(s) && s.head < s.tail && At(s, s.head).Some?
    ensures Items(s) == [At(s, s.head).value] + Items(Taken(s))
  {
    var h, n := s.head, s.n;
    AtTicket(s, h);
    var s1 := Taken(s);
    forall u: nat | h < u < s.tail
      ensures At(s1, u) == At(s, u)
    {
      if u % n == h % n {
        Decompose(u, n);
      }
    }
    G.Front(Reader(s), h, s.tail);
    G.Congruent(Reader(s1), Reader(s), h + 1, s.tail);
  }

  lemma TakenValid<T>(s: Segment<T>)
    requires Valid(s) && At(s, s.head).Some?
    ensures Valid(Taken(s))
  {
    var h, n := s.head, s.n;
    AtTicket(s, h);
    var s1 := Taken(s);
    forall u: nat | h < u < s.tail
      ensures At(s1, u) == At(s, u)
    {
      if u % n == h % n {
        Decompose(u, n);
      }
    }
    forall j | 0 <= j < n && s1.values[j].Ptr?
      ensures s1.head <= CellTicket(s1, j) < s1.tail
    {
      Unique(s.stamps[j].epoch, j, n);
    }
  }

  /** The dequeue transition at a present ticket takes its value. */
  lemma TakePresent<T>(s: Segment<T>)
    requires Valid(s) && At(s, s.head).Some?
    ensures Transition(s.(head := s.head + 1), s.head) == (Some(Ptr(At(s, s.head).value)), Taken(s))
    ensures Valid(Taken(s)) && Items(s) == [At(s, s.head).value] + Items(Taken(s))
  {
    AtTicket(s, s.head);
    if s.head >= s.tail {
      NothingPastTail(s, s.head);
    }
    TakenItems(s);
    TakenValid(s);
  }

  /**
   * The segment after dequeue passes ticket `head` without a value: a null
   * cell is stamped with the ticket's cycle (the empty transition).
   */
  function Skipped<T>(s: Segment<T>): Segment<T>
    requires Wf(s)
  {
    var i := s.head % s.n;
    if s.values[i] == Null then
      s.(head := s.head + 1, stamps := s.stamps[i := Stamp(s.stamps[i].safe, s.head / s.n)])
    else
      s.(head := s.head + 1)
  }

  /** At an absent ticket the cell update is the empty transition or nothing. */
  lemma SkipIsTransition<T>(s: Segment<T>)
    requires Valid(s) && At(s, s.head).None?
    ensures Transition(s.(head := s.head + 1), s.head) == (None, Skipped(s))
  {
    var h, n := s.head, s.n;
    var i := h % n;
    Decompose(h, n);
    var e := s.stamps[i].epoch;
    if s.values[i].Ptr? {
      Unique(e, i, n);
      LaterTicketLaterEpoch(e, h, n);
    } else {
      NoLaterTicketNoLaterEpoch(e, h, n);
    }
  }

  lemma SkippedCells<T>(s: Segment<T>)
    requires Valid(s) && At(s, s.head).None?
    ensures forall u: nat :: s.head < u ==> At(Skipped(s), u) == At(s, u)
  {
    var h, n := s.head, s.n;
    Decompose(h, n);
    var s1 := Skipped(s);
    forall u: nat | h < u
      ensures At(s1, u) == At(s, u)
    {
    }
  }

  /** Passing an absent ticket keeps every recorded pointer ticket in [head + 1, tail). */
  lemma SkippedPointers<T>(s: Segment<T>)
    requires Valid(s) && At(s, s.head).None?
    ensures var s1 := Skipped(s);
      forall j :: 0 <= j < s.n && s1.values[j].Ptr? ==> s.head < CellTicket(s1, j) < s.tail
  {
    var s1 := Skipped(s);
    forall j | 0 <= j < s.n && s1.values[j].Ptr?
      ensures s.head < CellTicket(s1, j) < s.tail
    {
      TicketAt(s, j);
    }
  }

  /** Passing an absent ticket keeps every recorded null ticket below head + 1. */
  lemma SkippedNulls<T>(s: Segment<T>)
    requires Valid(s) && At(s, s.head).None?
    ensures var s1 := Skipped(s);
      forall j :: 0 <= j < s.n && s1.values[j] == Null ==> CellTicket(s1, j) <= s.head
  {
    var h, n := s.head, s.n;
    Decompose(h, n);
  }

  lemma SkippedValid<T>(s: Segment<T>)
    requires Valid(s) && At(s, s.head).None?
    ensures Valid(Fix(Skipped(s)))
  {
    SkippedPointers(s);
    SkippedNulls(s);
    SkippedCells(s);
    var s1 := Skipped(s);
    var s2 := Fix(s1);
    assert forall u: nat :: At(s2, u) == At(s1, u);
  }

  /**
   * What a dequeue promises: from an empty segment it returns `None`,
   * leaves the segment empty and tail at least head; otherwise it returns
   * the front value and removes exactly that one. `closed` never changes.
   */
  ghost predicate DequeuePost<T>(s: Segment<T>, r: Option<Slot<T>>, s': Segment<T>)
  {
    && Valid(s') && s'.closed == s.closed
    && (Items(s) == [] ==> r == None && Items(s') == [] && s'.tail >= s'.head)
    && (Items(s) != [] ==> r == Some(Ptr(Items(s)[0])) && Items(s') == Items(s)[1..])
  }

  lemma DequeueTake<T>(s: Segment<T>)
    requires Valid(s) && At(s, s.head).Some?
    ensures DequeuePost(s, DequeueFrom(s).0, DequeueFrom(s).1)
  {
    TakePresent(s);
    var v := At(s, s.head).value;
    DequeueRound(s, Some(Ptr(v)), Taken(s));
  }

  /** A drained segment: head at or one short of tail, and nothing at head. */
  lemma DrainedIsEmpty<T>(s: Segment<T>)
    requires Valid(s) && At(s, s.head).None? && s.tail <= s.head + 1
    ensures Items(s) == [] && Items(Fix(Skipped(s))) == []
  {
    if s.head < s.tail {
      G.Front(Reader(s), s.head, s.tail);
    }
    var s2 := Fix(Skipped(s));
    assert s2.tail == s2.head;
  }

  lemma DequeueDrained<T>(s: Segment<T>)
    requires Valid(s) && At(s, s.head).None? && s.tail <= s.head + 1
    ensures DequeuePost(s, DequeueFrom(s).0, DequeueFrom(s).1)
  {
    SkipIsTransition(s);
    DequeueRound(s, None, Skipped(s));
    SkippedValid(s);
    DrainedIsEmpty(s);
  }

  /** Skipping an absent ticket: the rest of the dequeue runs on `Skipped(s)`, which holds the same values. */
  lemma SkipStep<T>(s: Segment<T>)
    requires Valid(s) && At(s, s.head).None? && s.tail > s.head + 1
    ensures DequeueFrom(s) == DequeueFrom(Skipped(s))
    ensures Valid(Skipped(s)) && Items(Skipped(s)) == Items(s)
    ensures Skipped(s).head == s.head + 1 && Skipped(s).tail == s.tail && Skipped(s).closed == s.closed
  {
    var h := s.head;
    SkipIsTransition(s);
    DequeueRound(s, None, Skipped(s));
    SkippedValid(s);
    SkippedCells(s);
    var s1 := Skipped(s);
    G.Front(Reader(s), h, s.tail);
    G.Congruent(Reader(s1), Reader(s), h + 1, s.tail);
  }

  lemma {:induction false} DequeueSkip<T>(s: Segment<T>)
    requires Valid(s) && At(s, s.head).None? && s.tail > s.head + 1
    ensures DequeuePost(s, DequeueFrom(s).0, DequeueFrom(s).1)
    decreases s.tail - s.head, 0
  {
    SkipStep(s);
    DequeueSpec(Skipped(s));
  }

  /** Dequeue in full; see `DequeuePost`. */
  lemma {:induction false} DequeueSpec<T>(s: Segment<T>)
    requires Valid(s)
    ensures DequeuePost(s, DequeueFrom(s).0, DequeueFrom(s).1)
    decreases s.tail - s.head, 1
  {
    if At(s, s.head).Some? {
      DequeueTake(s);
    } else if s.tail <= s.head + 1 {
      DequeueDrained(s);
    } else {
      DequeueSkip(s);
    }
  }

  /** Closing is permanent: no operation of this segment reopens it. */
  lemma ClosedStaysClosed<T>(s: Segment<T>, v: T)
    requires Valid(s) && s.closed
    ensures EnqueueFrom(s, v).1.closed && DequeueFrom(s).1.closed
  {
    EnqueueWhenClosed(s, v);
    DequeueSpec(s);
  }

  /** Enqueue several values in turn. */
  function EnqueueAll<T>(s: Segment<T>, vs: seq<T>): (r: (Segment<T>, seq<Result<(), ()>>))
    requires Wf(s)
    ensures Wf(r.0) && r.0.n == s.n && |r.1| == |vs|
    decreases |vs|
  {
    if vs == [] then (s, [])
    else
      var (r, s1) := EnqueueFrom(s, vs[0]);
      var (s2, rs) := EnqueueAll(s1, vs[1..]);
      (s2, [r] + rs)
  }

  /** One step of `EnqueueAll` with room: the first value is published, then the rest follow. */
  lemma FillStep<T>(s: Segment<T>, vs: seq<T>)
    requires Valid(s) && !s.closed && s.tail < s.head + s.n && vs != []
    ensures var p := Published(s, vs[0]);
      && EnqueueAll(s, vs).0 == EnqueueAll(p, vs[1..]).0
      && EnqueueAll(s, vs).1 == [Ok(())] + EnqueueAll(p, vs[1..]).1
      && Valid(p) && !p.closed && Items(p) == Items(s) + [vs[0]]
      && p.n == s.n && p.head == s.head && p.tail == s.tail + 1
  {
    EnqueueWithRoom(s, vs[0]);
  }

  /** While there is room, the segment stays valid and open. */
  lemma {:induction false} FillStaysOpen<T>(s: Segment<T>, vs: seq<T>)
    requires Valid(s) && !s.closed && s.tail + |vs| <= s.head + s.n
    ensures Valid(EnqueueAll(s, vs).0) && !EnqueueAll(s, vs).0.closed
    decreases |vs|
  {
    if vs != [] {
      FillStep(s, vs);
      FillStaysOpen(Published(s, vs[0]), vs[1..]);
    }
  }

  /** While there is room, the values queue up in order. */
  lemma {:induction false} FillWithRoom<T>(s: Segment<T>, vs: seq<T>)
    requires Valid(s) && !s.closed && s.tail + |vs| <= s.head + s.n
    ensures Items(EnqueueAll(s, vs).0) == Items(s) + vs
    decreases |vs|
  {
    if vs != [] {
      FillStep(s, vs);
      FillWithRoom(Published(s, vs[0]), vs[1..]);
      G.AppendFront(Items(s), vs);
    }
  }

  /** While there is room, every enqueue succeeds. */
  lemma {:induction false} FillSucceeds<T>(s: Segment<T>, vs: seq<T>)
    requires Valid(s) && !s.closed && s.tail + |vs| <= s.head + s.n
    ensures forall r <- EnqueueAll(s, vs).1 :: r == Ok(())
    decreases |vs|
  {
    if vs != [] {
      FillStep(s, vs);
      FillSucceeds(Published(s, vs[0]), vs[1..]);
    }
  }

  /**
   * Capacity: a new segment accepts exactly `n` values and refuses the
   * next one, which closes it.
   */
  lemma CapacityFromNew<T>(n: nat, vs: seq<T>, w: T)
    requires n > 0 && |vs| == n
    ensures var (s, rs) := EnqueueAll(Init<T>(n), vs);
      && |rs| == n && (forall r <- rs :: r == Ok(())) && Items(s) == vs
      && var (r, s') := EnqueueFrom(s, w);
      && r == Err(()) && s'.closed && Valid(s') && Items(s') == vs
  {
    FillFromNew(n, vs);
    EnqueueSpec(EnqueueAll(Init<T>(n), vs).0, w);
  }

  /** Filling a new segment: it holds the values, in order, and is still open. */
  lemma FillFromNew<T>(n: nat, vs: seq<T>)
    requires n > 0 && |vs| <= n
    ensures var (s, rs) := EnqueueAll(Init<T>(n), vs);
      && Valid(s) && !s.closed && Items(s) == vs && forall r <- rs :: r == Ok(())
  {
    InitValid<T>(n);
    FillStaysOpen(Init<T>(n), vs);
    FillWithRoom(Init<T>(n), vs);
    FillSucceeds(Init<T>(n), vs);
  }

  /** `new_with_item`: the first enqueue into a new segment never fails. */
  function InitWithItem<T>(n: nat, v: T): (r: Segment<T>)
    requires n > 0
    ensures Valid(r) && !r.closed && Items(r) == [v]
  {
    InitValid<T>(n);
    EnqueueSpec(Init<T>(n), v);
    EnqueueFrom(Init<T>(n), v).1
  }

  // ---------------------------------------------------------------------
  // The segment object.

  class PRQ<T(==)> {
    const n: nat
    var head: nat
    var tail: nat
    var closed: bool
    const stamps: array<Stamp>
    const values: array<Slot<T>>
    var next: PRQ?<T>

    ghost predicate Wf()
    {
      n > 0 && stamps.Length == n && values.Length == n
    }

    ghost function State(): Segment<T>
      reads this`head, this`tail, this`closed, stamps, values
    {
      Segment(n, head, tail, closed, stamps[..], values[..])
    }

    /** `PRQ::new()`. */
    constructor (n: nat)
      requires n > 0
      ensures Wf() && State() == Init(n) && next == null
      ensures fresh(stamps) && fresh(values)
    {
      this.n := n;
      head := n;
      tail := n;
      closed := false;
      stamps := new Stamp[n](_ => Stamp(true, 0));
      values := new Slot<T>[n](_ => Null);
      next := null;
    }

    /** `PRQ::new_with_item(value_ptr)`: a new segment, then one enqueue that cannot fail. */
    constructor WithItem(n: nat, valuePtr: T, threadId: bv64)
      requires n > 0
      ensures Wf() && State() == InitWithItem(n, valuePtr) && next == null
      ensures fresh(stamps) && fresh(values)
    {
      this.n := n;
      head := n;
      tail := n;
      closed := false;
      stamps := new Stamp[n](_ => Stamp(true, 0));
      values := new Slot<T>[n](_ => Null);
      next := null;
      new;
      assert State() == Init(n);
      InitValid<T>(n);
      EnqueueSpec(Init<T>(n), valuePtr);
      var r := Enqueue(valuePtr, threadId);
      assert r.Ok?;
    }

    /** Compare-exchange on a cell's value pointer. */
    method CasValue(i: nat, current: Slot<T>, desired: Slot<T>) returns (ok: bool)
      requires i < values.Length
      modifies values
      ensures ok <==> old(values[i]) == current
      ensures values[..] == if ok then old(values[..])[i := desired] else old(values[..])
    {
      ok := values[i] == current;
      if ok {
        values[i] := desired;
      }
    }

    /** `compare_exchange_safe_and_epoch`: compare-exchange on a cell's stamp. */
    method CasStamp(i: nat, current: Stamp, desired: Stamp) returns (ok: bool)
      requires i < stamps.Length
      modifies stamps
      ensures ok <==> old(stamps[i]) == current
      ensures stamps[..] == if ok then old(stamps[..])[i := desired] else old(stamps[..])
    {
      ok := stamps[i] == current;
      if ok {
        stamps[i] := desired;
      }
    }

    /** `enqueue(value_ptr)`, with the thread id as a parameter. */
    method Enqueue(valuePtr: T, threadId: bv64) returns (r: Result<(), ()>)
      requires Wf()
      modifies this, stamps, values
      ensures Wf() && (r, State()) == EnqueueFrom(old(State()), valuePtr) && next == old(next)
    {
      while true
        invariant Wf() && next == old(next)
        invariant EnqueueFrom(State(), valuePtr) == EnqueueFrom(old(State()), valuePtr)
        decreases if tail <= head + n then head + n - tail else 0
      {
        ghost var s0 := State();
        var tailVal := tail;
        tail := tail + 1;
        if closed {
          return Err(());
        }
        var cycle := tailVal / n;
        var index := tailVal % n;
        var stamp := stamps[index];
        var value := values[index];
        if Unoccupied(value) && stamp.epoch < cycle && (stamp.safe || head <= tailVal) {
          var token := TokenSlot<T>(threadId);
          var locked := CasValue(index, value, token);
          if locked {
            var advanced := CasStamp(index, stamp, Stamp(true, cycle));
            if advanced {
              var published := CasValue(index, token, Ptr(valuePtr));
              if published {
                assert values[..] == s0.values[index := Ptr(valuePtr)];
                assert stamps[..] == s0.stamps[index := Stamp(true, cycle)];
                return Ok(());
              }
            } else {
              // the cleanup CAS: unreachable, the stamp was read just before
              assert false;
            }
          }
        }
        if tailVal >= head + n {
          closed := true;
          return Err(());
        }
      }
    }

    /** `fix_state`: its retries follow a changed tail or a failed CAS, neither of which happens here. */
    method FixState()
      requires Wf()
      modifies this`tail
      ensures State() == Fix(old(State()))
    {
      var t := tail;
      var h := head;
      if h > t {
        var ok := t == tail;
        if ok {
          tail := h;
        }
        assert ok;
      }
    }

    /**
     * The cell-update loop of `dequeue` at ticket `headVal`. It runs once:
     * its `continue`s follow only failed compare-exchanges on a word read
     * just before, which cannot fail under one thread.
     */
    method UpdateCell(headVal: nat) returns (r: Option<Slot<T>>)
      requires Wf()
      modifies stamps, values
      ensures (r, State()) == Transition(old(State()), headVal)
    {
      var cycle := headVal / n;
      var index := headVal % n;
      var stamp := stamps[index];
      var value := values[index];
      if stamp.epoch == cycle && (value != Null || value.Token?) {
        values[index] := Null;
        return Some(value);
      }
      if stamp.epoch <= cycle && Unoccupied(value) {
        if value.Token? {
          var unlocked := CasValue(index, value, Null);
          assert unlocked;
        }
        var advanced := CasStamp(index, stamp, Stamp(stamp.safe, cycle));
        assert advanced;
        return None;
      }
      if stamp.epoch < cycle && (value != Null || value.Token?) {
        var marked := CasStamp(index, stamp, Stamp(false, stamp.epoch));
        assert marked;
        return None;
      }
      return None;
    }

    /** `dequeue()`. */
    method Dequeue() returns (r: Option<Slot<T>>)
      requires Wf()
      modifies this`head, this`tail, stamps, values
      ensures Wf() && (r, State()) == DequeueFrom(old(State()))
    {
      while true
        invariant Wf()
        invariant DequeueFrom(State()) == DequeueFrom(old(State()))
        decreases if head <= tail then tail - head else 0
      {
        ghost var s0 := State();
        var headVal := head;
        head := head + 1;
        assert State() == s0.(head := headVal + 1);
        var found := UpdateCell(headVal);
        ghost var s1 := State();
        DequeueRound(s0, found, s1);
        if found.Some? {
          return found;
        }
        if tail <= headVal + 1 {
          FixState();
          return None;
        }
      }
    }
  }

  // ---------------------------------------------------------------------
  // Several operations in a row.

  /** `k` dequeues in a row. */
  function DequeueAll<T>(s: Segment<T>, k: nat): (r: (Segment<T>, seq<Option<Slot<T>>>))
    requires Wf(s)
    ensures Wf(r.0) && r.0.n == s.n && |r.1| == k
    decreases k
  {
    if k == 0 then (s, [])
    else
      var (x, s1) := DequeueFrom(s);
      var (s2, xs) := DequeueAll(s1, k - 1);
      (s2, [x] + xs)
  }

  /** FIFO: `k` dequeues return the first `k` values in the order they were enqueued. */
  lemma {:induction false} DrainInOrder<T>(s: Segment<T>, k: nat)
    requires Valid(s) && k <= |Items(s)|
    ensures var (s', xs) := DequeueAll(s, k);
      && Valid(s') && s'.closed == s.closed && Items(s') == Items(s)[k..]
      && forall i :: 0 <= i < k ==> xs[i] == Some(Ptr(Items(s)[i]))
    decreases k
  {
    if k > 0 {
      DequeueSpec(s);
      var (x, s1) := DequeueFrom(s);
      DrainInOrder(s1, k - 1);
      assert Items(s)[k..] == Items(s1)[k - 1..];
    }
  }

  /** Draining a valid segment: its values in order, then empty. */
  lemma DrainThenEmpty<T>(s: Segment<T>)
    requires Valid(s)
    ensures var xs := DequeueAll(s, |Items(s)| + 1).1;
      && (forall i :: 0 <= i < |Items(s)| ==> xs[i] == Some(Ptr(Items(s)[i])))
      && xs[|Items(s)|] == None
  {
    var k := |Items(s)|;
    DrainInOrder(s, k);
    var (s', xs) := DequeueAll(s, k);
    DequeueSpec(s');
    DequeueAllLast(s, k);
  }

  /**
   * `basic_prq`, for every capacity and all values: `n` enqueues into a
   * new segment succeed and one more is refused; `n` dequeues then return
   * the values in order, and one more finds the segment empty.
   */
  lemma FillThenDrain<T>(n: nat, vs: seq<T>, w: T)
    requires n > 0 && |vs| == n
    ensures var (s, rs) := EnqueueAll(Init<T>(n), vs);
      && (forall r <- rs :: r == Ok(()))
      && EnqueueFrom(s, w).0 == Err(())
      && var xs := DequeueAll(EnqueueFrom(s, w).1, n + 1).1;
      && (forall i :: 0 <= i < n ==> xs[i] == Some(Ptr(vs[i])))
      && xs[n] == None
  {
    CapacityFromNew(n, vs, w);
    DrainThenEmpty(EnqueueFrom(EnqueueAll(Init<T>(n), vs).0, w).1);
  }

  /** The last of `k + 1` dequeues runs from the state the first `k` leave. */
  lemma {:induction false} DequeueAllLast<T>(s: Segment<T>, k: nat)
    requires Wf(s)
    ensures DequeueAll(s, k + 1).1 == DequeueAll(s, k).1 + [DequeueFrom(DequeueAll(s, k).0).0]
    ensures DequeueAll(s, k + 1).0 == DequeueFrom(DequeueAll(s, k).0).1
    decreases k
  {
    if k > 0 {
      DequeueAllLast(DequeueFrom(s).1, k - 1);
    }
  }
}
