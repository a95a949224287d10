/**
 * The helpers of the SCQ index ring (third-party/scqueue/lfring_cas1.h) on
 * `w`-bit words modelled as naturals below 2^w, and the facts about them
 * that the ring relies on: the slot map is a permutation that repeats every
 * n tickets, the cycle and entry encodings decode back to the ticket's cycle
 * and the stored index, and the wraparound comparison agrees with the
 * ordinary one on words below 2^(w-1).
 *
 * `w` is `LFATOMIC_WIDTH` (32, 64 or 128, chosen by a configuration header);
 * `size_t` values are taken to have the same width.
 *
 * For the ring of 2^(order+1) slots, the code's `n - 1`, `2 * n - 1` and
 * `half` are `Pow(k) - 1`, `Pow(k + 1) - 1` and `Pow(k - 1)` with k = order + 1.
 */
module Lfring {
  import opened Bits

  /** `__LFRING_CLOSED`: the top bit of the tail word. */
  function Closed(w: nat): nat
    requires w >= 1
  {
    Pow(w - 1)
  }

  /** `LFRING_EMPTY`, i.e. `~(size_t) 0`; also the bit pattern of `(lfsatomic_t) -1`. */
  function Empty(w: nat): nat
  {
    Pow(w) - 1
  }

  /** The tail word for a tail counter and a closed flag. */
  function TailWord(tail: nat, closed: bool, w: nat): nat
    requires w >= 1
  {
    tail + if closed then Closed(w) else 0
  }

  /** Counters stay below 2^(w-3): their cycles `(t << 1) | (2n - 1)` then never reach the top bit. */
  function Limit(w: nat): nat
    requires w >= 3
  {
    Pow(w - 3)
  }

  /**
   * `(lfsatomic_t) (x - y)`: the w-bit difference read as a signed number,
   * the one number in [-2^(w-1), 2^(w-1)) that differs from x - y by a
   * multiple of 2^w.
   */
  function Diff(x: nat, y: nat, w: nat): (d: int)
    requires w >= 1 && x < Pow(w) && y < Pow(w)
    ensures -(Pow(w - 1) as int) <= d < Pow(w - 1)
    ensures d == x - y || d == x - y + Pow(w) || d == x - y - Pow(w)
  {
    var d := x - y;
    var u := if d < 0 then d + Pow(w) else d;
    if u >= Pow(w - 1) then u - Pow(w) else u
  }

  /** `__lfring_cmp(x, <, y)`. */
  predicate Lt(x: nat, y: nat, w: nat)
    requires w >= 1 && x < Pow(w) && y < Pow(w)
  {
    Diff(x, y, w) < 0
  }

  /** `__lfring_cmp(x, <=, y)`. */
  predicate Le(x: nat, y: nat, w: nat)
    requires w >= 1 && x < Pow(w) && y < Pow(w)
  {
    Diff(x, y, w) <= 0
  }

  /** `__lfring_cmp(x, >=, y)`. */
  predicate Ge(x: nat, y: nat, w: nat)
    requires w >= 1 && x < Pow(w) && y < Pow(w)
  {
    Diff(x, y, w) >= 0
  }

  /**
   * `__lfring_raw_map`: for a nonzero minimum order `minOrder` the low
   * `order` bits of `idx` are rotated left by `minOrder`; otherwise the slot is
   * `idx & (n - 1)`.
   */
  function RawMap(idx: nat, order: nat, n: nat, minOrder: nat, w: nat): nat
    requires minOrder <= order && n >= 1
  {
    if minOrder != 0 then
      Or(Shr(And(idx, n - 1), order - minOrder), And(Shl(idx, minOrder, w), n - 1))
    else
      And(idx, n - 1)
  }

  /** `__lfring_map`: the slot of ticket `idx` in a ring of n = 2^(order+1) slots. */
  function Map(idx: nat, order: nat, n: nat, minOrder: nat, w: nat): nat
    requires minOrder <= order + 1 && n >= 1
  {
    RawMap(idx, order + 1, n, minOrder, w)
  }

  /** `__lfring_threshold3`: with n = 2 * half slots, the threshold is 3 * half - 1. */
  function Threshold3(half: nat, n: nat): (r: int)
    ensures n == 2 * half ==> r == 3 * half - 1
  {
    half + n - 1
  }

  /**
   * `lfring_pow2`: `(size_t) 1U << order`, a shift of a `size_t` one. The
   * order is taken below 32 because LSCQueue.hpp line 25 sizes its value
   * array by `1U << SCQD_ORDER`, a shift of a 32-bit unsigned one; the
   * `size_t` shift is then taken on 32 bits, which no `size_t` is narrower
   * than.
   */
  function Pow2(order: nat): nat
    requires order < 32
  {
    Low(Scale(1, order), 32)
  }

  // ---------------------------------------------------------------------
  // Constants.

  lemma Pow2Is(order: nat)
    requires order < 32
    ensures Pow2(order) == Pow(order)
  {
    ScaleOne(order);
    PowMonotone(order, 31);
    LowSmall(Pow(order), 32);
  }

  lemma {:induction false} PowMonotone(a: nat, b: nat)
    requires a <= b
    ensures Pow(a) <= Pow(b)
    decreases b
  {
    if a < b {
      PowMonotone(a, b - 1);
    }
  }

  /** The threshold the code stores is `3 * half - 1`. */
  lemma Threshold3Is(order: nat)
    ensures Threshold3(Pow(order), Pow(order + 1)) == 3 * Pow(order) - 1
  {
  }

  /** A counter below 2^k with bit k as a flag: the two masks take it apart. */
  lemma FieldMasks(t: nat, b: nat, k: nat)
    requires t < Pow(k) && b <= 1
    ensures And(t + Scale(b, k), Pow(k) - 1) == t
    ensures And(t + Scale(b, k), Pow(k)) == Scale(b, k)
  {
    var x := t + Scale(b, k);
    SplitUnique(t, b, k);
    AndLow(x, k);
    AndBit(x, k);
    ScaleOne(k);
    ScaleZero(k);
  }

  /** ORing bit k into a counter below 2^k with bit k as a flag sets the flag. */
  lemma FieldSet(t: nat, b: nat, k: nat)
    requires t < Pow(k) && b <= 1
    ensures Or(t + Scale(b, k), Pow(k)) == t + Pow(k)
  {
    ScaleOne(k);
    if b == 1 {
      SplitUnique(t, 1, k);
      OrBit(t + Scale(b, k), k);
    } else {
      ScaleZero(k);
      LowOfScale(1, k);
      OrDisjoint(t, Pow(k), k);
    }
  }

  /** `~2^k` on k + 1 bits is 2^k - 1. */
  lemma NotTopBit(k: nat)
    ensures Not(Pow(k), k + 1) == Pow(k) - 1
  {
    assert Not(Pow(k), k + 1) == Xor(Pow(k), Pow(k + 1) - 1);
    LowSmall(Pow(k + 1) - 1, k + 1);
    XorCommutes(Pow(k), Pow(k + 1) - 1);
    XorLowOnes(Pow(k + 1) - 1, Pow(k), k + 1);
  }

  /** The closed bit and the counter of a tail word are separate. */
  lemma TailWordBits(tail: nat, closed: bool, w: nat)
    requires w >= 1 && tail < Pow(w - 1)
    ensures TailWord(tail, closed, w) < Pow(w)
    ensures And(TailWord(tail, closed, w), Not(Closed(w), w)) == tail
    ensures And(TailWord(tail, closed, w), Closed(w)) == if closed then Closed(w) else 0
  {
    var b := if closed then 1 else 0;
    ScaleOne(w - 1);
    ScaleZero(w - 1);
    assert TailWord(tail, closed, w) == tail + Scale(b, w - 1);
    FieldMasks(tail, b, w - 1);
    NotTopBit(w - 1);
  }

  /** `lfring_close` ORs the closed bit into the tail word. */
  lemma CloseWord(tail: nat, closed: bool, w: nat)
    requires w >= 1 && tail < Pow(w - 1)
    ensures Or(TailWord(tail, closed, w), Closed(w)) == TailWord(tail, true, w)
  {
    var b := if closed then 1 else 0;
    ScaleOne(w - 1);
    ScaleZero(w - 1);
    assert TailWord(tail, closed, w) == tail + Scale(b, w - 1);
    FieldSet(tail, b, w - 1);
  }

  // ---------------------------------------------------------------------
  // The wraparound comparison.

  /** On words below 2^(w-1) the comparison is the ordinary one. */
  lemma DiffSmall(x: nat, y: nat, w: nat)
    requires w >= 1 && x < Pow(w - 1) && y < Pow(w - 1)
    ensures Diff(x, y, w) == x - y
  {
  }

  /** The `-1` entry of an empty ring compares below every word below 2^(w-1). */
  lemma DiffEmpty(y: nat, w: nat)
    requires w >= 1 && y < Pow(w - 1)
    ensures Diff(Empty(w), y, w) == -1 - y
  {
  }

  /** A closed tail word compares below every counter it is not far ahead of. */
  lemma DiffClosed(t: nat, h: nat, w: nat)
    requires w >= 3 && t < Limit(w) && h < Limit(w)
    ensures TailWord(t, true, w) < Pow(w) && h < Pow(w)
    ensures Diff(TailWord(t, true, w), h, w) == (if t >= h then t - h - Pow(w - 1) else t - h + Pow(w - 1))
  {
    PowMonotone(w - 3, w - 1);
  }

  // ---------------------------------------------------------------------
  // The slot map.

  /** The rotation `RawMap` computes, as arithmetic on the two bit fields. */
  function Rotate(idx: nat, order: nat, minOrder: nat): nat
    requires minOrder <= order
  {
    Low(Shr(idx, order - minOrder), minOrder) + Scale(Low(idx, order - minOrder), minOrder)
  }

  lemma RawMapIsRotate(idx: nat, order: nat, minOrder: nat, w: nat)
    requires minOrder <= order <= w
    ensures RawMap(idx, order, Pow(order), minOrder, w) == Rotate(idx, order, minOrder)
  {
    AndLow(idx, order);
    if minOrder != 0 {
      var j := order - minOrder;
      ShrLow(idx, order, j);
      LowLow(Scale(idx, minOrder), w, order);
      LowScale(idx, minOrder, order);
      AndLow(Shl(idx, minOrder, w), order);
      Split(Shr(idx, j), minOrder);
      LowOfScale(Low(idx, j), minOrder);
      OrDisjoint(Low(Shr(idx, j), minOrder), Scale(Low(idx, j), minOrder), minOrder);
    }
  }

  /** The rotation of a value below 2^a + b. */
  lemma RotateBound(c: nat, a: nat, j: nat, m: nat)
    requires c < Pow(j) && a < Pow(m)
    ensures a + Scale(c, m) < Pow(j + m)
  {
    ScaleLess(c, Pow(j), m);
    PowAdd(j, m);
  }

  /**
   * `raw_map` depends only on `idx & (n - 1)`, returns a slot below n, and,
   * for a zero minimum order, is exactly `idx & (n - 1)`.
   */
  lemma RawMapRange(idx: nat, order: nat, minOrder: nat, w: nat)
    requires minOrder <= order <= w
    ensures RawMap(idx, order, Pow(order), minOrder, w) < Pow(order)
    ensures RawMap(idx, order, Pow(order), minOrder, w) == RawMap(And(idx, Pow(order) - 1), order, Pow(order), minOrder, w)
    ensures minOrder == 0 ==> RawMap(idx, order, Pow(order), minOrder, w) == Low(idx, order)
  {
    var j := order - minOrder;
    var low := And(idx, Pow(order) - 1);
    AndLow(idx, order);
    RawMapIsRotate(idx, order, minOrder, w);
    RawMapIsRotate(low, order, minOrder, w);
    Split(Shr(idx, j), minOrder);
    Split(idx, j);
    RotateBound(Low(idx, j), Low(Shr(idx, j), minOrder), j, minOrder);
    LowLow(idx, order, j);
    ShrLow(idx, order, j);
    LowLow(Shr(idx, j), minOrder, minOrder);
  }

  /** The rotation can be undone: it determines the low `order` bits of `idx`. */
  lemma RotateDetermines(idx: nat, order: nat, minOrder: nat)
    requires minOrder <= order
    ensures Low(Rotate(idx, order, minOrder), minOrder) == Low(Shr(idx, order - minOrder), minOrder)
    ensures Shr(Rotate(idx, order, minOrder), minOrder) == Low(idx, order - minOrder)
    ensures Low(idx, order) == Low(idx, order - minOrder) + Scale(Low(Shr(idx, order - minOrder), minOrder), order - minOrder)
  {
    var j := order - minOrder;
    Split(Shr(idx, j), minOrder);
    SplitUnique(Low(Shr(idx, j), minOrder), Low(idx, j), minOrder);
    LowSplit(idx, j, minOrder);
  }

  /** Distinct low bits give distinct slots: `raw_map` is one-to-one on [0, n). */
  lemma RawMapInjective(i1: nat, i2: nat, order: nat, minOrder: nat, w: nat)
    requires minOrder <= order <= w
    requires Low(i1, order) != Low(i2, order)
    ensures RawMap(i1, order, Pow(order), minOrder, w) != RawMap(i2, order, Pow(order), minOrder, w)
  {
    RawMapIsRotate(i1, order, minOrder, w);
    RawMapIsRotate(i2, order, minOrder, w);
    RotateDetermines(i1, order, minOrder);
    RotateDetermines(i2, order, minOrder);
  }

  /** The slot map's inverse on [0, n): every slot is the image of one index. */
  function Unrotate(r: nat, order: nat, minOrder: nat): nat
    requires minOrder <= order
  {
    Shr(r, minOrder) + Scale(Low(r, minOrder), order - minOrder)
  }

  lemma UnrotateBound(r: nat, order: nat, minOrder: nat)
    requires minOrder <= order && r < Pow(order)
    ensures Shr(r, minOrder) < Pow(order - minOrder)
    ensures Unrotate(r, order, minOrder) < Pow(order)
  {
    var j := order - minOrder;
    assert Pow(order) == Pow(j + minOrder);
    ShrBound(r, j, minOrder);
    Split(r, minOrder);
    RotateBound(Low(r, minOrder), Shr(r, minOrder), minOrder, j);
    assert Pow(minOrder + j) == Pow(order);
  }

  lemma RawMapOnto(r: nat, order: nat, minOrder: nat, w: nat)
    requires minOrder <= order <= w && r < Pow(order)
    ensures Unrotate(r, order, minOrder) < Pow(order)
    ensures RawMap(Unrotate(r, order, minOrder), order, Pow(order), minOrder, w) == r
  {
    var j := order - minOrder;
    var c := Shr(r, minOrder);
    var a := Low(r, minOrder);
    UnrotateBound(r, order, minOrder);
    Split(r, minOrder);
    SplitUnique(c, a, j);
    LowSmall(a, minOrder);
    RawMapIsRotate(Unrotate(r, order, minOrder), order, minOrder, w);
  }

  /** The slot of ticket `u + n` is the slot of ticket `u`. */
  lemma MapPeriodic(u: nat, order: nat, minOrder: nat, w: nat)
    requires minOrder <= order + 1 <= w
    ensures Map(u + Pow(order + 1), order, Pow(order + 1), minOrder, w) == Map(u, order, Pow(order + 1), minOrder, w)
  {
    var k := order + 1;
    ScaleOne(k);
    AddAligned(u, 1, k);
    AndLow(u, k);
    AndLow(u + Pow(k), k);
    RawMapRange(u, k, minOrder, w);
    RawMapRange(u + Pow(k), k, minOrder, w);
  }

  /** Tickets less than n apart have different slots. */
  lemma MapDistinct(u1: nat, u2: nat, order: nat, minOrder: nat, w: nat)
    requires minOrder <= order + 1 <= w
    requires u1 < u2 < u1 + Pow(order + 1)
    ensures Map(u1, order, Pow(order + 1), minOrder, w) != Map(u2, order, Pow(order + 1), minOrder, w)
  {
    var k := order + 1;
    Split(u1, k);
    Split(u2, k);
    if Low(u1, k) == Low(u2, k) {
      if Shr(u1, k) < Shr(u2, k) {
        ScaleLess(Shr(u1, k), Shr(u2, k), k);
      } else if Shr(u2, k) < Shr(u1, k) {
        ScaleLess(Shr(u2, k), Shr(u1, k), k);
      }
    }
    RawMapInjective(u1, u2, k, minOrder, w);
  }

  lemma MapRange(u: nat, order: nat, minOrder: nat, w: nat)
    requires minOrder <= order + 1 <= w
    ensures Map(u, order, Pow(order + 1), minOrder, w) < Pow(order + 1)
  {
    RawMapRange(u, order + 1, minOrder, w);
  }

  // ---------------------------------------------------------------------
  // Cycles and entries.

  /** The cycle of ticket t, `(t << 1) | (2n - 1)`: twice t's round base n * (t / n), all low bits set. */
  function Cycle(t: nat, k: nat): nat
  {
    Scale(Shr(t, k), k + 1) + Pow(k + 1) - 1
  }

  /** The entry that publishes index e at ticket t, `tcycle ^ (e ^ (n - 1))`. */
  function Entry(t: nat, k: nat, e: nat): nat
  {
    Scale(Shr(t, k), k + 1) + Pow(k) + e
  }

  /** Twice the round base of t is at most 2t. */
  lemma RoundBase(t: nat, k: nat)
    ensures Scale(Shr(t, k), k + 1) == 2 * Scale(Shr(t, k), k) <= 2 * t
  {
    Split(t, k);
  }

  /** A ring with n = 2^k slots on w-bit words, k + 4 <= w, keeps its cycles below the top bit. */
  lemma CycleBound(t: nat, k: nat, w: nat)
    requires k + 4 <= w && t < Limit(w)
    ensures Cycle(t, k) + Pow(k + 1) <= Cycle(t + Pow(k), k) < Pow(w - 1)
  {
    RoundBase(t + Pow(k), k);
    PowMonotone(k + 1, w - 3);
    ScaleOne(k);
    AddAligned(t, 1, k);
    ScaleAdd(Shr(t, k), 1, k + 1);
    ScaleOne(k + 1);
    assert Pow(w - 1) == 4 * Pow(w - 3);
  }

  /** `(t << 1) | (2n - 1)` is the cycle of t. */
  lemma TCycleIs(t: nat, k: nat, w: nat)
    requires w >= 3 && t < Limit(w)
    ensures Or(Shl(t, 1, w), Pow(k + 1) - 1) == Cycle(t, k)
  {
    assert Scale(t, 1) == 2 * t;
    PowMonotone(w - 3, w - 1);
    LowSmall(2 * t, w);
    OrLow(2 * t, k + 1);
    assert Low(2 * t, k + 1) == 2 * Low(t, k) by {
      assert (2 * t) / 2 == t && (2 * t) % 2 == 0;
    }
    Split(t, k);
    RoundBase(t, k);
  }

  /** The low `k + 1` bits of ticket t's cycle are all set. */
  lemma CycleLow(t: nat, k: nat)
    ensures Low(Cycle(t, k), k + 1) == Pow(k + 1) - 1
    ensures Shr(Cycle(t, k), k + 1) == Shr(t, k)
  {
    SplitUnique(Pow(k + 1) - 1, Shr(t, k), k + 1);
  }

  /** Enqueueing index e at ticket t stores Entry(t, k, e). */
  lemma EntryEncode(t: nat, k: nat, e: nat)
    requires e < Pow(k)
    ensures Xor(Cycle(t, k), Xor(e, Pow(k) - 1)) == Entry(t, k, e)
  {
    XorCommutes(e, Pow(k) - 1);
    LowSmall(Pow(k) - 1, k);
    XorLowOnes(Pow(k) - 1, e, k);
    CycleLow(t, k);
    XorLowOnes(Cycle(t, k), Pow(k) - 1 - e, k + 1);
  }

  /** An entry's cycle is its ticket's cycle, its index is e, and ORing in `n - 1` consumes it. */
  lemma EntryDecode(t: nat, k: nat, e: nat)
    requires e < Pow(k)
    ensures Or(Entry(t, k, e), Pow(k + 1) - 1) == Cycle(t, k)
    ensures And(Entry(t, k, e), Pow(k) - 1) == e
    ensures Or(Entry(t, k, e), Pow(k) - 1) == Cycle(t, k)
  {
    var x := Entry(t, k, e);
    var s := Shr(t, k);
    SplitUnique(Pow(k) + e, s, k + 1);
    OrLow(x, k + 1);
    EntryLowBits(t, k, e);
    AndLow(x, k);
    OrLow(x, k);
  }

  /** Below bit k an entry holds e, above it the odd number 2 * round + 1. */
  lemma EntryLowBits(t: nat, k: nat, e: nat)
    requires e < Pow(k)
    ensures Low(Entry(t, k, e), k) == e
    ensures Entry(t, k, e) - e + Pow(k) - 1 == Cycle(t, k)
  {
    var s := Shr(t, k);
    ScaleAdd(s, s, k);
    ScaleAdd(2 * s, 1, k);
    ScaleOne(k);
    assert Entry(t, k, e) == e + Scale(2 * s + 1, k);
    SplitUnique(e, 2 * s + 1, k);
  }

  /** A consumed slot: the cycle word, or the `-1` an empty ring starts with. */
  function Consumed(t: int, k: nat, w: nat): nat
  {
    if t < 0 then Empty(w) else Cycle(t, k)
  }

  /** A word whose low k + 1 bits are all set looks consumed. */
  lemma OnesBits(x: nat, k: nat, w: nat)
    requires k < w && Low(x, k + 1) == Pow(k + 1) - 1
    ensures Or(x, Pow(k + 1) - 1) == x
    ensures Or(x, Pow(k)) == x
    ensures And(Not(x, w), Pow(k)) == 0
  {
    LowOnesBit(x, k);
    OrLow(x, k + 1);
    OrBit(x, k);
    NotAndBit(x, k, w);
  }

  /** A consumed entry looks consumed: all low bits set, so the n bit too, and `~entry & n` is zero. */
  lemma ConsumedBits(t: int, k: nat, w: nat)
    requires k < w
    ensures Or(Consumed(t, k, w), Pow(k + 1) - 1) == Consumed(t, k, w)
    ensures Or(Consumed(t, k, w), Pow(k)) == Consumed(t, k, w)
    ensures And(Not(Consumed(t, k, w), w), Pow(k)) == 0
  {
    if t < 0 {
      OnesLow(w, k + 1);
      OnesBits(Pow(w) - 1, k, w);
    } else {
      CycleLow(t, k);
      OnesBits(Cycle(t, k), k, w);
    }
  }

  /** The low `i` bits of 2^j - 1 are all set. */
  lemma {:induction false} OnesLow(j: nat, i: nat)
    requires i <= j
    ensures Low(Pow(j) - 1, i) == Pow(i) - 1
    decreases i
  {
    if i > 0 {
      OnesLow(j - 1, i - 1);
    }
  }

  /** Cycles are ordered as the rounds of their tickets. */
  lemma CycleOrder(t1: nat, t2: nat, k: nat)
    requires Shr(t1, k) < Shr(t2, k)
    ensures Cycle(t1, k) < Cycle(t2, k)
  {
    ScaleLess(Shr(t1, k), Shr(t2, k), k + 1);
  }

  /** Ticket t - n is one round before ticket t. */
  lemma RoundBefore(t: nat, k: nat)
    requires t >= Pow(k)
    ensures Shr(t - Pow(k), k) + 1 == Shr(t, k)
  {
    ScaleOne(k);
    AddAligned(t - Pow(k), 1, k);
  }

  /**
   * The slot of ticket t, consumed in the round before, holds a word that
   * compares below t's cycle: `lfring_enqueue` may fill it.
   */
  lemma ConsumedBelow(t: nat, k: nat, w: nat)
    requires k + 4 <= w && t < Limit(w)
    ensures Consumed(t - Pow(k), k, w) < Pow(w) && Cycle(t, k) < Pow(w)
    ensures Lt(Consumed(t - Pow(k), k, w), Cycle(t, k), w)
  {
    CycleBound(t, k, w);
    PowMonotone(w - 3, w - 1);
    if t < Pow(k) {
      DiffEmpty(Cycle(t, k), w);
    } else {
      RoundBefore(t, k);
      CycleOrder(t - Pow(k), t, k);
      DiffSmall(Cycle(t - Pow(k), k), Cycle(t, k), w);
    }
  }

  /** The cycle of tail ticket t and the consumed word of ticket t - n in its slot. */
  lemma TailBits(t: nat, k: nat, w: nat)
    requires k + 4 <= w && t < Limit(w)
    ensures Or(Shl(t, 1, w), Pow(k + 1) - 1) == Cycle(t, k)
    ensures Consumed(t - Pow(k), k, w) < Pow(w) && Cycle(t, k) < Pow(w)
    ensures Or(Consumed(t - Pow(k), k, w), Pow(k + 1) - 1) == Consumed(t - Pow(k), k, w)
    ensures Lt(Consumed(t - Pow(k), k, w), Cycle(t, k), w)
  {
    TCycleIs(t, k, w);
    ConsumedBelow(t, k, w);
    ConsumedBits(t - Pow(k), k, w);
  }

  /**
   * The words `lfring_enqueue` computes at tail ticket t when the slot
   * holds the consumed word of ticket t - n, written as the code writes
   * them: t's cycle; a slot word that is its own cycle and compares below
   * t's; a head at most t comparing at most t; and the new entry.
   */
  lemma EnqueueWords(t: nat, head: nat, entry: nat, eidx: nat, n: nat, k: nat, w: nat)
    requires k + 4 <= w && t < Limit(w) && head <= t && n == Pow(k)
    requires entry == Consumed(t - n, k, w) && eidx < n
    ensures Or(Shl(t, 1, w), 2 * n - 1) == Cycle(t, k)
    ensures Or(entry, 2 * n - 1) == entry
    ensures entry < Pow(w) && Cycle(t, k) < Pow(w) && Lt(entry, Cycle(t, k), w)
    ensures head < Pow(w) && t < Pow(w) && Le(head, t, w)
    ensures Xor(Or(Shl(t, 1, w), 2 * n - 1), Xor(eidx, n - 1)) == Entry(t, k, eidx)
  {
    TailBits(t, k, w);
    EntryEncode(t, k, eidx);
    PowMonotone(w - 3, w - 1);
    DiffSmall(head, t, w);
  }

  /**
   * The words `lfring_dequeue` computes at head ticket t when the slot
   * holds the entry of index v published at t, written as the code writes
   * them: the entry's cycle is t's, the low bits give v back, and the
   * fetch-or of n - 1 leaves t's cycle.
   */
  lemma TakeWords(t: nat, entry: nat, v: nat, n: nat, k: nat, w: nat)
    requires k + 4 <= w && t < Limit(w) && n == Pow(k) && v < n && entry == Entry(t, k, v)
    ensures Or(Shl(t, 1, w), 2 * n - 1) == Cycle(t, k)
    ensures Or(entry, 2 * n - 1) == Cycle(t, k)
    ensures And(entry, n - 1) == v
    ensures Or(entry, n - 1) == Cycle(t, k)
  {
    TCycleIs(t, k, w);
    EntryDecode(t, k, v);
  }

  /**
   * The words `lfring_dequeue` computes at head ticket t when the slot
   * holds the consumed word of ticket t - n: its cycle is the word itself,
   * not t's and lower; the n bit is set; and the replacement word is t's
   * cycle.
   */
  lemma HoleWords(t: nat, entry: nat, n: nat, k: nat, w: nat)
    requires k + 4 <= w && t < Limit(w) && n == Pow(k) && entry == Consumed(t - n, k, w)
    ensures Or(Shl(t, 1, w), 2 * n - 1) == Cycle(t, k)
    ensures Or(entry, 2 * n - 1) == entry && entry != Cycle(t, k)
    ensures Or(entry, n) == entry
    ensures entry < Pow(w) && Cycle(t, k) < Pow(w) && Lt(entry, Cycle(t, k), w)
    ensures Xor(Cycle(t, k), And(Not(entry, w), n)) == Cycle(t, k)
  {
    TCycleIs(t, k, w);
    ConsumedBelow(t, k, w);
    ConsumedBits(t - Pow(k), k, w);
    XorZero(Cycle(t, k));
  }

  // ---------------------------------------------------------------------
  // `__lfring_catchup`.

  /**
   * The tail word `__lfring_catchup(ring, tail, head)` leaves behind when it
   * runs alone on a ring whose tail word is `word` and whose head counter is
   * already `head`: the first CAS succeeds only if the word is exactly `tail`;
   * otherwise the word is reread, kept if it compares at or above head, and
   * replaced by head if not.
   */
  function CatchupWord(word: nat, tail: nat, head: nat, w: nat): (r: nat)
    requires w >= 1 && word < Pow(w) && head < Pow(w)
    ensures r < Pow(w) && Ge(r, head, w)
    ensures r == head || r == word
  {
    if word == tail then head else if Ge(word, head, w) then word else head
  }

  /**
   * On a closed ring whose masked tail is the head ticket the dequeue has
   * just taken plus one, the catchup replaces the whole tail word by the
   * bare head counter: the ring is open again.
   */
  lemma CatchupReopens(t: nat, w: nat)
    requires w >= 3 && 0 < t < Limit(w)
    ensures TailWord(t, true, w) < Pow(w) && t < Pow(w)
    ensures CatchupWord(TailWord(t, true, w), t, t, w) == TailWord(t, false, w)
    ensures And(CatchupWord(TailWord(t, true, w), t, t, w), Closed(w)) == 0
  {
    DiffClosed(t, t, w);
    TailWordBits(t, false, w);
  }

  /**
   * On a closed ring whose masked tail equals the head ticket, the catchup
   * gives up: the tail stays one behind the head.
   */
  lemma CatchupLeavesTailBehind(t: nat, w: nat)
    requires w >= 3 && t + 1 < Limit(w)
    ensures TailWord(t, true, w) < Pow(w) && t + 1 < Pow(w)
    ensures CatchupWord(TailWord(t, true, w), t, t + 1, w) == TailWord(t, true, w)
    ensures And(CatchupWord(TailWord(t, true, w), t, t + 1, w), Not(Closed(w), w)) == t
  {
    DiffClosed(t, t + 1, w);
    TailWordBits(t, true, w);
  }

  /**
   * The catchup as written, run alone by a dequeue that moved the head to
   * h and found the counter t <= h in the tail word: an open ring's tail
   * becomes h; a closed ring whose counter is h is reopened at h; a closed
   * ring whose counter is below h keeps its word.
   */
  lemma CatchupWordIs(t: nat, closed: bool, h: nat, w: nat)
    requires w >= 3 && t <= h && 0 < h < Limit(w)
    ensures TailWord(t, closed, w) < Pow(w) && h < Pow(w)
    ensures CatchupWord(TailWord(t, closed, w), t, h, w)
      == if !closed || t == h then TailWord(h, false, w) else TailWord(t, true, w)
  {
    PowMonotone(w - 3, w - 1);
    if closed {
      DiffClosed(t, h, w);
    }
  }

  /**
   * The catchup the ring needs: move the counter in the tail word up to
   * head, keeping the closed bit.
   */
  function CatchupKeepingClosed(word: nat, head: nat, w: nat): nat
    requires w >= 1 && word < Pow(w) && head < Pow(w)
  {
    var t := And(word, Not(Closed(w), w));
    AndBound(word, Not(Closed(w), w));
    if Lt(t, head, w) then Or(head, And(word, Closed(w))) else word
  }

  /** The corrected catchup leaves the counter at max(tail, head) and the closed bit as it was. */
  lemma CatchupKeepsClosed(t: nat, closed: bool, h: nat, w: nat)
    requires w >= 3 && t < Limit(w) && h < Limit(w)
    ensures TailWord(t, closed, w) < Pow(w) && h < Pow(w)
    ensures CatchupKeepingClosed(TailWord(t, closed, w), h, w) == TailWord(if t < h then h else t, closed, w)
  {
    PowMonotone(w - 3, w - 1);
    TailWordBits(t, closed, w);
    DiffSmall(t, h, w);
    if t < h {
      ScaleOne(w - 1);
      if closed {
        LowOfScale(1, w - 1);
        OrDisjoint(h, Pow(w - 1), w - 1);
      } else {
        OrZero(h);
      }
    }
  }
}
