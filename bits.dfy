/**
 * Unsigned machine words as natural numbers, with C's bitwise operators
 * defined bit by bit (the lowest bit first) and the facts about them that
 * the ring-buffer code relies on: masks of low bits, single bits, shifts,
 * and ORing values whose bits do not overlap. Shifts and masks are defined
 * by recursion on the bit count, so that every fact here is proved by
 * induction with linear arithmetic only.
 */
module Bits {
  /** 2^k. */
  function Pow(k: nat): (p: nat)
    ensures p >= 1
  {
    if k == 0 then 1 else 2 * Pow(k - 1)
  }

  /** The low `k` bits of `x`, i.e. `x mod 2^k`. */
  function Low(x: nat, k: nat): nat
  {
    if k == 0 then 0 else 2 * Low(x / 2, k - 1) + x % 2
  }

  /** `x >> k`, i.e. `x div 2^k`. */
  function Shr(x: nat, k: nat): nat
  {
    if k == 0 then x else Shr(x / 2, k - 1)
  }

  /** `x * 2^k` without truncation. */
  function Scale(x: nat, k: nat): nat
  {
    if k == 0 then x else 2 * Scale(x, k - 1)
  }

  /** `x << k` on a `w`-bit word: the bits shifted past bit w - 1 are lost. */
  function Shl(x: nat, k: nat, w: nat): nat
  {
    Low(Scale(x, k), w)
  }

  /** Bit `k` of `x`. */
  function BitOf(x: nat, k: nat): nat
  {
    Shr(x, k) % 2
  }

  /** `x | y`. */
  function Or(x: nat, y: nat): nat
    decreases x + y
  {
    if x == 0 && y == 0 then 0
    else 2 * Or(x / 2, y / 2) + (if x % 2 == 1 || y % 2 == 1 then 1 else 0)
  }

  /** `x & y`. */
  function And(x: nat, y: nat): nat
    decreases x + y
  {
    if x == 0 || y == 0 then 0
    else 2 * And(x / 2, y / 2) + (if x % 2 == 1 && y % 2 == 1 then 1 else 0)
  }

  /** `x ^ y`. */
  function Xor(x: nat, y: nat): nat
    decreases x + y
  {
    if x == 0 && y == 0 then 0
    else 2 * Xor(x / 2, y / 2) + (if x % 2 != y % 2 then 1 else 0)
  }

  /** `~x` on a `w`-bit word. */
  function Not(x: nat, w: nat): nat
  {
    Xor(x, Pow(w) - 1)
  }

  // ---------------------------------------------------------------------
  // Powers, scaling and the split of a number at bit k.

  lemma {:induction false} ScaleOne(k: nat)
    ensures Scale(1, k) == Pow(k)
  {
    if k > 0 {
      ScaleOne(k - 1);
    }
  }

  lemma {:induction false} ScaleZero(k: nat)
    ensures Scale(0, k) == 0
  {
    if k > 0 {
      ScaleZero(k - 1);
    }
  }

  /** A number below 2^(j + m), shifted right by m, is below 2^j. */
  lemma {:induction false} ShrBound(r: nat, j: nat, m: nat)
    requires r < Pow(j + m)
    ensures Shr(r, m) < Pow(j)
    decreases m
  {
    if m > 0 {
      ShrBound(r / 2, j, m - 1);
    }
  }

  lemma {:induction false} ScaleAdd(a: nat, b: nat, k: nat)
    ensures Scale(a, k) + Scale(b, k) == Scale(a + b, k)
  {
    if k > 0 {
      ScaleAdd(a, b, k - 1);
    }
  }

  /** Scaling is strictly monotone, and a nonzero multiple of 2^k is at least 2^k. */
  lemma ScaleLess(a: nat, b: nat, k: nat)
    requires a < b
    ensures Scale(a, k) + Pow(k) <= Scale(b, k)
  {
    ScaleAdd(a + 1, b - a - 1, k);
    ScaleAdd(a, 1, k);
    ScaleOne(k);
  }

  lemma {:induction false} ScaleScale(y: nat, a: nat, b: nat)
    ensures Scale(Scale(y, a), b) == Scale(y, a + b)
  {
    if b > 0 {
      ScaleScale(y, a, b - 1);
    }
  }

  lemma {:induction false} PowAdd(a: nat, b: nat)
    ensures Pow(a + b) == Scale(Pow(a), b)
  {
    if b > 0 {
      PowAdd(a, b - 1);
    }
  }

  /** `x` is its low `k` bits plus its high part shifted back. */
  lemma {:induction false} Split(x: nat, k: nat)
    ensures x == Low(x, k) + Scale(Shr(x, k), k)
    ensures Low(x, k) < Pow(k)
  {
    if k > 0 {
      Split(x / 2, k - 1);
    }
  }

  /** Adding a multiple of 2^k leaves the low `k` bits alone and adds to the high part. */
  lemma {:induction false} AddAligned(x: nat, y: nat, k: nat)
    ensures Low(x + Scale(y, k), k) == Low(x, k)
    ensures Shr(x + Scale(y, k), k) == Shr(x, k) + y
  {
    if k > 0 {
      assert (x + Scale(y, k)) / 2 == x / 2 + Scale(y, k - 1);
      assert (x + Scale(y, k)) % 2 == x % 2;
      AddAligned(x / 2, y, k - 1);
    }
  }

  /** A number below 2^k is its own low part, with nothing above. */
  lemma {:induction false} LowSmall(x: nat, k: nat)
    requires x < Pow(k)
    ensures Low(x, k) == x && Shr(x, k) == 0
  {
    if k > 0 {
      LowSmall(x / 2, k - 1);
    }
  }

  /** The low `k` bits of a number are determined by their split. */
  lemma SplitUnique(r: nat, y: nat, k: nat)
    requires r < Pow(k)
    ensures Low(r + Scale(y, k), k) == r && Shr(r + Scale(y, k), k) == y
  {
    AddAligned(r, y, k);
    LowSmall(r, k);
  }

  lemma {:induction false} LowLow(x: nat, a: nat, b: nat)
    requires b <= a
    ensures Low(Low(x, a), b) == Low(x, b)
    decreases b
  {
    if b > 0 {
      LowLow(x / 2, a - 1, b - 1);
    }
  }

  /** The low `k` bits of `x << m` are the low `k - m` bits of `x`, shifted. */
  lemma {:induction false} LowScale(x: nat, m: nat, k: nat)
    requires m <= k
    ensures Low(Scale(x, m), k) == Scale(Low(x, k - m), m)
    decreases m
  {
    if m > 0 {
      LowScale(x, m - 1, k - 1);
      assert Scale(x, m) / 2 == Scale(x, m - 1) && Scale(x, m) % 2 == 0;
    }
  }

  /** Taking the low `a` bits, then shifting right by `b`. */
  lemma {:induction false} ShrLow(x: nat, a: nat, b: nat)
    requires b <= a
    ensures Shr(Low(x, a), b) == Low(Shr(x, b), a - b)
    decreases b
  {
    if b > 0 {
      assert Low(x, a) / 2 == Low(x / 2, a - 1);
      ShrLow(x / 2, a - 1, b - 1);
    }
  }

  /** The low `a + b` bits are the low `a` bits plus the next `b` bits shifted. */
  lemma {:induction false} LowSplit(x: nat, a: nat, b: nat)
    ensures Low(x, a + b) == Low(x, a) + Scale(Low(Shr(x, a), b), a)
    decreases a
  {
    if a > 0 {
      LowSplit(x / 2, a - 1, b);
    }
  }

  /** The low `m` bits of a multiple of 2^m are zero. */
  lemma {:induction false} LowOfScale(y: nat, m: nat)
    ensures Low(Scale(y, m), m) == 0
    decreases m
  {
    if m > 0 {
      assert Scale(y, m) / 2 == Scale(y, m - 1) && Scale(y, m) % 2 == 0;
      LowOfScale(y, m - 1);
    }
  }

  // ---------------------------------------------------------------------
  // Operators with zero, and commutativity.

  lemma {:induction false} OrZero(x: nat)
    ensures Or(x, 0) == x && Or(0, x) == x
    decreases x
  {
    if x > 0 {
      OrZero(x / 2);
    }
  }

  lemma {:induction false} XorZero(x: nat)
    ensures Xor(x, 0) == x
    decreases x
  {
    if x > 0 {
      XorZero(x / 2);
    }
  }

  /** `x & y` is no larger than `x`. */
  lemma {:induction false} AndBound(x: nat, y: nat)
    ensures And(x, y) <= x
    decreases x + y
  {
    if x != 0 && y != 0 {
      AndBound(x / 2, y / 2);
    }
  }

  lemma {:induction false} XorCommutes(x: nat, y: nat)
    ensures Xor(x, y) == Xor(y, x)
    decreases x + y
  {
    if x != 0 || y != 0 {
      XorCommutes(x / 2, y / 2);
    }
  }

  // ---------------------------------------------------------------------
  // Masks of low bits.

  /** `x & (2^k - 1)` keeps the low `k` bits. */
  lemma {:induction false} AndLow(x: nat, k: nat)
    ensures And(x, Pow(k) - 1) == Low(x, k)
    decreases k
  {
    if k > 0 {
      if x == 0 {
        LowSmall(0, k);
      } else {
        AndLow(x / 2, k - 1);
      }
    }
  }

  /** `x | (2^k - 1)` sets the low `k` bits. */
  lemma {:induction false} OrLow(x: nat, k: nat)
    ensures Or(x, Pow(k) - 1) == x - Low(x, k) + Pow(k) - 1
    decreases k
  {
    Split(x, k);
    if k == 0 {
      OrZero(x);
    } else if x == 0 {
      OrZero(Pow(k) - 1);
      LowSmall(0, k);
    } else {
      OrLow(x / 2, k - 1);
      Split(x / 2, k - 1);
    }
  }

  /** A value whose low `k` bits are all set, XOR a value below 2^k: a subtraction. */
  lemma {:induction false} XorLowOnes(x: nat, a: nat, k: nat)
    requires Low(x, k) == Pow(k) - 1 && a < Pow(k)
    ensures Xor(x, a) == x - a
    decreases k
  {
    Split(x, k);
    if k == 0 {
      XorZero(x);
    } else {
      Split(x / 2, k - 1);
      XorLowOnes(x / 2, a / 2, k - 1);
    }
  }

  /** ORing values whose bits do not overlap is their sum. */
  lemma {:induction false} OrDisjoint(a: nat, b: nat, k: nat)
    requires a < Pow(k) && Low(b, k) == 0
    ensures Or(a, b) == a + b
    decreases k
  {
    if k == 0 || a == 0 {
      OrZero(b);
    } else {
      OrDisjoint(a / 2, b / 2, k - 1);
    }
  }

  // ---------------------------------------------------------------------
  // Single bits.

  /** Bit `k` of `x ^ y` is the sum of theirs, mod 2. */
  lemma {:induction false} XorBit(x: nat, y: nat, k: nat)
    ensures BitOf(Xor(x, y), k) == (BitOf(x, k) + BitOf(y, k)) % 2
    decreases k
  {
    if k > 0 {
      XorBit(x / 2, y / 2, k - 1);
      if x == 0 && y == 0 {
        XorZero(0);
      }
    }
  }

  /** `x & 2^k` is 2^k or 0, after bit `k` of `x`. */
  lemma {:induction false} AndBit(x: nat, k: nat)
    ensures And(x, Pow(k)) == if BitOf(x, k) == 1 then Pow(k) else 0
    decreases k
  {
    if x == 0 {
      LowSmall(0, k);
    } else if k > 0 {
      AndBit(x / 2, k - 1);
    }
  }

  /** ORing in a bit that is already set changes nothing. */
  lemma {:induction false} OrBit(x: nat, k: nat)
    requires BitOf(x, k) == 1
    ensures Or(x, Pow(k)) == x
    decreases k
  {
    if k == 0 {
      OrZero(x / 2);
    } else {
      OrBit(x / 2, k - 1);
    }
  }

  /** The low `j` bits of 2^j - 1 are all set. */
  lemma {:induction false} OnesBit(j: nat, k: nat)
    requires k < j
    ensures BitOf(Pow(j) - 1, k) == 1
    decreases k
  {
    if k > 0 {
      OnesBit(j - 1, k - 1);
    }
  }

  /** A value whose low `k + 1` bits are all set has bit `k` set. */
  lemma {:induction false} LowOnesBit(x: nat, k: nat)
    requires Low(x, k + 1) == Pow(k + 1) - 1
    ensures BitOf(x, k) == 1
    decreases k
  {
    if k > 0 {
      LowOnesBit(x / 2, k - 1);
    }
  }

  /** `~x & 2^k` is zero when bit `k` of `x` is set. */
  lemma NotAndBit(x: nat, k: nat, w: nat)
    requires k < w && BitOf(x, k) == 1
    ensures And(Not(x, w), Pow(k)) == 0
  {
    XorBit(x, Pow(w) - 1, k);
    OnesBit(w, k);
    AndBit(Not(x, w), k);
  }
}
