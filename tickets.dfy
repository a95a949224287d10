/**
 * Ticket arithmetic of the ring segments: a ticket `t` names cell
 * `t % n` in round (epoch) `t / n`, and a cell stamped with epoch `e` at
 * index `i` records ticket `e * n + i`. The non-linear facts are proved
 * once here so that the queue proofs stay linear.
 */
module Tickets {
  import opened Wrappers

  function Ticket(e: nat, i: nat, n: nat): nat
  {
    e * n + i
  }

  lemma MulPositive(k: int, n: nat)
    requires k >= 1 && n >= 1
    ensures k * n >= n
  {
    var j := k;
    while j > 1
      invariant 1 <= j <= k
      invariant k * n >= j * n
      decreases j
    {
      assert (j - 1) * n == j * n - n;
      j := j - 1;
    }
  }

  /** A ticket is its cycle and index put back together. */
  lemma Decompose(t: nat, n: nat)
    requires n > 0
    ensures t % n < n && Ticket(t / n, t % n, n) == t
  {
  }

  /** A stamp `(e, i)` with `i < n` names exactly one ticket. */
  lemma Unique(e: nat, i: nat, n: nat)
    requires i < n
    ensures Ticket(e, i, n) / n == e && Ticket(e, i, n) % n == i
  {
    var t := Ticket(e, i, n);
    Decompose(t, n);
    var d := e - t / n;
    assert d * n == t % n - i;
    if d >= 1 {
      MulPositive(d, n);
    }
  }

  /** Two different tickets of one cell are at least `n` apart. */
  lemma SameIndexApart(a: nat, b: nat, n: nat)
    requires n > 0 && a < b && a % n == b % n
    ensures a + n <= b
  {
    Decompose(a, n);
    Decompose(b, n);
    var d := b / n - a / n;
    assert d * n == b - a;
    if d > 0 {
      MulPositive(d, n);
    }
  }

  /** Tickets fewer than `n` apart use different cells. */
  lemma CloseTicketsDiffer(a: nat, b: nat, n: nat)
    requires n > 0 && a < b < a + n
    ensures a % n != b % n
  {
    if a % n == b % n {
      SameIndexApart(a, b, n);
    }
  }

  /** A stamp recording a smaller ticket of the same cell has a smaller epoch. */
  lemma EarlierTicketEarlierEpoch(e: nat, t: nat, n: nat)
    requires n > 0 && Ticket(e, t % n, n) < t
    ensures e < t / n
  {
    Decompose(t, n);
    if e > t / n {
      MulPositive(e - t / n, n);
    }
  }

  /** A stamp recording a ticket of the same cell no later than `t` has an epoch no later. */
  lemma NoLaterTicketNoLaterEpoch(e: nat, t: nat, n: nat)
    requires n > 0 && Ticket(e, t % n, n) <= t
    ensures e <= t / n
  {
    Decompose(t, n);
    if Ticket(e, t % n, n) < t {
      EarlierTicketEarlierEpoch(e, t, n);
    } else {
      Unique(e, t % n, n);
    }
  }

  /** A stamp recording a later ticket of the same cell has a later epoch. */
  lemma LaterTicketLaterEpoch(e: nat, t: nat, n: nat)
    requires n > 0 && Ticket(e, t % n, n) > t
    ensures e > t / n
  {
    Decompose(t, n);
    if e < t / n {
      MulPositive(t / n - e, n);
    }
  }

  /** The same cell one round later. */
  lemma NextRound(t: nat, n: nat)
    requires n > 0
    ensures (t + n) % n == t % n && (t + n) / n == t / n + 1
  {
    Decompose(t, n);
    assert t + n == Ticket(t / n + 1, t % n, n);
    Unique(t / n + 1, t % n, n);
  }

  /**
   * With at least two cells and head past the first round, a ticket at
   * most `n` beyond head has a cycle below head.
   */
  lemma SmallCycle(t: nat, h: nat, n: nat)
    requires n >= 2 && h > n && t <= h + n
    ensures t / n < h
  {
    Decompose(t, n);
    var q := t / n;
    if q >= h {
      assert q * n == (n - 1) * q + q;
      MulPositive(n - 1, q);
    }
  }

  /** A ticket's cycle is at most the ticket. */
  lemma CycleAtMostTicket(t: nat, n: nat)
    requires n > 0
    ensures t / n <= t
  {
    Decompose(t, n);
    if t / n >= 1 {
      MulPositive(n, t / n);
    }
  }
}
