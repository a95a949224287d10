/**
 * The contents of a ring segment, read ticket by ticket: `Gather(f, a, b)`
 * lists, in ticket order, the values `f` finds at the tickets of [a, b).
 */
module Gather {
  import opened Wrappers

  function Opt<T>(o: Option<T>): seq<T>
  {
    if o.Some? then [o.value] else []
  }

  function Gather<T>(f: nat -> Option<T>, a: nat, b: nat): (r: seq<T>)
    ensures |r| <= if a <= b then b - a else 0
    decreases b
  {
    if b <= a then [] else Gather(f, a, b - 1) + Opt(f(b - 1))
  }

  /** Reading off the first ticket. */
  lemma {:induction false} Front<T>(f: nat -> Option<T>, a: nat, b: nat)
    requires a < b
    ensures Gather(f, a, b) == Opt(f(a)) + Gather(f, a + 1, b)
    decreases b
  {
    if b - 1 > a {
      Front(f, a, b - 1);
    }
  }

  /** Two readers that agree on [a, b) gather the same values. */
  lemma {:induction false} Congruent<T>(f: nat -> Option<T>, g: nat -> Option<T>, a: nat, b: nat)
    requires forall u: nat :: a <= u < b ==> f(u) == g(u)
    ensures Gather(f, a, b) == Gather(g, a, b)
    decreases b
  {
    if b > a {
      Congruent(f, g, a, b - 1);
    }
  }

  /** Where every ticket holds a value, there are exactly `b - a` of them. */
  lemma {:induction false} AllPresent<T>(f: nat -> Option<T>, a: nat, b: nat)
    requires a <= b
    requires forall u: nat :: a <= u < b ==> f(u).Some?
    ensures |Gather(f, a, b)| == b - a
    decreases b
  {
    if b > a {
      AllPresent(f, a, b - 1);
    }
  }

  /** Where no ticket holds a value, nothing is gathered. */
  lemma {:induction false} NonePresent<T>(f: nat -> Option<T>, a: nat, b: nat)
    requires forall u: nat :: a <= u < b ==> f(u).None?
    ensures Gather(f, a, b) == []
    decreases b
  {
    if b > a {
      NonePresent(f, a, b - 1);
    }
  }

  /** Absent tickets past the end add nothing. */
  lemma {:induction false} AbsentTail<T>(f: nat -> Option<T>, a: nat, b: nat, c: nat)
    requires b <= c
    requires forall u: nat :: b <= u < c ==> f(u).None?
    ensures Gather(f, a, c) == Gather(f, a, b)
    decreases c
  {
    if c > b {
      AbsentTail(f, a, b, c - 1);
    }
  }

  /** Appending a non-empty sequence is appending its head, then its tail. */
  lemma AppendFront<T>(a: seq<T>, vs: seq<T>)
    requires vs != []
    ensures a + vs == (a + [vs[0]]) + vs[1..]
  {
    assert vs == [vs[0]] + vs[1..];
  }

  /** Dropping one element, then `k - 1` more, drops `k`. */
  lemma DropTwice<T>(a: seq<T>, k: nat)
    requires 1 <= k <= |a|
    ensures a[1..][k - 1..] == a[k..]
  {
  }

  /** The head and the rest of a concatenation with a non-empty front. */
  lemma ConcatTail<T>(a: seq<T>, b: seq<T>)
    requires a != []
    ensures (a + b)[0] == a[0] && (a + b)[1..] == a[1..] + b
  {
  }

  /** Two updates of one position: the second wins. */
  lemma UpdateTwice<T>(a: seq<T>, i: nat, x: T, y: T)
    requires i < |a|
    ensures a[i := x][i := y] == a[i := y]
  {
  }

  /** Taking all but the last element and putting it back gives the whole sequence. */
  lemma TakeAll<T>(a: seq<T>, k: nat)
    requires k + 1 == |a|
    ensures a[..k] + [a[k]] == a
  {
  }
}
