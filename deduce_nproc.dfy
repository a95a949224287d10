/**
 * c++-reference/deduce_nproc.py: given a mode, the processor count nproc
 * and a list of candidate thread counts, the script keeps the candidates
 * that fit in nproc processors and may add one more that uses them all.
 *
 * In `sym` mode a candidate is one thread count; in `pc` mode the list is
 * read as (producers, consumers) pairs. The command line, the read from
 * standard input and the printed answer are the parameters and the result
 * of `Deduce`. Thread counts and nproc are natural numbers.
 */
module DeduceNproc {
  import opened Wrappers

  datatype Mode = Sym | Pc

  /** What a run of the script ends with. */
  datatype Outcome =
    | Exit1(message: string)     // prints a message and exits with status 1
    | NoCandidates               // `np.max` of an empty list raises
    | Output(res: seq<nat>)      // prints `res`, space separated

  /** The mode, when the command line has exactly two arguments and the first is `sym` or `pc`. */
  function ParseMode(argv: seq<string>): (o: Option<Mode>)
    ensures o.None? <==> |argv| != 3 || (argv[1] != "sym" && argv[1] != "pc")
    ensures o == Some(Sym) <==> |argv| == 3 && argv[1] == "sym"
  {
    if |argv| != 3 then None
    else if argv[1] == "sym" then Some(Sym)
    else if argv[1] == "pc" then Some(Pc)
    else None
  }

  // ---------------------------------------------------------------------
  // `sym` mode.

  /** The candidates of `l` that are at most nproc, in order. */
  function Fitting(l: seq<nat>, nproc: nat): (r: seq<nat>)
    ensures forall x :: x in r <==> x in l && x <= nproc
    ensures |r| <= |l|
  {
    if l == [] then []
    else (if l[0] <= nproc then [l[0]] else []) + Fitting(l[1..], nproc)
  }

  /** The largest element of a nonempty list. */
  function Max(s: seq<nat>): (m: nat)
    requires |s| > 0
    ensures m in s && forall x :: x in s ==> x <= m
  {
    if |s| == 1 then s[0]
    else
      assert s == [s[0]] + s[1..];
      var m := Max(s[1..]); if s[0] >= m then s[0] else m
  }

  /** `sym` mode: the fitting counts, then nproc itself unless the largest of them is nproc. */
  function SymRun(l: seq<nat>, nproc: nat): Outcome
  {
    var res := Fitting(l, nproc);
    if res == [] then NoCandidates
    else if Max(res) < nproc then Output(res + [nproc])
    else Output(res)
  }

  /** In `sym` mode the output keeps every fitting count, exceeds nproc nowhere, and always ends up holding nproc. */
  lemma SymSpec(l: seq<nat>, nproc: nat)
    ensures SymRun(l, nproc).NoCandidates? <==> forall x :: x in l ==> x > nproc
    ensures SymRun(l, nproc).Output? ==>
      && (forall x :: x in SymRun(l, nproc).res ==> x <= nproc)
      && nproc in SymRun(l, nproc).res
      && SymRun(l, nproc).res[..|Fitting(l, nproc)|] == Fitting(l, nproc)
      && (|SymRun(l, nproc).res| == |Fitting(l, nproc)| + 1 <==> nproc !in l)
  {
    var res := Fitting(l, nproc);
    if res != [] {
      var m := Max(res);
      if m < nproc {
        assert nproc !in res;
      } else {
        assert m == nproc;
      }
    }
  }

  // ---------------------------------------------------------------------
  // `pc` mode.

  /** The pairs among the first n pairs of `l` whose total is at most nproc, flattened, in order. */
  function Kept(l: seq<nat>, n: nat, nproc: nat): (r: seq<nat>)
    requires 2 * n <= |l|
    ensures |r| % 2 == 0 && |r| <= 2 * n
  {
    if n == 0 then []
    else
      var a, b := l[2 * n - 2], l[2 * n - 1];
      Kept(l, n - 1, nproc) + if a + b <= nproc then [a, b] else []
  }

  /** The pairing loop of `pc` mode: for each whole pair, keep it when it fits; a trailing odd count is dropped. */
  method KeepPairs(l: seq<nat>, nproc: nat) returns (res: seq<nat>)
    ensures res == Kept(l, |l| / 2, nproc)
  {
    res := [];
    var i := 0;
    while i < |l| / 2
      invariant i <= |l| / 2
      invariant res == Kept(l, i, nproc)
    {
      var a := l[i * 2];
      var b := l[i * 2 + 1];
      if a + b <= nproc {
        res := res + [a, b];
      }
      i := i + 1;
    }
  }

  /** Every kept pair fits, and is one of the input pairs. */
  lemma {:induction false} KeptSound(l: seq<nat>, n: nat, nproc: nat, j: nat)
    requires 2 * n <= |l| && 2 * j + 1 < |Kept(l, n, nproc)|
    ensures Kept(l, n, nproc)[2 * j] + Kept(l, n, nproc)[2 * j + 1] <= nproc
    ensures exists i :: 0 <= i < n && Kept(l, n, nproc)[2 * j] == l[2 * i] && Kept(l, n, nproc)[2 * j + 1] == l[2 * i + 1]
  {
    var prev := Kept(l, n - 1, nproc);
    if 2 * j + 1 < |prev| {
      KeptSound(l, n - 1, nproc, j);
    } else {
      assert 2 * j == |prev|;
      var i := n - 1;
      assert Kept(l, n, nproc)[2 * j] == l[2 * i] && Kept(l, n, nproc)[2 * j + 1] == l[2 * i + 1];
    }
  }

  /** When every pair fits, all of them are kept. */
  lemma {:induction false} KeptAll(l: seq<nat>, n: nat, nproc: nat)
    requires 2 * n <= |l|
    requires forall i :: 0 <= i < n ==> l[2 * i] + l[2 * i + 1] <= nproc
    ensures Kept(l, n, nproc) == l[..2 * n]
  {
    if n > 0 {
      KeptAll(l, n - 1, nproc);
      assert l[..2 * n] == l[..2 * n - 2] + [l[2 * n - 2], l[2 * n - 1]];
    }
  }

  /** The pairs of a flattened list of even length. */
  function Pairs(res: seq<nat>): (p: seq<(nat, nat)>)
    requires |res| % 2 == 0
    ensures |p| == |res| / 2
    ensures forall j :: 0 <= j < |p| ==> p[j] == (res[2 * j], res[2 * j + 1])
  {
    if res == [] then [] else [(res[0], res[1])] + Pairs(res[2..])
  }

  /** The greatest common divisor, which `np.gcd` computes, here by repeated subtraction. */
  function Gcd(a: nat, b: nat): nat
    decreases a + b
  {
    if a == 0 then b
    else if b == 0 then a
    else if a >= b then Gcd(a - b, b)
    else Gcd(a, b - a)
  }

  /** The gcd of two positive numbers is positive and at most each of them. */
  lemma {:induction false} GcdBounds(a: nat, b: nat)
    requires a > 0 && b > 0
    ensures 0 < Gcd(a, b) <= a && Gcd(a, b) <= b
    decreases a + b
  {
    if a > b {
      GcdBounds(a - b, b);
    } else if a < b {
      GcdBounds(a, b - a);
    }
  }

  /** A pair with no zero, reduced by its gcd. */
  function Ratio(p: (nat, nat)): (r: (nat, nat))
    requires p.0 * p.1 != 0
    ensures r.0 > 0 && r.1 > 0
  {
    assert p.0 > 0 && p.1 > 0;
    GcdBounds(p.0, p.1);
    var g := Gcd(p.0, p.1);
    DivPositive(p.0, g);
    DivPositive(p.1, g);
    (p.0 / g, p.1 / g)
  }

  lemma DivPositive(x: nat, g: nat)
    requires 0 < g <= x
    ensures x / g > 0
  {
  }

  /** The ratios of the pairs with no zero, in order. */
  function Ratios(p: seq<(nat, nat)>): (r: seq<(nat, nat)>)
    ensures |r| <= |p|
    ensures forall x :: x in r ==> x.0 > 0 && x.1 > 0
  {
    if p == [] then []
    else (if p[0].0 * p[0].1 != 0 then [Ratio(p[0])] else []) + Ratios(p[1..])
  }

  /** `len(np.unique(ratios, axis=0)) == 1`: there are ratios, all equal. */
  predicate OneRatio(r: seq<(nat, nat)>)
  {
    |r| > 0 && forall x :: x in r ==> x == r[0]
  }

  /** The totals of the pairs. */
  function Sums(p: seq<(nat, nat)>): (s: seq<nat>)
    ensures |s| == |p| && forall j :: 0 <= j < |p| ==> s[j] == p[j].0 + p[j].1
  {
    if p == [] then [] else [p[0].0 + p[0].1] + Sums(p[1..])
  }

  /**
   * The ratio scaled by `nproc // (r0 + r1)`: the largest multiple of the
   * ratio that fits in nproc processors.
   */
  function Fill(ratio: (nat, nat), nproc: nat): (p: (nat, nat))
    requires ratio.0 > 0 && ratio.1 > 0
    ensures p.0 + p.1 <= nproc < p.0 + p.1 + ratio.0 + ratio.1
  {
    var s := ratio.0 + ratio.1;
    var mult := nproc / s;
    FillBounds(mult, ratio.0, ratio.1, nproc);
    (mult * ratio.0, mult * ratio.1)
  }

  lemma FillBounds(mult: nat, r0: nat, r1: nat, nproc: nat)
    requires r0 + r1 > 0 && mult == nproc / (r0 + r1)
    ensures mult * r0 + mult * r1 <= nproc < mult * r0 + mult * r1 + r0 + r1
  {
    var s := r0 + r1;
    assert mult * r0 + mult * r1 == mult * s;
    assert nproc == mult * s + nproc % s;
  }

  /**
   * `pc` mode after the pairing: when the kept pairs with no zero share
   * one ratio, add that ratio scaled to fill nproc, if its total exceeds
   * every kept total.
   */
  function PcExtend(res: seq<nat>, nproc: nat): seq<nat>
    requires |res| % 2 == 0
  {
    var pairs := Pairs(res);
    var ratios := Ratios(pairs);
    if OneRatio(ratios) then
      var ratio := ratios[0];
      assert ratio in ratios;
      var maxt := Max(Sums(pairs));
      var p := Fill(ratio, nproc);
      if p.0 + p.1 > maxt then res + [p.0, p.1] else res
    else res
  }

  function PcRun(l: seq<nat>, nproc: nat): Outcome
  {
    Output(PcExtend(Kept(l, |l| / 2, nproc), nproc))
  }

  /** The extension keeps the kept pairs and adds at most one pair. */
  lemma PcExtendKeeps(res: seq<nat>, nproc: nat)
    requires |res| % 2 == 0
    ensures var out := PcExtend(res, nproc);
      out[..|res|] == res && (|out| == |res| || |out| == |res| + 2)
  {
  }

  /**
   * An added pair fits in nproc, totals more than every kept pair, and is
   * the one ratio of the kept pairs scaled to fill nproc.
   */
  lemma PcExtendAdded(res: seq<nat>, nproc: nat)
    requires |res| % 2 == 0 && |PcExtend(res, nproc)| == |res| + 2
    ensures var out := PcExtend(res, nproc);
      && out[|res|] + out[|res| + 1] <= nproc
      && OneRatio(Ratios(Pairs(res)))
      && (out[|res|], out[|res| + 1]) == Fill(Ratios(Pairs(res))[0], nproc)
      && forall i :: 0 <= i < |res| / 2 ==> res[2 * i] + res[2 * i + 1] < out[|res|] + out[|res| + 1]
  {
    var out := PcExtend(res, nproc);
    var pairs := Pairs(res);
    var sums := Sums(pairs);
    forall i | 0 <= i < |res| / 2
      ensures res[2 * i] + res[2 * i + 1] < out[|res|] + out[|res| + 1]
    {
      assert sums[i] in sums;
    }
  }

  /** In `pc` mode every output pair fits in nproc processors. */
  lemma PcFits(l: seq<nat>, nproc: nat, j: nat)
    requires 2 * j + 1 < |PcRun(l, nproc).res|
    ensures PcRun(l, nproc).res[2 * j] + PcRun(l, nproc).res[2 * j + 1] <= nproc
  {
    var kept := Kept(l, |l| / 2, nproc);
    var out := PcExtend(kept, nproc);
    PcExtendKeeps(kept, nproc);
    if 2 * j + 1 < |kept| {
      assert out[2 * j] == kept[2 * j] && out[2 * j + 1] == kept[2 * j + 1];
      KeptSound(l, |l| / 2, nproc, j);
    } else {
      PcExtendAdded(kept, nproc);
    }
  }

  // ---------------------------------------------------------------------
  // The script.

  /** The script run with command line `argv`, nproc = `int(argv[2])`, and the counts read from standard input. */
  function Deduce(argv: seq<string>, nproc: nat, counts: seq<nat>): (o: Outcome)
    ensures o.Exit1? <==> ParseMode(argv).None?
  {
    match ParseMode(argv)
    case None => if |argv| != 3 then Exit1("Invalid usage") else Exit1("Invalid mode")
    case Some(Sym) => SymRun(counts, nproc)
    case Some(Pc) => PcRun(counts, nproc)
  }
}
