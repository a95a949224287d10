/**
 * `get_names_diff` of c++-reference/postprocess/draw_compare.py: the parts
 * in which two file names differ, after dropping their longest common
 * prefix and then the longest common suffix of what remains. It labels
 * the two data sets of a comparison chart.
 */
module DrawCompare {
  /** `l` is the length of the longest common prefix of x and y. */
  predicate IsPrefixLen(x: string, y: string, l: nat)
  {
    && l <= |x| && l <= |y| && x[..l] == y[..l]
    && (l == |x| || l == |y| || x[l] != y[l])
  }

  /** `r` is the length of the longest common suffix of x and y. */
  predicate IsSuffixLen(x: string, y: string, r: nat)
  {
    && r <= |x| && r <= |y| && x[|x| - r..] == y[|y| - r..]
    && (r == |x| || r == |y| || x[|x| - r - 1] != y[|y| - r - 1])
  }

  /** The longest common prefix has one length: no common prefix is longer. */
  lemma PrefixLenUnique(x: string, y: string, l: nat, k: nat)
    requires IsPrefixLen(x, y, l) && k <= |x| && k <= |y| && x[..k] == y[..k]
    ensures k <= l
  {
  }

  /** The longest common suffix has one length: no common suffix is longer. */
  lemma SuffixLenUnique(x: string, y: string, r: nat, k: nat)
    requires IsSuffixLen(x, y, r) && k <= |x| && k <= |y| && x[|x| - k..] == y[|y| - k..]
    ensures k <= r
  {
  }

  /** Cutting a prefix of length l and then a suffix of length r from what remains splits f in three. */
  lemma Cut(f: string, l: nat, r: nat, g: string)
    requires l <= |f| && r <= |f| - l && g == f[l..][..|f| - l - r]
    ensures f == f[..l] + g + f[|f| - r..]
    ensures f[|f| - r..] == f[l..][|f| - l - r..]
  {
    assert f[l..] == f[l..][..|f| - l - r] + f[l..][|f| - l - r..];
  }

  /**
   * g1 and g2 are what is left of f1 and f2 once their longest common
   * prefix, of length l, and then the longest common suffix of the rest,
   * of length r, are cut off.
   */
  predicate Diff(f1: string, f2: string, g1: string, g2: string, l: nat, r: nat)
  {
    && IsPrefixLen(f1, f2, l) && IsSuffixLen(f1[l..], f2[l..], r)
    && f1 == f1[..l] + g1 + f1[|f1| - r..] && f2 == f2[..l] + g2 + f2[|f2| - r..]
    && f1[|f1| - r..] == f2[|f2| - r..]
  }

  /**
   * `get_names_diff(f1, f2)`: with P the longest common prefix of f1 and
   * f2 and S the longest common suffix of the rest, f1 = P + g1 + S and
   * f2 = P + g2 + S.
   */
  method NamesDiff(f1: string, f2: string) returns (g1: string, g2: string)
    ensures exists l: nat, r: nat :: Diff(f1, f2, g1, g2, l, r)
    ensures f1 == f2 ==> g1 == [] && g2 == []
  {
    var l := 0;
    while l < |f1| && l < |f2| && f1[l] == f2[l]
      invariant l <= |f1| && l <= |f2| && f1[..l] == f2[..l]
    {
      l := l + 1;
    }
    var h1 := f1[l..];
    var h2 := f2[l..];
    var r := 0;
    while r < |h1| && r < |h2| && h1[|h1| - r - 1] == h2[|h2| - r - 1]
      invariant r <= |h1| && r <= |h2| && h1[|h1| - r..] == h2[|h2| - r..]
    {
      assert h1[|h1| - (r + 1)..] == [h1[|h1| - r - 1]] + h1[|h1| - r..];
      assert h2[|h2| - (r + 1)..] == [h2[|h2| - r - 1]] + h2[|h2| - r..];
      r := r + 1;
    }
    if r > 0 {
      g1, g2 := h1[..|h1| - r], h2[..|h2| - r];
    } else {
      g1, g2 := h1, h2;
      assert g1 == h1[..|h1| - r] && g2 == h2[..|h2| - r];
    }
    assert IsPrefixLen(f1, f2, l);
    assert IsSuffixLen(h1, h2, r);
    Cut(f1, l, r, g1);
    Cut(f2, l, r, g2);
    assert f1[|f1| - r..] == f2[|f2| - r..];
    assert Diff(f1, f2, g1, g2, l, r);
  }
}
