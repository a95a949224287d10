/**
 * The command-line parser and the chart-label renaming of
 * c++-reference/postprocess/pp_helpers.py.
 */
module PpHelpers {
  import opened Wrappers

  // ---------------------------------------------------------------------
  // `parse_args`.

  predicate IsOption(a: string)
  {
    |a| > 0 && a[0] == '-'
  }

  /** The options with their values, and the other arguments in order. */
  type Parsed = (map<string, string>, seq<string>)

  /**
   * The loop of `parse_args` from argument i on, with the options and the
   * other arguments read so far. An option must be supported, must not be
   * the last argument and must not repeat, or the parse ends in the usage
   * message and exit status 1 (here `Err(())`); its value is the argument
   * after it.
   */
  function Parse(args: seq<string>, supported: set<string>, i: nat, options: map<string, string>, others: seq<string>): Result<Parsed, ()>
    requires i <= |args|
    decreases |args| - i
  {
    if i == |args| then Ok((options, others))
    else
      var a := args[i];
      if IsOption(a) then
        if i == |args| - 1 || a !in supported || a in options then Err(())
        else Parse(args, supported, i + 2, options[a := args[i + 1]], others)
      else Parse(args, supported, i + 1, options, others + [a])
  }

  /** `parse_args(supported_options, usage)` on the arguments `args` (`sys.argv[1:]`). */
  method ParseArgs(args: seq<string>, supported: set<string>) returns (r: Result<Parsed, ()>)
    ensures r == Parse(args, supported, 0, map[], [])
  {
    var options: map<string, string> := map[];
    var others: seq<string> := [];
    var i := 0;
    while i < |args|
      invariant i <= |args|
      invariant Parse(args, supported, i, options, others) == Parse(args, supported, 0, map[], [])
    {
      var a := args[i];
      if IsOption(a) {
        if i == |args| - 1 || a !in supported || a in options {
          return Err(());
        }
        options := options[a := args[i + 1]];
        i := i + 1;
      } else {
        others := others + [a];
      }
      i := i + 1;
    }
    return Ok((options, others));
  }

  /**
   * A successful parse reads every argument once: as an option, as the
   * value after it, or as an other argument, and no other argument is an
   * option; the other arguments keep their order.
   */
  lemma {:induction false} ParseCounts(args: seq<string>, supported: set<string>, i: nat, options: map<string, string>, others: seq<string>)
    requires i <= |args| && Parse(args, supported, i, options, others).Ok?
    ensures var (o, p) := Parse(args, supported, i, options, others).value;
      && 2 * |o| + |p| == 2 * |options| + |others| + |args| - i
      && |others| <= |p| && others == p[..|others|]
      && (forall x :: x in p[|others|..] ==> !IsOption(x))
    decreases |args| - i
  {
    if i < |args| {
      var a := args[i];
      if IsOption(a) {
        var o2 := options[a := args[i + 1]];
        assert |o2| == |options| + 1;
        ParseCounts(args, supported, i + 2, o2, others);
      } else {
        ParseCounts(args, supported, i + 1, options, others + [a]);
        var p := Parse(args, supported, i, options, others).value.1;
        assert p[..|others|] == p[..|others| + 1][..|others|];
        assert p[|others|..] == [a] + p[|others| + 1..];
      }
    }
  }

  /**
   * The arguments `q` sit at the increasing positions `idx` of args[i..],
   * and none of those positions is one of the option positions `opt` or
   * the value position right after one.
   */
  ghost predicate PlacedAt(args: seq<string>, i: nat, q: seq<string>, idx: seq<nat>, opt: seq<nat>)
  {
    && |idx| == |q|
    && (forall k :: 0 <= k < |idx| ==> i <= idx[k] < |args| && args[idx[k]] == q[k])
    && (forall k, l :: 0 <= k < l < |idx| ==> idx[k] < idx[l])
    && (forall l :: 0 <= l < |opt| ==> i <= opt[l] && opt[l] + 1 < |args| && IsOption(args[opt[l]]))
    && (forall k, l :: 0 <= k < |idx| && 0 <= l < |opt| ==> idx[k] != opt[l] && idx[k] != opt[l] + 1)
  }

  /** An option at position i, with its value after it, in front of placed arguments. */
  lemma PlacedOption(args: seq<string>, i: nat, q: seq<string>, idx: seq<nat>, opt: seq<nat>)
    requires PlacedAt(args, i + 2, q, idx, opt) && i + 1 < |args| && IsOption(args[i])
    ensures PlacedAt(args, i, q, idx, [i] + opt)
  {
    var opt1 := [i] + opt;
    assert forall l :: 0 < l < |opt1| ==> opt1[l] == opt[l - 1];
  }

  /** An other argument at position i in front of placed arguments. */
  lemma PlacedOther(args: seq<string>, i: nat, q: seq<string>, idx: seq<nat>, opt: seq<nat>)
    requires PlacedAt(args, i + 1, q, idx, opt) && i < |args|
    ensures PlacedAt(args, i, [args[i]] + q, [i] + idx, opt)
  {
    var idx1 := [i] + idx;
    assert forall k :: 0 < k < |idx1| ==> idx1[k] == idx[k - 1];
  }

  /**
   * The other arguments of a successful parse are the arguments of
   * args[i..] outside the option and value positions, in their order.
   */
  lemma {:induction false} ParseOrder(args: seq<string>, supported: set<string>, i: nat, options: map<string, string>, others: seq<string>)
    requires i <= |args| && Parse(args, supported, i, options, others).Ok?
    ensures var (o, p) := Parse(args, supported, i, options, others).value;
      && |others| <= |p|
      && exists idx, opt :: |opt| == |o| - |options| && PlacedAt(args, i, p[|others|..], idx, opt)
    decreases |args| - i
  {
    ParseCounts(args, supported, i, options, others);
    var (o, p) := Parse(args, supported, i, options, others).value;
    if i == |args| {
      assert PlacedAt(args, i, p[|others|..], [], []);
    } else {
      var a := args[i];
      if IsOption(a) {
        var o2 := options[a := args[i + 1]];
        assert |o2| == |options| + 1;
        ParseOrder(args, supported, i + 2, o2, others);
        var idx, opt :| |opt| == |o| - |o2| && PlacedAt(args, i + 2, p[|others|..], idx, opt);
        PlacedOption(args, i, p[|others|..], idx, opt);
      } else {
        ParseOrder(args, supported, i + 1, options, others + [a]);
        ParseCounts(args, supported, i + 1, options, others + [a]);
        assert p[|others|..] == [a] + p[|others| + 1..];
        var idx, opt :| |opt| == |o| - |options| && PlacedAt(args, i + 1, p[|others| + 1..], idx, opt);
        PlacedOther(args, i, p[|others| + 1..], idx, opt);
      }
    }
  }

  /** The value of an option follows it in the arguments. */
  ghost predicate Follows(args: seq<string>, k: string, v: string)
  {
    exists j :: 0 <= j < |args| - 1 && args[j] == k && args[j + 1] == v
  }

  /** Every option of a successful parse is supported and maps to the argument right after one of its occurrences. */
  lemma {:induction false} ParseOptions(args: seq<string>, supported: set<string>, i: nat, options: map<string, string>, others: seq<string>)
    requires i <= |args| && Parse(args, supported, i, options, others).Ok?
    requires forall k :: k in options ==> k in supported && Follows(args, k, options[k])
    ensures var o := Parse(args, supported, i, options, others).value.0;
      forall k :: k in o ==> k in supported && Follows(args, k, o[k])
    decreases |args| - i
  {
    if i < |args| {
      var a := args[i];
      if IsOption(a) {
        var o2 := options[a := args[i + 1]];
        assert Follows(args, a, o2[a]) by {
          assert args[i] == a && args[i + 1] == o2[a];
        }
        ParseOptions(args, supported, i + 2, o2, others);
      } else {
        ParseOptions(args, supported, i + 1, options, others + [a]);
      }
    }
  }

  /** Arguments none of which is an option parse to no options and the arguments themselves, in order. */
  lemma {:induction false} ParsePlain(args: seq<string>, supported: set<string>, i: nat, others: seq<string>)
    requires i <= |args| && forall x :: x in args ==> !IsOption(x)
    ensures Parse(args, supported, i, map[], others) == Ok((map[], others + args[i..]))
    decreases |args| - i
  {
    if i < |args| {
      assert args[i] in args;
      assert args[i..] == [args[i]] + args[i + 1..];
      ParsePlain(args, supported, i + 1, others + [args[i]]);
      assert others + [args[i]] + args[i + 1..] == others + args[i..];
    } else {
      assert others + args[i..] == others;
    }
  }

  /** An option given twice ends the parse with the usage message. */
  lemma ParseRepeated(o: string, v: string, w: string, rest: seq<string>, supported: set<string>)
    requires IsOption(o)
    ensures Parse([o, v, o, w] + rest, supported, 0, map[], []).Err?
  {
    var args := [o, v, o, w] + rest;
    if o in supported {
      assert args[2] == o && args[3] == w;
      assert Parse(args, supported, 0, map[], []) == Parse(args, supported, 2, map[o := v], []);
    }
  }

  // ---------------------------------------------------------------------
  // The label renaming.

  /** `p` occurs in `s` at position i. */
  predicate At(s: string, p: string, i: nat)
  {
    i + |p| <= |s| && s[i..i + |p|] == p
  }

  /** `p` occurs in `s`. */
  predicate Contains(s: string, p: string)
  {
    exists i: nat :: i <= |s| && At(s, p, i)
  }

  /** `s.replace(p, r)`: every occurrence of `p`, scanning left to right without overlap, becomes `r`. */
  function Replace(s: string, p: string, r: string): string
    requires |p| > 0
    decreases |s|
  {
    if |s| < |p| then s
    else if s[..|p|] == p then r + Replace(s[|p|..], p, r)
    else [s[0]] + Replace(s[1..], p, r)
  }

  /** An occurrence in the tail of a string is an occurrence in the string. */
  lemma AtTail(s: string, p: string, i: nat)
    requires |s| > 0 && At(s[1..], p, i)
    ensures At(s, p, i + 1)
  {
    assert s[1..][i..i + |p|] == s[i + 1..i + 1 + |p|];
  }

  /** A string in which `p` does not occur is left as it is. */
  lemma {:induction false} ReplaceAbsent(s: string, p: string, r: string)
    requires |p| > 0 && !Contains(s, p)
    ensures Replace(s, p, r) == s
    decreases |s|
  {
    if |s| >= |p| {
      assert !At(s, p, 0);
      assert s[0..|p|] == s[..|p|];
      assert !Contains(s[1..], p) by {
        forall i: nat | At(s[1..], p, i)
          ensures false
        {
          AtTail(s, p, i);
        }
      }
      ReplaceAbsent(s[1..], p, r);
      assert s == [s[0]] + s[1..];
    }
  }

  /** A string with none of the characters of `p` at position k is left as it is. */
  lemma {:induction false} ReplaceLacking(s: string, p: string, r: string, k: nat)
    requires k < |p| && p[k] !in s
    ensures Replace(s, p, r) == s
    decreases |s|
  {
    if |s| >= |p| {
      assert s[k] in s && s[..|p|][k] == s[k];
      ReplaceLacking(s[1..], p, r, k);
      assert s == [s[0]] + s[1..];
    }
  }

  /** No occurrence can start in a prefix that lacks the first character of `p`. */
  lemma {:induction false} ReplacePast(x: string, y: string, p: string, r: string)
    requires |p| > 0 && p[0] !in x
    ensures Replace(x + y, p, r) == x + Replace(y, p, r)
    decreases |x|
  {
    if x != [] {
      var s := x + y;
      if |s| >= |p| {
        assert x[0] in x && s[..|p|][0] == x[0];
      } else {
        assert |y| < |p|;
      }
      assert s[1..] == x[1..] + y;
      ReplacePast(x[1..], y, p, r);
      assert x == [x[0]] + x[1..];
    } else {
      assert x + y == y;
    }
  }

  /** An occurrence at the front is replaced. */
  lemma ReplaceHit(p: string, y: string, r: string)
    requires |p| > 0
    ensures Replace(p + y, p, r) == r + Replace(y, p, r)
  {
    assert (p + y)[..|p|] == p && (p + y)[|p|..] == y;
  }

  /** A mismatch at position k of the first window moves the scan on by one. */
  lemma ReplaceMiss(s: string, p: string, r: string, k: nat)
    requires |p| <= |s| && k < |p| && s[k] != p[k]
    ensures Replace(s, p, r) == [s[0]] + Replace(s[1..], p, r)
  {
    assert s[..|p|][k] == s[k];
  }

  /** Removing `p` shortens a string in which it occurs. */
  lemma {:induction false} RemoveShortens(s: string, p: string)
    requires |p| > 0
    ensures |Replace(s, p, "")| <= |s|
    ensures Contains(s, p) ==> |Replace(s, p, "")| < |s|
    decreases |s|
  {
    if |s| >= |p| {
      if s[..|p|] == p {
        RemoveShortens(s[|p|..], p);
      } else {
        RemoveShortens(s[1..], p);
        if Contains(s, p) {
          var i: nat :| At(s, p, i);
          assert s[..|p|] == s[0..|p|];
          assert At(s, p, i);
          assert i + |p| <= |s|;
          assert i > 0;
          assert s[1..][i - 1..i - 1 + |p|] == s[i..i + |p|];
          assert At(s[1..], p, i - 1);
        }
      }
    }
  }

  /** The eight renamings of `get_service_name_for_label_with_remap`, in the order it applies them. */
  const Renamings: seq<(string, string)> := [
    ("FAAArrayQueue", "faa-queue"),
    ("LCRQueue", "lcrq"),
    ("LSCQueue", "lscq"),
    ("LPRQueue", "lprq"),
    ("LFakeCRQueue", "fake-lcrq"),
    ("LModCRQueue", "lcrq-modified"),
    ("CCQueue", "cc-queue"),
    ("MichaelScottQueue", "m&s-queue")
  ]

  predicate Patterns(rs: seq<(string, string)>)
  {
    forall i :: 0 <= i < |rs| ==> |rs[i].0| > 0
  }

  /** The `str.replace` calls of a chain, applied left to right. */
  function ApplyAll(s: string, rs: seq<(string, string)>): string
    requires Patterns(rs)
    decreases |rs|
  {
    if rs == [] then s else ApplyAll(Replace(s, rs[0].0, rs[0].1), rs[1..])
  }

  /** A chain splits into its first k renamings and the rest. */
  lemma {:induction false} ApplyAllSplit(s: string, rs: seq<(string, string)>, k: nat)
    requires Patterns(rs) && k <= |rs|
    ensures ApplyAll(s, rs) == ApplyAll(ApplyAll(s, rs[..k]), rs[k..])
    decreases k
  {
    if k > 0 {
      assert rs[..k][1..] == rs[1..][..k - 1];
      assert rs[k..] == rs[1..][k - 1..];
      ApplyAllSplit(Replace(s, rs[0].0, rs[0].1), rs[1..], k - 1);
    } else {
      assert rs[..0] == [] && rs[0..] == rs;
    }
  }

  /** A chain leaves a string alone when each of its patterns has a character, `cs[i]`, that the string lacks. */
  lemma {:induction false} ApplyAllLacking(s: string, rs: seq<(string, string)>, cs: string)
    requires Patterns(rs) && |cs| == |rs|
    requires forall i :: 0 <= i < |rs| ==> cs[i] in rs[i].0 && cs[i] !in s
    ensures ApplyAll(s, rs) == s
    decreases |rs|
  {
    if rs != [] {
      var p := rs[0].0;
      var k :| 0 <= k < |p| && p[k] == cs[0];
      ReplaceLacking(s, p, rs[0].1, k);
      assert forall i :: 0 <= i < |rs| - 1 ==> rs[1..][i] == rs[i + 1] && cs[1..][i] == cs[i + 1];
      ApplyAllLacking(s, rs[1..], cs[1..]);
    }
  }

  /** `get_service_name_for_label_with_remap`. */
  function LabelWithRemap(service: string): string
  {
    ApplyAll(service, Renamings)
  }

  /** `get_service_name_for_label`, as written: the renamed label with one pass removing "/remap". */
  function Label(service: string): string
  {
    Replace(LabelWithRemap(service), "/remap", "")
  }

  /** The benchmark's name for LPRQ with remapping gets the short label, with and without "/remap". */
  lemma LabelLprq(s: string)
    requires s == "LPRQueue/remap"
    ensures LabelWithRemap(s) == "lprq/remap"
    ensures Label(s) == "lprq"
  {
    ApplyAllSplit(s, Renamings, 3);
    LprqBefore(s);
    ApplyAllSplit(s, Renamings[3..], 1);
    LprqRenamed(s);
    LprqAfter("lprq/remap");
    LprqShortened("lprq/remap");
  }

  lemma LprqBefore(s: string)
    requires s == "LPRQueue/remap"
    ensures ApplyAll(s, Renamings[..3]) == s
  {
    ApplyAllLacking(s, Renamings[..3], "FCS");
  }

  lemma LprqRenamed(s: string)
    requires s == "LPRQueue/remap"
    ensures ApplyAll(s, Renamings[3..][..1]) == "lprq/remap"
  {
    assert Renamings[3..][..1] == [("LPRQueue", "lprq")];
    assert s == "LPRQueue" + "/remap";
    ReplaceHit("LPRQueue", "/remap", "lprq");
    ReplaceLacking("/remap", "LPRQueue", "lprq", 0);
  }

  lemma LprqAfter(t: string)
    requires t == "lprq/remap"
    ensures ApplyAll(t, Renamings[3..][1..]) == t
  {
    assert Renamings[3..][1..] == Renamings[4..];
    ApplyAllLacking(t, Renamings[4..], "LLCM");
  }

  lemma LprqShortened(t: string)
    requires t == "lprq/remap"
    ensures Replace(t, "/remap", "") == "lprq"
  {
    assert t == "lprq" + "/remap";
    ReplacePast("lprq", "/remap", "/remap", "");
    ReplaceHit("/remap", "", "");
    assert "/remap" + "" == "/remap";
  }

  /** One removal pass can leave "/remap" behind: the two halves around an occurrence join into a new one. */
  lemma LabelKeepsRemap(s: string)
    requires s == "/re/remapmap"
    ensures Label(s) == "/remap"
    ensures Contains(Label(s), "/remap")
  {
    Unrenamed(s);
    Rejoined(s);
    ContainsSelf("/remap");
  }

  lemma Unrenamed(s: string)
    requires s == "/re/remapmap"
    ensures LabelWithRemap(s) == s
  {
    ApplyAllLacking(s, Renamings, "QQQQQQQQ");
  }

  lemma ContainsSelf(p: string)
    ensures Contains(p, p)
  {
    assert p[0..|p|] == p;
    assert At(p, p, 0);
  }

  lemma Rejoined(s: string)
    requires s == "/re/remapmap"
    ensures Replace(s, "/remap", "") == "/remap"
  {
    ReplaceMiss(s, "/remap", "", 3);
    RejoinedTail(s[1..]);
    assert [s[0]] + "remap" == "/remap";
  }

  lemma RejoinedTail(t: string)
    requires t == "re/remapmap"
    ensures Replace(t, "/remap", "") == "remap"
  {
    assert t == "re" + "/remapmap";
    ReplacePast("re", "/remapmap", "/remap", "");
    RejoinedEnd("/remapmap");
  }

  lemma RejoinedEnd(u: string)
    requires u == "/remapmap"
    ensures Replace(u, "/remap", "") == "map"
  {
    assert u == "/remap" + "map";
    ReplaceHit("/remap", "map", "");
  }

  /**
   * The label is the renamed name with its "/remap" occurrences removed:
   * unchanged when there is none, strictly shorter when there is one.
   */
  lemma LabelDropsRemap(service: string)
    ensures !Contains(LabelWithRemap(service), "/remap") ==> Label(service) == LabelWithRemap(service)
    ensures Contains(LabelWithRemap(service), "/remap") ==> |Label(service)| < |LabelWithRemap(service)|
  {
    var s := LabelWithRemap(service);
    if Contains(s, "/remap") {
      RemoveShortens(s, "/remap");
    } else {
      ReplaceAbsent(s, "/remap", "");
    }
  }
}
