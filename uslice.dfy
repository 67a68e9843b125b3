/** The string-slice algebra of package `uslice`: a Go `[]string` used as an
    insertion-ordered, set-like container. A slice is a sequence of elements
    plus the capacity of its backing array. The operations that rebind the
    caller's variable through `*[]string` are methods of `SliceRef`; the two
    that assign elements in place work on an `array`; the read-only scans
    are functions. */
module USlice {
  import opened Seqs

  // ---------------------------------------------------------------------------
  // Read-only scans

  /** `StrAt`: the position of the first element equal to `val`, or -1. */
  function StrAt(slice: seq<string>, val: string): (r: int)
    ensures -1 <= r < |slice|
    ensures r == -1 <==> val !in slice
    ensures r >= 0 ==> slice[r] == val && forall j :: 0 <= j < r ==> slice[j] != val
  {
    if slice == [] then -1
    else if slice[0] == val then 0
    else
      var k := StrAt(slice[1..], val);
      if k < 0 then -1 else k + 1
  }

  /** `StrHas`: whether `val` is an element. */
  function StrHas(slice: seq<string>, val: string): (r: bool)
    ensures r <==> val in slice
  {
    StrAt(slice, val) >= 0
  }

  /** `StrHasAny`: whether at least one of `vals` is an element of `slice`. */
  function StrHasAny(slice: seq<string>, vals: seq<string>): (r: bool)
    ensures r <==> exists i :: 0 <= i < |vals| && vals[i] in slice
  {
    if vals == [] then false
    else if vals[0] in slice then true
    else
      assert forall i :: 1 <= i < |vals| ==> vals[i] == vals[1..][i - 1];
      StrHasAny(slice, vals[1..])
  }

  /** `StrEq`: element-wise equality. */
  function StrEq(s1: seq<string>, s2: seq<string>): (r: bool)
    ensures r <==> s1 == s2
  {
    |s1| == |s2| && forall i :: 0 <= i < |s1| ==> s1[i] == s2[i]
  }

  /** `StrEquivalent`: equal lengths, and every element of `one` is found in `two`. */
  function StrEquivalent(one: seq<string>, two: seq<string>): (r: bool)
    ensures r <==> |one| == |two| && forall i :: 0 <= i < |one| ==> one[i] in two
  {
    |one| == |two| && forall i :: 0 <= i < |one| ==> StrAt(two, one[i]) >= 0
  }

  /** Two permutations of each other are always equivalent. */
  lemma StrEquivalentOfPermutation(one: seq<string>, two: seq<string>)
    requires multiset(one) == multiset(two)
    ensures StrEquivalent(one, two)
  {
    assert |one| == |multiset(one)| == |multiset(two)| == |two|;
    forall i | 0 <= i < |one| ensures one[i] in two {
      assert one[i] in multiset(one);
    }
  }

  /** The converse fails: equivalence ignores how often a value occurs. */
  lemma StrEquivalentIgnoresMultiplicity()
    ensures StrEquivalent(["a", "a", "b"], ["a", "b", "b"])
    ensures multiset(["a", "a", "b"]) != multiset(["a", "b", "b"])
  {
    var one, two := ["a", "a", "b"], ["a", "b", "b"];
    assert multiset(one)["a"] == 2;
    assert multiset(two)["a"] == 1;
  }

  lemma StrEquivalentScenario()
    ensures StrEquivalent(["x", "y"], ["y", "x"])
  {
    assert ["y", "x"][1] == "x";
  }

  /** Nor is it symmetric. */
  lemma StrEquivalentNotSymmetric()
    ensures StrEquivalent(["a", "a"], ["a", "b"])
    ensures !StrEquivalent(["a", "b"], ["a", "a"])
  {
    assert ["a", "b"][1] == "b";
    assert "b" !in ["a", "a"];
  }

  /** `StrFiltered`: the elements that pass `check`, in order; a nil `check` keeps the slice. */
  function StrFiltered(vals: seq<string>, check: Option<string -> bool>): (items: seq<string>)
    ensures check.None? ==> items == vals
    ensures check.Some? ==> forall i :: 0 <= i < |items| ==> check.value(items[i])
    ensures check.Some? ==> forall x :: x in vals && check.value(x) <==> x in items
    ensures check.Some? ==> forall x :: multiset(items)[x] == if check.value(x) then multiset(vals)[x] else 0
    ensures Subsequence(items, vals)
  {
    match check
    case None =>
      SubsequenceRefl(vals);
      vals
    case Some(p) =>
      FilterIsSubsequence(vals, p);
      forall x ensures x in vals && p(x) <==> x in Filter(vals, p) {
        FilterMembers(vals, p, x);
      }
      forall x ensures multiset(Filter(vals, p))[x] == if p(x) then multiset(vals)[x] else 0 {
        FilterCount(vals, p, x);
      }
      Filter(vals, p)
  }

  /** `StrMap`: each element passed through `strmap`; a nil `strmap` keeps the slice. */
  function StrMap(vals: seq<string>, strmap: Option<string -> string>): (items: seq<string>)
    ensures |items| == |vals|
    ensures forall i :: 0 <= i < |vals| ==>
              items[i] == if strmap.Some? then strmap.value(vals[i]) else vals[i]
  {
    match strmap
    case None => vals
    case Some(f) => seq(|vals|, i requires 0 <= i < |vals| => f(vals[i]))
  }

  /** One step of `StrShortest`'s loop: an empty candidate, or a strictly shorter string, replaces it. */
  function ShortestStep(shortest: string, s: string): string {
    if shortest == "" || |s| < |shortest| then s else shortest
  }

  /** `StrShortest`: the loop of the source, element by element from the front. */
  function StrShortest(v: seq<string>): (shortest: string)
    ensures shortest == "" || shortest in v
  {
    if v == [] then ""
    else ShortestStep(StrShortest(v[..|v| - 1]), v[|v| - 1])
  }

  /** Without empty elements, `StrShortest` is the first element of least
      length, at the position `i` returned. */
  lemma {:induction false} StrShortestIsFirstShortest(v: seq<string>) returns (i: nat)
    requires |v| > 0
    requires forall i :: 0 <= i < |v| ==> v[i] != ""
    ensures i < |v| && v[i] == StrShortest(v)
    ensures forall j :: 0 <= j < i ==> |v[j]| > |v[i]|
    ensures forall j :: i <= j < |v| ==> |v[j]| >= |v[i]|
  {
    var n := |v|;
    if n == 1 {
      assert v[..0] == [];
      i := 0;
    } else {
      var init := v[..n - 1];
      var i0 := StrShortestIsFirstShortest(init);
      assert StrShortest(v) == ShortestStep(init[i0], v[n - 1]);
      if |v[n - 1]| < |init[i0]| {
        i := n - 1;
        forall j | 0 <= j < n - 1 ensures |v[j]| > |v[n - 1]| {
          assert v[j] == init[j];
        }
      } else {
        i := i0;
        forall j | i <= j < n ensures |v[j]| >= |v[i]| {
          if j < n - 1 {
            assert v[j] == init[j];
          }
        }
      }
    }
  }

  /** An empty element resets `StrShortest`: what comes before it is forgotten,
      so `StrShortest(["ab", "", "abc"])` is `"abc"`. */
  lemma {:induction false} StrShortestRestartsAfterEmpty(v: seq<string>, k: nat)
    requires k < |v| && v[k] == ""
    ensures StrShortest(v) == StrShortest(v[k + 1..])
    decreases |v|
  {
    var n := |v|;
    if n == k + 1 {
      assert v[..n - 1] == v[..k];
      assert v[k + 1..] == [];
    } else {
      var init := v[..n - 1];
      assert init[k] == "";
      StrShortestRestartsAfterEmpty(init, k);
      assert init[k + 1..] == v[k + 1..][..|v[k + 1..]| - 1];
    }
  }

  lemma StrShortestEmptyResetExample()
    ensures StrShortest(["ab", "", "abc"]) == "abc"
  {
    var v := ["ab", "", "abc"];
    StrShortestRestartsAfterEmpty(v, 1);
    assert v[2..] == ["abc"];
    assert ["abc"][..0] == [];
  }

  // ---------------------------------------------------------------------------
  // Specification functions for the mutators

  /** What `StrAppendUnique` leaves in the slice. */
  function AppendedUnique(s: seq<string>, v: string): seq<string> {
    if v in s then s else s + [v]
  }

  /** What `StrAppendUniques` leaves in the slice: one `AppendedUnique` per value, in order. */
  function AppendedUniques(s: seq<string>, vals: seq<string>): seq<string> {
    if vals == [] then s
    else AppendedUnique(AppendedUniques(s, vals[..|vals| - 1]), vals[|vals| - 1])
  }

  lemma AppendUniquesScenario()
    ensures AppendedUniques([], ["a", "a", "b"]) == ["a", "b"]
  {
    assert ["a", "a", "b"][..2] == ["a", "a"];
    assert ["a", "a"][..1] == ["a"];
    assert ["a"][..0] == [];
  }

  lemma AppendUniqueIdempotent(s: seq<string>, v: string)
    ensures AppendedUnique(AppendedUnique(s, v), v) == AppendedUnique(s, v)
    ensures v in AppendedUnique(s, v)
  {
  }

  lemma AppendUniquePreservesNoDup(s: seq<string>, v: string)
    requires NoDup(s)
    ensures NoDup(AppendedUnique(s, v))
  {
  }

  /** The old slice is a prefix of the result; each added element comes from
      `vals` and was not in the old slice; every value of `vals` ends up present. */
  lemma {:induction false} AppendUniquesShape(s: seq<string>, vals: seq<string>)
    ensures |AppendedUniques(s, vals)| >= |s|
    ensures AppendedUniques(s, vals)[..|s|] == s
    ensures forall i :: |s| <= i < |AppendedUniques(s, vals)| ==>
              AppendedUniques(s, vals)[i] in vals && AppendedUniques(s, vals)[i] !in s
    ensures forall j :: 0 <= j < |vals| ==> vals[j] in AppendedUniques(s, vals)
    decreases |vals|
  {
    if vals != [] {
      var init := vals[..|vals| - 1];
      var x := vals[|vals| - 1];
      AppendUniquesShape(s, init);
      var r0 := AppendedUniques(s, init);
      var r := AppendedUniques(s, vals);
      assert r == AppendedUnique(r0, x);
      assert r[..|s|] == r0[..|s|];
      forall j | 0 <= j < |vals| ensures vals[j] in r {
        if j < |vals| - 1 {
          assert vals[j] == init[j];
        }
      }
      forall i | |s| <= i < |r| ensures r[i] in vals && r[i] !in s {
        if i < |r0| {
          assert r[i] == r0[i];
          assert r0[i] in init;
        }
      }
    }
  }

  /** Appending uniques keeps a duplicate-free slice duplicate-free. */
  lemma {:induction false} AppendUniquesPreservesNoDup(s: seq<string>, vals: seq<string>)
    requires NoDup(s)
    ensures NoDup(AppendedUniques(s, vals))
    decreases |vals|
  {
    if vals != [] {
      AppendUniquesPreservesNoDup(s, vals[..|vals| - 1]);
      AppendUniquePreservesNoDup(AppendedUniques(s, vals[..|vals| - 1]), vals[|vals| - 1]);
    }
  }

  /** The added elements appear in the order of their first occurrence in `vals`. */
  lemma {:induction false} AppendUniquesOrder(s: seq<string>, vals: seq<string>)
    ensures forall i, j :: |s| <= i < j < |AppendedUniques(s, vals)| ==>
              StrAt(vals, AppendedUniques(s, vals)[i]) < StrAt(vals, AppendedUniques(s, vals)[j])
    decreases |vals|
  {
    if vals != [] {
      var init := vals[..|vals| - 1];
      var x := vals[|vals| - 1];
      AppendUniquesOrder(s, init);
      AppendUniquesShape(s, init);
      var r0 := AppendedUniques(s, init);
      var r := AppendedUniques(s, vals);
      assert vals == init + [x];
      forall y | y in init ensures StrAt(vals, y) == StrAt(init, y) {
        StrAtExtend(init, x, y);
      }
      if x !in r0 {
        assert x !in init by {
          forall j | 0 <= j < |init| ensures init[j] != x {
            assert init[j] in r0;
          }
        }
        StrAtExtend(init, x, x);
        forall i, j | |s| <= i < j < |r| ensures StrAt(vals, r[i]) < StrAt(vals, r[j]) {
          assert r[i] == r0[i];
          assert r0[i] in init;
          if j < |r0| {
            assert r[j] == r0[j];
            assert r0[j] in init;
          }
        }
      }
    }
  }

  lemma StrAtExtend(vals: seq<string>, x: string, y: string)
    ensures y in vals ==> StrAt(vals + [x], y) == StrAt(vals, y)
    ensures y !in vals && y == x ==> StrAt(vals + [x], y) == |vals|
  {
    var t := vals + [x];
    if y in vals {
      var k := StrAt(vals, y);
      assert t[k] == y;
      assert forall j :: 0 <= j < k ==> t[j] == vals[j];
    } else if y == x {
      assert t[|vals|] == y;
      assert forall j :: 0 <= j < |vals| ==> t[j] == vals[j];
    }
  }

  /** What `StrRemove(ref, v, false)` leaves: the first occurrence of `v` deleted. */
  function RemovedFirst(s: seq<string>, v: string): seq<string> {
    var i := StrAt(s, v);
    if i < 0 then s else s[..i] + s[i + 1..]
  }

  /** What `StrRemove(ref, v, true)` leaves. After each deletion the loop index
      still advances, so the element shifted into the vacated slot is never examined. */
  function RemovedSkipping(s: seq<string>, v: string): seq<string> {
    if s == [] then []
    else if s[0] != v then [s[0]] + RemovedSkipping(s[1..], v)
    else if |s| == 1 then []
    else [s[1]] + RemovedSkipping(s[2..], v)
  }

  function Removed(s: seq<string>, v: string, all: bool): seq<string> {
    if all then RemovedSkipping(s, v) else RemovedFirst(s, v)
  }

  /** Removing the first occurrence deletes exactly one `v`, keeps everything else
      in order, and changes nothing when `v` is absent. */
  lemma RemovedFirstSpec(s: seq<string>, v: string)
    ensures v !in s ==> RemovedFirst(s, v) == s
    ensures v in s ==> exists i :: 0 <= i < |s| && s[i] == v && v !in s[..i] &&
                                 RemovedFirst(s, v) == s[..i] + s[i + 1..]
    ensures v in s ==> multiset(RemovedFirst(s, v)) == multiset(s) - multiset{v}
  {
    if v in s {
      var i := StrAt(s, v);
      assert s == s[..i] + [s[i]] + s[i + 1..];
      assert v !in s[..i];
    }
  }

  /** Every element other than `v` survives the skipping removal, in order. */
  lemma {:induction false} RemovedSkippingKeepsOthers(s: seq<string>, v: string)
    ensures Without(RemovedSkipping(s, v), [v]) == Without(s, [v])
    ensures multiset(RemovedSkipping(s, v)) <= multiset(s)
    decreases |s|
  {
    if s == [] {
    } else if s[0] != v {
      RemovedSkippingKeepsOthers(s[1..], v);
      WithoutAppend([s[0]], RemovedSkipping(s[1..], v), [v]);
      assert s == [s[0]] + s[1..];
    } else if |s| == 1 {
      assert s[1..] == [];
    } else {
      RemovedSkippingKeepsOthers(s[2..], v);
      WithoutAppend([s[1]], RemovedSkipping(s[2..], v), [v]);
      assert s == [s[0]] + ([s[1]] + s[2..]);
      assert s[1..] == [s[1]] + s[2..];
      WithoutAppend([s[1]], s[2..], [v]);
    }
  }

  /** No two copies of `v` stand next to each other in `s`. */
  predicate NoAdjacent(s: seq<string>, v: string) {
    forall i :: 0 <= i < |s| - 1 ==> !(s[i] == v && s[i + 1] == v)
  }

  /** The skipping removal removes every `v` when no two copies are adjacent. */
  lemma {:induction false} RemovedSkippingRemovesAllWhenApart(s: seq<string>, v: string)
    requires NoAdjacent(s, v)
    ensures v !in RemovedSkipping(s, v)
    decreases |s|
  {
    if s == [] {
    } else if s[0] != v {
      assert NoAdjacent(s[1..], v) by {
        forall i | 0 <= i < |s[1..]| - 1 ensures !(s[1..][i] == v && s[1..][i + 1] == v) {
          assert s[1..][i] == s[i + 1] && s[1..][i + 1] == s[i + 2];
        }
      }
      RemovedSkippingRemovesAllWhenApart(s[1..], v);
    } else if |s| > 1 {
      assert s[1] != v;
      assert NoAdjacent(s[2..], v) by {
        forall i | 0 <= i < |s[2..]| - 1 ensures !(s[2..][i] == v && s[2..][i + 1] == v) {
          assert s[2..][i] == s[i + 2] && s[2..][i + 1] == s[i + 3];
        }
      }
      RemovedSkippingRemovesAllWhenApart(s[2..], v);
    }
  }

  /** Two adjacent copies are not both removed. */
  lemma RemovedSkippingAdjacentExample()
    ensures RemovedSkipping(["a", "a", "b"], "a") == ["a", "b"]
  {
    assert ["a", "a", "b"][2..] == ["b"];
    assert ["b"][1..] == [];
  }

  lemma RemoveScenario()
    ensures RemovedSkipping(["a", "b", "a", "c"], "a") == ["b", "c"]
    ensures RemovedFirst(["a", "b", "a", "c"], "a") == ["b", "a", "c"]
  {
    var s := ["a", "b", "a", "c"];
    assert s[2..] == ["a", "c"];
    assert ["a", "c"][2..] == [];
    assert StrAt(s, "a") == 0;
    assert s[1..] == ["b", "a", "c"];
  }

  /** What `StrSetLen` leaves: `n` elements, the old ones first, `""` after them. */
  function Resized(s: seq<string>, n: nat): (r: seq<string>)
    ensures |r| == n
  {
    seq(n, i requires 0 <= i < n => if i < |s| then s[i] else "")
  }

  /** Growing keeps every element and pads with `""`; shrinking keeps exactly the first `n`. */
  lemma ResizedSpec(s: seq<string>, n: nat)
    ensures n <= |s| ==> Resized(s, n) == s[..n]
    ensures n >= |s| ==> Resized(s, n)[..|s|] == s
    ensures forall i :: |s| <= i < n ==> Resized(s, n)[i] == ""
  {
  }

  /** Growing and then setting the length back is the identity; shrinking and
      growing back keeps the first `n` elements and blanks the rest. */
  lemma ResizedRoundTrip(s: seq<string>, n: nat)
    ensures n >= |s| ==> Resized(Resized(s, n), |s|) == s
    ensures n < |s| ==> Resized(Resized(s, n), |s|) == s[..n] + seq(|s| - n, _ => "")
  {
  }

  lemma ResizedScenario()
    ensures Resized(["p", "q"], 4) == ["p", "q", "", ""]
  {
  }

  /** The slice read backwards. */
  function Reversed(s: seq<string>): seq<string> {
    if s == [] then [] else [s[|s| - 1]] + Reversed(s[..|s| - 1])
  }

  lemma {:induction false} ReversedAt(s: seq<string>, k: nat)
    requires k < |s|
    ensures |Reversed(s)| == |s|
    ensures Reversed(s)[k] == s[|s| - 1 - k]
  {
    if k > 0 {
      ReversedAt(s[..|s| - 1], k - 1);
    } else if |s| > 1 {
      ReversedAt(s[..|s| - 1], 0);
    } else {
      assert s[..0] == [];
    }
  }

  lemma ReversedLength(s: seq<string>)
    ensures |Reversed(s)| == |s|
  {
    if s != [] {
      ReversedAt(s, 0);
    }
  }

  /** Reversing twice gives the slice back. */
  lemma ReversedTwice(s: seq<string>)
    ensures Reversed(Reversed(s)) == s
  {
    ReversedLength(s);
    ReversedLength(Reversed(s));
    forall k | 0 <= k < |s| ensures Reversed(Reversed(s))[k] == s[k] {
      ReversedAt(Reversed(s), k);
      ReversedAt(s, |s| - 1 - k);
    }
  }

  /** The result of applying `fns` one after the other. */
  function ApplyAll(fns: seq<string -> string>, x: string): string {
    if fns == [] then x else fns[|fns| - 1](ApplyAll(fns[..|fns| - 1], x))
  }

  lemma ApplyAllNext(fns: seq<string -> string>, k: nat, x: string)
    requires k < |fns|
    ensures ApplyAll(fns[..k + 1], x) == fns[k](ApplyAll(fns[..k], x))
  {
    assert fns[..k + 1][..k] == fns[..k];
  }

  /** Two `StrEach` calls in a row are one call with both lists of functions. */
  lemma {:induction false} ApplyAllConcat(f: seq<string -> string>, g: seq<string -> string>, x: string)
    ensures ApplyAll(f + g, x) == ApplyAll(g, ApplyAll(f, x))
    decreases |g|
  {
    if g == [] {
      assert f + g == f;
    } else {
      assert (f + g)[..|f + g| - 1] == f + g[..|g| - 1];
      ApplyAllConcat(f, g[..|g| - 1], x);
    }
  }

  // ---------------------------------------------------------------------------
  // Operations that work on a slice value or its elements

  /** `StrReverse`: swaps elements in place from both ends. */
  method StrReverse(v: array<string>)
    modifies v
    ensures v[..] == Reversed(old(v[..]))
  {
    var n := v.Length;
    var l, r := 0, n - 1;
    while l < r
      invariant 0 <= l <= n && r == n - 1 - l
      invariant l <= r + 2
      invariant forall k :: 0 <= k < l ==> v[k] == old(v[n - 1 - k]) && v[n - 1 - k] == old(v[k])
      invariant forall k :: l <= k <= r ==> v[k] == old(v[k])
    {
      v[l], v[r] := v[r], v[l];
      l, r := l + 1, r - 1;
    }
    ghost var was := old(v[..]);
    ReversedLength(was);
    forall k | 0 <= k < n ensures v[..][k] == Reversed(was)[k] {
      ReversedAt(was, k);
    }
  }

  /** `StrEach`: applies each function of `apply`, in order, to every element in place. */
  method StrEach(sl: array<string>, apply: seq<string -> string>)
    modifies sl
    ensures forall i :: 0 <= i < sl.Length ==> sl[i] == ApplyAll(apply, old(sl[i]))
  {
    for k := 0 to |apply|
      invariant forall i :: 0 <= i < sl.Length ==> sl[i] == ApplyAll(apply[..k], old(sl[i]))
    {
      var fn := apply[k];
      for i := 0 to sl.Length
        invariant forall j :: 0 <= j < i ==> sl[j] == fn(ApplyAll(apply[..k], old(sl[j])))
        invariant forall j :: i <= j < sl.Length ==> sl[j] == ApplyAll(apply[..k], old(sl[j]))
      {
        sl[i] := fn(sl[i]);
      }
      forall j | 0 <= j < sl.Length ensures sl[j] == ApplyAll(apply[..k + 1], old(sl[j])) {
        ApplyAllNext(apply, k, old(sl[j]));
      }
    }
    assert apply[..|apply|] == apply;
  }

  /** Moving the last element into slot `pos` and dropping the last slot removes one copy of `s[pos]`. */
  lemma SwapRemoveMultiset(s: seq<string>, pos: nat)
    requires pos < |s|
    ensures multiset(s[pos := s[|s| - 1]][..|s| - 1]) == multiset(s) - multiset{s[pos]}
  {
    var n := |s|;
    var t := s[pos := s[n - 1]];
    if pos == n - 1 {
      assert t == s;
      assert s == s[..n - 1] + [s[n - 1]];
    } else {
      var mid := s[pos + 1..n - 1];
      assert s == s[..pos] + [s[pos]] + mid + [s[n - 1]];
      assert t[..n - 1] == s[..pos] + [s[n - 1]] + mid;
      SwapMultiset(s[..pos], s[pos], mid, s[n - 1]);
    }
  }

  lemma SwapMultiset(a: seq<string>, x: string, m: seq<string>, y: string)
    ensures multiset(a + [y] + m) == multiset(a + [x] + m + [y]) - multiset{x}
  {
    assert multiset(a + [x] + m + [y]) == multiset(a) + multiset{x} + multiset(m) + multiset{y};
    assert multiset(a + [y] + m) == multiset(a) + multiset{y} + multiset(m);
  }

  /** Closing the gap left by a `w` changes nothing once every `w` is filtered out. */
  lemma DeleteKeepsWithout(s: seq<string>, pos: nat, w: string)
    requires pos < |s| && s[pos] == w
    ensures Without(s[..pos] + s[pos + 1..], [w]) == Without(s, [w])
  {
    SplitAt(s, pos);
    WithoutDropsFiltered(s[..pos], s[pos + 1..], w);
  }

  lemma SplitAt(s: seq<string>, pos: nat)
    requires pos < |s|
    ensures s == s[..pos] + ([s[pos]] + s[pos + 1..])
  {
    assert s[pos..] == [s[pos]] + s[pos + 1..];
    assert s == s[..pos] + s[pos..];
  }

  lemma WithoutDropsFiltered(a: seq<string>, b: seq<string>, w: string)
    ensures Without(a + ([w] + b), [w]) == Without(a + b, [w])
  {
    WithoutAppend(a, [w] + b, [w]);
    WithoutAppend([w], b, [w]);
    assert Without([w], [w]) == [];
    WithoutAppend(a, b, [w]);
  }

  /** Moving the last element into the slot of a `w` changes nothing, up to order,
      once every `w` is filtered out. */
  lemma SwapRemoveKeepsWithout(s: seq<string>, pos: nat, w: string)
    requires pos < |s| && s[pos] == w
    ensures multiset(Without(s[pos := s[|s| - 1]][..|s| - 1], [w])) == multiset(Without(s, [w]))
  {
    SwapRemoveMultiset(s, pos);
    WithoutRespectsMultiset(s[pos := s[|s| - 1]][..|s| - 1], s, [w]);
  }

  /** `r` is `s` without the values of `ws`: exactly, when order is kept,
      and up to order otherwise. */
  predicate FilteredAs(r: seq<string>, s: seq<string>, ws: seq<string>, keepOrder: bool) {
    if keepOrder then r == Without(s, ws) else multiset(r) == multiset(Without(s, ws))
  }

  /** The inner loop of `StrWithout`: while `w` is found, remove it at the
      position `StrAt` reports, by closing the gap or by moving the last element in. */
  method RemoveEvery(slice: seq<string>, keepOrder: bool, w: string) returns (r: seq<string>)
    ensures w !in r
    ensures FilteredAs(r, slice, [w], keepOrder)
  {
    r := slice;
    var pos := StrAt(r, w);
    while pos >= 0
      invariant pos == StrAt(r, w)
      invariant FilteredAs(Without(r, [w]), slice, [w], keepOrder)
      decreases |r|
    {
      RemoveAtKeepsWithout(r, pos, w, slice, keepOrder);
      r := RemovedAt(r, pos, keepOrder);
      pos := StrAt(r, w);
    }
    WithoutNone(r, [w]);
  }

  /** One removal step of `StrWithout` at `pos`: close the gap, or move the last element in. */
  function RemovedAt(s: seq<string>, pos: nat, keepOrder: bool): (r: seq<string>)
    requires pos < |s|
    ensures |r| == |s| - 1
  {
    if keepOrder then s[..pos] + s[pos + 1..] else s[pos := s[|s| - 1]][..|s| - 1]
  }

  /** A removal step at a copy of `w` keeps the `w`-filtered slice, up to order in the swap mode. */
  lemma RemoveAtKeepsWithout(s: seq<string>, pos: nat, w: string, slice: seq<string>, keepOrder: bool)
    requires pos < |s| && s[pos] == w
    requires FilteredAs(Without(s, [w]), slice, [w], keepOrder)
    ensures FilteredAs(Without(RemovedAt(s, pos, keepOrder), [w]), slice, [w], keepOrder)
  {
    if keepOrder {
      DeleteKeepsWithout(s, pos, w);
    } else {
      SwapRemoveKeepsWithout(s, pos, w);
    }
  }

  /** Removing every copy of the next value of `ws` extends the filtered prefix by one. */
  lemma WithoutNextValue(slice: seq<string>, ws: seq<string>, k: nat, prev: seq<string>, r: seq<string>, keepOrder: bool)
    requires k < |ws|
    requires FilteredAs(prev, slice, ws[..k], keepOrder) && FilteredAs(r, prev, [ws[k]], keepOrder)
    ensures FilteredAs(r, slice, ws[..k + 1], keepOrder)
  {
    assert ws[..k + 1] == ws[..k] + [ws[k]];
    WithoutWithout(slice, ws[..k], [ws[k]]);
    if !keepOrder {
      WithoutRespectsMultiset(prev, Without(slice, ws[..k]), [ws[k]]);
    }
  }

  /** Whatever has the elements of `Without(s, ws)` holds no value of `ws`. */
  lemma ExcludedByWithout(r: seq<string>, s: seq<string>, ws: seq<string>, keepOrder: bool)
    requires FilteredAs(r, s, ws, keepOrder)
    ensures forall i :: 0 <= i < |ws| ==> ws[i] !in r
    ensures keepOrder ==> r == Without(s, ws)
    ensures !keepOrder ==> multiset(r) == multiset(Without(s, ws))
  {
    forall i | 0 <= i < |ws| ensures ws[i] !in r {
      WithoutCount(s, ws, ws[i]);
      assert multiset(r)[ws[i]] == 0;
    }
  }

  /** The swap mode's result holds the same values as the order-keeping
      mode's, so each is equivalent to the other in the sense of `StrEquivalent`. */
  lemma WithoutModesEquivalent(slice: seq<string>, ws: seq<string>, swapped: seq<string>)
    requires FilteredAs(swapped, slice, ws, false)
    ensures StrEquivalent(swapped, Without(slice, ws)) && StrEquivalent(Without(slice, ws), swapped)
  {
    StrEquivalentOfPermutation(swapped, Without(slice, ws));
    StrEquivalentOfPermutation(Without(slice, ws), swapped);
  }

  /** `StrWithout`: removes every occurrence of every value of `withoutVals`.
      With `keepOrder` each removal closes the gap; otherwise the last element
      is moved into the gap. */
  method StrWithout(slice: seq<string>, keepOrder: bool, withoutVals: seq<string>) returns (r: seq<string>)
    ensures withoutVals == [] ==> r == slice
    ensures forall i :: 0 <= i < |withoutVals| ==> withoutVals[i] !in r
    ensures keepOrder ==> r == Without(slice, withoutVals)
    ensures !keepOrder ==> multiset(r) == multiset(Without(slice, withoutVals))
  {
    r := slice;
    WithoutNone(slice, []);
    if |withoutVals| > 0 {
      assert withoutVals[..0] == [];
      for k := 0 to |withoutVals|
        invariant FilteredAs(r, slice, withoutVals[..k], keepOrder)
      {
        ghost var prev := r;
        r := RemoveEvery(r, keepOrder, withoutVals[k]);
        WithoutNextValue(slice, withoutVals, k, prev, r, keepOrder);
      }
      assert withoutVals[..|withoutVals|] == withoutVals;
    }
    ExcludedByWithout(r, slice, withoutVals, keepOrder);
  }

  // ---------------------------------------------------------------------------
  // The caller's slice variable, updated through `*[]string`

  /** Capacity of the array `append` allocates when a full slice of capacity
      `c` must hold `needed` elements, by the growth rule of Go 1.18 and later:
      double a small slice, grow a large one by about a quarter at a time, and
      take `needed` itself when doubling is not enough. The runtime's rounding
      up to an allocation size class is not included. */
  function GrownCapacity(c: nat, needed: nat): (r: nat)
    ensures r >= needed
  {
    if needed > 2 * c then needed
    else if c < 256 then 2 * c
    else GrowByQuarters(c, needed)
  }

  /** The runtime's loop for large slices: add a quarter of the capacity plus
      192 until `needed` fits. */
  function GrowByQuarters(c: nat, needed: nat): (r: nat)
    ensures r >= needed && r > c
    decreases needed - c
  {
    var grown := c + (c + 3 * 256) / 4;
    if grown >= needed then grown else GrowByQuarters(grown, needed)
  }

  /** A `[]string` variable: its elements and the capacity of its backing array. */
  class SliceRef {
    var elems: seq<string>
    var capacity: nat

    predicate Valid()
      reads this
    {
      |elems| <= capacity
    }

    constructor (elems: seq<string>, capacity: nat)
      requires |elems| <= capacity
      ensures Valid()
      ensures this.elems == elems && this.capacity == capacity
    {
      this.elems := elems;
      this.capacity := capacity;
    }

    /** `StrAppendUnique`: appends `v` unless an element already equals it. */
    method StrAppendUnique(v: string)
      requires Valid()
      modifies this
      ensures Valid()
      ensures elems == AppendedUnique(old(elems), v)
      ensures capacity == old(capacity) || (v !in old(elems) && |old(elems)| == old(capacity))
      ensures capacity >= old(capacity)
    {
      var i := 0;
      while i < |elems|
        invariant 0 <= i <= |elems|
        invariant forall j :: 0 <= j < i ==> elems[j] != v
      {
        if elems[i] == v {
          return;
        }
        i := i + 1;
      }
      if |elems| == capacity {
        capacity := GrownCapacity(capacity, |elems| + 1);
      }
      elems := elems + [v];
    }

    /** `StrAppendUniques`: `StrAppendUnique` for each value of `vals`, in order. */
    method StrAppendUniques(vals: seq<string>)
      requires Valid()
      modifies this
      ensures Valid()
      ensures elems == AppendedUniques(old(elems), vals)
      ensures capacity >= old(capacity)
      ensures |elems| <= old(capacity) ==> capacity == old(capacity)
    {
      var k := 0;
      while k < |vals|
        invariant 0 <= k <= |vals|
        invariant Valid()
        invariant elems == AppendedUniques(old(elems), vals[..k])
        invariant capacity >= old(capacity)
        invariant capacity == old(capacity) || |elems| > old(capacity)
      {
        assert vals[..k + 1][..k] == vals[..k];
        StrAppendUnique(vals[k]);
        k := k + 1;
      }
      assert vals[..k] == vals;
    }

    /** `StrRemove`: deletes the first `v`, or with `all` every `v` the index loop visits.
        The backing array is reused, so the capacity stays. */
    method StrRemove(v: string, all: bool)
      requires Valid()
      modifies this
      ensures Valid()
      ensures elems == Removed(old(elems), v, all)
      ensures capacity == old(capacity)
    {
      ghost var orig := elems;
      var i := 0;
      while i < |elems|
        invariant 0 <= i <= |elems| + 1
        invariant |elems| <= |orig|
        invariant capacity == old(capacity)
        invariant !all ==> elems == orig && i <= |orig| && v !in orig[..i]
        invariant all && i <= |elems| ==> RemovedSkipping(orig, v) == elems[..i] + RemovedSkipping(elems[i..], v)
        invariant all && i > |elems| ==> RemovedSkipping(orig, v) == elems
        decreases |elems| + 1 - i
      {
        if elems[i] == v {
          ghost var before := elems;
          elems := elems[..i] + elems[i + 1..];
          if !all {
            RemovedFirstAt(orig, v, i);
            break;
          }
          SkippingStepDelete(before, i, v);
        } else {
          SkippingStepKeep(elems, i, v);
        }
        i := i + 1;
      }
      if !all {
        assert orig[..|orig|] == orig;
      }
      if all && i <= |elems| {
        assert elems[i..] == [];
        assert elems[..i] == elems;
      }
    }

    /** `StrSetCap`: a copy with the same elements and the given capacity
        (`make` panics below the length). */
    method StrSetCap(c: int)
      requires |elems| <= c
      modifies this
      ensures Valid()
      ensures elems == old(elems) && capacity == c
    {
      elems, capacity := Resized(elems, |elems|), c;
      assert elems == old(elems);
    }

    /** `StrSetLen`: a fresh slice of `length` elements, as many old ones as fit
        copied in and `""` after them; `make` with one size gives it that capacity. */
    method StrSetLen(length: nat)
      modifies this
      ensures Valid()
      ensures elems == Resized(old(elems), length)
      ensures capacity == length
    {
      elems, capacity := Resized(elems, length), length;
    }

    /** `StrEnsureCap`: `StrSetCap` only when the capacity is below `c`. */
    method StrEnsureCap(c: int)
      requires Valid()
      modifies this
      ensures Valid()
      ensures elems == old(elems)
      ensures capacity == if old(capacity) < c then c else old(capacity)
    {
      if capacity < c {
        StrSetCap(c);
      }
    }

    /** `StrEnsureLen`: `StrSetLen` only when the length is below `length`. */
    method StrEnsureLen(length: int)
      requires Valid()
      modifies this
      ensures Valid()
      ensures |old(elems)| < length ==> elems == Resized(old(elems), length) && capacity == length
      ensures |old(elems)| >= length ==> elems == old(elems) && capacity == old(capacity)
    {
      if |elems| < length {
        StrSetLen(length);
      }
    }
  }

  /** A step of `StrRemove(ref, v, true)` past an element other than `v`. */
  lemma SkippingStepKeep(e: seq<string>, i: nat, v: string)
    requires i < |e| && e[i] != v
    ensures e[..i] + RemovedSkipping(e[i..], v) == e[..i + 1] + RemovedSkipping(e[i + 1..], v)
  {
    assert e[i..] == [e[i]] + e[i + 1..];
    assert e[..i + 1] == e[..i] + [e[i]];
  }

  /** A step of `StrRemove(ref, v, true)` that deletes the `v` at `i` and
      moves past the element shifted into its slot. */
  lemma SkippingStepDelete(e: seq<string>, i: nat, v: string)
    requires i < |e| && e[i] == v
    ensures var d := e[..i] + e[i + 1..];
      if i + 1 <= |d| then e[..i] + RemovedSkipping(e[i..], v) == d[..i + 1] + RemovedSkipping(d[i + 1..], v)
      else e[..i] + RemovedSkipping(e[i..], v) == d
  {
    var d := e[..i] + e[i + 1..];
    assert e[i..] == [e[i]] + e[i + 1..];
    if i + 1 < |e| {
      assert e[i..][1] == e[i + 1];
      assert e[i..][2..] == d[i + 1..];
      assert d[..i + 1] == e[..i] + [e[i + 1]];
    } else {
      assert d == e[..i];
    }
  }

  lemma RemovedFirstAt(s: seq<string>, v: string, i: nat)
    requires i < |s| && s[i] == v && v !in s[..i]
    ensures RemovedFirst(s, v) == s[..i] + s[i + 1..]
  {
    assert forall j :: 0 <= j < i ==> s[j] in s[..i];
    assert StrAt(s, v) == i;
  }
}
