/** The string helpers of package `ustr`, on byte strings. Searching,
    cutting and combining helpers are functions; the helpers that loop over
    a local variable are methods proved against a function or a property. */
module UStr {
  import opened Seqs
  import opened GoStrings

  // ---------------------------------------------------------------- combining

  /** `Both`: `s1 + join + s2` when both parts are non-empty, otherwise the
      non-empty one (or ""). */
  function Both(s1: string, join: string, s2: string): (r: string)
    ensures HasPrefix(r, s1) && HasSuffix(r, s2)
    ensures |r| == |s1| + |s2| + (if s1 != "" && s2 != "" then |join| else 0)
    ensures s1 != "" && s2 != "" ==> r[|s1|..|s1| + |join|] == join
  {
    if s1 != "" && s2 != "" then s1 + join + s2
    else if s1 != "" then s1
    else s2
  }

  /** `PadRight`: `s` followed by as many spaces as bring it to `ensurelen`. */
  function PadRight(s: string, ensurelen: int): (r: string)
    ensures |r| == if ensurelen > |s| then ensurelen else |s|
    ensures r[..|s|] == s
    ensures forall i :: |s| <= i < |r| ==> r[i] == ' '
  {
    var numspaces := ensurelen - |s|;
    if numspaces > 0 then
      RepeatByte(' ', numspaces);
      s + Repeat(" ", numspaces)
    else s
  }

  /** `Longest`: the greatest length among `vals` (0 for no values). */
  method Longest(vals: seq<string>) returns (maxlen: nat)
    ensures forall i :: 0 <= i < |vals| ==> |vals[i]| <= maxlen
    ensures maxlen == 0 || exists i :: 0 <= i < |vals| && |vals[i]| == maxlen
  {
    maxlen := 0;
    for k := 0 to |vals|
      invariant forall i :: 0 <= i < k ==> |vals[i]| <= maxlen
      invariant maxlen == 0 || exists i :: 0 <= i < k && |vals[i]| == maxlen
    {
      if |vals[k]| > maxlen {
        maxlen := |vals[k]|;
      }
    }
  }

  // ------------------------------------------------------- membership, search

  /** `AnyOf`: whether `val` is one of `anyof`. */
  function AnyOf(val: string, anyof: seq<string>): (r: bool)
    ensures r <==> val in anyof
  {
    if anyof == [] then false
    else if anyof[0] == val then true
    else AnyOf(val, anyof[1..])
  }

  /** `IsOneOf` runs the same loop as `AnyOf`. */
  function IsOneOf(s: string, all: seq<string>): (r: bool)
    ensures r <==> exists i :: 0 <= i < |all| && all[i] == s
  {
    AnyOf(s, all)
  }

  /** `HasAny`: whether `s` contains one of `subs`. */
  function HasAny(s: string, subs: seq<string>): (r: bool)
    ensures r <==> exists i :: 0 <= i < |subs| && Contains(s, subs[i])
  {
    if subs == [] then false
    else if Contains(s, subs[0]) then true
    else
      var r := HasAny(s, subs[1..]);
      assert forall i :: 1 <= i < |subs| ==> subs[i] == subs[1..][i - 1];
      r
  }

  /** `HasAnyPrefix`: whether `s` starts with one of `prefixes`. */
  function HasAnyPrefix(s: string, prefixes: seq<string>): (r: bool)
    ensures r <==> exists i :: 0 <= i < |prefixes| && HasPrefix(s, prefixes[i])
  {
    if prefixes == [] then false
    else if HasPrefix(s, prefixes[0]) then true
    else
      var r := HasAnyPrefix(s, prefixes[1..]);
      assert forall i :: 1 <= i < |prefixes| ==> prefixes[i] == prefixes[1..][i - 1];
      r
  }

  /** `HasAnySuffix`: whether `s` ends with one of `suffixes`. */
  function HasAnySuffix(s: string, suffixes: seq<string>): (r: bool)
    ensures r <==> exists i :: 0 <= i < |suffixes| && HasSuffix(s, suffixes[i])
  {
    if suffixes == [] then false
    else if HasSuffix(s, suffixes[0]) then true
    else
      var r := HasAnySuffix(s, suffixes[1..]);
      assert forall i :: 1 <= i < |suffixes| ==> suffixes[i] == suffixes[1..][i - 1];
      r
  }

  /** `HasOnce`: whether `str2` occurs in `str1` at exactly one offset,
      decided by comparing its first and last occurrence. */
  function HasOnce(str1: string, str2: string): (r: bool)
    ensures r <==> exists i :: OccursAt(str1, str2, i) && forall j :: OccursAt(str1, str2, j) ==> j == i
  {
    var first, last := Index(str1, str2), LastIndex(str1, str2);
    assert first >= 0 <==> last >= 0;
    assert first >= 0 ==> first <= last;
    first >= 0 && first == last
  }

  /** `IndexAny`: the smallest of the first-occurrence offsets of `seps` in
      `s`, or -1 when none of them occurs. */
  method IndexAny(s: string, seps: seq<string>) returns (pos: int)
    ensures pos == -1 <==> forall k :: 0 <= k < |seps| ==> !Contains(s, seps[k])
    ensures pos != -1 ==> exists k :: 0 <= k < |seps| && Index(s, seps[k]) == pos
    ensures forall k :: 0 <= k < |seps| && Contains(s, seps[k]) ==> pos <= Index(s, seps[k])
    ensures forall k, j :: 0 <= k < |seps| && OccursAt(s, seps[k], j) ==> pos <= j
  {
    pos := -1;
    for n := 0 to |seps|
      invariant pos == -1 <==> forall k :: 0 <= k < n ==> !Contains(s, seps[k])
      invariant pos != -1 ==> exists k :: 0 <= k < n && Index(s, seps[k]) == pos
      invariant forall k :: 0 <= k < n && Contains(s, seps[k]) ==> pos <= Index(s, seps[k])
    {
      var index := Index(s, seps[n]);
      if pos < 0 || (index >= 0 && index < pos) {
        pos := index;
      }
    }
    forall k, j | 0 <= k < |seps| && OccursAt(s, seps[k], j) ensures pos <= j {
      assert Index(s, seps[k]) <= j;
    }
  }

  /** `DistBetween`: how many bytes lie between the end of the first
      `needle1` and the next `needle2` after it; with an empty `needle2`,
      how many bytes follow the first `needle1`; -1 when either is absent. */
  function DistBetween(val: string, needle1: string, needle2: string): (r: int)
    ensures !Contains(val, needle1) ==> r == -1
    ensures Contains(val, needle1) && needle2 == "" ==>
      r == |val| - (Index(val, needle1) + |needle1|)
    ensures Contains(val, needle1) && needle2 != "" ==>
      var end := Index(val, needle1) + |needle1|;
      if r == -1 then forall j :: end <= j ==> !OccursAt(val, needle2, j)
      else 0 <= r && OccursAt(val, needle2, end + r) &&
           forall j :: end <= j < end + r ==> !OccursAt(val, needle2, j)
  {
    var i1 := Index(val, needle1);
    if i1 >= 0 then
      var end := i1 + |needle1|;
      if |needle2| == 0 then |val| - end
      else
        var i2 := Index(val[end..], needle2);
        assert forall d :: OccursAt(val[end..], needle2, d) <==> d >= 0 && OccursAt(val, needle2, end + d) by {
          forall d ensures OccursAt(val[end..], needle2, d) <==> d >= 0 && OccursAt(val, needle2, end + d) {
            OccursInSuffix(val, end, needle2, d);
          }
        }
        assert forall j :: end <= j ==> (OccursAt(val, needle2, j) <==> OccursAt(val[end..], needle2, j - end));
        if i2 >= 0 then i2 else -1
    else -1
  }

  /** `MapEq`: whether two string maps hold the same pairs, decided by
      comparing sizes and then looking every pair of `m1` up in `m2`. */
  function MapEq(m1: map<string, string>, m2: map<string, string>): (r: bool)
    ensures r <==> m1 == m2
  {
    if |m1| != |m2| then false
    else
      var r := forall k :: k in m1 ==> k in m2 && m2[k] == m1[k];
      if r then
        SubsetOfSameSize(m1.Keys, m2.Keys);
        assert m1.Keys == m2.Keys;
        r
      else r
  }

  lemma {:induction false} SubsetOfSameSize<K>(a: set<K>, b: set<K>)
    requires a <= b && |a| == |b|
    ensures a == b
  {
    if a != {} {
      var x :| x in a;
      SubsetOfSameSize(a - {x}, b - {x});
    }
  }

  // ------------------------------------------------------ splitting, cutting

  /** `After`: what follows the first byte of the first `needle`, which is
      one byte past where `needle` starts however long it is. Go panics on an
      empty `val` with an empty `needle`. */
  function After(val: string, needle: string, elseempty: bool): (r: string)
    requires val != "" || needle != ""
    ensures forall i :: IsFirstAt(val, needle, i) ==> i < |val| && r == val[i + 1..]
    ensures !Contains(val, needle) ==> r == (if elseempty then "" else val)
  {
    var i := Index(val, needle);
    if i >= 0 then
      IndexIsFirst(val, needle);
      FirstBeforeEnd(val, needle);
      val[i + 1..]
    else if elseempty then ""
    else val
  }

  /** `AfterLast`: what follows the first byte of the last `needle`. Go
      panics on an empty `needle`, which occurs last at `|val|`. */
  function AfterLast(val: string, needle: string, elseempty: bool): (r: string)
    requires needle != ""
    ensures forall i :: IsLastAt(val, needle, i) ==> r == val[i + 1..]
    ensures !Contains(val, needle) ==> r == (if elseempty then "" else val)
  {
    LastIndexIsLast(val, needle);
    ContainsIff(val, needle);
    var i := LastIndex(val, needle);
    if i >= 0 then val[i + 1..]
    else if elseempty then ""
    else val
  }

  /** `Before`: what precedes the first `needle`. */
  function Before(val: string, needle: string, elseempty: bool): (r: string)
    ensures forall i :: IsFirstAt(val, needle, i) ==> r == val[..i]
    ensures !Contains(val, needle) ==> r == (if elseempty then "" else val)
  {
    IndexIsFirst(val, needle);
    var i := Index(val, needle);
    if i >= 0 then val[..i]
    else if elseempty then ""
    else val
  }

  /** `BreakAt`: `val` cut at `index`, which Go requires to be in range. */
  function BreakAt(val: string, index: int): (r: (string, string))
    requires 0 <= index <= |val|
    ensures r.0 + r.1 == val && |r.0| == index
  {
    (val[..index], val[index..])
  }

  /** `BreakOn`: `val` cut around the first `on`, the right part starting one
      byte after where `on` starts; `("", val)` when `on` is absent. */
  function BreakOn(val: string, on: string): (r: (string, string))
    requires val != "" || on != ""
    ensures !Contains(val, on) ==> r == ("", val)
    ensures forall i :: IsFirstAt(val, on, i) ==> i < |val| && r == (val[..i], val[i + 1..])
  {
    var idx := Index(val, on);
    if idx < 0 then ("", val)
    else
      IndexIsFirst(val, on);
      FirstBeforeEnd(val, on);
      (val[..idx], val[idx + 1..])
  }

  /** The first occurrence of a needle starts before the end, unless both
      the needle and the string are empty. */
  lemma FirstBeforeEnd(val: string, needle: string)
    requires val != "" || needle != ""
    ensures Index(val, needle) < |val|
  {
    if needle == "" {
      assert OccursAt(val, needle, 0);
    }
  }

  /** `BreakOnLast`: `val` cut around the last `on`; `("", val)` when absent. */
  function BreakOnLast(val: string, on: string): (r: (string, string))
    requires on != ""
    ensures !Contains(val, on) ==> r == ("", val)
    ensures forall i :: IsLastAt(val, on, i) ==> r == (val[..i], val[i + 1..])
  {
    LastIndexIsLast(val, on);
    ContainsIff(val, on);
    var idx := LastIndex(val, on);
    if idx < 0 then ("", val) else (val[..idx], val[idx + 1..])
  }

  /** With a one-byte needle, `Before`, the needle and `After` put `val` back together. */
  lemma BeforeAfterRoundTrip(val: string, needle: string, elseempty: bool)
    requires |needle| == 1 && Contains(val, needle)
    ensures Before(val, needle, elseempty) + needle + After(val, needle, elseempty) == val
  {
    IndexIsFirst(val, needle);
    CutAround(val, Index(val, needle));
  }

  /** Cutting `val` around the byte at `i` and putting the pieces back. */
  lemma CutAround(val: string, i: int)
    requires 0 <= i < |val|
    ensures val[..i] + val[i..i + 1] + val[i + 1..] == val
  {
  }

  /** With a one-byte separator, both halves of `BreakOn` and the separator
      put `val` back together. */
  lemma BreakOnRoundTrip(val: string, on: string)
    requires |on| == 1 && Contains(val, on)
    ensures BreakOn(val, on).0 + on + BreakOn(val, on).1 == val
  {
    IndexIsFirst(val, on);
    CutAround(val, Index(val, on));
  }

  /** The same for `BreakOnLast`. */
  lemma BreakOnLastRoundTrip(val: string, on: string)
    requires |on| == 1 && Contains(val, on)
    ensures BreakOnLast(val, on).0 + on + BreakOnLast(val, on).1 == val
  {
    LastIndexIsLast(val, on);
    ContainsIff(val, on);
    CutAround(val, LastIndex(val, on));
  }

  /** A longer needle is not skipped: only its first byte is. */
  lemma AfterSkipsOneByte()
    ensures After("key::value", "::", false) == ":value"
    ensures BreakOn("key::value", "::") == ("key", ":value")
  {
    var val := "key::value";
    assert val[3..5] == "::";
    assert forall j :: 0 <= j < 3 ==> !OccursAt(val, "::", j) by {
      forall j | 0 <= j < 3 ensures !OccursAt(val, "::", j) {
        assert val[j..j + 2][0] == val[j] != ':';
      }
    }
    assert IsFirstAt(val, "::", 3);
    IndexIsFirst(val, "::");
    assert val[..3] == "key" && val[4..] == ":value";
  }

  /** `Split`: no pieces for an empty `v`, otherwise `strings.Split`. */
  function Split(v: string, sep: string): (sl: seq<string>)
    ensures v == "" ==> sl == []
    ensures v != "" ==> Join(sl, sep) == v
    ensures v != "" && sep != "" ==> |sl| >= 1
    ensures sep != "" ==> forall k :: 0 <= k < |sl| ==> !Contains(sl[k], sep)
    ensures sep != "" ==> forall k :: 0 <= k < |sl| - 1 ==> IsFirstAt(Join(sl[k..], sep), sep, |sl[k]|)
    ensures v != "" && sep == "" ==> |sl| == |v| && forall k :: 0 <= k < |sl| ==> sl[k] == [v[k]]
  {
    if |v| > 0 then
      JoinSplit(v, sep);
      if sep != "" then
        SplitPieces(v, sep);
        GoStrings.Split(v, sep)
      else GoStrings.Split(v, sep)
    else []
  }

  /** `SplitOnce`: `v` cut around the first `sep` when that is not its first
      byte; `("", v)` when `sep` is absent or begins `v`. */
  function SplitOnce(v: string, sep: char): (r: (string, string))
    ensures sep in v && v[0] != sep ==>
      r.0 != "" && sep !in r.0 && r.0 + [sep] + r.1 == v
    ensures !(sep in v && v[0] != sep) ==> r == ("", v)
  {
    var i := IndexByte(v, sep);
    if i > 0 then
      assert v == v[..i] + [v[i]] + v[i + 1..];
      (v[..i], v[i + 1..])
    else ("", v)
  }

  /** `Until`: `s` up to the first `r`, or all of `s`. */
  function Until(s: string, r: char): (u: string)
    ensures HasPrefix(s, u)
    ensures r !in u
    ensures u == s || s[|u|] == r
  {
    var i := IndexByte(s, r);
    if i < 0 then s else s[..i]
  }

  // ---------------------------------------------------------------- filtering

  /** The offset `First` tests at its `k`-th step over `l` values. */
  function Probe(l: int, step: int, k: nat): int {
    (if step < 0 then l - 1 else 0) + k * step
  }

  lemma ProbeNext(l: int, step: int, k: nat)
    ensures Probe(l, step, k + 1) == Probe(l, step, k) + step
  {
    assert (k + 1) * step == k * step + step;
  }

  /** Once the probe has left the slice it stays out of it. */
  lemma ProbeMonotone(l: int, step: int, k: nat, m: nat)
    requires k <= m
    ensures step > 0 ==> Probe(l, step, k) <= Probe(l, step, m)
    ensures step < 0 ==> Probe(l, step, m) <= Probe(l, step, k)
  {
    var d := m - k;
    assert m * step == k * step + d * step;
    if step > 0 {
      assert d * step >= 0;
    } else if step < 0 {
      assert d * step <= 0;
    }
  }

  /** `First`: the first value `check` accepts, visiting every `step`-th
      value from the front (from the back for a negative `step`); "" when it
      accepts none. A zero `step` tests the first value over and over, which
      ends only when there is none or `check` accepts it. */
  method First(check: string -> bool, step: int, vals: seq<string>) returns (r: string)
    requires step != 0 || |vals| == 0 || check(vals[0])
    ensures (exists k: nat :: 0 <= Probe(|vals|, step, k) < |vals| && r == vals[Probe(|vals|, step, k)] &&
               check(r) &&
               forall j: nat :: j < k && 0 <= Probe(|vals|, step, j) < |vals| ==> !check(vals[Probe(|vals|, step, j)]))
         || (r == "" &&
               forall k: nat :: 0 <= Probe(|vals|, step, k) < |vals| ==> !check(vals[Probe(|vals|, step, k)]))
  {
    var l := |vals|;
    var i := if step < 0 then l - 1 else 0;
    ghost var k: nat := 0;
    while if step < 0 then i >= 0 else i < l
      invariant i == Probe(l, step, k)
      invariant step > 0 ==> i >= 0
      invariant step < 0 ==> i < l
      invariant step == 0 ==> i == 0
      invariant forall j: nat :: j < k && 0 <= Probe(l, step, j) < l ==> !check(vals[Probe(l, step, j)])
      decreases if step > 0 then l - i else i + 1
    {
      if check(vals[i]) {
        return vals[i];
      }
      ProbeNext(l, step, k);
      i := i + step;
      k := k + 1;
    }
    forall m: nat | 0 <= Probe(l, step, m) < l ensures !check(vals[Probe(l, step, m)]) {
      if m >= k {
        ProbeMonotone(l, step, k, m);
      }
    }
    return "";
  }

  /** `FirstNonEmpty`: the first non-empty value, or "" when there is none. */
  function FirstNonEmpty(vals: seq<string>): (val: string)
    ensures val == "" <==> forall i :: 0 <= i < |vals| ==> vals[i] == ""
    ensures val != "" ==> exists i :: 0 <= i < |vals| && vals[i] == val && forall j :: 0 <= j < i ==> vals[j] == ""
  {
    if vals == [] then ""
    else if |vals[0]| > 0 then vals[0]
    else
      var val := FirstNonEmpty(vals[1..]);
      assert forall i :: 1 <= i < |vals| ==> vals[i] == vals[1..][i - 1];
      if val != "" then
        var i :| 0 <= i < |vals[1..]| && vals[1..][i] == val && forall j :: 0 <= j < i ==> vals[1..][j] == "";
        assert vals[i + 1] == val;
        val
      else val
  }

  /** `NonEmpties`: the non-empty values, in order; with `breakAtFirstEmpty`
      only those before the first empty one. */
  method NonEmpties(breakAtFirstEmpty: bool, vals: seq<string>) returns (slice: seq<string>)
    ensures "" !in slice
    ensures Subsequence(slice, vals)
    ensures !breakAtFirstEmpty ==> slice == Without(vals, [""])
    ensures breakAtFirstEmpty ==>
      exists k :: 0 <= k <= |vals| && slice == vals[..k] && "" !in vals[..k] && (k == |vals| || vals[k] == "")
  {
    slice := [];
    var n := 0;
    while n < |vals|
      invariant 0 <= n <= |vals|
      invariant !breakAtFirstEmpty ==> slice == Without(vals[..n], [""])
      invariant breakAtFirstEmpty ==> slice == vals[..n] && "" !in vals[..n]
    {
      var s := vals[n];
      if |s| > 0 {
        WithoutAppend(vals[..n], [s], [""]);
        assert vals[..n + 1] == vals[..n] + [s];
        slice := slice + [s];
      } else if breakAtFirstEmpty {
        break;
      } else {
        WithoutAppend(vals[..n], [s], [""]);
        assert vals[..n + 1] == vals[..n] + [s];
      }
      n := n + 1;
    }
    assert vals[..|vals|] == vals;
    if breakAtFirstEmpty {
      PrefixIsSubsequence(vals, n);
    } else {
      WithoutMembers(vals, [""], "");
      WithoutIsSubsequence(vals, [""]);
    }
  }

  // --------------------------------------------------------------- transforms

  /** The two-byte endings after which `Pluralize` keeps a final "y". */
  const VowelY: seq<string> := ["ay", "ey", "oy", "uy", "iy"]

  /** `Pluralize`: "es" after a final "s"; "ies" in place of a final "y" not
      preceded by a vowel; "s" otherwise. */
  function Pluralize(s: string): (r: string)
    ensures HasSuffix(r, "s") && HasPrefix(r, s[..if |s| > 0 then |s| - 1 else 0])
    ensures HasSuffix(s, "s") ==> r == s + "es"
    ensures !HasSuffix(s, "s") && |s| > 1 && s[|s| - 1] == 'y' && s[|s| - 2..] !in VowelY ==>
      r == s[..|s| - 1] + "ies"
    ensures !HasSuffix(s, "s") && !(|s| > 1 && s[|s| - 1] == 'y' && s[|s| - 2..] !in VowelY) ==>
      r == s + "s"
  {
    if HasSuffix(s, "s") then s + "es"
    else if |s| > 1 && HasSuffix(s, "y") && !IsOneOf(s[|s| - 2..], VowelY) then
      s[..|s| - 1] + "ies"
    else s + "s"
  }

  /** The doc comment's examples of a final "s". */
  lemma PluralizeSibilantExamples()
    ensures Pluralize("bus") == "buses" && Pluralize("mess") == "messes"
  {
    assert "bus"[2..] == "s" && "mess"[3..] == "s";
  }

  /** A final "y" after any byte but a vowel becomes "ies". */
  lemma PluralizeConsonantY(stem: string, c: char)
    requires c !in "aeiou"
    ensures Pluralize(stem + [c, 'y']) == stem + [c] + "ies"
  {
    var s := stem + [c, 'y'];
    assert s[|s| - 2..] == [c, 'y'];
    assert s[..|s| - 1] == stem + [c];
  }

  /** The doc comment's examples of a final "y". */
  lemma PluralizeYExamples()
    ensures Pluralize("autonomy") == "autonomies" && Pluralize("dictionary") == "dictionaries"
  {
    assert "autonomy" == "autono" + ['m', 'y'];
    PluralizeConsonantY("autono", 'm');
    assert "dictionary" == "dictiona" + ['r', 'y'];
    PluralizeConsonantY("dictiona", 'r');
  }

  /** A final "y" after a vowel only gets an "s". */
  lemma PluralizeVowelYExample()
    ensures Pluralize("day") == "days"
  {
    assert "day"[2..] == "y" && "day"[1..] == "ay";
  }

  /** The doc comment's examples of any other word. */
  lemma PluralizeOtherExamples()
    ensures Pluralize("gopher") == "gophers" && Pluralize("laptop") == "laptops"
  {
    assert "gopher"[5..] == "r" && "laptop"[5..] == "p";
  }

  /** `PrefixWithSep`: `prefix + sep + v` unless `prefix` is empty. */
  function PrefixWithSep(prefix: string, sep: string, v: string): (r: string)
    ensures HasSuffix(r, v)
    ensures prefix == "" ==> r == v
    ensures prefix != "" ==> HasPrefix(r, prefix + sep) && |r| == |prefix| + |sep| + |v|
  {
    if |prefix| > 0 then prefix + sep + v else v
  }

  /** `PrependIf`: `s` starting with `p`, prepending `p` only when missing. */
  function PrependIf(s: string, p: string): (r: string)
    ensures HasPrefix(r, p)
    ensures HasSuffix(r, s)
    ensures HasPrefix(s, p) ==> r == s
    ensures !HasPrefix(s, p) ==> |r| == |p| + |s|
  {
    if HasPrefix(s, p) then s else p + s
  }

  lemma PrependIfIdempotent(s: string, p: string)
    ensures PrependIf(PrependIf(s, p), p) == PrependIf(s, p)
  {
  }

  /** `s` with every run of spaces collapsed into one space. */
  function Squeeze(s: string): string {
    if |s| >= 2 && s[0] == ' ' && s[1] == ' ' then Squeeze(s[1..])
    else if s == "" then ""
    else [s[0]] + Squeeze(s[1..])
  }

  /** Two spaces in a row occur somewhere in `s`. */
  predicate HasDoubleSpace(s: string) {
    exists i :: 0 <= i < |s| - 1 && s[i] == ' ' && s[i + 1] == ' '
  }

  lemma ContainsDoubleSpace(s: string)
    ensures Contains(s, "  ") <==> HasDoubleSpace(s)
  {
    if Contains(s, "  ") {
      var i := Index(s, "  ");
      assert s[i..i + 2][0] == s[i] && s[i..i + 2][1] == s[i + 1];
    }
    if HasDoubleSpace(s) {
      var i :| 0 <= i < |s| - 1 && s[i] == ' ' && s[i + 1] == ' ';
      assert s[i..i + 2] == "  ";
      assert OccursAt(s, "  ", i);
      ContainsIff(s, "  ");
    }
  }

  /** Putting one byte in front of `x` and squeezing. */
  lemma SqueezeCons(c: char, x: string)
    ensures Squeeze([c] + x) ==
      if c == ' ' && x != "" && x[0] == ' ' then Squeeze(x) else [c] + Squeeze(x)
  {
    assert ([c] + x)[1..] == x;
  }

  lemma {:induction false} SqueezeHead(s: string)
    requires s != ""
    ensures Squeeze(s) != "" && Squeeze(s)[0] == s[0]
    decreases |s|
  {
    if |s| >= 2 && s[0] == ' ' && s[1] == ' ' {
      SqueezeHead(s[1..]);
    }
  }

  lemma {:induction false} SqueezeNoDoubleSpace(s: string)
    ensures !HasDoubleSpace(Squeeze(s))
    decreases |s|
  {
    if |s| >= 2 && s[0] == ' ' && s[1] == ' ' {
      SqueezeNoDoubleSpace(s[1..]);
    } else if s != "" {
      var rest := Squeeze(s[1..]);
      SqueezeNoDoubleSpace(s[1..]);
      if s[1..] != "" {
        SqueezeHead(s[1..]);
      }
      var r := [s[0]] + rest;
      forall i | 0 <= i < |r| - 1 ensures !(r[i] == ' ' && r[i + 1] == ' ') {
        if i > 0 {
          assert r[i] == rest[i - 1] && r[i + 1] == rest[i];
        }
      }
    }
  }

  lemma {:induction false} SqueezeFixed(s: string)
    requires !HasDoubleSpace(s)
    ensures Squeeze(s) == s
    decreases |s|
  {
    if s != "" {
      assert !HasDoubleSpace(s[1..]) by {
        forall i | 0 <= i < |s[1..]| - 1 ensures !(s[1..][i] == ' ' && s[1..][i + 1] == ' ') {
          assert s[1..][i] == s[i + 1] && s[1..][i + 1] == s[i + 2];
        }
      }
      SqueezeFixed(s[1..]);
      assert !(|s| >= 2 && s[0] == ' ' && s[1] == ' ');
      assert s == [s[0]] + s[1..];
    }
  }

  lemma SqueezeIdempotent(s: string)
    ensures Squeeze(Squeeze(s)) == Squeeze(s)
  {
    SqueezeNoDoubleSpace(s);
    SqueezeFixed(Squeeze(s));
  }

  /** One replacement pass starts with a space exactly when its input does. */
  lemma HalveHead(s: string)
    ensures (ReplaceAll(s, "  ", " ") != "" && ReplaceAll(s, "  ", " ")[0] == ' ') <==> (s != "" && s[0] == ' ')
  {
  }

  /** One replacement pass does not change what `Squeeze` makes of a string. */
  lemma {:induction false} SqueezeHalve(s: string)
    ensures Squeeze(ReplaceAll(s, "  ", " ")) == Squeeze(s)
    decreases |s|
  {
    if s != "" {
      if HasPrefix(s, "  ") {
        var t := s[2..];
        SqueezeHalve(t);
        HalveHead(t);
        assert ReplaceAll(s, "  ", " ") == [' '] + ReplaceAll(t, "  ", " ");
        SqueezeCons(' ', ReplaceAll(t, "  ", " "));
        assert s[1..] == [' '] + t;
        SqueezeCons(' ', t);
      } else {
        var t := s[1..];
        SqueezeHalve(t);
        HalveHead(t);
        assert ReplaceAll(s, "  ", " ") == [s[0]] + ReplaceAll(t, "  ", " ");
        SqueezeCons(s[0], ReplaceAll(t, "  ", " "));
        assert s == [s[0]] + t;
        SqueezeCons(s[0], t);
      }
    }
  }

  /** A replacement pass shortens a string that holds a double space. */
  lemma {:induction false} HalveShrinks(s: string)
    ensures |ReplaceAll(s, "  ", " ")| <= |s|
    ensures HasDoubleSpace(s) ==> |ReplaceAll(s, "  ", " ")| < |s|
    decreases |s|
  {
    if s != "" {
      if HasPrefix(s, "  ") {
        HalveShrinks(s[2..]);
      } else {
        HalveShrinks(s[1..]);
        if HasDoubleSpace(s) {
          var i :| 0 <= i < |s| - 1 && s[i] == ' ' && s[i + 1] == ' ';
          assert i != 0;
          assert s[1..][i - 1] == ' ' && s[1..][i] == ' ';
        }
      }
    }
  }

  /** `ReduceSpaces`: halves double spaces until none is left, which
      collapses every run of spaces into one. */
  method ReduceSpaces(s: string) returns (r: string)
    ensures !Contains(r, "  ")
    ensures r == Squeeze(s)
  {
    r := s;
    while Index(r, "  ") >= 0
      invariant Squeeze(r) == Squeeze(s)
      decreases |r|
    {
      ContainsDoubleSpace(r);
      HalveShrinks(r);
      SqueezeHalve(r);
      r := ReplaceAll(r, "  ", " ");
    }
    ContainsDoubleSpace(r);
    SqueezeFixed(r);
  }

  /** `StripPrefix`: `val` with `prefix` removed from its front as often as
      it occurs there. An empty `prefix` would never be used up. */
  method StripPrefix(val: string, prefix: string) returns (r: string)
    requires prefix != ""
    ensures !HasPrefix(r, prefix)
    ensures exists k: nat :: val == Repeat(prefix, k) + r
  {
    r := val;
    ghost var k: nat := 0;
    while HasPrefix(r, prefix)
      invariant val == Repeat(prefix, k) + r
      decreases |r|
    {
      RepeatAppend(prefix, k);
      assert r == prefix + r[|prefix|..];
      r := r[|prefix|..];
      k := k + 1;
    }
  }

  /** `StripSuffix`: `val` with `suffix` removed from its end as often as it
      occurs there. An empty `suffix` would never be used up. */
  method StripSuffix(val: string, suffix: string) returns (r: string)
    requires suffix != ""
    ensures !HasSuffix(r, suffix)
    ensures exists k: nat :: val == r + Repeat(suffix, k)
  {
    r := val;
    ghost var k: nat := 0;
    while HasSuffix(r, suffix)
      invariant val == r + Repeat(suffix, k)
      decreases |r|
    {
      assert r == r[..|r| - |suffix|] + suffix;
      r := r[..|r| - |suffix|];
      k := k + 1;
    }
  }
}
