/** The functions of Go's `strings` package that the string helpers call,
    modelled on byte strings (one `char` per byte). Each is written as Go
    documents it. The searches carry contracts saying what they find, and
    `Split` has lemmas; `Join`, `Repeat` and `ReplaceAll` are plain
    recursive definitions. */
module GoStrings {

  /** `sub` occurs in `s` at byte offset `i`. */
  predicate OccursAt(s: string, sub: string, i: int) {
    0 <= i && i + |sub| <= |s| && s[i..i + |sub|] == sub
  }

  /** `strings.HasPrefix`. */
  predicate HasPrefix(s: string, prefix: string) {
    |prefix| <= |s| && s[..|prefix|] == prefix
  }

  /** `strings.HasSuffix`. */
  predicate HasSuffix(s: string, suffix: string) {
    |suffix| <= |s| && s[|s| - |suffix|..] == suffix
  }

  /** The first occurrence of `sub` in `s` at offset `i` or later, or -1. */
  function IndexFrom(s: string, sub: string, i: nat): (r: int)
    requires i <= |s|
    ensures r == -1 || (i <= r && OccursAt(s, sub, r))
    ensures forall j :: i <= j && (r == -1 || j < r) ==> !OccursAt(s, sub, j)
    decreases |s| - i
  {
    if i + |sub| > |s| then -1
    else if s[i..i + |sub|] == sub then i
    else if i == |s| then -1
    else IndexFrom(s, sub, i + 1)
  }

  /** `strings.Index`: the offset of the first occurrence of `sub`, or -1
      (an empty `sub` occurs at 0). */
  function Index(s: string, sub: string): (r: int)
    ensures r == -1 || OccursAt(s, sub, r)
    ensures forall j :: 0 <= j && (r == -1 || j < r) ==> !OccursAt(s, sub, j)
  {
    IndexFrom(s, sub, 0)
  }

  /** The last occurrence of `sub` in `s` at offset `i` or earlier, or -1. */
  function LastIndexAtOrBelow(s: string, sub: string, i: int): (r: int)
    requires -1 <= i && i + |sub| <= |s|
    ensures r == -1 || (r <= i && OccursAt(s, sub, r))
    ensures forall j :: r < j <= i ==> !OccursAt(s, sub, j)
    decreases i + 1
  {
    if i < 0 then -1
    else if s[i..i + |sub|] == sub then i
    else LastIndexAtOrBelow(s, sub, i - 1)
  }

  /** `strings.LastIndex`: the offset of the last occurrence of `sub`, or -1
      (an empty `sub` occurs last at `|s|`). */
  function LastIndex(s: string, sub: string): (r: int)
    ensures r == -1 || OccursAt(s, sub, r)
    ensures forall j :: r < j ==> !OccursAt(s, sub, j)
  {
    if |sub| > |s| then -1 else LastIndexAtOrBelow(s, sub, |s| - |sub|)
  }

  /** `i` is the offset of the first occurrence of `sub` in `s`. */
  predicate IsFirstAt(s: string, sub: string, i: int) {
    OccursAt(s, sub, i) && forall j :: 0 <= j < i ==> !OccursAt(s, sub, j)
  }

  /** `i` is the offset of the last occurrence of `sub` in `s`. */
  predicate IsLastAt(s: string, sub: string, i: int) {
    OccursAt(s, sub, i) && forall j :: i < j <= |s| ==> !OccursAt(s, sub, j)
  }

  /** `Index` finds exactly the first occurrence. */
  lemma IndexIsFirst(s: string, sub: string)
    ensures forall i :: IsFirstAt(s, sub, i) <==> i >= 0 && i == Index(s, sub)
  {
    forall i | IsFirstAt(s, sub, i) ensures i == Index(s, sub) {
      var r := Index(s, sub);
      if r != i {
        assert r != -1 && r < i ==> !OccursAt(s, sub, r);
      }
    }
  }

  /** `LastIndex` finds exactly the last occurrence. */
  lemma LastIndexIsLast(s: string, sub: string)
    ensures forall i :: IsLastAt(s, sub, i) <==> i >= 0 && i == LastIndex(s, sub)
  {
    forall i | IsLastAt(s, sub, i) ensures i == LastIndex(s, sub) {
      var r := LastIndex(s, sub);
      if r != i {
        assert r > i ==> !OccursAt(s, sub, r);
      }
    }
  }

  /** An occurrence in a suffix of `s` is an occurrence in `s`, shifted. */
  lemma OccursInSuffix(s: string, k: nat, sub: string, d: int)
    requires k <= |s|
    ensures OccursAt(s[k..], sub, d) <==> d >= 0 && OccursAt(s, sub, k + d)
  {
    if d >= 0 && k + d + |sub| <= |s| {
      assert s[k..][d..d + |sub|] == s[k + d..k + d + |sub|];
    }
  }

  /** `strings.Contains`. */
  predicate Contains(s: string, sub: string) {
    Index(s, sub) >= 0
  }

  lemma ContainsIff(s: string, sub: string)
    ensures Contains(s, sub) <==> exists i :: OccursAt(s, sub, i)
  {
    if Contains(s, sub) {
      assert OccursAt(s, sub, Index(s, sub));
    }
  }

  /** `strings.IndexByte`, which is what `strings.IndexRune` does for an ASCII rune. */
  function IndexByte(s: string, c: char): (r: int)
    ensures -1 <= r < |s|
    ensures r >= 0 ==> s[r] == c
    ensures forall j :: 0 <= j < |s| && (r == -1 || j < r) ==> s[j] != c
  {
    var r := Index(s, [c]);
    assert forall j :: OccursAt(s, [c], j) <==> 0 <= j < |s| && s[j] == c by {
      forall j | 0 <= j < |s| ensures OccursAt(s, [c], j) <==> s[j] == c {
        assert s[j..j + 1] == [s[j]];
      }
    }
    r
  }

  /** `strings.Repeat`. */
  function Repeat(s: string, n: nat): (r: string)
    ensures |r| == n * |s|
  {
    if n == 0 then "" else s + Repeat(s, n - 1)
  }

  /** A repeated one-byte string holds nothing but that byte. */
  lemma {:induction false} RepeatByte(c: char, n: nat)
    ensures forall i :: 0 <= i < |Repeat([c], n)| ==> Repeat([c], n)[i] == c
  {
    if n > 0 {
      RepeatByte(c, n - 1);
    }
  }

  lemma {:induction false} RepeatAppend(s: string, n: nat)
    ensures Repeat(s, n) + s == Repeat(s, n + 1)
  {
    if n > 0 {
      RepeatAppend(s, n - 1);
    }
  }

  /** `strings.Replace(s, pattern, repl, -1)` for a non-empty `pattern`: every
      non-overlapping occurrence, scanning left to right, is replaced. */
  function ReplaceAll(s: string, pattern: string, repl: string): (r: string)
    requires pattern != ""
    decreases |s|
  {
    if s == "" then ""
    else if HasPrefix(s, pattern) then repl + ReplaceAll(s[|pattern|..], pattern, repl)
    else [s[0]] + ReplaceAll(s[1..], pattern, repl)
  }

  /** `strings.Join`. */
  function Join(parts: seq<string>, sep: string): string {
    if |parts| == 0 then ""
    else if |parts| == 1 then parts[0]
    else parts[0] + sep + Join(parts[1..], sep)
  }

  /** What `strings.Split` does with an empty separator on ASCII text: one
      piece per byte. */
  function Explode(s: string): (parts: seq<string>)
    ensures |parts| == |s|
    ensures forall k :: 0 <= k < |parts| ==> parts[k] == [s[k]]
  {
    if s == "" then [] else [[s[0]]] + Explode(s[1..])
  }

  /** `strings.Split`: the pieces between the non-overlapping occurrences of `sep`. */
  function Split(s: string, sep: string): (parts: seq<string>)
    ensures sep != "" ==> |parts| >= 1
    decreases |s|
  {
    if sep == "" then Explode(s)
    else
      var i := Index(s, sep);
      if i < 0 then [s] else [s[..i]] + Split(s[i + |sep|..], sep)
  }

  /** Joining the pieces of a split with the same separator gives back the string. */
  lemma {:induction false} JoinSplit(s: string, sep: string)
    ensures Join(Split(s, sep), sep) == s
    decreases |s|
  {
    if sep == "" {
      JoinExplode(s);
    } else {
      var i := Index(s, sep);
      if i >= 0 {
        var rest := s[i + |sep|..];
        JoinSplit(rest, sep);
        assert Split(s, sep) == [s[..i]] + Split(rest, sep);
        JoinCons(s[..i], Split(rest, sep), sep);
        CutAt(s, i, sep);
      }
    }
  }

  lemma JoinCons(a: string, parts: seq<string>, sep: string)
    requires parts != []
    ensures Join([a] + parts, sep) == a + sep + Join(parts, sep)
  {
    assert ([a] + parts)[1..] == parts;
  }

  /** `s` is what precedes an occurrence of `sub`, `sub`, and what follows it. */
  lemma CutAt(s: string, i: int, sub: string)
    requires OccursAt(s, sub, i)
    ensures s == s[..i] + sub + s[i + |sub|..]
  {
    assert s == s[..i] + s[i..i + |sub|] + s[i + |sub|..];
  }

  /** With a non-empty separator no piece holds the separator, and each cut
      is at the first separator of what remains: that is, the pieces are cut
      left to right at non-overlapping occurrences. */
  lemma {:induction false} SplitPieces(s: string, sep: string)
    requires sep != ""
    ensures forall k :: 0 <= k < |Split(s, sep)| ==> !Contains(Split(s, sep)[k], sep)
    ensures forall k :: 0 <= k < |Split(s, sep)| - 1 ==>
              IsFirstAt(Join(Split(s, sep)[k..], sep), sep, |Split(s, sep)[k]|)
    decreases |s|
  {
    var parts := Split(s, sep);
    var i := Index(s, sep);
    if i >= 0 {
      var rest := s[i + |sep|..];
      SplitPieces(rest, sep);
      assert parts[1..] == Split(rest, sep);
      PrefixBeforeFirst(s, sep, i);
      JoinSplit(s, sep);
      IndexIsFirst(s, sep);
      forall k | 1 <= k < |parts| - 1
        ensures IsFirstAt(Join(parts[k..], sep), sep, |parts[k]|)
      {
        assert parts[k..] == Split(rest, sep)[k - 1..];
      }
    }
  }

  /** Nothing before the first occurrence of `sub` holds `sub`. */
  lemma PrefixBeforeFirst(s: string, sub: string, i: nat)
    requires sub != "" && i <= |s| && forall j :: 0 <= j < i ==> !OccursAt(s, sub, j)
    ensures !Contains(s[..i], sub)
  {
    ContainsIff(s[..i], sub);
    forall j | OccursAt(s[..i], sub, j) ensures false {
      assert s[..i][j..j + |sub|] == s[j..j + |sub|];
      assert OccursAt(s, sub, j);
    }
  }

  lemma {:induction false} JoinExplode(s: string)
    ensures Join(Explode(s), "") == s
  {
    if s != "" {
      JoinExplode(s[1..]);
      var parts := Explode(s);
      assert parts[1..] == Explode(s[1..]);
      if |s| == 1 {
        assert s == [s[0]];
      } else {
        assert s == [s[0]] + s[1..];
      }
    }
  }
}
