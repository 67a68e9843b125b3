/** Generic sequence vocabulary shared by the slice and the string models:
    an optional value, duplicate-freedom, in-order subsequences and the two
    kinds of filtering the source performs (by a list of values, by a
    predicate). */
module Seqs {

  /** A Go value that may be `nil` (a nil func, for instance). */
  datatype Option<T> = None | Some(value: T)

  /** No value occurs twice in `s`. */
  predicate NoDup<T(==)>(s: seq<T>) {
    forall i, j :: 0 <= i < j < |s| ==> s[i] != s[j]
  }

  /** `a` is obtained from `b` by deleting elements, the rest keeping their order. */
  predicate Subsequence<T(==)>(a: seq<T>, b: seq<T>)
    decreases |b|
  {
    if a == [] then true
    else if b == [] then false
    else if a[0] == b[0] then Subsequence(a[1..], b[1..])
    else Subsequence(a, b[1..])
  }

  /** The elements of `s` that are not in `ws`, in their order in `s`. */
  function Without<T(==)>(s: seq<T>, ws: seq<T>): (r: seq<T>)
    ensures |r| <= |s|
  {
    if s == [] then []
    else (if s[0] in ws then [] else [s[0]]) + Without(s[1..], ws)
  }

  lemma {:induction false} WithoutMembers<T>(s: seq<T>, ws: seq<T>, x: T)
    ensures x in Without(s, ws) <==> x in s && x !in ws
  {
    if s != [] {
      WithoutMembers(s[1..], ws, x);
      assert s == [s[0]] + s[1..];
    }
  }

  /** The elements of `s` that satisfy `p`, in their order in `s`. */
  function Filter<T>(s: seq<T>, p: T -> bool): (r: seq<T>)
    ensures forall i :: 0 <= i < |r| ==> p(r[i])
    ensures |r| <= |s|
  {
    if s == [] then []
    else (if p(s[0]) then [s[0]] else []) + Filter(s[1..], p)
  }

  lemma {:induction false} FilterMembers<T>(s: seq<T>, p: T -> bool, x: T)
    ensures x in Filter(s, p) <==> x in s && p(x)
  {
    if s != [] {
      FilterMembers(s[1..], p, x);
      assert s == [s[0]] + s[1..];
    }
  }

  lemma {:induction false} SubsequenceRefl<T>(s: seq<T>)
    ensures Subsequence(s, s)
  {
    if s != [] {
      SubsequenceRefl(s[1..]);
    }
  }

  lemma {:induction false} PrefixIsSubsequence<T>(s: seq<T>, k: nat)
    requires k <= |s|
    ensures Subsequence(s[..k], s)
  {
    if k > 0 {
      PrefixIsSubsequence(s[1..], k - 1);
      assert s[..k][1..] == s[1..][..k - 1];
    }
  }

  lemma {:induction false} WithoutIsSubsequence<T>(s: seq<T>, ws: seq<T>)
    ensures Subsequence(Without(s, ws), s)
  {
    if s != [] {
      WithoutIsSubsequence(s[1..], ws);
      var rest := Without(s[1..], ws);
      if s[0] in ws {
        assert Without(s, ws) == rest;
        if rest != [] {
          WithoutMembers(s[1..], ws, rest[0]);
        }
      } else {
        assert ([s[0]] + rest)[1..] == rest;
      }
    }
  }

  lemma {:induction false} FilterIsSubsequence<T>(s: seq<T>, p: T -> bool)
    ensures Subsequence(Filter(s, p), s)
  {
    if s != [] {
      FilterIsSubsequence(s[1..], p);
      var rest := Filter(s[1..], p);
      if p(s[0]) {
        assert ([s[0]] + rest)[1..] == rest;
      } else {
        assert Filter(s, p) == rest;
        assert rest != [] ==> rest[0] != s[0];
      }
    }
  }

  /** Filtering keeps every copy of a value that passes and none of one that fails. */
  lemma {:induction false} FilterCount<T>(s: seq<T>, p: T -> bool, x: T)
    ensures multiset(Filter(s, p))[x] == if p(x) then multiset(s)[x] else 0
  {
    if s != [] {
      FilterCount(s[1..], p, x);
      assert s == [s[0]] + s[1..];
      var head := if p(s[0]) then [s[0]] else [];
      assert multiset(head + Filter(s[1..], p)) == multiset(head) + multiset(Filter(s[1..], p));
    }
  }

  lemma {:induction false} WithoutAppend<T>(a: seq<T>, b: seq<T>, ws: seq<T>)
    ensures Without(a + b, ws) == Without(a, ws) + Without(b, ws)
  {
    if a == [] {
      assert a + b == b;
    } else {
      assert (a + b)[1..] == a[1..] + b;
      WithoutAppend(a[1..], b, ws);
    }
  }

  /** Filtering twice is filtering once by both lists. */
  lemma {:induction false} WithoutWithout<T>(s: seq<T>, a: seq<T>, b: seq<T>)
    ensures Without(Without(s, a), b) == Without(s, a + b)
  {
    if s != [] {
      WithoutWithout(s[1..], a, b);
      var head := if s[0] in a then [] else [s[0]];
      WithoutAppend(head, Without(s[1..], a), b);
    }
  }

  /** Filtering an element that is not present changes nothing. */
  lemma {:induction false} WithoutNone<T>(s: seq<T>, ws: seq<T>)
    requires forall i :: 0 <= i < |s| ==> s[i] !in ws
    ensures Without(s, ws) == s
  {
    if s != [] {
      WithoutNone(s[1..], ws);
      assert s == [s[0]] + s[1..];
    }
  }

  /** Filtering keeps every multiplicity of a kept value and drops all of a filtered one. */
  lemma {:induction false} WithoutCount<T>(s: seq<T>, ws: seq<T>, x: T)
    ensures multiset(Without(s, ws))[x] == if x in ws then 0 else multiset(s)[x]
  {
    if s != [] {
      WithoutCount(s[1..], ws, x);
      assert s == [s[0]] + s[1..];
      var head := if s[0] in ws then [] else [s[0]];
      assert multiset(head + Without(s[1..], ws)) == multiset(head) + multiset(Without(s[1..], ws));
    }
  }

  lemma SameCountsSameMultiset<T>(a: seq<T>, b: seq<T>)
    requires forall x :: multiset(a)[x] == multiset(b)[x]
    ensures multiset(a) == multiset(b)
  {
  }

  lemma WithoutCountAgree<T>(a: seq<T>, b: seq<T>, ws: seq<T>, x: T)
    requires x !in ws ==> multiset(a)[x] == multiset(b)[x]
    ensures multiset(Without(a, ws))[x] == multiset(Without(b, ws))[x]
  {
    WithoutCount(a, ws, x);
    WithoutCount(b, ws, x);
  }

  /** Two sequences with the same multiplicities outside `ws` filter to the same multiset. */
  lemma WithoutRespectsMultiset<T>(a: seq<T>, b: seq<T>, ws: seq<T>)
    requires forall x :: x !in ws ==> multiset(a)[x] == multiset(b)[x]
    ensures multiset(Without(a, ws)) == multiset(Without(b, ws))
  {
    var wa, wb := Without(a, ws), Without(b, ws);
    forall x ensures multiset(wa)[x] == multiset(wb)[x] {
      WithoutCountAgree(a, b, ws, x);
    }
    SameCountsSameMultiset(wa, wb);
  }
}
