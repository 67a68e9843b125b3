# String-slice algebra and string helpers, modelled in Dafny

This project models two Go packages of a small utility library.

- `uslice`: a Go `[]string` used as an insertion-ordered, set-like container.
  It covers membership and position search, append-if-absent, two kinds of
  removal, length and capacity reshaping, and in-place transforms.
- `ustr`: short helpers over strings. They cut strings at a needle, search
  for several needles, pad, collapse spaces, strip affixes repeatedly,
  filter lists of strings and pluralize English words.

A Go string is modelled as `string` (`seq<char>`), one `char` per byte. The
Go `strings` functions these helpers call are modelled in `gostrings.dfy`:
`Index`, `LastIndex`, `Contains`, `HasPrefix`, `HasSuffix`, `IndexByte`,
`Repeat`, `Replace` with `-1`, `Split` and `Join`.

- `Index`, `LastIndex` and `IndexByte` are proved to find exactly the first
  or last occurrence.
- `Split` with a non-empty separator is proved to cut at successive first
  occurrences, to leave no separator in a piece, and to give the string back
  under `Join`.
- `Join`, `Repeat` and `Replace` are plain recursive definitions.

Layout:

- `seqs.dfy` (module `Seqs`): shared sequence vocabulary.
  - `Option`, for Go's nil funcs.
  - `NoDup` and `Subsequence`.
  - `Without(s, ws)`, which drops the values of a list.
  - `Filter(s, p)`, which keeps the values passing a predicate.
  - Their lemmas: membership; append and compose laws; multiplicities.
- `gostrings.dfy` (module `GoStrings`): the `strings` functions above.
- `uslice.dfy` (module `USlice`):
  - The read-only scans are functions.
  - `StrReverse` and `StrEach` assign elements of an `array` in place.
  - `StrWithout` works on a slice value and returns the new slice, as the source does.
  - The operations on `*[]string` are methods of class `SliceRef`. Its fields are the elements and the capacity of the backing array.
  - Most state-changing operations are specified by a function of the old state: `StrAppendUnique` by `AppendedUnique`, `StrAppendUniques` by `AppendedUniques`, `StrRemove` by `Removed`, `StrSetLen` and `StrEnsureLen` by `Resized`, `StrReverse` by `Reversed`, `StrEach` by `ApplyAll`. The source's promises are proved about those functions.
  - `StrSetCap` and `StrEnsureCap` keep the elements and set only the capacity.
  - `StrWithout` is specified by `Seqs.Without`: its result is exactly `Without(slice, withoutVals)` with `keepOrder`, and in the swap mode a permutation of it (the same multiset).
- `ustr.dfy` (module `UStr`):
  - Helpers that are one expression or a search loop with early return are functions.
  - Helpers whose loop updates a local variable are methods with loop invariants: `Longest`, `IndexAny`, `First`, `NonEmpties`, `ReduceSpaces`, `StripPrefix`, `StripSuffix`.

Go panics and endless loops become preconditions. Each such precondition
excludes exactly the inputs on which the Go code panics or never terminates:

- `StrSetCap` below the length (`make` panics);
- `BreakAt` out of range;
- `After` and `BreakOn` on two empty strings (the slice `val[1:]` panics);
- `AfterLast` and `BreakOnLast` with an empty needle (`LastIndex` is then `len(val)`);
- `First` with step 0 when `vals` is non-empty and `check` rejects `vals[0]`
  (the loop tests `vals[0]` forever, as its doc comment warns; with step 0
  it still returns at once on an empty `vals` or an accepted `vals[0]`);
- `StripPrefix` and `StripSuffix` with an empty affix (the loop never ends).

The code is followed where it differs from what its names and comments suggest:

- `StrRemove(ref, v, true)` does not remove every occurrence of `v`. After a
  deletion the loop index still advances, so the element shifted into the
  vacated slot is never examined. `RemovedSkipping` models this, and
  `RemovedSkippingAdjacentExample` shows `["a","a","b"]` becoming `["a","b"]`.
- `StrEquivalent` is not permutation equality. It accepts different
  multiplicities and is not symmetric.
- `StrShortest` restarts at an empty element: the element after it replaces
  the empty candidate whatever its length.

## Model

| member | source | states |
|---|---|---|
| USlice.StrAt | uslice/str.gt.go:109-116 | -1 exactly when `val` is absent; otherwise an index holding `val` with no earlier one |
| USlice.StrHas | uslice/str.gt.go:183-185 | true exactly when `val` is an element |
| USlice.StrHasAny | uslice/str.gt.go:188-197 | true exactly when some value of `vals` is an element of `slice` |
| USlice.StrEq | uslice/str.gt.go:41-52 | true exactly when the two slices are equal |
| USlice.StrEquivalent | uslice/str.gt.go:170-180 | true exactly when the lengths agree and every element of `one` occurs in `two` |
| USlice.StrEquivalentOfPermutation | uslice/str.gt.go:169-180 | two permutations of each other are always equivalent |
| USlice.StrEquivalentIgnoresMultiplicity | uslice/str.gt.go:170-180 | `["a","a","b"]` is equivalent to `["a","b","b"]` although their multisets differ |
| USlice.StrEquivalentNotSymmetric | uslice/str.gt.go:170-180 | `["a","a"]` is equivalent to `["a","b"]` but not the other way round |
| USlice.StrEquivalentScenario | uslice/str.gt.go:170-180 | `["x","y"]` is equivalent to `["y","x"]` |
| USlice.StrFiltered | uslice/str.gt.go:19-29 | nil `check` returns the input; otherwise every kept value passes, a value is kept exactly when it is in the input and passes, every passing value keeps all its copies, and the result is an in-order subsequence |
| USlice.StrMap | uslice/str.gt.go:31-39 | same length; each element is `strmap` of the input element, or the input element for a nil `strmap` |
| USlice.StrShortest | uslice/str.gt.go:59-66 | the result is "" or an element of `v` |
| USlice.StrShortestIsFirstShortest | uslice/str.gt.go:59-66 | with no empty elements, the result is the first element of least length: every earlier one is longer, none later is shorter |
| USlice.StrShortestRestartsAfterEmpty | uslice/str.gt.go:59-66 | an empty element resets the scan: the result equals the result on the elements after it |
| USlice.StrShortestEmptyResetExample | uslice/str.gt.go:59-66 | `["ab","","abc"]` gives `"abc"`, although `"ab"` is shorter |
| USlice.SliceRef.StrAppendUnique | uslice/str.gt.go:92-99 | the elements become `AppendedUnique` of the old ones; the capacity changes only when a new value meets a full slice, never shrinks, and stays at least the length |
| USlice.AppendUniqueIdempotent | uslice/str.gt.go:91-99 | appending the same value twice is appending it once, and the value is then present |
| USlice.AppendUniquePreservesNoDup | uslice/str.gt.go:91-99 | a duplicate-free slice stays duplicate-free |
| USlice.SliceRef.StrAppendUniques | uslice/str.gt.go:102-106 | the elements become `AppendedUniques` of the old ones, one append-unique per value in order; the capacity never shrinks, and is unchanged while the elements still fit the old capacity (so when no value is added) |
| USlice.AppendUniquesShape | uslice/str.gt.go:101-106 | the old slice is a prefix of the result; each added element comes from `vals` and was not in the old slice; every value of `vals` is present afterwards |
| USlice.AppendUniquesPreservesNoDup | uslice/str.gt.go:101-106 | a duplicate-free slice stays duplicate-free |
| USlice.AppendUniquesOrder | uslice/str.gt.go:101-106 | the added elements stand in the order of their first occurrence in `vals` |
| USlice.AppendUniquesScenario | uslice/str.gt.go:102-106 | appending `"a","a","b"` to an empty slice gives `["a","b"]` |
| USlice.SliceRef.StrRemove | uslice/str.gt.go:200-210 | the elements become `Removed(old, v, all)`, which is the first-occurrence deletion or the skipping deletion; the capacity is unchanged |
| USlice.RemovedFirstSpec | uslice/str.gt.go:199-210 | without `all`: nothing changes when `v` is absent; otherwise exactly the first `v` is deleted, the rest keeping their order, and one copy leaves the multiset |
| USlice.RemovedSkippingKeepsOthers | uslice/str.gt.go:200-210 | with `all`: every element other than `v` survives in order, and nothing is added |
| USlice.RemovedSkippingRemovesAllWhenApart | uslice/str.gt.go:200-210 | with `all`: every `v` is removed when no two copies are adjacent |
| USlice.RemovedSkippingAdjacentExample | uslice/str.gt.go:201-208 | with `all`: `["a","a","b"]` becomes `["a","b"]`, because the shifted copy is skipped |
| USlice.RemoveScenario | uslice/str.gt.go:200-210 | `["a","b","a","c"]` becomes `["b","c"]` with `all` and `["b","a","c"]` without |
| USlice.SliceRef.StrSetCap | uslice/str.gt.go:213-217 | elements unchanged, capacity set to `c`; requires `c` at least the length, as `make` does |
| USlice.SliceRef.StrSetLen | uslice/str.gt.go:220-224 | the elements become `Resized(old, length)` and the capacity becomes `length` |
| USlice.ResizedSpec | uslice/str.gt.go:219-224 | shrinking keeps exactly the first `n` elements; growing keeps all of them and pads with `""` |
| USlice.ResizedRoundTrip | uslice/str.gt.go:219-224 | growing and setting the length back restores the slice; shrinking and growing back keeps the first `n` elements and blanks the rest |
| USlice.ResizedScenario | uslice/str.gt.go:220-224 | `["p","q"]` resized to 4 is `["p","q","",""]` |
| USlice.SliceRef.StrEnsureCap | uslice/str.gt.go:156-160 | elements unchanged; the capacity becomes `c` when it was below `c` and is unchanged otherwise |
| USlice.SliceRef.StrEnsureLen | uslice/str.gt.go:163-167 | a no-op when the length is at least `length`; otherwise `StrSetLen(length)` |
| USlice.StrReverse | uslice/str.gt.go:82-87 | the array afterwards is `Reversed` of the array before |
| USlice.ReversedAt | uslice/str.gt.go:82-87 | the reversed slice has the same length, and element `k` is old element `n-1-k` |
| USlice.ReversedTwice | uslice/str.gt.go:82-87 | reversing twice is the identity |
| USlice.StrEach | uslice/str.gt.go:146-153 | every element afterwards is the old element passed through all of `apply`, in order |
| USlice.ApplyAllConcat | uslice/str.gt.go:146-153 | two `StrEach` calls are one call with the two lists of functions concatenated |
| USlice.SwapRemoveMultiset | uslice/str.gt.go:235-236 | moving the last element into slot `pos` and dropping the last slot removes exactly one copy of the old `s[pos]` |
| USlice.DeleteKeepsWithout | uslice/str.gt.go:233 | closing the gap left by a `w` does not change the slice once every `w` is filtered out |
| USlice.SwapRemoveKeepsWithout | uslice/str.gt.go:235-236 | after moving the last element into the slot of a `w`, the slice with every `w` filtered out has the same multiset as before |
| USlice.RemoveEvery | uslice/str.gt.go:231-238 | the inner loop leaves no `w`; with `keepOrder` it leaves the slice without `w`, otherwise a permutation of that |
| USlice.StrWithout | uslice/str.gt.go:227-242 | empty `withoutVals` gives the input back; no value of `withoutVals` remains; with `keepOrder` the result is `Without(slice, withoutVals)`, otherwise a permutation of it |
| USlice.WithoutModesEquivalent | uslice/str.gt.go:227-242 | the swap mode's result and the order-keeping mode's result are `StrEquivalent` both ways |
| USlice.RemoveAtKeepsWithout | uslice/str.gt.go:233-236 | one removal step at a `w`, closing the gap or moving the last element in, keeps the `w`-filtered slice, up to order in the swap mode |
| USlice.GrownCapacity | uslice/str.gt.go:98 | the capacity that Go's growth rule gives a full slice holds at least the needed length |
| UStr.Both | ustr/str.go:23-30 | starts with `s1` and ends with `s2`; `join` lies between them exactly when both are non-empty; the length matches |
| UStr.PadRight | ustr/str.go:72-77 | length is the larger of `len(s)` and `ensurelen`; starts with `s`; only spaces follow |
| UStr.Longest | ustr/str.go:79-86 | no value is longer than the result, and a non-zero result is the length of some value |
| UStr.AnyOf | ustr/str.go:88-95 | true exactly when `val` is in `anyof` |
| UStr.IsOneOf | ustr/str.go:366-373 | true exactly when some element of `all` equals `s` |
| UStr.HasAny | ustr/str.go:278-285 | true exactly when `s` contains one of `subs` |
| UStr.HasAnyPrefix | ustr/str.go:293-300 | true exactly when `s` starts with one of `prefixes` |
| UStr.HasAnySuffix | ustr/str.go:303-310 | true exactly when `s` ends with one of `suffixes` |
| UStr.HasOnce | ustr/str.go:313-316 | true exactly when `str2` occurs in `str1` at one offset and no other |
| UStr.IndexAny | ustr/str.go:335-343 | -1 exactly when no separator occurs; otherwise the first-occurrence offset of some separator, and no separator occurs anywhere before it |
| UStr.DistBetween | ustr/str.go:139-149 | -1 when `needle1` is absent; with an empty `needle2`, the number of bytes after the first `needle1`; otherwise the distance from the end of the first `needle1` to the next `needle2`, or -1 when none follows |
| UStr.MapEq | ustr/str.go:60-70 | true exactly when the two maps are equal |
| UStr.After | ustr/str.go:96-104 | when `needle` first occurs at `i`, the result is `val[i+1:]`, one byte past its start whatever its length; when absent, "" or `val` according to `elseempty` |
| UStr.AfterLast | ustr/str.go:105-113 | when `needle` last occurs at `i`, the result is `val[i+1:]`; when absent, "" or `val` according to `elseempty` |
| UStr.Before | ustr/str.go:114-122 | when `needle` first occurs at `i`, the result is `val[:i]`; when absent, "" or `val` according to `elseempty` |
| UStr.BeforeAfterRoundTrip | ustr/str.go:96-122 | for a one-byte needle that occurs, `Before + needle + After` is `val` |
| UStr.AfterSkipsOneByte | ustr/str.go:96-104 | `After("key::value", "::")` is `":value"`, and `BreakOn` gives `("key", ":value")` |
| UStr.BreakAt | ustr/str.go:161-165 | the halves concatenate to `val` and the left one has length `index` |
| UStr.BreakOn | ustr/str.go:167-175 | `("", val)` when `on` is absent; `(val[:i], val[i+1:])` when `on` first occurs at `i` |
| UStr.BreakOnLast | ustr/str.go:177-185 | `("", val)` when `on` is absent; `(val[:i], val[i+1:])` when `on` last occurs at `i` |
| UStr.BreakOnRoundTrip | ustr/str.go:167-175 | for a one-byte separator that occurs, left + separator + right is `val` |
| UStr.BreakOnLastRoundTrip | ustr/str.go:177-185 | for a one-byte separator that occurs, left + separator + right is `val` |
| UStr.Split | ustr/str.go:543-548 | no pieces for an empty `v`; otherwise joining the pieces with `sep` gives `v` back; for a non-empty `sep` no piece holds `sep` and each cut is at the first `sep` of the rest; for an empty `sep`, one piece per byte |
| GoStrings.SplitPieces | ustr/str.go:545-546 | the pieces of `strings.Split` by a non-empty separator hold no separator, and each lies before the first separator of the remaining text |
| GoStrings.JoinSplit | ustr/str.go:543-548 | joining the pieces of `strings.Split` with the same separator gives the string back |
| UStr.SplitOnce | ustr/str.go:550-557 | when `sep` occurs but not as the first byte: a non-empty left part without `sep`, and left + `sep` + right is `v`; otherwise `("", v)` |
| UStr.Until | ustr/str.go:637-643 | a prefix of `s` without `r`, which is all of `s` or stops just before an `r` |
| UStr.First | ustr/str.go:250-259 | either the first value `check` accepts among those visited at offsets `start + k*step`, or "" when it accepts none of them; step 0 is allowed whenever the loop ends |
| UStr.ProbeMonotone | ustr/str.go:253 | the visited offset moves in one direction only, so once it leaves the slice it stays out |
| UStr.FirstNonEmpty | ustr/str.go:262-270 | "" exactly when every value is empty; otherwise the first non-empty value |
| UStr.NonEmpties | ustr/str.go:406-415 | no empty strings and an in-order subsequence of `vals`; without the break flag, exactly `vals` with "" filtered out; with it, the values before the first "" |
| UStr.Pluralize | ustr/str.go:474-482 | always ends in "s" and keeps all of `s` but possibly its last byte; "es" after a final "s"; "ies" instead of a final "y" not after a vowel; "s" otherwise |
| UStr.PluralizeConsonantY | ustr/str.go:478-479 | a final "y" after any byte but a vowel becomes "ies" |
| UStr.PluralizeSibilantExamples | ustr/str.go:469 | bus becomes buses, mess becomes messes |
| UStr.PluralizeYExamples | ustr/str.go:471 | autonomy becomes autonomies, dictionary becomes dictionaries |
| UStr.PluralizeVowelYExample | ustr/str.go:471 | day becomes days |
| UStr.PluralizeOtherExamples | ustr/str.go:473 | gopher becomes gophers, laptop becomes laptops |
| UStr.PrefixWithSep | ustr/str.go:485-490 | ends with `v`; `v` itself for an empty prefix, otherwise starts with `prefix + sep` and is that plus `v` |
| UStr.PrependIf | ustr/str.go:493-498 | starts with `p` and ends with `s`; `s` itself when it already starts with `p`, otherwise `p` longer |
| UStr.PrependIfIdempotent | ustr/str.go:492-498 | applying it to its own result changes nothing |
| UStr.ReduceSpaces | ustr/str.go:501-506 | the result has no two spaces in a row and is `Squeeze(s)`, `s` with every run of spaces collapsed to one |
| UStr.SqueezeHalve | ustr/str.go:503 | one pass replacing double spaces with single ones does not change what the collapse gives |
| UStr.HalveShrinks | ustr/str.go:502-503 | that pass shortens a string holding a double space, so the loop ends |
| UStr.SqueezeNoDoubleSpace | ustr/str.go:500 | the collapse leaves no two spaces in a row |
| UStr.SqueezeFixed | ustr/str.go:500-506 | a string without two spaces in a row is its own collapse |
| UStr.SqueezeIdempotent | ustr/str.go:500-506 | collapsing twice is collapsing once, so `ReduceSpaces` applied to its own result changes nothing |
| UStr.StripPrefix | ustr/str.go:560-565 | the result does not start with `prefix`, and `val` is `prefix` repeated some `k` times followed by the result |
| UStr.StripSuffix | ustr/str.go:568-573 | the result does not end with `suffix`, and `val` is the result followed by `suffix` repeated some `k` times |

## Left out

- Unicode classification and case mapping:
  - `runeLowCaser`/`runeUpCaser.Ensure`, `BeginsUpper`, `FirstRune`, `IsLower`, `IsUpper`, `IsUpperAscii`, `IsAscii`, `LettersOnly`, `SafeIdentifier`.
  - `ToLowerIfUpper`/`ToUpperIfLower`, `HasAnyCase`, `StrAtIgnoreCase` and `StrHasIgnoreCase`.
  - Reason: all of them depend on Go's Unicode tables and case folding.
- `ExtractFirstIdentifier` and `ExtractAllIdentifiers`: they iterate runes at byte offsets with Unicode predicates. In the second, the search offset can move backwards, so it need not terminate.
- `ParseBool`, `ParseFloat`, `ParseFloats`, `ParseInt`, `ParseUint`, `FromInt` and `ToInt`: `strconv` wrappers, some over floating point.
- `Replace`: it iterates a Go map, whose order is random, so its result is not determined.
- `StrConvert`: it depends on dynamic type assertions on `interface{}` values.
- `StrWithFewest`: it depends on `strings.Count` and a fallback callback.
- One-line wrappers of library calls: `Pref`, `Suff`, `Join`, `Idx`, `Trim`, `Has`, `Concat`, `N`, `NotPrefixed`, `Ifs`, `Ifm`.
- The commented-out `Distance`, `ToFloat*`, `ToInt`, `ToString` and `ToStrings`.
- Slice aliasing: `append(slice[:pos], slice[pos+1:]...)` in `StrRemove` and `StrWithout` shifts the tail down in place, and the swap in `StrWithout` writes slot `pos`. These writes land in the caller's backing array below the old length, so any other slice sharing that array sees changed elements; the slot at the old last index keeps its old value. The model keeps only the resulting sequence and, for `SliceRef`, the capacity.
- `USlice.StrWithout`: modelled on slice values, not on the shared backing array. A `withoutVals` that shares `slice`'s array is read after the earlier removals have changed it. With `s = ["a","b","c"]`, `StrWithout(s, true, s[:2]...)` reads `"c"` as its second value and returns `["b"]`. The model treats `withoutVals` as fixed and gives `["c"]`; its contract holds only when the two do not share an array.
- `USlice.StrReverse` and `USlice.StrEach`: the returned value is left out. Go returns the same slice that was updated in place.
- `USlice.SliceRef.StrAppendUnique`: the new capacity of a grown slice is not pinned down. `GrownCapacity` follows the growth rule of Go 1.18 and later; older releases double up to 1024 elements. Go's runtime also rounds that growth up to an allocation size class, which depends on the element size and the memory allocator. The contract states only when the capacity changes and that it stays at least the length.
- `USlice.SliceRef.StrSetLen`: takes a `nat`. Go panics on a negative length.
- Go's `nil` versus empty slices are not distinguished: both are the empty sequence.
- Integer overflow is not modelled. Go's `int` has at least 32 bits (64 on 64-bit targets), and the model's integers are unbounded. This matters for `First`'s `i += step` with a huge `step`, and for `PadRight`'s `ensurelen - len(s)`.
- `UStr.Split`: with an empty `sep`, Go splits `v` into UTF-8 sequences, so a multi-byte character is one piece. The model splits into single bytes, which agrees only for ASCII `v`.
- `UStr.SplitOnce` and `UStr.Until`: `strings.IndexRune` is modelled for an ASCII rune only, as a byte search. Multi-byte UTF-8 runes are not modelled.
- `UStr.First` and `USlice.StrEach`: the funcs are total Dafny functions, so a nil `check` or a nil element of `apply`, on which Go panics, is not modelled.
- The Go `strings` package is modelled, not imported. `Index`, `LastIndex`, `Replace` and `Split` are written as the simple scans their documentation describes, without Go's faster search algorithms.
