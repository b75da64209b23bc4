/** Helpers shared by the dashboard's data pipelines: the JavaScript built-ins the core
    relies on (Array.prototype.filter and sort, String.prototype.trim, toLowerCase,
    includes, parseFloat, Math.round to two decimals), each stated with its contract. */
module Common {

  datatype Option<+T> = None | Some(value: T) {
    function GetOr(default: T): T {
      match this
      case Some(v) => v
      case None => default
    }
  }

  // ---------------------------------------------------------------------------
  // Array.prototype.filter

  /** `a` is obtained from `b` by deleting elements; the order of the rest is kept. */
  ghost predicate IsSubsequence<T>(a: seq<T>, b: seq<T>)
    decreases |b|
  {
    if a == [] then true
    else if b == [] then false
    else if a[0] == b[0] then IsSubsequence(a[1..], b[1..])
    else IsSubsequence(a, b[1..])
  }

  /** The elements of `s` that satisfy `p`, in their original order. */
  function Filter<T>(s: seq<T>, p: T -> bool): (r: seq<T>)
    ensures |r| <= |s|
  {
    if s == [] then []
    else if p(s[0]) then [s[0]] + Filter(s[1..], p)
    else Filter(s[1..], p)
  }

  /** The filter keeps exactly the elements that satisfy the predicate. */
  lemma {:induction false} FilterMembers<T>(s: seq<T>, p: T -> bool)
    ensures forall x :: x in Filter(s, p) <==> x in s && p(x)
  {
    if s != [] {
      FilterMembers(s[1..], p);
      assert s == [s[0]] + s[1..];
    }
  }

  /** ... each as often as it occurs in the input. */
  lemma {:induction false} FilterCounts<T>(s: seq<T>, p: T -> bool)
    ensures forall x :: multiset(Filter(s, p))[x] == if p(x) then multiset(s)[x] else 0
  {
    if s != [] {
      FilterCounts(s[1..], p);
      assert s == [s[0]] + s[1..];
    }
  }

  /** ... in their original order. */
  lemma {:induction false} FilterSubsequence<T>(s: seq<T>, p: T -> bool)
    ensures IsSubsequence(Filter(s, p), s)
  {
    if s != [] {
      var rest := Filter(s[1..], p);
      FilterSubsequence(s[1..], p);
      if p(s[0]) {
        assert ([s[0]] + rest)[1..] == rest;
      } else {
        SubsequenceCons(rest, s[0], s[1..]);
        assert [s[0]] + s[1..] == s;
      }
    }
  }

  /** Nothing passes a filter that no element satisfies. */
  lemma {:induction false} FilterNone<T>(s: seq<T>, p: T -> bool)
    requires forall x :: x in s ==> !p(x)
    ensures Filter(s, p) == []
  {
    if s != [] {
      assert s[0] in s;
      FilterNone(s[1..], p);
    }
  }

  lemma {:induction false} SubsequenceReflexive<T>(s: seq<T>)
    ensures IsSubsequence(s, s)
  {
    if s != [] {
      SubsequenceReflexive(s[1..]);
    }
  }

  /** A subsequence holds each element at most as often as the whole. */
  lemma {:induction false} SubsequenceMultiset<T>(a: seq<T>, b: seq<T>)
    requires IsSubsequence(a, b)
    ensures multiset(a) <= multiset(b)
    decreases |b|
  {
    if a != [] {
      assert b == [b[0]] + b[1..];
      if a[0] == b[0] {
        assert a == [a[0]] + a[1..];
        SubsequenceMultiset(a[1..], b[1..]);
      } else {
        SubsequenceMultiset(a, b[1..]);
      }
    }
  }

  /** Filtering a concatenation filters each part. */
  lemma {:induction false} FilterConcat<T>(a: seq<T>, b: seq<T>, p: T -> bool)
    ensures Filter(a + b, p) == Filter(a, p) + Filter(b, p)
  {
    if a == [] {
      assert a + b == b;
    } else {
      assert (a + b)[0] == a[0] && (a + b)[1..] == a[1..] + b;
      FilterConcat(a[1..], b, p);
    }
  }

  lemma {:induction false} FilterKeepsAll<T>(s: seq<T>, p: T -> bool)
    requires forall x :: x in s ==> p(x)
    ensures Filter(s, p) == s
  {
    if s != [] {
      FilterKeepsAll(s[1..], p);
    }
  }

  lemma {:induction false} FilterSplitsLength<T>(s: seq<T>, p: T -> bool, q: T -> bool)
    requires forall x :: q(x) == !p(x)
    ensures |Filter(s, p)| + |Filter(s, q)| == |s|
  {
    if s != [] {
      FilterSplitsLength(s[1..], p, q);
    }
  }

  /** Two predicates that agree on every element select the same elements. */
  lemma {:induction false} FilterSamePredicate<T>(s: seq<T>, p: T -> bool, q: T -> bool)
    requires forall x :: x in s ==> p(x) == q(x)
    ensures Filter(s, p) == Filter(s, q)
  {
    if s != [] {
      FilterSamePredicate(s[1..], p, q);
    }
  }

  /** A weaker predicate selects at least as many elements. */
  lemma {:induction false} FilterWeakerLength<T>(s: seq<T>, p: T -> bool, q: T -> bool)
    requires forall x :: x in s && p(x) ==> q(x)
    ensures |Filter(s, p)| <= |Filter(s, q)|
  {
    if s != [] {
      FilterWeakerLength(s[1..], p, q);
    }
  }

  /** A subsequence is never longer, and one of full length is the sequence itself. */
  lemma {:induction false} SubsequenceLength<T>(a: seq<T>, b: seq<T>)
    requires IsSubsequence(a, b)
    ensures |a| <= |b|
    ensures |a| == |b| ==> a == b
    decreases |b|
  {
    if a != [] && b != [] {
      if a[0] == b[0] {
        SubsequenceLength(a[1..], b[1..]);
        if |a| == |b| {
          assert a == [a[0]] + a[1..] && b == [b[0]] + b[1..];
        }
      } else {
        SubsequenceLength(a, b[1..]);
      }
    }
  }

  /** Filtering a subsequence keeps it a subsequence of the filtered whole. */
  lemma {:induction false} FilterMonotone<T>(a: seq<T>, b: seq<T>, p: T -> bool)
    requires IsSubsequence(a, b)
    ensures IsSubsequence(Filter(a, p), Filter(b, p))
    decreases |b|
  {
    if a == [] {
    } else if b == [] {
    } else if a[0] == b[0] {
      FilterMonotone(a[1..], b[1..], p);
      var fa, fb := Filter(a[1..], p), Filter(b[1..], p);
      if p(a[0]) {
        assert Filter(a, p) == [a[0]] + fa && Filter(b, p) == [b[0]] + fb;
        assert ([a[0]] + fa)[1..] == fa && ([b[0]] + fb)[1..] == fb;
      }
    } else {
      FilterMonotone(a, b[1..], p);
      var fb := Filter(b[1..], p);
      if p(b[0]) {
        SubsequenceCons(Filter(a, p), b[0], fb);
      }
    }
  }

  /** Adding an element in front of the larger sequence keeps the relation. */
  lemma {:induction false} SubsequenceCons<T>(a: seq<T>, x: T, b: seq<T>)
    requires IsSubsequence(a, b)
    ensures IsSubsequence(a, [x] + b)
    decreases |b|, 1
  {
    assert ([x] + b)[1..] == b;
    if a != [] && a[0] == x {
      assert b != [];
      if a[0] == b[0] {
        SubsequenceCons(a[1..], b[0], b[1..]);
        assert [b[0]] + b[1..] == b;
      } else {
        SubsequenceDropHead(a, b);
      }
    }
  }

  /** If `a` is a subsequence of `b` then so is the tail of `a`. */
  lemma {:induction false} SubsequenceDropHead<T>(a: seq<T>, b: seq<T>)
    requires a != [] && IsSubsequence(a, b)
    ensures IsSubsequence(a[1..], b)
    decreases |b|, 0
  {
    if a[0] == b[0] {
      if a[1..] != [] {
        SubsequenceCons(a[1..], b[0], b[1..]);
        assert [b[0]] + b[1..] == b;
      }
    } else {
      SubsequenceDropHead(a, b[1..]);
      if a[1..] != [] {
        SubsequenceCons(a[1..], b[0], b[1..]);
        assert [b[0]] + b[1..] == b;
      }
    }
  }

  /** Subsequence is transitive: a filter of a filter is a subsequence of the input. */
  lemma {:induction false} SubsequenceTransitive<T>(a: seq<T>, b: seq<T>, c: seq<T>)
    requires IsSubsequence(a, b) && IsSubsequence(b, c)
    ensures IsSubsequence(a, c)
    decreases |c|
  {
    if a == [] {
    } else if b == [] {
    } else if c == [] {
    } else if b[0] == c[0] {
      if a[0] == b[0] {
        SubsequenceTransitive(a[1..], b[1..], c[1..]);
      } else {
        SubsequenceTransitive(a, b[1..], c[1..]);
      }
    } else {
      SubsequenceTransitive(a, b, c[1..]);
      if a[0] == c[0] {
        SubsequenceDropHead(a, c[1..]);
      }
    }
  }

  // ---------------------------------------------------------------------------
  // Array.prototype.sort with a consistent comparator.  Since ES2019 the sort is
  // stable, so its result is the stable sorted permutation: insertion sort below.

  /** `lt(a, b)` means the comparator puts `a` strictly before `b`. */
  ghost predicate StrictOrder<T(!new)>(lt: (T, T) -> bool) {
    && (forall a :: !lt(a, a))
    && (forall a, b, c :: lt(a, b) && lt(b, c) ==> lt(a, c))
  }

  /** No element is strictly before an element that precedes it. */
  ghost predicate SortedBy<T>(s: seq<T>, lt: (T, T) -> bool) {
    forall i, j :: 0 <= i < j < |s| ==> !lt(s[j], s[i])
  }

  /** Places `x` after every element it is not strictly before (so after its equals). */
  function Insert<T>(x: T, s: seq<T>, lt: (T, T) -> bool): (r: seq<T>)
    ensures |r| == |s| + 1
    ensures multiset(r) == multiset(s) + multiset{x}
  {
    if s == [] then [x]
    else if lt(x, s[0]) then [x] + s
    else
      assert s == [s[0]] + s[1..];
      [s[0]] + Insert(x, s[1..], lt)
  }

  /** The source's `sort`: a stable sort of `s` under the comparator `lt`. */
  function SortBy<T>(s: seq<T>, lt: (T, T) -> bool): (r: seq<T>)
    ensures |r| == |s|
    ensures multiset(r) == multiset(s)
  {
    if s == [] then []
    else
      assert s == s[..|s| - 1] + [s[|s| - 1]];
      Insert(s[|s| - 1], SortBy(s[..|s| - 1], lt), lt)
  }

  lemma {:induction false} InsertSorted<T(!new)>(x: T, s: seq<T>, lt: (T, T) -> bool)
    requires StrictOrder(lt) && SortedBy(s, lt)
    ensures SortedBy(Insert(x, s, lt), lt)
  {
    if s != [] {
      if lt(x, s[0]) {
        forall k | 0 <= k < |s| ensures !lt(s[k], x) {
          assert !lt(s[k], s[0]);
        }
      } else {
        InsertSorted(x, s[1..], lt);
        var t := Insert(x, s[1..], lt);
        var r := [s[0]] + t;
        forall i, j | 0 <= i < j < |r| ensures !lt(r[j], r[i]) {
          if i == 0 {
            assert r[j] == t[j - 1];
            assert t[j - 1] in multiset(t);
            assert t[j - 1] == x || t[j - 1] in multiset(s[1..]);
            if t[j - 1] != x {
              var k :| 0 <= k < |s[1..]| && s[1..][k] == t[j - 1];
              assert s[k + 1] == t[j - 1];
            }
          }
        }
      }
    }
  }

  lemma {:induction false} SortBySorted<T(!new)>(s: seq<T>, lt: (T, T) -> bool)
    requires StrictOrder(lt)
    ensures SortedBy(SortBy(s, lt), lt)
  {
    if s != [] {
      SortBySorted(s[..|s| - 1], lt);
      InsertSorted(s[|s| - 1], SortBy(s[..|s| - 1], lt), lt);
    }
  }

  /** Array.prototype.map. */
  function MapSeq<A, B>(s: seq<A>, f: A -> B): (r: seq<B>)
    ensures |r| == |s| && forall k :: 0 <= k < |s| ==> r[k] == f(s[k])
  {
    seq(|s|, k requires 0 <= k < |s| => f(s[k]))
  }

  lemma InsertMapFront<A, B>(x: A, s: seq<A>, f: A -> B, lta: (A, A) -> bool, ltb: (B, B) -> bool)
    requires forall a, b :: ltb(f(a), f(b)) == lta(a, b)
    requires s != [] && lta(x, s[0])
    ensures Insert(f(x), MapSeq(s, f), ltb) == MapSeq(Insert(x, s, lta), f)
  {
    var fs := MapSeq(s, f);
    assert ltb(f(x), fs[0]);
    assert MapSeq([x] + s, f) == [f(x)] + fs;
  }

  lemma {:induction false} InsertMap<A, B>(x: A, s: seq<A>, f: A -> B, lta: (A, A) -> bool, ltb: (B, B) -> bool)
    requires forall a, b :: ltb(f(a), f(b)) == lta(a, b)
    ensures Insert(f(x), MapSeq(s, f), ltb) == MapSeq(Insert(x, s, lta), f)
  {
    if s != [] {
      if lta(x, s[0]) {
        InsertMapFront(x, s, f, lta, ltb);
      } else {
        var fs := MapSeq(s, f);
        assert !ltb(f(x), fs[0]);
        assert fs[1..] == MapSeq(s[1..], f);
        InsertMap(x, s[1..], f, lta, ltb);
        var t := Insert(x, s[1..], lta);
        assert MapSeq([s[0]] + t, f) == [f(s[0])] + MapSeq(t, f);
      }
    }
  }

  /** Sorting commutes with a map that keeps the comparator's verdicts. */
  lemma {:induction false} SortByMap<A, B>(s: seq<A>, f: A -> B, lta: (A, A) -> bool, ltb: (B, B) -> bool)
    requires forall a, b :: ltb(f(a), f(b)) == lta(a, b)
    ensures SortBy(MapSeq(s, f), ltb) == MapSeq(SortBy(s, lta), f)
  {
    if s != [] {
      var n := |s|;
      assert MapSeq(s, f)[..n - 1] == MapSeq(s[..n - 1], f);
      SortByMap(s[..n - 1], f, lta, ltb);
      InsertMap(s[n - 1], SortBy(s[..n - 1], lta), f, lta, ltb);
    }
  }

  // ---------------------------------------------------------------------------
  // Distinct elements and ascending integers

  predicate Distinct<T(==)>(s: seq<T>) {
    forall i, j :: 0 <= i < j < |s| ==> s[i] != s[j]
  }

  predicate StrictlyIncreasing(s: seq<int>) {
    forall i, j :: 0 <= i < j < |s| ==> s[i] < s[j]
  }

  function IntLess(a: int, b: int): bool { a < b }

  /** The distinct elements of `s` in order of first appearance: the iteration order of a
      Set or of a Map's keys filled from `s`. */
  function Dedup<T(==,!new)>(s: seq<T>): (r: seq<T>)
    ensures Distinct(r)
    ensures forall x :: x in r <==> x in s
  {
    if s == [] then []
    else
      var n := |s|;
      var d := Dedup(s[..n - 1]);
      assert forall x :: x in s <==> x in s[..n - 1] || x == s[n - 1] by {
        assert s == s[..n - 1] + [s[n - 1]];
      }
      if s[n - 1] in d then d else d + [s[n - 1]]
  }

  lemma DedupAppend<T(!new)>(s: seq<T>, x: T)
    ensures Dedup(s + [x]) == if x in Dedup(s) then Dedup(s) else Dedup(s) + [x]
  {
    assert (s + [x])[..|s|] == s;
  }

  lemma {:induction false} DistinctOccursOnce<T>(s: seq<T>, x: T)
    requires Distinct(s)
    ensures multiset(s)[x] <= 1
  {
    if s != [] {
      assert s == [s[0]] + s[1..];
      DistinctOccursOnce(s[1..], x);
      if s[0] == x {
        assert x !in s[1..];
      }
    }
  }

  lemma RepeatedOccursTwice<T>(s: seq<T>, i: nat, j: nat)
    requires i < j < |s| && s[i] == s[j]
    ensures multiset(s)[s[i]] >= 2
  {
    assert s == s[..i] + [s[i]] + s[i + 1..j] + [s[j]] + s[j + 1..];
  }

  /** A permutation of a sequence without repetitions has none either. */
  /** An element of a sequence is an element of each of its permutations. */
  lemma PermutationMember<T>(s: seq<T>, r: seq<T>, x: T)
    requires multiset(s) == multiset(r) && x in s
    ensures x in r
  {
    assert x in multiset(s);
  }

  lemma PermutationDistinct<T>(s: seq<T>, r: seq<T>)
    requires multiset(s) == multiset(r) && Distinct(s)
    ensures Distinct(r)
  {
    forall i, j | 0 <= i < j < |r| ensures r[i] != r[j] {
      if r[i] == r[j] {
        RepeatedOccursTwice(r, i, j);
        DistinctOccursOnce(s, r[i]);
      }
    }
  }

  /** Sorting distinct integers ascending gives a strictly increasing sequence of the same elements. */
  lemma SortDistinctInts(s: seq<int>)
    requires Distinct(s)
    ensures StrictlyIncreasing(SortBy(s, IntLess))
    ensures forall x :: x in SortBy(s, IntLess) <==> x in s
  {
    var r := SortBy(s, IntLess);
    SortBySorted(s, IntLess);
    PermutationDistinct(s, r);
    forall x ensures x in r <==> x in s {
      assert x in r <==> x in multiset(r);
      assert x in s <==> x in multiset(s);
    }
  }

  // ---------------------------------------------------------------------------
  // Strings

  /** ECMAScript WhiteSpace and LineTerminator code points, the ones `trim` removes. */
  predicate IsWhiteSpace(c: char) {
    || c == ' ' || '\t' <= c <= '\r' || c == '\U{00A0}' || c == '\U{1680}'
    || '\U{2000}' <= c <= '\U{200A}' || c == '\U{2028}' || c == '\U{2029}'
    || c == '\U{202F}' || c == '\U{205F}' || c == '\U{3000}' || c == '\U{FEFF}'
  }

  function TrimStart(s: string): (r: string)
    ensures |r| <= |s| && r == s[|s| - |r|..]
    ensures forall k :: 0 <= k < |s| - |r| ==> IsWhiteSpace(s[k])
    ensures r == [] || !IsWhiteSpace(r[0])
  {
    if s != [] && IsWhiteSpace(s[0]) then TrimStart(s[1..]) else s
  }

  function TrimEnd(s: string): (r: string)
    ensures |r| <= |s| && r == s[..|r|]
    ensures forall k :: |r| <= k < |s| ==> IsWhiteSpace(s[k])
    ensures r == [] || !IsWhiteSpace(r[|r| - 1])
  {
    if s != [] && IsWhiteSpace(s[|s| - 1]) then TrimEnd(s[..|s| - 1]) else s
  }

  /** String.prototype.trim: the white space at both ends removed. */
  function Trim(s: string): (r: string)
    ensures r == [] || (!IsWhiteSpace(r[0]) && !IsWhiteSpace(r[|r| - 1]))
    ensures forall c :: c in r ==> c in s
    ensures exists i :: TrimmedAt(s, r, i)
  {
    var t := TrimStart(s);
    var r := TrimEnd(t);
    assert forall c :: c in r ==> c in t;
    TrimSlice(s, t, r);
    r
  }

  /** Cutting white space off the end of a suffix that follows white space leaves a
      slice of `s` with white space on both sides. */
  lemma TrimSlice(s: string, t: string, r: string)
    requires |t| <= |s| && t == s[|s| - |t|..]
    requires |r| <= |t| && r == t[..|r|]
    requires forall k :: 0 <= k < |s| - |t| ==> IsWhiteSpace(s[k])
    requires forall k :: |r| <= k < |t| ==> IsWhiteSpace(t[k])
    ensures TrimmedAt(s, r, |s| - |t|)
  {
    var i := |s| - |t|;
    assert s[i..i + |r|] == r;
    forall k | i + |r| <= k < |s|
      ensures IsWhiteSpace(s[k])
    {
      assert s[k] == t[k - i];
    }
  }

  /** `r` is the slice of `s` at `i`, with nothing but white space around it. */
  ghost predicate TrimmedAt(s: string, r: string, i: int) {
    && 0 <= i && i + |r| <= |s| && s[i..i + |r|] == r
    && (forall k :: 0 <= k < i ==> IsWhiteSpace(s[k]))
    && (forall k :: i + |r| <= k < |s| ==> IsWhiteSpace(s[k]))
  }

  /** `s.trim()` is falsy exactly when every character of `s` is white space. */
  predicate IsBlank(s: string) {
    Trim(s) == ""
  }

  lemma {:induction false} TrimStartOfWhiteSpace(s: string)
    requires forall k :: 0 <= k < |s| ==> IsWhiteSpace(s[k])
    ensures TrimStart(s) == []
  {
    if s != [] {
      TrimStartOfWhiteSpace(s[1..]);
    }
  }

  lemma BlankIffAllWhiteSpace(s: string)
    ensures IsBlank(s) <==> forall k :: 0 <= k < |s| ==> IsWhiteSpace(s[k])
  {
    if forall k :: 0 <= k < |s| ==> IsWhiteSpace(s[k]) {
      TrimStartOfWhiteSpace(s);
    }
    if IsBlank(s) {
      assert TrimStart(s) == [];
    }
  }

  /** The capitals this model lower-cases: the basic Latin, Latin-1, Greek, Cyrillic and
      full-width Latin ones, each of which has a single lower-case character. */
  predicate IsUpper(c: char) {
    || 'A' <= c <= 'Z'
    || ('\U{00C0}' <= c <= '\U{00DE}' && c != '\U{00D7}')
    || ('\U{0391}' <= c <= '\U{03A9}' && c != '\U{03A2}')
    || '\U{0400}' <= c <= '\U{042F}'
    || '\U{FF21}' <= c <= '\U{FF3A}'
  }

  /** The lower-case form of a capital; any other character is kept. */
  function LowerChar(c: char): (l: char)
    ensures !IsUpper(l)
    ensures !IsUpper(c) ==> l == c
  {
    if '\U{0400}' <= c <= '\U{040F}' then (c as int + 80) as char
    else if IsUpper(c) then (c as int + 32) as char
    else c
  }

  /** String.prototype.toLowerCase on the capitals of `IsUpper`. */
  function ToLower(s: string): (r: string)
    ensures |r| == |s|
    ensures forall k :: 0 <= k < |s| ==> !IsUpper(r[k])
    ensures forall k :: 0 <= k < |s| && !IsUpper(s[k]) ==> r[k] == s[k]
  {
    seq(|s|, k requires 0 <= k < |s| => LowerChar(s[k]))
  }

  lemma ToLowerIdempotent(s: string)
    ensures ToLower(ToLower(s)) == ToLower(s)
  {
  }

  predicate OccursAt(hay: string, needle: string, i: int) {
    0 <= i && i + |needle| <= |hay| && hay[i..i + |needle|] == needle
  }

  /** String.prototype.includes. */
  function Contains(hay: string, needle: string): (b: bool)
    ensures b <==> exists i :: OccursAt(hay, needle, i)
    decreases |hay|
  {
    if |needle| > |hay| then false
    else if hay[..|needle|] == needle then
      assert OccursAt(hay, needle, 0);
      true
    else
      ContainsShift(hay, needle);
      Contains(hay[1..], needle)
  }

  lemma ContainsShift(hay: string, needle: string)
    requires |needle| <= |hay| && hay[..|needle|] != needle
    ensures |hay| >= 1
    ensures (exists i :: OccursAt(hay, needle, i)) <==> (exists i :: OccursAt(hay[1..], needle, i))
  {
    forall i | OccursAt(hay, needle, i) ensures OccursAt(hay[1..], needle, i - 1) {
      assert i != 0;
      assert hay[1..][i - 1..i - 1 + |needle|] == hay[i..i + |needle|];
    }
    forall i | OccursAt(hay[1..], needle, i) ensures OccursAt(hay, needle, i + 1) {
      assert hay[1..][i..i + |needle|] == hay[i + 1..i + 1 + |needle|];
    }
  }

  /** Every string contains the empty string. */
  lemma ContainsEmpty(hay: string)
    ensures Contains(hay, "")
  {
    assert OccursAt(hay, "", 0);
  }

}
