/** Generic sequence helpers: filtering, reversal, counting, first-per-key
    de-duplication and the stable sort behind every `Array.prototype.sort` call. */
module Seqs {

  /** The elements of `s` satisfying `p`, in their original order (`Array.prototype.filter`). */
  function Filter<T>(s: seq<T>, p: T -> bool): (r: seq<T>)
    ensures |r| <= |s|
    decreases |s|
  {
    if |s| == 0 then []
    else (if p(s[0]) then [s[0]] else []) + Filter(s[1..], p)
  }

  /** The filter keeps elements of the input that pass, and every element that passes. */
  lemma {:induction false} FilterMembers<T>(s: seq<T>, p: T -> bool)
    ensures forall i :: 0 <= i < |Filter(s, p)| ==> Filter(s, p)[i] in s && p(Filter(s, p)[i])
    ensures forall i :: 0 <= i < |s| && p(s[i]) ==> s[i] in Filter(s, p)
    decreases |s|
  {
    if |s| > 0 {
      var h := if p(s[0]) then [s[0]] else [];
      var t := Filter(s[1..], p);
      var r := Filter(s, p);
      FilterMembers(s[1..], p);
      FilterCons(s, p);
      assert r == h + t;
      forall i | 0 <= i < |r|
        ensures r[i] in s && p(r[i])
      {
        if i < |h| {
          assert r[i] == s[0];
        } else {
          assert r[i] == t[i - |h|];
          assert r[i] in s[1..];
        }
      }
      forall i | 0 <= i < |s| && p(s[i])
        ensures s[i] in r
      {
        if i == 0 {
          assert r[0] == s[0];
        } else {
          assert s[i] == s[1..][i - 1];
        }
      }
    }
  }

  /** A prefix splits at any point inside it. */
  lemma PrefixSplit<T>(s: seq<T>, k: nat, n: nat)
    requires k <= n <= |s|
    ensures s[..n] == s[..k] + s[k..n]
  {
  }

  /** One step of the filter. */
  lemma FilterCons<T>(s: seq<T>, p: T -> bool)
    requires |s| > 0
    ensures Filter(s, p) == (if p(s[0]) then [s[0]] else []) + Filter(s[1..], p)
  {
  }

  /** Filtering distributes over concatenation. */
  lemma {:induction false} FilterConcat<T>(a: seq<T>, b: seq<T>, p: T -> bool)
    ensures Filter(a + b, p) == Filter(a, p) + Filter(b, p)
    decreases |a|
  {
    if |a| == 0 {
      assert a + b == b;
    } else {
      var h := if p(a[0]) then [a[0]] else [];
      assert (a + b)[0] == a[0];
      assert (a + b)[1..] == a[1..] + b;
      FilterCons(a + b, p);
      FilterConcat(a[1..], b, p);
      FilterCons(a, p);
      assert h + (Filter(a[1..], p) + Filter(b, p)) == h + Filter(a[1..], p) + Filter(b, p);
    }
  }

  /** Filtering keeps everything when every element passes. */
  lemma {:induction false} FilterAll<T>(s: seq<T>, p: T -> bool)
    requires forall i :: 0 <= i < |s| ==> p(s[i])
    ensures Filter(s, p) == s
  {
    if |s| > 0 {
      FilterAll(s[1..], p);
    }
  }

  /** Filtering keeps nothing when no element passes. */
  lemma {:induction false} FilterNone<T>(s: seq<T>, p: T -> bool)
    requires forall i :: 0 <= i < |s| ==> !p(s[i])
    ensures Filter(s, p) == []
  {
    if |s| > 0 {
      FilterNone(s[1..], p);
    }
  }

  /** A prefix where nothing passes followed by a block where everything passes
      filters to that block. */
  lemma FilterNoneThenAll<T>(a: seq<T>, b: seq<T>, p: T -> bool)
    requires Filter(a, p) == []
    requires forall i :: 0 <= i < |b| ==> p(b[i])
    ensures Filter(a + b, p) == b
  {
    FilterConcat(a, b, p);
    FilterAll(b, p);
  }

  /** ... and symmetrically a passing block followed by nothing that passes. */
  lemma FilterAllThenNone<T>(a: seq<T>, b: seq<T>, p: T -> bool)
    requires forall i :: 0 <= i < |a| ==> p(a[i])
    requires Filter(b, p) == []
    ensures Filter(a + b, p) == a
  {
    FilterConcat(a, b, p);
    FilterAll(a, p);
  }

  /** The elements passing and the elements failing a test together are the whole input. */
  lemma {:induction false} FilterPartition<T>(s: seq<T>, p: T -> bool, q: T -> bool)
    requires forall x :: q(x) == !p(x)
    ensures multiset(Filter(s, p)) + multiset(Filter(s, q)) == multiset(s)
    decreases |s|
  {
    if |s| > 0 {
      FilterPartition(s[1..], p, q);
      assert s == [s[0]] + s[1..];
    }
  }

  /** `r` is obtained from `s` by deleting elements, keeping the order of the rest. */
  ghost predicate IsSubsequence<T>(r: seq<T>, s: seq<T>)
    decreases |s|
  {
    if |r| == 0 then true
    else if |s| == 0 then false
    else if r[0] == s[0] then IsSubsequence(r[1..], s[1..])
    else IsSubsequence(r, s[1..])
  }

  lemma {:induction false} FilterIsSubsequence<T>(s: seq<T>, p: T -> bool)
    ensures IsSubsequence(Filter(s, p), s)
    decreases |s|
  {
    if |s| > 0 {
      FilterIsSubsequence(s[1..], p);
      if p(s[0]) {
        assert ([s[0]] + Filter(s[1..], p))[1..] == Filter(s[1..], p);
      } else {
        assert [] + Filter(s[1..], p) == Filter(s[1..], p);
        FilterMembers(s[1..], p);
      }
    }
  }

  /** The elements of `s` in reverse order (`Array.prototype.reverse`). */
  function Reverse<T>(s: seq<T>): (r: seq<T>)
    ensures |r| == |s|
    decreases |s|
  {
    if |s| == 0 then [] else Reverse(s[1..]) + [s[0]]
  }

  lemma {:induction false} ReverseSnoc<T>(s: seq<T>, x: T)
    ensures Reverse(s + [x]) == [x] + Reverse(s)
    decreases |s|
  {
    if |s| == 0 {
      assert [x][1..] == [];
    } else {
      ReverseSnoc(s[1..], x);
      assert (s + [x])[1..] == s[1..] + [x];
    }
  }

  /** Number of occurrences of `x` in `s`. */
  function Occ<T(==)>(s: seq<T>, x: T): nat
    decreases |s|
  {
    if |s| == 0 then 0
    else Occ(s[..|s| - 1], x) + (if s[|s| - 1] == x then 1 else 0)
  }

  lemma OccSnoc<T>(s: seq<T>, x: T, y: T)
    ensures Occ(s + [x], y) == Occ(s, y) + (if x == y then 1 else 0)
  {
    assert (s + [x])[..|s|] == s;
  }

  lemma {:induction false} OccPositive<T>(s: seq<T>, x: T)
    ensures Occ(s, x) > 0 <==> x in s
    decreases |s|
  {
    if |s| > 0 {
      OccPositive(s[..|s| - 1], x);
      assert s == s[..|s| - 1] + [s[|s| - 1]];
    }
  }

  lemma {:induction false} OccConcat<T>(a: seq<T>, b: seq<T>, x: T)
    ensures Occ(a + b, x) == Occ(a, x) + Occ(b, x)
    decreases |b|
  {
    if |b| == 0 {
      assert a + b == a;
    } else {
      OccConcat(a, b[..|b| - 1], x);
      assert (a + b)[..|a + b| - 1] == a + b[..|b| - 1];
    }
  }

  /** Some element of `s` has key `k`. */
  predicate HasKey<T, K(==)>(s: seq<T>, key: T -> K, k: K)
  {
    exists i :: 0 <= i < |s| && key(s[i]) == k
  }

  /** No two elements of `s` share a key. */
  ghost predicate DistinctKeys<T, K>(s: seq<T>, key: T -> K)
  {
    forall i, j :: 0 <= i < j < |s| ==> key(s[i]) != key(s[j])
  }

  /** The first element of `s` for every key, in order of first appearance. */
  function DedupBy<T, K(==)>(s: seq<T>, key: T -> K): seq<T>
    decreases |s|
  {
    if |s| == 0 then []
    else if HasKey(s[..|s| - 1], key, key(s[|s| - 1])) then DedupBy(s[..|s| - 1], key)
    else DedupBy(s[..|s| - 1], key) + [s[|s| - 1]]
  }

  /** Index of the first element of `s` with key `k` (there is one). */
  function FirstIndex<T, K(==)>(s: seq<T>, key: T -> K, k: K): (i: nat)
    requires HasKey(s, key, k)
    ensures i < |s| && key(s[i]) == k
    ensures forall j :: 0 <= j < i ==> key(s[j]) != k
    decreases |s|
  {
    if key(s[0]) == k then 0
    else
      assert HasKey(s[1..], key, k) by {
        var j :| 0 <= j < |s| && key(s[j]) == k;
        assert key(s[1..][j - 1]) == k;
      }
      1 + FirstIndex(s[1..], key, k)
  }

  /** What DedupBy keeps: pairwise-distinct keys, exactly the keys of the input,
      each represented by its first element, in the input's order. */
  lemma {:induction false} DedupByProperties<T, K(!new)>(s: seq<T>, key: T -> K)
    ensures DistinctKeys(DedupBy(s, key), key)
    ensures forall k :: HasKey(DedupBy(s, key), key, k) <==> HasKey(s, key, k)
    ensures forall m :: 0 <= m < |DedupBy(s, key)| ==>
              HasKey(s, key, key(DedupBy(s, key)[m])) &&
              DedupBy(s, key)[m] == s[FirstIndex(s, key, key(DedupBy(s, key)[m]))]
    ensures IsSubsequence(DedupBy(s, key), s)
    decreases |s|
  {
    if |s| == 0 {
      assert DedupBy(s, key) == [];
    } else {
      var init, x := s[..|s| - 1], s[|s| - 1];
      var d := DedupBy(init, key);
      DedupByProperties(init, key);
      assert s == init + [x];
      assert DedupOf(d, init, key);
      if HasKey(init, key, key(x)) {
        DedupKnownKey(d, init, x, key);
        assert DedupBy(s, key) == d;
      } else {
        DedupNewKey(d, init, x, key);
        assert DedupBy(s, key) == d + [x];
      }
      assert DedupOf(DedupBy(s, key), s, key);
    }
  }

  /** `d` is a deduplication of `s`: the four properties of `DedupByProperties`. */
  ghost predicate DedupOf<T, K(!new)>(d: seq<T>, s: seq<T>, key: T -> K)
  {
    && DistinctKeys(d, key)
    && (forall k :: HasKey(d, key, k) <==> HasKey(s, key, k))
    && (forall m :: 0 <= m < |d| ==> HasKey(s, key, key(d[m])) && d[m] == s[FirstIndex(s, key, key(d[m]))])
    && IsSubsequence(d, s)
  }

  /** Appending an element keeps the keys and the first indices of the prefix and
      adds the element's key. */
  lemma SnocKeys<T, K>(init: seq<T>, x: T, key: T -> K)
    ensures forall k :: HasKey(init, key, k) ==>
              HasKey(init + [x], key, k) && FirstIndex(init + [x], key, k) == FirstIndex(init, key, k)
    ensures forall k :: HasKey(init + [x], key, k) ==> HasKey(init, key, k) || key(x) == k
  {
    var s := init + [x];
    forall k | HasKey(init, key, k)
      ensures HasKey(s, key, k) && FirstIndex(s, key, k) == FirstIndex(init, key, k)
    {
      var i := FirstIndex(init, key, k);
      assert key(s[i]) == k;
      FirstIndexUnique(s, key, k, i);
    }
    forall k | HasKey(s, key, k)
      ensures HasKey(init, key, k) || key(x) == k
    {
      var j :| 0 <= j < |s| && key(s[j]) == k;
      if j < |s| - 1 {
        assert key(init[j]) == k;
      }
    }
  }

  /** An element whose key the prefix already has is dropped. */
  lemma DedupKnownKey<T, K(!new)>(d: seq<T>, init: seq<T>, x: T, key: T -> K)
    requires DedupOf(d, init, key) && HasKey(init, key, key(x))
    ensures DedupOf(d, init + [x], key)
  {
    var s := init + [x];
    SnocKeys(init, x, key);
    SubsequenceSnoc(d, init, x);
    forall k | HasKey(s, key, k)
      ensures HasKey(d, key, k)
    {
    }
  }

  /** An element with a new key is kept, after the ones before it. */
  lemma DedupNewKey<T, K(!new)>(d: seq<T>, init: seq<T>, x: T, key: T -> K)
    requires DedupOf(d, init, key) && !HasKey(init, key, key(x))
    ensures DedupOf(d + [x], init + [x], key)
  {
    var s := init + [x];
    var r := d + [x];
    SnocKeys(init, x, key);
    SubsequenceSnoc(d, init, x);
    forall i, j | 0 <= i < j < |r|
      ensures key(r[i]) != key(r[j])
    {
      if j == |r| - 1 {
        assert HasKey(d, key, key(r[i]));
      }
    }
    forall k | HasKey(r, key, k)
      ensures HasKey(s, key, k)
    {
      var j :| 0 <= j < |r| && key(r[j]) == k;
      if j < |d| {
        assert key(d[j]) == k;
      } else {
        assert key(s[|s| - 1]) == k;
      }
    }
    forall k | HasKey(s, key, k)
      ensures HasKey(r, key, k)
    {
      if HasKey(init, key, k) {
        var j :| 0 <= j < |d| && key(d[j]) == k;
        assert key(r[j]) == k;
      } else {
        assert key(r[|r| - 1]) == k;
      }
    }
    forall m | 0 <= m < |r|
      ensures HasKey(s, key, key(r[m])) && r[m] == s[FirstIndex(s, key, key(r[m]))]
    {
      if m < |d| {
        assert r[m] == d[m];
      } else {
        assert key(s[|s| - 1]) == key(x);
        FirstIndexUnique(s, key, key(x), |s| - 1);
      }
    }
  }

  /** The first index of a key is determined by "has the key, and nothing before it has". */
  lemma FirstIndexUnique<T, K>(s: seq<T>, key: T -> K, k: K, i: nat)
    requires i < |s| && key(s[i]) == k
    requires forall j :: 0 <= j < i ==> key(s[j]) != k
    ensures HasKey(s, key, k) && FirstIndex(s, key, k) == i
  {
    var f := FirstIndex(s, key, k);
    assert !(f < i);
    assert !(i < f);
  }

  lemma {:induction false} SubsequenceSnoc<T>(r: seq<T>, s: seq<T>, x: T)
    requires IsSubsequence(r, s)
    ensures IsSubsequence(r, s + [x]) && IsSubsequence(r + [x], s + [x])
    decreases |s|
  {
    if |s| == 0 {
      assert [x][1..] == [];
      if |r| > 0 {
        assert false;
      }
      assert r + [x] == [x];
    } else if |r| == 0 {
      SubsequenceSnoc(r, s[1..], x);
      assert (s + [x])[1..] == s[1..] + [x];
      SingleIsSubsequence(s + [x], |s|);
      assert r + [x] == [x];
    } else {
      assert (s + [x])[1..] == s[1..] + [x];
      if r[0] == s[0] {
        SubsequenceSnoc(r[1..], s[1..], x);
        assert (r + [x])[1..] == r[1..] + [x];
      } else {
        SubsequenceSnoc(r, s[1..], x);
      }
    }
  }

  lemma {:induction false} SingleIsSubsequence<T>(s: seq<T>, i: nat)
    requires i < |s|
    ensures IsSubsequence([s[i]], s)
    decreases |s|
  {
    if i > 0 {
      SingleIsSubsequence(s[1..], i - 1);
      if s[0] == s[i] {
        assert [s[i]][1..] == [];
      }
    }
  }

  /** De-duplicating a sequence whose keys are already distinct changes nothing. */
  lemma {:induction false} DedupByDistinct<T, K>(s: seq<T>, key: T -> K)
    requires DistinctKeys(s, key)
    ensures DedupBy(s, key) == s
    decreases |s|
  {
    if |s| > 0 {
      var init := s[..|s| - 1];
      assert DistinctKeys(init, key);
      DedupByDistinct(init, key);
      assert s == init + [s[|s| - 1]];
    }
  }

  /** First-per-key de-duplication is idempotent. */
  lemma DedupByIdempotent<T, K(!new)>(s: seq<T>, key: T -> K)
    ensures DedupBy(DedupBy(s, key), key) == DedupBy(s, key)
  {
    DedupByProperties(s, key);
    DedupByDistinct(DedupBy(s, key), key);
  }

  // ---------------------------------------------------------------------------
  // Stable sorting by a comparator

  /** `before` is the "sorts strictly before" relation of a consistent comparator:
      irreflexive, transitive, and negatively transitive (ties are an equivalence). */
  ghost predicate StrictWeakOrder<T(!new)>(before: (T, T) -> bool)
  {
    && (forall a :: !before(a, a))
    && (forall a, b, c :: before(a, b) && before(b, c) ==> before(a, c))
    && (forall a, b, c :: before(a, c) ==> before(a, b) || before(b, c))
  }

  /** No element sorts strictly before an element to its left. */
  ghost predicate SortedBy<T>(s: seq<T>, before: (T, T) -> bool)
  {
    forall i, j :: 0 <= i < j < |s| ==> !before(s[j], s[i])
  }

  /** Filtering keeps a sorted sequence sorted. */
  lemma {:induction false} FilterSorted<T>(s: seq<T>, p: T -> bool, before: (T, T) -> bool)
    requires SortedBy(s, before)
    ensures SortedBy(Filter(s, p), before)
    decreases |s|
  {
    if |s| > 0 {
      var t := Filter(s[1..], p);
      assert SortedBy(s[1..], before);
      FilterSorted(s[1..], p, before);
      FilterMembers(s[1..], p);
      if p(s[0]) {
        var r := [s[0]] + t;
        forall i, j | 0 <= i < j < |r|
          ensures !before(r[j], r[i])
        {
          if i == 0 {
            assert r[j] == t[j - 1] && t[j - 1] in s[1..];
            var k :| 0 <= k < |s[1..]| && s[1..][k] == r[j];
            assert s[k + 1] == r[j];
          } else {
            assert r[i] == t[i - 1] && r[j] == t[j - 1];
          }
        }
      } else {
        assert [] + t == t;
      }
    }
  }

  /** Inserts `x` in front of the first element that does not sort strictly before it. */
  function InsertBy<T>(x: T, s: seq<T>, before: (T, T) -> bool): (r: seq<T>)
    ensures |r| == |s| + 1
    ensures multiset(r) == multiset(s) + multiset{x}
    decreases |s|
  {
    if |s| == 0 then [x]
    else if before(s[0], x) then
      assert s == [s[0]] + s[1..];
      [s[0]] + InsertBy(x, s[1..], before)
    else [x] + s
  }

  /** Stable insertion sort: the order a stable `Array.prototype.sort` produces
      with a comparator whose "negative" outcome is `before`. */
  function SortBy<T>(s: seq<T>, before: (T, T) -> bool): (r: seq<T>)
    ensures |r| == |s|
    ensures multiset(r) == multiset(s)
    decreases |s|
  {
    if |s| == 0 then []
    else
      assert s == [s[0]] + s[1..];
      InsertBy(s[0], SortBy(s[1..], before), before)
  }

  lemma {:induction false} InsertBySorted<T(!new)>(x: T, s: seq<T>, before: (T, T) -> bool)
    requires StrictWeakOrder(before) && SortedBy(s, before)
    ensures SortedBy(InsertBy(x, s, before), before)
    decreases |s|
  {
    var r := InsertBy(x, s, before);
    if |s| == 0 {
    } else if before(s[0], x) {
      var t := InsertBy(x, s[1..], before);
      assert SortedBy(s[1..], before);
      InsertBySorted(x, s[1..], before);
      forall j | 0 < j < |r|
        ensures !before(r[j], r[0])
      {
        assert r[j] == t[j - 1];
        assert r[j] in multiset(t);
        assert r[j] in multiset(s[1..]) || r[j] == x;
        if r[j] != x {
          assert r[j] in s[1..];
          var k :| 0 <= k < |s[1..]| && s[1..][k] == r[j];
          assert s[k + 1] == r[j];
        }
      }
    } else {
      forall j | 0 < j < |r|
        ensures !before(r[j], r[0])
      {
        assert r[j] == s[j - 1];
        assert !before(s[j - 1], s[0]) || j == 1;
      }
    }
  }

  /** SortBy's output is sorted when the comparator is consistent. */
  lemma {:induction false} SortBySorted<T(!new)>(s: seq<T>, before: (T, T) -> bool)
    requires StrictWeakOrder(before)
    ensures SortedBy(SortBy(s, before), before)
    decreases |s|
  {
    if |s| > 0 {
      SortBySorted(s[1..], before);
      InsertBySorted(s[0], SortBy(s[1..], before), before);
    }
  }

  /** `a` and `b` tie: neither sorts before the other. */
  predicate Tied<T>(before: (T, T) -> bool, a: T, b: T)
  {
    !before(a, b) && !before(b, a)
  }

  lemma {:induction false} InsertByStable<T(!new)>(x: T, s: seq<T>, before: (T, T) -> bool, k: T, p: T -> bool)
    requires StrictWeakOrder(before)
    requires forall y :: p(y) == Tied(before, y, k)
    ensures Filter(InsertBy(x, s, before), p) == (if p(x) then [x] else []) + Filter(s, p)
    decreases |s|
  {
    if |s| == 0 {
      assert Filter([x], p) == (if p(x) then [x] else []) + Filter([x][1..], p);
    } else if before(s[0], x) {
      var t := InsertBy(x, s[1..], before);
      InsertByStable(x, s[1..], before, k, p);
      assert ([s[0]] + t)[1..] == t;
      assert Filter([s[0]] + t, p) == (if p(s[0]) then [s[0]] else []) + Filter(t, p);
      assert Filter(s, p) == (if p(s[0]) then [s[0]] else []) + Filter(s[1..], p);
      assert p(x) ==> !p(s[0]);
    } else {
      assert ([x] + s)[1..] == s;
      assert Filter([x] + s, p) == (if p(x) then [x] else []) + Filter(s, p);
    }
  }

  /** Stability: among elements that tie with `k` (those satisfying `p`), the sorted
      order is the input order. */
  lemma {:induction false} SortByStable<T(!new)>(s: seq<T>, before: (T, T) -> bool, k: T, p: T -> bool)
    requires StrictWeakOrder(before)
    requires forall y :: p(y) == Tied(before, y, k)
    ensures Filter(SortBy(s, before), p) == Filter(s, p)
    decreases |s|
  {
    if |s| > 0 {
      SortByStable(s[1..], before, k, p);
      InsertByStable(s[0], SortBy(s[1..], before), before, k, p);
    }
  }
}
