/** A stable insertion sort by an extended-real key. It stands for Rust's
    `sort_by`/`sort_unstable_by` and C++ `std::sort` with a key comparator: the
    contracts the model relies on (the output is a permutation of the input and is
    ordered by the key) hold of every such sort. */
module Sorting {
  import opened ExtReals

  ghost predicate SortedBy<T>(s: seq<T>, key: T -> ExtReal) {
    forall i, j :: 0 <= i < j < |s| ==> Le(key(s[i]), key(s[j]))
  }

  /** Inserting an element no greater than `bound` into elements no greater than
      `bound` gives elements no greater than `bound`. */
  lemma InsertBounded<T>(s: seq<T>, x: T, key: T -> ExtReal, bound: ExtReal)
    requires SortedBy(s, key)
    requires forall k :: 0 <= k < |s| ==> Le(key(s[k]), bound)
    requires Le(key(x), bound)
    ensures forall i :: 0 <= i < |Insert(s, x, key)| ==> Le(key(Insert(s, x, key)[i]), bound)
    decreases |s|, 1
  {
    var r := Insert(s, x, key);
    forall i | 0 <= i < |r|
      ensures Le(key(r[i]), bound)
    {
      assert r[i] in multiset(r);
      if r[i] != x {
        assert r[i] in multiset(s);
        var k :| 0 <= k < |s| && s[k] == r[i];
      }
    }
  }

  /** Inserts `x` after every element whose key is at most `key(x)`. */
  function Insert<T>(s: seq<T>, x: T, key: T -> ExtReal): (r: seq<T>)
    requires SortedBy(s, key)
    ensures SortedBy(r, key)
    ensures multiset(r) == multiset(s) + multiset{x}
    ensures |r| == |s| + 1
    decreases |s|, 0
  {
    if |s| == 0 then [x]
    else if Le(key(s[|s| - 1]), key(x)) then s + [x]
    else
      var last := s[|s| - 1];
      var init := s[..|s| - 1];
      assert s == init + [last];
      var r' := Insert(init, x, key);
      LeTotal(key(x), key(last));
      InsertBounded(init, x, key, key(last));
      r' + [last]
  }

  function SortBy<T>(s: seq<T>, key: T -> ExtReal): (r: seq<T>)
    ensures SortedBy(r, key)
    ensures multiset(r) == multiset(s)
    ensures |r| == |s|
  {
    if |s| == 0 then []
    else
      assert s == s[..|s| - 1] + [s[|s| - 1]];
      Insert(SortBy(s[..|s| - 1], key), s[|s| - 1], key)
  }

  /** Elements of `s` with the same key are the same element. */
  ghost predicate KeyInjective<T>(s: seq<T>, key: T -> ExtReal) {
    forall i, j :: 0 <= i < |s| && 0 <= j < |s| && key(s[i]) == key(s[j]) ==> s[i] == s[j]
  }

  lemma KeyInjectivePermutation<T>(a: seq<T>, b: seq<T>, key: T -> ExtReal)
    requires multiset(a) == multiset(b)
    requires KeyInjective(a, key)
    ensures KeyInjective(b, key)
  {
    forall i, j | 0 <= i < |b| && 0 <= j < |b| && key(b[i]) == key(b[j])
      ensures b[i] == b[j]
    {
      assert b[i] in multiset(a);
      assert b[j] in multiset(a);
      var p :| 0 <= p < |a| && a[p] == b[i];
      var q :| 0 <= q < |a| && a[q] == b[j];
    }
  }

  /** Sorting by a key that tells the elements apart is canonical: every permutation
      of the same elements sorts to the same sequence. */
  lemma {:induction false} SortCanonical<T>(a: seq<T>, b: seq<T>, key: T -> ExtReal)
    requires multiset(a) == multiset(b)
    requires KeyInjective(a, key)
    ensures SortBy(a, key) == SortBy(b, key)
  {
    var sa := SortBy(a, key);
    KeyInjectivePermutation(a, sa, key);
    SortedUnique(sa, SortBy(b, key), key);
  }

  /** Two key-sorted sequences with the same elements, whose key tells the elements
      apart, are equal. */
  lemma {:induction false} SortedUnique<T>(a: seq<T>, b: seq<T>, key: T -> ExtReal)
    requires SortedBy(a, key) && SortedBy(b, key)
    requires multiset(a) == multiset(b)
    requires KeyInjective(a, key)
    ensures a == b
    decreases |a|
  {
    assert |a| == |multiset(a)| == |b|;
    if |a| > 0 {
      var n := |a| - 1;
      SameLast(a, b, key);
      DropLast(a, b);
      KeyInjectivePrefix(a, n, key);
      SortedUnique(a[..n], b[..n], key);
      assert a == a[..n] + [a[n]];
      assert b == b[..n] + [b[n]];
    }
  }

  lemma SameLast<T>(a: seq<T>, b: seq<T>, key: T -> ExtReal)
    requires |a| == |b| > 0
    requires SortedBy(a, key) && SortedBy(b, key)
    requires multiset(a) == multiset(b)
    requires KeyInjective(a, key)
    ensures a[|a| - 1] == b[|b| - 1]
  {
    var n := |a| - 1;
    assert a[n] in multiset(b);
    var j :| 0 <= j < |b| && b[j] == a[n];
    assert b[n] in multiset(a);
    var i :| 0 <= i < |a| && a[i] == b[n];
    assert Le(key(a[n]), key(b[n])) by {
      if j < n { assert Le(key(b[j]), key(b[n])); }
    }
    assert Le(key(b[n]), key(a[n])) by {
      if i < n { assert Le(key(a[i]), key(a[n])); }
    }
    LeAntisym(key(a[n]), key(b[n]));
    assert key(a[i]) == key(a[n]);
  }

  lemma DropLast<T>(a: seq<T>, b: seq<T>)
    requires |a| == |b| > 0
    requires multiset(a) == multiset(b)
    requires a[|a| - 1] == b[|b| - 1]
    ensures multiset(a[..|a| - 1]) == multiset(b[..|b| - 1])
  {
    var n := |a| - 1;
    assert a == a[..n] + [a[n]];
    assert b == b[..n] + [b[n]];
    assert multiset(a[..n]) == multiset(a) - multiset{a[n]};
    assert multiset(b[..n]) == multiset(b) - multiset{b[n]};
  }

  lemma KeyInjectivePrefix<T>(a: seq<T>, n: nat, key: T -> ExtReal)
    requires n <= |a|
    requires KeyInjective(a, key)
    ensures KeyInjective(a[..n], key)
  {
    forall p, q | 0 <= p < n && 0 <= q < n && key(a[..n][p]) == key(a[..n][q])
      ensures a[..n][p] == a[..n][q]
    {
      assert a[..n][p] == a[p] && a[..n][q] == a[q];
    }
  }

  /** Sorting a sequence that is already ordered by the key leaves it unchanged, so
      sorting twice by the same key is the same as sorting once. */
  lemma {:induction false} SortSortedIdentity<T>(s: seq<T>, key: T -> ExtReal)
    requires SortedBy(s, key)
    ensures SortBy(s, key) == s
    decreases |s|
  {
    if |s| > 0 {
      var init, x := s[..|s| - 1], s[|s| - 1];
      assert SortedBy(init, key);
      SortSortedIdentity(init, key);
      assert SortBy(s, key) == Insert(init, x, key);
      if |init| > 0 {
        assert Le(key(init[|init| - 1]), key(x));
      }
      assert Insert(init, x, key) == init + [x];
      assert s == init + [x];
    }
  }
}
