/** Filtering, paging and stable descending sorting of lists, and a fact about singleton sets. */
module Sequences {

  /** The elements of `s` that `keep` accepts, in their original order. */
  function Filter<T>(s: seq<T>, keep: T -> bool): (r: seq<T>)
    ensures |r| <= |s|
    ensures forall x :: x in r ==> x in s && keep(x)
  {
    if s == [] then [] else (if keep(s[0]) then [s[0]] else []) + Filter(s[1..], keep)
  }

  /** The filter keeps exactly the elements of `s` that `keep` accepts. */
  lemma {:induction false} FilterMembership<T>(s: seq<T>, keep: T -> bool)
    ensures forall x :: x in Filter(s, keep) <==> x in s && keep(x)
  {
    if s != [] {
      FilterMembership(s[1..], keep);
      assert s == [s[0]] + s[1..];
    }
  }

  /** Filters that agree on every element of `s` select the same list. */
  lemma {:induction false} FilterCongruence<T>(s: seq<T>, f: T -> bool, g: T -> bool)
    requires forall x :: x in s ==> f(x) == g(x)
    ensures Filter(s, f) == Filter(s, g)
  {
    if s != [] {
      FilterCongruence(s[1..], f, g);
    }
  }

  lemma {:induction false} FilterConcat<T>(a: seq<T>, b: seq<T>, keep: T -> bool)
    ensures Filter(a + b, keep) == Filter(a, keep) + Filter(b, keep)
  {
    if a == [] {
      assert a + b == b;
    } else {
      assert (a + b)[1..] == a[1..] + b;
      FilterConcat(a[1..], b, keep);
    }
  }

  /** `a` can be obtained from `b` by deleting elements. */
  predicate SubseqOf<T(==)>(a: seq<T>, b: seq<T>)
    decreases |b|
  {
    if a == [] then true
    else if b == [] then false
    else (a[0] == b[0] && SubseqOf(a[1..], b[1..])) || SubseqOf(a, b[1..])
  }

  lemma {:induction false} FilterIsSubseq<T>(s: seq<T>, keep: T -> bool)
    ensures SubseqOf(Filter(s, keep), s)
  {
    if s != [] {
      FilterIsSubseq(s[1..], keep);
      var r := Filter(s, keep);
      if keep(s[0]) {
        assert r[0] == s[0] && r[1..] == Filter(s[1..], keep);
      } else {
        assert r == Filter(s[1..], keep);
      }
    }
  }

  /** A page request: skip `offset` elements, then take at most `size`. */
  datatype Pageable = Pageable(offset: nat, size: nat)

  function Min(a: int, b: int): int { if a <= b then a else b }

  /** The requested page of an already filtered list. */
  function Page<T>(s: seq<T>, pg: Pageable): (r: seq<T>)
    ensures |r| <= pg.size
    ensures |r| == Min(pg.offset + pg.size, |s|) - Min(pg.offset, |s|)
    ensures forall x :: x in r ==> x in s
    ensures pg.offset + pg.size <= |s| ==> |r| == pg.size
    ensures pg.offset >= |s| ==> r == []
    ensures forall i :: 0 <= i < |r| ==> pg.offset + i < |s| && r[i] == s[pg.offset + i]
  {
    s[Min(pg.offset, |s|)..Min(pg.offset + pg.size, |s|)]
  }

  /** A set of one element is that element's singleton. */
  lemma OnlyElement<T>(m: set<T>, x: T)
    requires |m| == 1 && x in m
    ensures m == {x}
  {
    assert |m - {x}| == 0;
  }

  /** Non-increasing by `key`. */
  predicate SortedDesc<T>(s: seq<T>, key: T -> int)
  {
    forall i, j :: 0 <= i < j < |s| ==> key(s[i]) >= key(s[j])
  }

  /** The elements of `s` whose key is `k`, in their order in `s`. */
  function WithKey<T>(s: seq<T>, key: T -> int, k: int): seq<T>
  {
    Filter(s, x => key(x) == k)
  }

  /** Places `x` after every leading element of `t` whose key is at least `key(x)`. */
  function InsertByKey<T>(t: seq<T>, x: T, key: T -> int): (r: seq<T>)
  {
    if t == [] then [x]
    else if key(t[0]) >= key(x) then [t[0]] + InsertByKey(t[1..], x, key)
    else [x] + t
  }

  /** Stable sort by `key`, largest first: each element is inserted, in list order, after the
      equal-keyed ones already placed. This is the order `List.sort` yields for a comparator
      that compares keys in reverse. */
  function SortByKeyDesc<T>(s: seq<T>, key: T -> int): seq<T>
  {
    if s == [] then [] else InsertByKey(SortByKeyDesc(s[..|s| - 1], key), s[|s| - 1], key)
  }

  lemma {:induction false} InsertByKeyMultiset<T>(t: seq<T>, x: T, key: T -> int)
    ensures multiset(InsertByKey(t, x, key)) == multiset(t) + multiset{x}
  {
    if t != [] && key(t[0]) >= key(x) {
      InsertByKeyMultiset(t[1..], x, key);
      assert t == [t[0]] + t[1..];
    }
  }

  /** Inserting never raises the largest key above a common bound. */
  lemma {:induction false} InsertByKeyBound<T>(t: seq<T>, x: T, key: T -> int, b: int)
    requires forall m :: 0 <= m < |t| ==> key(t[m]) <= b
    requires key(x) <= b
    ensures forall m :: 0 <= m < |InsertByKey(t, x, key)| ==> key(InsertByKey(t, x, key)[m]) <= b
  {
    if t != [] && key(t[0]) >= key(x) {
      InsertByKeyBound(t[1..], x, key, b);
    }
  }

  lemma {:induction false} InsertByKeySorted<T>(t: seq<T>, x: T, key: T -> int)
    requires SortedDesc(t, key)
    ensures SortedDesc(InsertByKey(t, x, key), key)
  {
    if t != [] && key(t[0]) >= key(x) {
      var r, r' := InsertByKey(t, x, key), InsertByKey(t[1..], x, key);
      InsertByKeySorted(t[1..], x, key);
      InsertByKeyBound(t[1..], x, key, key(t[0]));
      assert r == [t[0]] + r';
      forall i, j | 0 <= i < j < |r| ensures key(r[i]) >= key(r[j]) {
        assert r[j] == r'[j - 1];
        if i > 0 {
          assert r[i] == r'[i - 1];
        }
      }
    }
  }

  /** A list whose keys are all below `k` has no element with key `k`. */
  lemma {:induction false} NoneWithKey<T>(t: seq<T>, key: T -> int, k: int)
    requires forall m :: 0 <= m < |t| ==> key(t[m]) < k
    ensures WithKey(t, key, k) == []
  {
    if t != [] {
      NoneWithKey(t[1..], key, k);
    }
  }

  lemma WithKeyOne<T>(x: T, key: T -> int, k: int)
    ensures WithKey([x], key, k) == if key(x) == k then [x] else []
  {
    assert [x][1..] == [];
  }

  /** An element whose key beats every key of a sorted list goes in front without changing the
      order of any key's elements. */
  lemma InsertInFrontStable<T>(t: seq<T>, x: T, key: T -> int, k: int)
    requires SortedDesc(t, key)
    requires t != [] && key(t[0]) < key(x)
    ensures WithKey([x] + t, key, k) == WithKey(t, key, k) + WithKey([x], key, k)
  {
    FilterConcat([x], t, y => key(y) == k);
    WithKeyOne(x, key, k);
    if key(x) == k {
      forall m | 0 <= m < |t| ensures key(t[m]) < k {
        assert m == 0 || key(t[0]) >= key(t[m]);
      }
      NoneWithKey(t, key, k);
    }
  }

  lemma {:induction false} InsertByKeyStable<T>(t: seq<T>, x: T, key: T -> int, k: int)
    requires SortedDesc(t, key)
    ensures WithKey(InsertByKey(t, x, key), key, k) == WithKey(t, key, k) + WithKey([x], key, k)
  {
    if t == [] {
      assert WithKey(t, key, k) == [];
    } else if key(t[0]) >= key(x) {
      var r' := InsertByKey(t[1..], x, key);
      InsertByKeyStable(t[1..], x, key, k);
      assert InsertByKey(t, x, key) == [t[0]] + r';
      assert t == [t[0]] + t[1..];
      FilterConcat([t[0]], r', y => key(y) == k);
      FilterConcat([t[0]], t[1..], y => key(y) == k);
    } else {
      InsertInFrontStable(t, x, key, k);
    }
  }

  /** The stable sort orders its input by non-increasing key, keeps exactly the same elements,
      and keeps the input order among elements whose keys are equal. */
  lemma {:induction false} SortByKeyDescIsStableSort<T>(s: seq<T>, key: T -> int)
    ensures SortedDesc(SortByKeyDesc(s, key), key)
    ensures multiset(SortByKeyDesc(s, key)) == multiset(s)
    ensures forall k :: WithKey(SortByKeyDesc(s, key), key, k) == WithKey(s, key, k)
  {
    if s != [] {
      var init, last := s[..|s| - 1], s[|s| - 1];
      SortByKeyDescIsStableSort(init, key);
      InsertByKeySorted(SortByKeyDesc(init, key), last, key);
      InsertByKeyMultiset(SortByKeyDesc(init, key), last, key);
      assert s == init + [last];
      forall k ensures WithKey(SortByKeyDesc(s, key), key, k) == WithKey(s, key, k) {
        InsertByKeyStable(SortByKeyDesc(init, key), last, key, k);
        FilterConcat(init, [last], y => key(y) == k);
      }
    }
  }

  /** Where the scan of a sorted list for `x` stops, `InsertByKey` puts `x`. */
  lemma {:induction false} InsertByKeyAt<T>(t: seq<T>, x: T, key: T -> int, j: nat)
    requires j <= |t|
    requires forall m :: 0 <= m < j ==> key(t[m]) >= key(x)
    requires forall m :: j <= m < |t| ==> key(t[m]) < key(x)
    ensures InsertByKey(t, x, key) == t[..j] + [x] + t[j..]
  {
    if t != [] && j > 0 {
      InsertByKeyAt(t[1..], x, key, j - 1);
      assert t[1..][..j - 1] == t[1..j];
      assert t[..j] == [t[0]] + t[1..j];
      assert t[1..][j - 1..] == t[j..];
    }
  }

  /** One insertion step: shifts the smaller-keyed tail of the sorted prefix `a[..i]` right by one
      and drops `a[i]` into the gap. */
  method InsertLast<T>(a: array<T>, i: nat, key: T -> int)
    requires i < a.Length
    requires SortedDesc(a[..i], key)
    modifies a
    ensures a[..i + 1] == InsertByKey(old(a[..i]), old(a[i]), key)
    ensures forall m :: i < m < a.Length ==> a[m] == old(a[m])
  {
    ghost var t := a[..i];
    var x := a[i];
    var j := i;
    while j > 0 && key(a[j - 1]) < key(x)
      invariant 0 <= j <= i
      invariant forall m :: 0 <= m < j ==> a[m] == t[m]
      invariant forall m :: j < m <= i ==> a[m] == t[m - 1]
      invariant forall m :: i < m < a.Length ==> a[m] == old(a[m])
      invariant forall m :: j <= m < i ==> key(t[m]) < key(x)
    {
      a[j] := a[j - 1];
      j := j - 1;
    }
    a[j] := x;
    InsertByKeyStop(t, x, key, j);
    Spliced(a[..i + 1], t, x, j);
  }

  /** A list that holds `t[..j]`, then `x`, then the rest of `t`, element by element, is that
      concatenation. */
  lemma Spliced<T>(r: seq<T>, t: seq<T>, x: T, j: nat)
    requires j <= |t| && |r| == |t| + 1
    requires forall m :: 0 <= m < j ==> r[m] == t[m]
    requires r[j] == x
    requires forall m :: j < m < |r| ==> r[m] == t[m - 1]
    ensures r == t[..j] + [x] + t[j..]
  {
  }

  /** Where the backward scan of a sorted list stops, every earlier key is at least `key(x)`, so
      that is where `InsertByKey` puts `x`. */
  lemma InsertByKeyStop<T>(t: seq<T>, x: T, key: T -> int, j: nat)
    requires SortedDesc(t, key)
    requires j <= |t|
    requires j == 0 || key(t[j - 1]) >= key(x)
    requires forall m :: j <= m < |t| ==> key(t[m]) < key(x)
    ensures InsertByKey(t, x, key) == t[..j] + [x] + t[j..]
  {
    forall m | 0 <= m < j ensures key(t[m]) >= key(x) {
      assert m == j - 1 || key(t[m]) >= key(t[j - 1]);
    }
    InsertByKeyAt(t, x, key, j);
  }

  /** Sorting one more element of `s` inserts it into the sorted shorter prefix. */
  lemma SortByKeyDescStep<T>(s: seq<T>, i: nat, key: T -> int)
    requires i < |s|
    ensures SortedDesc(SortByKeyDesc(s[..i], key), key)
    ensures SortByKeyDesc(s[..i + 1], key) == InsertByKey(SortByKeyDesc(s[..i], key), s[i], key)
  {
    SortByKeyDescIsStableSort(s[..i], key);
    assert s[..i + 1][..i] == s[..i];
  }

  /** Sorts `a` in place, stably, largest key first (insertion sort). */
  method SortInPlace<T>(a: array<T>, key: T -> int)
    modifies a
    ensures a[..] == SortByKeyDesc(old(a[..]), key)
  {
    ghost var s := a[..];
    var i := 0;
    while i < a.Length
      invariant 0 <= i <= a.Length
      invariant a[..i] == SortByKeyDesc(s[..i], key)
      invariant forall m :: i <= m < a.Length ==> a[m] == s[m]
    {
      SortByKeyDescStep(s, i, key);
      InsertLast(a, i, key);
      i := i + 1;
    }
    assert a[..] == a[..a.Length] && s == s[..a.Length];
  }
}
