/** Java's natural ordering of strings and the stable sort that both `Arrays.sort` on objects
    and `Stream.sorted` perform when they order records by a string key. */
module Sorting {
  import opened Sequences

  /** `String.compareTo(a, b) <= 0`: lexicographic comparison character by character, where a
      proper prefix comes first. */
  predicate LexLe(a: string, b: string)
    decreases |a|
  {
    |a| == 0 || (|b| > 0 && (a[0] < b[0] || (a[0] == b[0] && LexLe(a[1..], b[1..]))))
  }

  lemma {:induction false} LexLeReflexive(a: string)
    ensures LexLe(a, a)
    decreases |a|
  {
    if |a| > 0 {
      LexLeReflexive(a[1..]);
    }
  }

  lemma {:induction false} LexLeAntisymmetric(a: string, b: string)
    requires LexLe(a, b) && LexLe(b, a)
    ensures a == b
    decreases |a|
  {
    if |a| > 0 && |b| > 0 && a[0] == b[0] {
      LexLeAntisymmetric(a[1..], b[1..]);
      assert a == [a[0]] + a[1..] && b == [b[0]] + b[1..];
    }
  }

  lemma {:induction false} LexLeTransitive(a: string, b: string, c: string)
    requires LexLe(a, b) && LexLe(b, c)
    ensures LexLe(a, c)
    decreases |a|
  {
    if |a| > 0 && a[0] == b[0] && b[0] == c[0] {
      LexLeTransitive(a[1..], b[1..], c[1..]);
    }
  }

  lemma {:induction false} LexLeTotal(a: string, b: string)
    ensures LexLe(a, b) || LexLe(b, a)
    decreases |a|
  {
    if |a| > 0 && |b| > 0 && a[0] == b[0] {
      LexLeTotal(a[1..], b[1..]);
    }
  }

  /** Java's `String.compareTo` from index `k` on: the difference of the first characters that
      differ, or else the difference of the lengths. */
  function CompareFrom(a: string, b: string, k: nat): int
    requires k <= |a| && k <= |b|
    decreases |a| - k
  {
    if k == |a| || k == |b| then |a| - |b|
    else if a[k] != b[k] then a[k] as int - b[k] as int
    else CompareFrom(a, b, k + 1)
  }

  /** `LexLe` is `compareTo(a, b) <= 0`. */
  lemma {:induction false} LexLeIsCompareTo(a: string, b: string)
    ensures LexLe(a, b) <==> CompareFrom(a, b, 0) <= 0
  {
    assert a[0..] == a && b[0..] == b;
    LexLeIsCompareToFrom(a, b, 0);
  }

  lemma {:induction false} LexLeIsCompareToFrom(a: string, b: string, k: nat)
    requires k <= |a| && k <= |b|
    ensures LexLe(a[k..], b[k..]) <==> CompareFrom(a, b, k) <= 0
    decreases |a| - k
  {
    if k < |a| && k < |b| {
      assert a[k..][0] == a[k] && b[k..][0] == b[k];
      if a[k] == b[k] {
        assert a[k..][1..] == a[k + 1..] && b[k..][1..] == b[k + 1..];
        LexLeIsCompareToFrom(a, b, k + 1);
      }
    }
  }

  /** `s` is in ascending order of `key`. */
  ghost predicate SortedBy<T>(s: seq<T>, key: T -> string) {
    forall i, j :: 0 <= i < j < |s| ==> LexLe(key(s[i]), key(s[j]))
  }

  /** The elements of `s` whose key is `k`, in their order in `s`. A sort is stable when it
      keeps this sequence unchanged for every `k`. */
  function KeyFilter<T>(s: seq<T>, key: T -> string, k: string): seq<T> {
    if s == [] then []
    else KeyFilter(s[..|s| - 1], key, k) + (if key(s[|s| - 1]) == k then [s[|s| - 1]] else [])
  }

  /** Inserts `x` behind every trailing element whose key is not greater than `x`'s key. */
  function Insert<T>(s: seq<T>, x: T, key: T -> string): seq<T> {
    if s == [] || LexLe(key(s[|s| - 1]), key(x)) then s + [x]
    else Insert(s[..|s| - 1], x, key) + [s[|s| - 1]]
  }

  /** Stable sort by `key` (insertion sort, taking the elements in their order in `s`). */
  function SortByKey<T>(s: seq<T>, key: T -> string): seq<T> {
    if s == [] then [] else Insert(SortByKey(s[..|s| - 1], key), s[|s| - 1], key)
  }

  lemma {:induction false} InsertMultiset<T>(s: seq<T>, x: T, key: T -> string)
    ensures multiset(Insert(s, x, key)) == multiset(s) + multiset{x}
    decreases |s|
  {
    if !(s == [] || LexLe(key(s[|s| - 1]), key(x))) {
      InsertMultiset(s[..|s| - 1], x, key);
      assert s == s[..|s| - 1] + [s[|s| - 1]];
    }
  }

  /** The sort returns a permutation of its input. */
  lemma {:induction false} SortByKeyPermutation<T>(s: seq<T>, key: T -> string)
    ensures multiset(SortByKey(s, key)) == multiset(s)
    decreases |s|
  {
    if s != [] {
      SortByKeyPermutation(s[..|s| - 1], key);
      InsertMultiset(SortByKey(s[..|s| - 1], key), s[|s| - 1], key);
      assert s == s[..|s| - 1] + [s[|s| - 1]];
    }
  }

  lemma {:induction false} InsertSorted<T>(s: seq<T>, x: T, key: T -> string)
    requires SortedBy(s, key)
    ensures SortedBy(Insert(s, x, key), key)
    decreases |s|
  {
    var r := Insert(s, x, key);
    if s == [] || LexLe(key(s[|s| - 1]), key(x)) {
      forall i, j | 0 <= i < j < |r| ensures LexLe(key(r[i]), key(r[j])) {
        if j == |s| && i < |s| - 1 {
          LexLeTransitive(key(s[i]), key(s[|s| - 1]), key(x));
        }
      }
    } else {
      var s', last := s[..|s| - 1], s[|s| - 1];
      var r' := Insert(s', x, key);
      InsertSorted(s', x, key);
      InsertMultiset(s', x, key);
      LexLeTotal(key(last), key(x));
      forall i, j | 0 <= i < j < |r| ensures LexLe(key(r[i]), key(r[j])) {
        if j == |r| - 1 {
          assert r[i] in multiset(r');
          if r[i] in multiset(s') {
            var m :| 0 <= m < |s'| && s'[m] == r[i];
          }
        }
      }
    }
  }

  /** The sort returns its input in ascending order of `key`. */
  lemma {:induction false} SortByKeySorted<T>(s: seq<T>, key: T -> string)
    ensures SortedBy(SortByKey(s, key), key)
    decreases |s|
  {
    if s != [] {
      SortByKeySorted(s[..|s| - 1], key);
      InsertSorted(SortByKey(s[..|s| - 1], key), s[|s| - 1], key);
    }
  }

  lemma {:induction false} KeyFilterSnoc<T>(s: seq<T>, y: T, key: T -> string, k: string)
    ensures KeyFilter(s + [y], key, k) == KeyFilter(s, key, k) + (if key(y) == k then [y] else [])
  {
    assert (s + [y])[..|s|] == s;
  }

  lemma {:induction false} InsertKeyFilter<T>(s: seq<T>, x: T, key: T -> string, k: string)
    ensures KeyFilter(Insert(s, x, key), key, k) == KeyFilter(s, key, k) + (if key(x) == k then [x] else [])
    decreases |s|
  {
    if s == [] || LexLe(key(s[|s| - 1]), key(x)) {
      KeyFilterSnoc(s, x, key, k);
    } else {
      var s', last := s[..|s| - 1], s[|s| - 1];
      InsertKeyFilter(s', x, key, k);
      LexLeReflexive(key(x));
      assert key(last) != key(x);
      KeyFilterSnoc(Insert(s', x, key), last, key, k);
      assert s == s' + [last];
      KeyFilterSnoc(s', last, key, k);
      // at most one of `x` and `last` has key `k`, so their order does not matter here
      var tx, tl := if key(x) == k then [x] else [], if key(last) == k then [last] else [];
      assert tx + tl == tl + tx;
      assert KeyFilter(s', key, k) + tx + tl == (KeyFilter(s', key, k) + tl) + tx;
    }
  }

  /** The sort is stable: elements with equal keys keep their relative order. */
  lemma {:induction false} SortByKeyStable<T>(s: seq<T>, key: T -> string, k: string)
    ensures KeyFilter(SortByKey(s, key), key, k) == KeyFilter(s, key, k)
    decreases |s|
  {
    if s != [] {
      SortByKeyStable(s[..|s| - 1], key, k);
      InsertKeyFilter(SortByKey(s[..|s| - 1], key), s[|s| - 1], key, k);
    }
  }

  lemma {:induction false} KeyFilterMembership<T>(s: seq<T>, key: T -> string, k: string, x: T)
    requires x in KeyFilter(s, key, k)
    ensures x in s && key(x) == k
    decreases |s|
  {
    var s' := s[..|s| - 1];
    if x in KeyFilter(s', key, k) {
      KeyFilterMembership(s', key, k, x);
      assert s == s' + [s[|s| - 1]];
    }
  }

  /** Two sequences that are both sorted by `key` and agree on the elements of every key, in
      order, are equal. */
  lemma {:induction false} StableSortedUnique<T>(r1: seq<T>, r2: seq<T>, key: T -> string)
    requires SortedBy(r1, key) && SortedBy(r2, key)
    requires forall k :: KeyFilter(r1, key, k) == KeyFilter(r2, key, k)
    ensures r1 == r2
    decreases |r1| + |r2|
  {
    if r1 == [] && r2 != [] {
      LastKeysEqual(r2, r1, key);
    } else if r1 != [] {
      // each side's last element has a key that also occurs on the other side, and no key
      // on a side exceeds its last element's key, so both last keys are equal
      LastKeysEqual(r1, r2, key);
      LastKeysEqual(r2, r1, key);
      var a, b := r1[|r1| - 1], r2[|r2| - 1];
      LexLeAntisymmetric(key(a), key(b));
      var r1', r2' := r1[..|r1| - 1], r2[..|r2| - 1];
      assert KeyFilter(r1, key, key(a)) == KeyFilter(r1', key, key(a)) + [a];
      assert KeyFilter(r2, key, key(a)) == KeyFilter(r2', key, key(a)) + [b];
      assert KeyFilter(r1, key, key(a)) == KeyFilter(r2, key, key(a));
      var f1, f2 := KeyFilter(r1', key, key(a)), KeyFilter(r2', key, key(a));
      assert |f1| == |f2| && (f1 + [a])[|f1|] == a && (f2 + [b])[|f2|] == b;
      forall k ensures KeyFilter(r1', key, k) == KeyFilter(r2', key, k) {
        var tail := if key(a) == k then [a] else [];
        assert KeyFilter(r1, key, k) == KeyFilter(r1', key, k) + tail;
        assert KeyFilter(r2, key, k) == KeyFilter(r2', key, k) + tail;
        assert KeyFilter(r1, key, k) == KeyFilter(r2, key, k);
        SuffixCancel(KeyFilter(r1', key, k), KeyFilter(r2', key, k), tail);
      }
      StableSortedUnique(r1', r2', key);
      assert r1 == r1' + [a] && r2 == r2' + [b];
    }
  }

  lemma {:induction false} SuffixCancel<T>(x: seq<T>, y: seq<T>, t: seq<T>)
    requires x + t == y + t
    ensures x == y
  {
    assert |x| == |y|;
    assert x == (x + t)[..|x|] && y == (y + t)[..|y|];
  }

  lemma {:induction false} LastKeysEqual<T>(r1: seq<T>, r2: seq<T>, key: T -> string)
    requires SortedBy(r2, key) && r1 != []
    requires forall k :: KeyFilter(r1, key, k) == KeyFilter(r2, key, k)
    ensures r2 != [] && LexLe(key(r1[|r1| - 1]), key(r2[|r2| - 1]))
  {
    var a := r1[|r1| - 1];
    assert a in KeyFilter(r1, key, key(a));
    assert a in KeyFilter(r2, key, key(a));
    KeyFilterMembership(r2, key, key(a), a);
    var m :| 0 <= m < |r2| && r2[m] == a;
    if m == |r2| - 1 {
      LexLeReflexive(key(a));
    }
  }

  /** Any stable sort yields `SortByKey`: a sorted result that keeps, for every key, the input's
      elements of that key in their input order is `SortByKey` of the input. */
  lemma {:induction false} SortByKeyIsTheStableSort<T>(s: seq<T>, r: seq<T>, key: T -> string)
    requires SortedBy(r, key)
    requires forall k :: KeyFilter(r, key, k) == KeyFilter(s, key, k)
    ensures r == SortByKey(s, key)
  {
    SortByKeySorted(s, key);
    forall k ensures KeyFilter(r, key, k) == KeyFilter(SortByKey(s, key), key, k) {
      SortByKeyStable(s, key, k);
    }
    StableSortedUnique(r, SortByKey(s, key), key);
  }

  /** What a stable sort by `key` promises, in one place: a permutation of `s`, ascending by
      `key`, in which elements of equal key keep their order in `s`. */
  lemma {:induction false} SortByKeyProperties<T>(s: seq<T>, key: T -> string)
    ensures multiset(SortByKey(s, key)) == multiset(s)
    ensures SortedBy(SortByKey(s, key), key)
    ensures forall k :: KeyFilter(SortByKey(s, key), key, k) == KeyFilter(s, key, k)
  {
    SortByKeyPermutation(s, key);
    SortByKeySorted(s, key);
    forall k ensures KeyFilter(SortByKey(s, key), key, k) == KeyFilter(s, key, k) {
      SortByKeyStable(s, key, k);
    }
  }

  /** Filtering keeps a sorted sequence sorted. */
  lemma {:induction false} FilterSortedBy<T>(s: seq<T>, p: T -> bool, key: T -> string)
    requires SortedBy(s, key)
    ensures SortedBy(Filter(s, p), key)
    decreases |s|
  {
    if s != [] {
      var s', last := s[..|s| - 1], s[|s| - 1];
      FilterSortedBy(s', p, key);
      var f := Filter(s', p);
      if p(last) {
        forall i | 0 <= i < |f| ensures LexLe(key(f[i]), key(last)) {
          FilterMembership(s', p, f[i]);
          var m :| 0 <= m < |s'| && s'[m] == f[i];
        }
      }
    }
  }

  /** `x` is inserted at `j` when the element before `j` (if any) has a key not greater than
      `x`'s and every element from `j` on has a greater one. */
  lemma {:induction false} InsertAt<T>(sorted: seq<T>, x: T, key: T -> string, j: nat)
    requires j <= |sorted| && (j == 0 || LexLe(key(sorted[j - 1]), key(x)))
    requires forall k :: j <= k < |sorted| ==> !LexLe(key(sorted[k]), key(x))
    ensures Insert(sorted, x, key) == sorted[..j] + [x] + sorted[j..]
    decreases |sorted| - j
  {
    if j == |sorted| {
      assert Insert(sorted, x, key) == sorted + [x];
      assert sorted[..j] == sorted && sorted[j..] == [];
    } else {
      var s', last := sorted[..|sorted| - 1], sorted[|sorted| - 1];
      assert !LexLe(key(last), key(x));
      assert Insert(sorted, x, key) == Insert(s', x, key) + [last];
      assert j == 0 || LexLe(key(s'[j - 1]), key(x)) by {
        if j > 0 {
          assert s'[j - 1] == sorted[j - 1];
        }
      }
      forall k | j <= k < |s'| ensures !LexLe(key(s'[k]), key(x)) {
        assert s'[k] == sorted[k];
      }
      InsertAt(s', x, key, j);
      assert s'[..j] == sorted[..j] && s'[j..] + [last] == sorted[j..];
    }
  }

  /** Moves `a[i]` left into the sorted prefix `a[..i]`, as one pass of insertion sort does. */
  method InsertInPlace<T>(a: array<T>, i: nat, key: T -> string)
    requires i < a.Length
    modifies a
    ensures a[..i + 1] == Insert(old(a[..i]), old(a[i]), key)
    ensures a[i + 1..] == old(a[i + 1..])
  {
    var x := a[i];
    ghost var sorted, rest := a[..i], a[i + 1..];
    var j := i;
    while j > 0 && !LexLe(key(a[j - 1]), key(x))
      invariant 0 <= j <= i
      invariant forall k :: 0 <= k < j ==> a[k] == sorted[k]
      invariant forall k :: j < k <= i ==> a[k] == sorted[k - 1]
      invariant forall k :: i < k < a.Length ==> a[k] == rest[k - i - 1]
      invariant forall k :: j <= k < i ==> !LexLe(key(sorted[k]), key(x))
    {
      a[j] := a[j - 1];
      j := j - 1;
    }
    InsertAt(sorted, x, key, j);
    a[j] := x;
    assert a[..i + 1] == sorted[..j] + [x] + sorted[j..];
    assert a[i + 1..] == rest;
  }

  /** In-place insertion sort of `a` by `key`. */
  method SortInPlace<T>(a: array<T>, key: T -> string)
    modifies a
    ensures a[..] == SortByKey(old(a[..]), key)
  {
    ghost var s := a[..];
    var i := 0;
    while i < a.Length
      invariant 0 <= i <= a.Length
      invariant a[..i] == SortByKey(s[..i], key)
      invariant a[i..] == s[i..]
    {
      ghost var before := a[..];
      assert before[..i] == SortByKey(s[..i], key) && before[i] == s[i] && before[i + 1..] == s[i + 1..];
      InsertInPlace(a, i, key);
      assert s[..i + 1][..i] == s[..i];
      i := i + 1;
    }
    assert a[..] == a[..a.Length] && s == s[..a.Length];
  }
}
