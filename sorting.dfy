/**
 * A stable sort by a caller-supplied comparator, as `slice::sort_by` is used:
 * the in-place insertion sort, the functional sort that specifies it, and
 * what the sort guarantees when the comparator is an order.
 */
module Sorting {
  import opened Orderings

  /** `sorted` with `x` placed after every element that does not compare after it. */
  function Insert<T>(sorted: seq<T>, x: T, cmp: (T, T) -> Ordering): (r: seq<T>)
    ensures multiset(r) == multiset(sorted) + multiset{x}
    decreases |sorted|
  {
    if sorted == [] || cmp(sorted[|sorted| - 1], x) != Greater then sorted + [x]
    else
      var init := sorted[..|sorted| - 1];
      assert sorted == init + [sorted[|sorted| - 1]];
      Insert(init, x, cmp) + [sorted[|sorted| - 1]]
  }

  /** Stable insertion sort: each element in turn is inserted into the sorted prefix before it. */
  function InsertionSort<T>(s: seq<T>, cmp: (T, T) -> Ordering): (r: seq<T>)
    ensures multiset(r) == multiset(s)
  {
    if s == [] then []
    else
      assert s == s[..|s| - 1] + [s[|s| - 1]];
      Insert(InsertionSort(s[..|s| - 1], cmp), s[|s| - 1], cmp)
  }

  /** Sorts `a` in place; the result is `InsertionSort` of the old contents. */
  method SortBy<T>(a: array<T>, cmp: (T, T) -> Ordering)
    modifies a
    ensures a[..] == InsertionSort(old(a[..]), cmp)
  {
    ghost var s := a[..];
    var i := 0;
    while i < a.Length
      invariant 0 <= i <= a.Length
      invariant a[..i] == InsertionSort(s[..i], cmp)
      invariant forall k :: i <= k < a.Length ==> a[k] == s[k]
    {
      InsertAt(a, i, cmp);
      InsertionSortSnoc(s, i, cmp);
      i := i + 1;
    }
    assert a[..a.Length] == a[..];
    assert s[..a.Length] == s;
  }

  /** Moves `a[i]` left past the elements of `a[..i]` that compare after it. */
  method InsertAt<T>(a: array<T>, i: nat, cmp: (T, T) -> Ordering)
    requires i < a.Length
    modifies a
    ensures a[..i + 1] == Insert(old(a[..i]), old(a[i]), cmp)
    ensures forall k :: i < k < a.Length ==> a[k] == old(a[k])
  {
    var x := a[i];
    ghost var sorted := a[..i];
    var j := ShiftGreater(a, i, x, sorted, cmp);
    a[j] := x;
    SpliceAt(a[..i + 1], sorted, x, j);
    InsertPastGreater(sorted, x, j, cmp);
    InsertStops(sorted, x, j, cmp);
  }

  /**
   * Shifts the run of elements just below `i` that compare after `x` one place
   * up, and returns the slot left free below them; `sorted` names `a[..i]`.
   */
  method ShiftGreater<T>(a: array<T>, i: nat, x: T, ghost sorted: seq<T>, cmp: (T, T) -> Ordering) returns (j: nat)
    requires i < a.Length && sorted == a[..i]
    modifies a
    ensures j <= i && (j == 0 || cmp(sorted[j - 1], x) != Greater)
    ensures forall k :: j <= k < i ==> cmp(sorted[k], x) == Greater
    ensures forall k :: 0 <= k < a.Length && k != j ==> a[k] == Shifted(sorted, j, old(a[k]), k)
  {
    j := i;
    while j > 0 && cmp(a[j - 1], x) == Greater
      invariant 0 <= j <= i
      invariant forall k :: j <= k < i ==> cmp(sorted[k], x) == Greater
      invariant forall k :: 0 <= k < a.Length && k != j ==> a[k] == Shifted(sorted, j, old(a[k]), k)
    {
      assert a[j - 1] == sorted[j - 1];
      a[j] := a[j - 1];
      j := j - 1;
    }
  }

  /** What position `k` holds while the elements of `sorted` from `j` on sit one place up. */
  function Shifted<T>(sorted: seq<T>, j: nat, original: T, k: nat): T
    requires j <= |sorted|
  {
    if k < j then sorted[k] else if j < k <= |sorted| then sorted[k - 1] else original
  }

  /** Inserting `x` walks past a final run of elements that compare after it. */
  lemma {:induction false} InsertPastGreater<T>(sorted: seq<T>, x: T, j: nat, cmp: (T, T) -> Ordering)
    requires j <= |sorted| && forall k :: j <= k < |sorted| ==> cmp(sorted[k], x) == Greater
    ensures Insert(sorted, x, cmp) == Insert(sorted[..j], x, cmp) + sorted[j..]
    decreases |sorted| - j
  {
    if j < |sorted| {
      var n := |sorted|;
      var init, last := sorted[..n - 1], sorted[n - 1];
      assert cmp(last, x) == Greater;
      assert Insert(sorted, x, cmp) == Insert(init, x, cmp) + [last];
      forall k | j <= k < |init| ensures cmp(init[k], x) == Greater {
        assert init[k] == sorted[k];
      }
      InsertPastGreater(init, x, j, cmp);
      SliceOfInit(sorted, j);
      AppendAssoc(Insert(sorted[..j], x, cmp), init[j..], [last]);
    } else {
      assert sorted[..j] == sorted && sorted[j..] == [];
    }
  }

  lemma SliceOfInit<T>(s: seq<T>, j: nat)
    requires j < |s|
    ensures s[..|s| - 1][..j] == s[..j] && s[..|s| - 1][j..] + [s[|s| - 1]] == s[j..]
  {
    var t := s[..|s| - 1][j..] + [s[|s| - 1]];
    assert |t| == |s[j..]|;
    assert forall k :: 0 <= k < |t| ==> t[k] == s[j + k];
  }

  lemma AppendAssoc<T>(a: seq<T>, b: seq<T>, c: seq<T>)
    ensures (a + b) + c == a + (b + c)
  {
  }

  /** A sequence that agrees with `sorted` around position `j` and holds `x` there is that splice. */
  lemma SpliceAt<T>(b: seq<T>, sorted: seq<T>, x: T, j: nat)
    requires j <= |sorted| && |b| == |sorted| + 1 && b[j] == x
    requires forall k :: 0 <= k < j ==> b[k] == sorted[k]
    requires forall k :: j < k < |b| ==> b[k] == sorted[k - 1]
    ensures b == sorted[..j] + [x] + sorted[j..]
  {
  }

  /** The inner loop ends: `x` goes right after `sorted[..j]`. */
  lemma InsertStops<T>(sorted: seq<T>, x: T, j: nat, cmp: (T, T) -> Ordering)
    requires j <= |sorted| && (j == 0 || cmp(sorted[j - 1], x) != Greater)
    ensures Insert(sorted[..j], x, cmp) == sorted[..j] + [x]
  {
  }

  lemma InsertionSortSnoc<T>(s: seq<T>, i: nat, cmp: (T, T) -> Ordering)
    requires i < |s|
    ensures InsertionSort(s[..i + 1], cmp) == Insert(InsertionSort(s[..i], cmp), s[i], cmp)
  {
    assert s[..i + 1][..i] == s[..i];
  }

  predicate Sorted<T>(s: seq<T>, cmp: (T, T) -> Ordering) {
    forall i, j :: 0 <= i < j < |s| ==> cmp(s[i], s[j]) != Greater
  }

  /** Swapping the operands reverses the answer. */
  ghost predicate Antisymmetric<T(!new)>(cmp: (T, T) -> Ordering) {
    forall x, y :: cmp(y, x) == cmp(x, y).Reverse()
  }

  /** The comparator calls two values equal exactly when their keys are equal. */
  ghost predicate EqualMeansSameKey<T(!new), K>(cmp: (T, T) -> Ordering, key: T -> K) {
    forall x, y :: cmp(x, y) == Equal <==> key(x) == key(y)
  }

  /** "Not after" is transitive among the elements of `s`. */
  ghost predicate TransitiveOn<T(!new)>(s: seq<T>, cmp: (T, T) -> Ordering) {
    forall x, y, z :: x in s && y in s && z in s && cmp(x, y) != Greater && cmp(y, z) != Greater ==>
      cmp(x, z) != Greater
  }

  lemma TransitiveOnSubset<T(!new)>(s: seq<T>, t: seq<T>, cmp: (T, T) -> Ordering)
    requires TransitiveOn(s, cmp) && forall y :: y in t ==> y in s
    ensures TransitiveOn(t, cmp)
  {
  }

  lemma {:induction false} InsertSorted<T(!new)>(r: seq<T>, x: T, cmp: (T, T) -> Ordering)
    requires Antisymmetric(cmp) && TransitiveOn(r + [x], cmp)
    requires Sorted(r, cmp)
    ensures Sorted(Insert(r, x, cmp), cmp)
    decreases |r|
  {
    if r != [] {
      var n := |r|;
      var last := r[n - 1];
      if cmp(last, x) != Greater {
        BelowLastBelow(r, x, cmp);
        SortedSnoc(r, x, cmp);
      } else {
        var init := r[..n - 1];
        TransitiveOnSubset(r + [x], init + [x], cmp);
        InsertSorted(init, x, cmp);
        forall k | 0 <= k < |init| ensures cmp(init[k], last) != Greater {
          assert init[k] == r[k];
        }
        var t := Insert(init, x, cmp);
        InsertBelow(init, x, t, last, cmp);
        SortedSnoc(t, last, cmp);
      }
    }
  }

  /** When the last element of sorted `r` is not after `x`, no element of `r` is. */
  lemma BelowLastBelow<T(!new)>(r: seq<T>, x: T, cmp: (T, T) -> Ordering)
    requires r != [] && Sorted(r, cmp) && TransitiveOn(r + [x], cmp)
    requires cmp(r[|r| - 1], x) != Greater
    ensures forall i :: 0 <= i < |r| ==> cmp(r[i], x) != Greater
  {
    forall i | 0 <= i < |r| ensures cmp(r[i], x) != Greater {
      assert r[i] in r + [x] && r[|r| - 1] in r + [x] && x in r + [x];
    }
  }

  /** Appending an element no element compares after keeps a sequence sorted. */
  lemma SortedSnoc<T>(t: seq<T>, y: T, cmp: (T, T) -> Ordering)
    requires Sorted(t, cmp) && forall i :: 0 <= i < |t| ==> cmp(t[i], y) != Greater
    ensures Sorted(t + [y], cmp)
  {
  }

  /** Every element of `t`, which is `Insert(init, x, cmp)`, is not after a bound that `init` and `x` are not after. */
  lemma InsertBelow<T(!new)>(init: seq<T>, x: T, t: seq<T>, y: T, cmp: (T, T) -> Ordering)
    requires Antisymmetric(cmp) && cmp(y, x) == Greater && t == Insert(init, x, cmp)
    requires forall k :: 0 <= k < |init| ==> cmp(init[k], y) != Greater
    ensures forall i :: 0 <= i < |t| ==> cmp(t[i], y) != Greater
  {
    assert cmp(x, y) == Less;
    forall i | 0 <= i < |t| ensures cmp(t[i], y) != Greater {
      assert t[i] in multiset(t);
      if t[i] != x {
        assert t[i] in multiset(init);
        var k :| 0 <= k < |init| && init[k] == t[i];
      }
    }
  }

  /** With an order on the elements, the result is sorted. */
  lemma {:induction false} InsertionSortSorted<T(!new)>(s: seq<T>, cmp: (T, T) -> Ordering)
    requires Antisymmetric(cmp) && TransitiveOn(s, cmp)
    ensures Sorted(InsertionSort(s, cmp), cmp)
  {
    if s != [] {
      var init := s[..|s| - 1];
      TransitiveOnSubset(s, init, cmp);
      InsertionSortSorted(init, cmp);
      var t := InsertionSort(init, cmp);
      forall y | y in t + [s[|s| - 1]] ensures y in s {
        if y in t { assert y in multiset(init); }
      }
      TransitiveOnSubset(s, t + [s[|s| - 1]], cmp);
      InsertSorted(t, s[|s| - 1], cmp);
    }
  }

  /** The elements of `s` whose key is `k`, in their order in `s`. */
  function WithKey<T, K(==)>(s: seq<T>, key: T -> K, k: K): seq<T> {
    if s == [] then []
    else WithKey(s[..|s| - 1], key, k) + (if key(s[|s| - 1]) == k then [s[|s| - 1]] else [])
  }

  lemma {:induction false} InsertStable<T(!new), K>(r: seq<T>, x: T, cmp: (T, T) -> Ordering, key: T -> K, k: K)
    requires EqualMeansSameKey(cmp, key)
    ensures WithKey(Insert(r, x, cmp), key, k) == WithKey(r, key, k) + (if key(x) == k then [x] else [])
    decreases |r|
  {
    var n := |r|;
    if r == [] || cmp(r[n - 1], x) != Greater {
      assert (r + [x])[..n] == r;
    } else {
      var init, last := r[..n - 1], r[n - 1];
      InsertStable(init, x, cmp, key, k);
      var t := Insert(init, x, cmp);
      assert Insert(r, x, cmp) == t + [last];
      assert (t + [last])[..|t|] == t;
      assert WithKey(t + [last], key, k) == WithKey(t, key, k) + (if key(last) == k then [last] else []);
      assert WithKey(r, key, k) == WithKey(init, key, k) + (if key(last) == k then [last] else []);
      if key(x) == k {
        assert key(last) != key(x) by {
          assert cmp(last, x) != Equal;
        }
        assert WithKey(t + [last], key, k) == WithKey(init, key, k) + [x];
        assert WithKey(r, key, k) == WithKey(init, key, k);
      } else {
        assert WithKey(t, key, k) == WithKey(init, key, k) + [];
        assert WithKey(init, key, k) + [] == WithKey(init, key, k);
        assert WithKey(r, key, k) + [] == WithKey(r, key, k);
      }
    }
  }

  /** The sort is stable: elements with equal keys keep their input order. */
  lemma {:induction false} InsertionSortStable<T(!new), K>(s: seq<T>, cmp: (T, T) -> Ordering, key: T -> K, k: K)
    requires EqualMeansSameKey(cmp, key)
    ensures WithKey(InsertionSort(s, cmp), key, k) == WithKey(s, key, k)
  {
    if s != [] {
      InsertionSortStable(s[..|s| - 1], cmp, key, k);
      InsertStable(InsertionSort(s[..|s| - 1], cmp), s[|s| - 1], cmp, key, k);
    }
  }

  /** Two sorted arrangements of the same elements that agree on every key's order are equal. */
  lemma {:induction false} SortedStableUnique<T(!new), K>(r1: seq<T>, r2: seq<T>, cmp: (T, T) -> Ordering, key: T -> K)
    requires Antisymmetric(cmp) && EqualMeansSameKey(cmp, key)
    requires multiset(r1) == multiset(r2) && Sorted(r1, cmp) && Sorted(r2, cmp)
    requires forall k :: WithKey(r1, key, k) == WithKey(r2, key, k)
    ensures r1 == r2
    decreases |r1|
  {
    assert |r1| == |multiset(r1)| == |multiset(r2)| == |r2|;
    if r1 != [] {
      var n := |r1|;
      var i1, i2 := r1[..n - 1], r2[..n - 1];
      SplitLast(r1);
      SplitLast(r2);
      LastSameKey(r1, r2, cmp, key);
      DropLastAgree(i1, r1[n - 1], i2, r2[n - 1], key);
      MultisetCancel(i1, i2, r1[n - 1]);
      SortedInit(r1, cmp);
      SortedInit(r2, cmp);
      SortedStableUnique(i1, i2, cmp, key);
    }
  }

  lemma SplitLast<T>(s: seq<T>)
    requires s != []
    ensures s == s[..|s| - 1] + [s[|s| - 1]]
  {
  }

  lemma SortedInit<T>(s: seq<T>, cmp: (T, T) -> Ordering)
    requires s != [] && Sorted(s, cmp)
    ensures Sorted(s[..|s| - 1], cmp)
  {
  }

  /** The last elements of two sorted arrangements of the same elements have the same key. */
  lemma LastSameKey<T(!new), K>(r1: seq<T>, r2: seq<T>, cmp: (T, T) -> Ordering, key: T -> K)
    requires Antisymmetric(cmp) && EqualMeansSameKey(cmp, key)
    requires multiset(r1) == multiset(r2) && Sorted(r1, cmp) && Sorted(r2, cmp)
    requires |r1| == |r2| > 0
    ensures key(r1[|r1| - 1]) == key(r2[|r2| - 1])
  {
    var n := |r1|;
    var x, y := r1[n - 1], r2[n - 1];
    assert y in multiset(r1) && x in multiset(r2);
    var k1 :| 0 <= k1 < n && r1[k1] == y;
    var k2 :| 0 <= k2 < n && r2[k2] == x;
    assert cmp(x, x) == Equal && cmp(y, y) == Equal;
    assert cmp(y, x) != Greater && cmp(x, y) != Greater;
    assert cmp(x, y) == Equal;
  }

  /** Equal key filters and equal last keys: the last elements agree, and so do the filters of the rest. */
  lemma DropLastAgree<T, K>(i1: seq<T>, x: T, i2: seq<T>, y: T, key: T -> K)
    requires key(x) == key(y)
    requires forall k :: WithKey(i1 + [x], key, k) == WithKey(i2 + [y], key, k)
    ensures x == y
    ensures forall k :: WithKey(i1, key, k) == WithKey(i2, key, k)
  {
    assert (i1 + [x])[..|i1|] == i1 && (i2 + [y])[..|i2|] == i2;
    assert WithKey(i1 + [x], key, key(x)) == WithKey(i1, key, key(x)) + [x];
    assert WithKey(i2 + [y], key, key(x)) == WithKey(i2, key, key(x)) + [y];
    assert x == y by {
      var w := WithKey(i1 + [x], key, key(x));
      assert w[|w| - 1] == x;
    }
    forall k ensures WithKey(i1, key, k) == WithKey(i2, key, k) {
      assert WithKey(i1 + [x], key, k) == WithKey(i2 + [y], key, k);
      assert WithKey(i1 + [x], key, k) == WithKey(i1, key, k) + (if key(x) == k then [x] else []);
      assert WithKey(i2 + [y], key, k) == WithKey(i2, key, k) + (if key(y) == k then [y] else []);
      CancelRight(WithKey(i1, key, k), WithKey(i2, key, k), if key(x) == k then [x] else []);
    }
  }

  lemma MultisetCancel<T>(p: seq<T>, q: seq<T>, x: T)
    requires multiset(p + [x]) == multiset(q + [x])
    ensures multiset(p) == multiset(q)
  {
    assert multiset(p + [x]) == multiset(p) + multiset{x};
    assert multiset(q + [x]) == multiset(q) + multiset{x};
    assert multiset(p) == multiset(p + [x]) - multiset{x};
    assert multiset(q) == multiset(q + [x]) - multiset{x};
  }

  lemma CancelRight<T>(p: seq<T>, q: seq<T>, t: seq<T>)
    requires p + t == q + t
    ensures p == q
  {
    assert |p| == |q|;
    assert p == (p + t)[..|p|];
    assert q == (q + t)[..|q|];
  }

  /**
   * With an order, `InsertionSort` is the only sorted, stable permutation of
   * its input: what any stable sort by the same comparator returns.
   */
  lemma StableSortIsInsertionSort<T(!new), K>(s: seq<T>, r: seq<T>, cmp: (T, T) -> Ordering, key: T -> K)
    requires Antisymmetric(cmp) && EqualMeansSameKey(cmp, key) && TransitiveOn(s, cmp)
    requires multiset(r) == multiset(s) && Sorted(r, cmp)
    requires forall k :: WithKey(r, key, k) == WithKey(s, key, k)
    ensures r == InsertionSort(s, cmp)
  {
    var t := InsertionSort(s, cmp);
    InsertionSortSorted(s, cmp);
    forall k ensures WithKey(t, key, k) == WithKey(r, key, k) {
      InsertionSortStable(s, cmp, key, k);
    }
    SortedStableUnique(t, r, cmp, key);
  }

  /** `f` applied to each element, in order. */
  function Map<T, U>(f: T -> U, s: seq<T>): (r: seq<U>)
    ensures |r| == |s|
  {
    if s == [] then [] else Map(f, s[..|s| - 1]) + [f(s[|s| - 1])]
  }

  lemma MapSnoc<T, U>(f: T -> U, s: seq<T>, x: T)
    ensures Map(f, s + [x]) == Map(f, s) + [f(x)]
  {
    assert (s + [x])[..|s|] == s;
  }

  lemma {:induction false} MapOfInsert<T, U>(f: T -> U, r: seq<T>, x: T, cmp: (T, T) -> Ordering)
    ensures multiset(Map(f, Insert(r, x, cmp))) == multiset(Map(f, r)) + multiset{f(x)}
    decreases |r|
  {
    var n := |r|;
    if r == [] || cmp(r[n - 1], x) != Greater {
      assert Insert(r, x, cmp) == r + [x];
      MapSnoc(f, r, x);
    } else {
      var init := r[..n - 1];
      MapOfInsert(f, init, x, cmp);
      MapOfInsertShifted(f, r, x, cmp);
    }
  }

  /** The step of `MapOfInsert` where the last element moves past `x`. */
  lemma MapOfInsertShifted<T, U>(f: T -> U, r: seq<T>, x: T, cmp: (T, T) -> Ordering)
    requires r != [] && cmp(r[|r| - 1], x) == Greater
    requires multiset(Map(f, Insert(r[..|r| - 1], x, cmp))) == multiset(Map(f, r[..|r| - 1])) + multiset{f(x)}
    ensures multiset(Map(f, Insert(r, x, cmp))) == multiset(Map(f, r)) + multiset{f(x)}
  {
    var init, last := r[..|r| - 1], r[|r| - 1];
    var t := Insert(init, x, cmp);
    assert Insert(r, x, cmp) == t + [last];
    MapSnoc(f, t, last);
    assert Map(f, r) == Map(f, init) + [f(last)];
    SnocBoth(Map(f, t), Map(f, init), f(x), f(last));
  }

  /** Appending the same element to both sides keeps a multiset equation. */
  lemma SnocBoth<U>(a: seq<U>, b: seq<U>, u: U, v: U)
    requires multiset(a) == multiset(b) + multiset{u}
    ensures multiset(a + [v]) == multiset(b + [v]) + multiset{u}
  {
  }

  /** Whatever is computed from each element, sorting first only reorders the results. */
  lemma {:induction false} MapOfInsertionSort<T, U>(f: T -> U, s: seq<T>, cmp: (T, T) -> Ordering)
    ensures multiset(Map(f, InsertionSort(s, cmp))) == multiset(Map(f, s))
  {
    if s != [] {
      var init := s[..|s| - 1];
      MapOfInsertionSort(f, init, cmp);
      MapOfInsert(f, InsertionSort(init, cmp), s[|s| - 1], cmp);
    }
  }

  /** Two elements in the wrong order are swapped. */
  lemma SortPair<T>(x: T, y: T, cmp: (T, T) -> Ordering)
    requires cmp(x, y) == Greater
    ensures InsertionSort([x, y], cmp) == [y, x]
  {
    assert [x, y][..1] == [x];
    assert InsertionSort([x], cmp) == [x] by {
      assert [x][..0] == [];
    }
  }

  lemma MapPair<T, U>(f: T -> U, x: T, y: T)
    ensures Map(f, [x, y]) == [f(x), f(y)]
  {
    assert [x, y][..1] == [x];
    assert [x][..0] == [];
  }
}
