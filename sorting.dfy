/** Specification of the graph's instrumented insertion sort. Every comparator
    the graph passes has the form `(a, b) => key(a) - key(b)`, so
    `compare(a, b) > 0` is `key(a) > key(b)` and the sort is modelled over a
    key function. The functions below follow the loop's own order: element
    `i` is inserted into the already sorted prefix by shifting, from the
    right, every cell whose key is strictly greater. */
module Sorting {

  predicate SortedBy<T>(s: seq<T>, key: T -> int) {
    forall i, j :: 0 <= i < j < |s| ==> key(s[i]) <= key(s[j])
  }

  /** `x` placed after the trailing run of elements with a greater key. */
  function InsertRight<T>(s: seq<T>, x: T, key: T -> int): seq<T>
  {
    if s == [] || key(s[|s| - 1]) <= key(x) then s + [x]
    else InsertRight(s[..|s| - 1], x, key) + [s[|s| - 1]]
  }

  /** How many cells move one place right while `x` is inserted. */
  function Shifts<T>(s: seq<T>, x: T, key: T -> int): nat
  {
    if s == [] || key(s[|s| - 1]) <= key(x) then 0
    else Shifts(s[..|s| - 1], x, key) + 1
  }

  /** The order `insertionSort` leaves behind. */
  function SortSpec<T>(s: seq<T>, key: T -> int): seq<T>
  {
    if s == [] then [] else InsertRight(SortSpec(s[..|s| - 1], key), s[|s| - 1], key)
  }

  /** The steps `insertionSort` charges: one per shift, one per element at index >= 1. */
  function SortSteps<T>(s: seq<T>, key: T -> int): nat
  {
    if |s| <= 1 then 0
    else SortSteps(s[..|s| - 1], key) + Shifts(SortSpec(s[..|s| - 1], key), s[|s| - 1], key) + 1
  }

  /** The elements whose key is `k`, in their order. */
  function WithKey<T>(s: seq<T>, key: T -> int, k: int): seq<T>
  {
    if s == [] then []
    else WithKey(s[..|s| - 1], key, k) + (if key(s[|s| - 1]) == k then [s[|s| - 1]] else [])
  }

  /** How many elements have a key greater than `v`. */
  function CountAbove<T>(s: seq<T>, key: T -> int, v: int): nat
  {
    if s == [] then 0
    else CountAbove(s[..|s| - 1], key, v) + (if key(s[|s| - 1]) > v then 1 else 0)
  }

  /** Pairs `i < j` whose keys are out of order. */
  function Inversions<T>(s: seq<T>, key: T -> int): nat
  {
    if s == [] then 0
    else Inversions(s[..|s| - 1], key) + CountAbove(s[..|s| - 1], key, key(s[|s| - 1]))
  }

  lemma {:induction false} WithKeyAppend<T>(a: seq<T>, b: seq<T>, key: T -> int, k: int)
    ensures WithKey(a + b, key, k) == WithKey(a, key, k) + WithKey(b, key, k)
    decreases |b|
  {
    if b == [] {
      assert a + b == a;
    } else {
      var b' := b[..|b| - 1];
      assert (a + b)[..|a + b| - 1] == a + b';
      WithKeyAppend(a, b', key, k);
    }
  }

  lemma {:induction false} CountAboveAppend<T>(a: seq<T>, b: seq<T>, key: T -> int, v: int)
    ensures CountAbove(a + b, key, v) == CountAbove(a, key, v) + CountAbove(b, key, v)
    decreases |b|
  {
    if b == [] {
      assert a + b == a;
    } else {
      var b' := b[..|b| - 1];
      assert (a + b)[..|a + b| - 1] == a + b';
      CountAboveAppend(a, b', key, v);
    }
  }

  /** Inserting keeps the elements and adds `x`. */
  lemma {:induction false} InsertRightPermutes<T>(s: seq<T>, x: T, key: T -> int)
    ensures multiset(InsertRight(s, x, key)) == multiset(s) + multiset{x}
    ensures |InsertRight(s, x, key)| == |s| + 1
    decreases |s|
  {
    if s != [] && key(s[|s| - 1]) > key(x) {
      var p, l := s[..|s| - 1], s[|s| - 1];
      assert s == p + [l];
      InsertRightPermutes(p, x, key);
    }
  }

  /** Inserting into a sorted sequence leaves it sorted. */
  lemma {:induction false} InsertRightSorted<T>(s: seq<T>, x: T, key: T -> int)
    requires SortedBy(s, key)
    ensures SortedBy(InsertRight(s, x, key), key)
    decreases |s|
  {
    if s != [] && key(s[|s| - 1]) > key(x) {
      var p, l := s[..|s| - 1], s[|s| - 1];
      assert s == p + [l];
      assert SortedBy(p, key);
      InsertRightSorted(p, x, key);
      InsertRightPermutes(p, x, key);
      var r := InsertRight(p, x, key);
      // every element of r is an element of p or x, all with key <= key(l)
      forall i | 0 <= i < |r|
        ensures key(r[i]) <= key(l)
      {
        assert r[i] in multiset(r);
        assert r[i] in multiset(p) + multiset{x};
        if r[i] in multiset(p) {
          var m :| 0 <= m < |p| && p[m] == r[i];
          assert s[m] == p[m];
        }
      }
    }
  }

  /** Inserting `x` keeps the order among equal keys that appending it would. */
  lemma {:induction false} InsertRightWithKey<T>(s: seq<T>, x: T, key: T -> int, k: int)
    ensures WithKey(InsertRight(s, x, key), key, k) == WithKey(s + [x], key, k)
    decreases |s|
  {
    if s != [] && key(s[|s| - 1]) > key(x) {
      var p, l := s[..|s| - 1], s[|s| - 1];
      assert s == p + [l];
      InsertRightWithKey(p, x, key, k);
      var r := InsertRight(p, x, key);
      WithKeyAppend(r, [l], key, k);
      WithKeyAppend(p, [x], key, k);
      WithKeyAppend(p, [l], key, k);
      WithKeyAppend(s, [x], key, k);
    }
  }

  lemma {:induction false} InsertRightCountAbove<T>(s: seq<T>, x: T, key: T -> int, v: int)
    ensures CountAbove(InsertRight(s, x, key), key, v) == CountAbove(s + [x], key, v)
    decreases |s|
  {
    if s != [] && key(s[|s| - 1]) > key(x) {
      var p, l := s[..|s| - 1], s[|s| - 1];
      assert s == p + [l];
      InsertRightCountAbove(p, x, key, v);
      var r := InsertRight(p, x, key);
      CountAboveAppend(r, [l], key, v);
      CountAboveAppend(p, [x], key, v);
      CountAboveAppend(p, [l], key, v);
      CountAboveAppend(s, [x], key, v);
    }
  }

  /** The sort returns a permutation of its input. */
  lemma {:induction false} SortSpecPermutes<T>(s: seq<T>, key: T -> int)
    ensures |SortSpec(s, key)| == |s|
    ensures multiset(SortSpec(s, key)) == multiset(s)
  {
    if s != [] {
      var p := s[..|s| - 1];
      SortSpecPermutes(p, key);
      InsertRightPermutes(SortSpec(p, key), s[|s| - 1], key);
      assert s == p + [s[|s| - 1]];
    }
  }

  /** The sort returns a sequence non-decreasing under the comparator. */
  lemma {:induction false} SortSpecSorted<T>(s: seq<T>, key: T -> int)
    ensures SortedBy(SortSpec(s, key), key)
  {
    if s != [] {
      SortSpecSorted(s[..|s| - 1], key);
      InsertRightSorted(SortSpec(s[..|s| - 1], key), s[|s| - 1], key);
    }
  }

  /** The head of the sort has the least key, and it and the tail hold
      exactly the elements of the input. */
  lemma {:induction false} SortSpecFirst<T>(s: seq<T>, key: T -> int)
    requires |s| > 0
    ensures var t := SortSpec(s, key);
      && |t| == |s|
      && (forall x :: x in s <==> x == t[0] || x in t[1..])
      && (forall x :: x in s ==> key(t[0]) <= key(x))
  {
    var t := SortSpec(s, key);
    SortSpecPermutes(s, key);
    SortSpecSorted(s, key);
    assert t == [t[0]] + t[1..];
    forall x
      ensures x in s <==> x in multiset(t)
    {
    }
    forall x | x in s
      ensures key(t[0]) <= key(x)
    {
      var i :| 0 <= i < |t| && t[i] == x;
    }
  }

  /** The sort is stable: elements with equal keys keep their relative order. */
  lemma {:induction false} SortSpecStable<T>(s: seq<T>, key: T -> int, k: int)
    ensures WithKey(SortSpec(s, key), key, k) == WithKey(s, key, k)
  {
    if s != [] {
      var p, l := s[..|s| - 1], s[|s| - 1];
      SortSpecStable(p, key, k);
      InsertRightWithKey(SortSpec(p, key), l, key, k);
      WithKeyAppend(SortSpec(p, key), [l], key, k);
    }
  }

  lemma {:induction false} CountAboveSortSpec<T>(s: seq<T>, key: T -> int, v: int)
    ensures CountAbove(SortSpec(s, key), key, v) == CountAbove(s, key, v)
  {
    if s != [] {
      var p, l := s[..|s| - 1], s[|s| - 1];
      CountAboveSortSpec(p, key, v);
      InsertRightCountAbove(SortSpec(p, key), l, key, v);
      CountAboveAppend(SortSpec(p, key), [l], key, v);
    }
  }

  /** In a sorted sequence every element with a greater key is in the trailing run. */
  lemma {:induction false} ShiftsOfSorted<T>(s: seq<T>, x: T, key: T -> int)
    requires SortedBy(s, key)
    ensures Shifts(s, x, key) == CountAbove(s, key, key(x))
  {
    if s == [] {
    } else if key(s[|s| - 1]) <= key(x) {
      ShiftsOfSortedNone(s, x, key);
    } else {
      ShiftsOfSorted(s[..|s| - 1], x, key);
    }
  }

  lemma {:induction false} ShiftsOfSortedNone<T>(s: seq<T>, x: T, key: T -> int)
    requires SortedBy(s, key)
    requires s == [] || key(s[|s| - 1]) <= key(x)
    ensures CountAbove(s, key, key(x)) == 0
  {
    if s != [] {
      var p := s[..|s| - 1];
      assert p == [] || key(p[|p| - 1]) <= key(s[|s| - 1]);
      ShiftsOfSortedNone(p, x, key);
    }
  }

  /** The step count is the number of inversions plus one per element after the first. */
  lemma {:induction false} SortStepsCountInversions<T>(s: seq<T>, key: T -> int)
    ensures SortSteps(s, key) == Inversions(s, key) + (if s == [] then 0 else |s| - 1)
  {
    if s != [] {
      var p, l := s[..|s| - 1], s[|s| - 1];
      SortStepsCountInversions(p, key);
      SortSpecSorted(p, key);
      ShiftsOfSorted(SortSpec(p, key), l, key);
      CountAboveSortSpec(p, key, key(l));
      if |s| == 1 {
        assert p == [];
      }
    }
  }

  /** Sorting an already sorted sequence moves nothing and charges one step per element after the first. */
  lemma {:induction false} SortSpecOfSorted<T>(s: seq<T>, key: T -> int)
    requires SortedBy(s, key)
    ensures SortSpec(s, key) == s
    ensures SortSteps(s, key) == if s == [] then 0 else |s| - 1
  {
    if s != [] {
      var p, l := s[..|s| - 1], s[|s| - 1];
      assert SortedBy(p, key) by {
        forall i, j | 0 <= i < j < |p|
          ensures key(p[i]) <= key(p[j])
        {
          assert p[i] == s[i] && p[j] == s[j];
        }
      }
      SortSpecOfSorted(p, key);
      if p != [] {
        assert key(p[|p| - 1]) <= key(l) by {
          assert p[|p| - 1] == s[|s| - 2];
        }
      } else {
        assert |s| == 1;
      }
      assert s == p + [l];
    }
  }

  /** One more element of the input: the sort inserts it into the sorted prefix. */
  lemma SortSpecSnoc<T>(s: seq<T>, i: int, key: T -> int)
    requires 1 <= i < |s|
    ensures SortSpec(s[..i + 1], key) == InsertRight(SortSpec(s[..i], key), s[i], key)
    ensures SortSteps(s[..i + 1], key) == SortSteps(s[..i], key) + Shifts(SortSpec(s[..i], key), s[i], key) + 1
  {
    assert s[..i + 1][..i] == s[..i];
  }

  /** Insertion stops in front of `s[j]`, the last element whose key is not
      greater than that of `x`: everything after it moves one place right. */
  lemma {:induction false} InsertRightAt<T>(s: seq<T>, x: T, key: T -> int, j: int)
    requires -1 <= j < |s| && (j == -1 || key(s[j]) <= key(x))
    requires forall k :: j < k < |s| ==> key(s[k]) > key(x)
    ensures InsertRight(s, x, key) == s[..j + 1] + [x] + s[j + 1..]
    ensures Shifts(s, x, key) == |s| - 1 - j
    decreases |s|
  {
    if j < |s| - 1 {
      var p := s[..|s| - 1];
      InsertRightAt(p, x, key, j);
      assert p[..j + 1] == s[..j + 1];
      assert s[j + 1..] == p[j + 1..] + [s[|s| - 1]];
    } else {
      assert s[..j + 1] == s;
    }
  }

  /** After the inner loop of a pass has stopped at `j` and `x` has been
      written to `j + 1`, the first `|s| + 1` cells of `a` hold `x` inserted
      into the sorted prefix `s`, and the pass shifted `|s| - 1 - j` cells. */
  lemma PassDone<T>(a: seq<T>, s: seq<T>, x: T, j: int, key: T -> int)
    requires |s| < |a| && -1 <= j < |s|
    requires forall k {:trigger a[k]} :: 0 <= k <= j ==> a[k] == s[k]
    requires a[j + 1] == x
    requires forall k {:trigger a[k]} :: j + 2 <= k <= |s| ==> a[k] == s[k - 1]
    requires j == -1 || key(s[j]) <= key(x)
    requires forall k :: j < k < |s| ==> key(s[k]) > key(x)
    ensures |InsertRight(s, x, key)| == |s| + 1
    ensures forall k :: 0 <= k <= |s| ==> a[k] == InsertRight(s, x, key)[k]
    ensures Shifts(s, x, key) == |s| - 1 - j
  {
    InsertRightAt(s, x, key, j);
    forall k | 0 <= k <= |s|
      ensures a[k] == InsertRight(s, x, key)[k]
    {
      InsertedAt(s, x, j, k);
    }
  }

  /** The cells of `s` with `x` put in after index `j`. */
  lemma InsertedAt<T>(s: seq<T>, x: T, j: int, k: int)
    requires -1 <= j < |s| && 0 <= k <= |s|
    ensures (s[..j + 1] + [x] + s[j + 1..])[k] == if k <= j then s[k] else if k == j + 1 then x else s[k - 1]
  {
    if k > j + 1 {
      assert (s[..j + 1] + [x] + s[j + 1..])[k] == s[j + 1..][k - (j + 2)];
    }
  }

  /** Appending an element no smaller than the last keeps a sequence sorted. */
  lemma SortedSnoc<T>(s: seq<T>, x: T, key: T -> int)
    requires SortedBy(s, key) && (|s| > 0 ==> key(s[|s| - 1]) <= key(x))
    ensures SortedBy(s + [x], key)
  {
  }
}
