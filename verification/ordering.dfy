/**
 Comparator-driven stable sorting, as `Array.prototype.sort(compareFn)` is
 required to behave since ECMAScript 2019 (section 22.1.3.27 of ECMA-262,
 10th edition): the result is a permutation of the input, ordered by the
 comparator, and elements the comparator ranks equal keep their relative order.

 A comparator returns a number whose sign says how two elements relate:
 `c(a, b) <= 0` means `a` may come before `b`.
 */
module Ordering {
  import opened Sequences

  type Comparator<-T> = (T, T) -> int

  /**
   `a` may be placed before `b`. The preorder axioms below are stated over
   this predicate so that they fire only where a proof names it; elsewhere
   the same relation is written out as `c(a, b) <= 0`.
   */
  predicate NotAfter<T>(c: Comparator<T>, a: T, b: T) {
    c(a, b) <= 0
  }

  /** Any two elements can be placed in some order (which makes the relation reflexive too). */
  ghost predicate Total<T(!new)>(c: Comparator<T>) {
    forall a, b :: NotAfter(c, a, b) || NotAfter(c, b, a)
  }

  ghost predicate Transitive<T(!new)>(c: Comparator<T>) {
    forall a, b, d :: NotAfter(c, a, b) && NotAfter(c, b, d) ==> NotAfter(c, a, d)
  }

  /**
   The comparator's "may come before" relation is a total preorder.
   Distinct elements may rank equal.
   */
  ghost predicate TotalPreorder<T(!new)>(c: Comparator<T>) {
    Total(c) && Transitive(c)
  }

  /** Every earlier element may come before every later one. */
  ghost predicate Sorted<T>(c: Comparator<T>, xs: seq<T>) {
    forall i, j :: 0 <= i < j < |xs| ==> c(xs[i], xs[j]) <= 0
  }

  /** `a` and `b` rank equal: each may come before the other. */
  predicate SameRank<T>(c: Comparator<T>, a: T, b: T) {
    c(a, b) <= 0 && c(b, a) <= 0
  }

  /** The elements that rank equal to `x`. */
  function RankOf<T>(c: Comparator<T>, x: T): T -> bool {
    y => SameRank(c, x, y)
  }

  /**
   Places `x` in front of the first element of `s` it may precede, so that it
   stays ahead of every element of `s` it ranks equal to.
   */
  function Insert<T>(c: Comparator<T>, x: T, s: seq<T>): (r: seq<T>)
    ensures multiset(r) == multiset(s) + multiset{x}
    decreases |s|
  {
    if |s| == 0 then [x]
    else if c(x, s[0]) <= 0 then [x] + s
    else
      assert s == [s[0]] + s[1..];
      [s[0]] + Insert(c, x, s[1..])
  }

  /**
   Stable insertion sort: sorts the tail, then inserts the head in front of
   every tail element it ranks equal to.
   */
  function InsertionSort<T>(c: Comparator<T>, xs: seq<T>): (r: seq<T>)
    ensures multiset(r) == multiset(xs)
    decreases |xs|
  {
    if |xs| == 0 then []
    else
      assert xs == [xs[0]] + xs[1..];
      Insert(c, xs[0], InsertionSort(c, xs[1..]))
  }

  /** An element that may precede every element of a sorted sequence can head it. */
  lemma ConsSorted<T>(c: Comparator<T>, h: T, s: seq<T>)
    requires Sorted(c, s)
    requires forall k :: 0 <= k < |s| ==> c(h, s[k]) <= 0
    ensures Sorted(c, [h] + s)
  {
    var r := [h] + s;
    forall i, j | 0 <= i < j < |r|
      ensures c(r[i], r[j]) <= 0
    {
      assert r[j] == s[j - 1];
      if i > 0 {
        assert r[i] == s[i - 1];
      }
    }
  }

  /** A lower bound of `x` and of every element of `s` bounds every element after the insertion. */
  lemma InsertLowerBound<T>(c: Comparator<T>, h: T, x: T, s: seq<T>)
    requires c(h, x) <= 0
    requires forall k :: 0 <= k < |s| ==> c(h, s[k]) <= 0
    ensures forall k :: 0 <= k < |Insert(c, x, s)| ==> c(h, Insert(c, x, s)[k]) <= 0
  {
    var r := Insert(c, x, s);
    forall k | 0 <= k < |r|
      ensures c(h, r[k]) <= 0
    {
      var y := r[k];
      assert y in multiset(r);
      if y != x {
        assert y in multiset(s);
        var j :| 0 <= j < |s| && s[j] == y;
      }
    }
  }

  /** Inserting into a sorted sequence keeps it sorted. */
  lemma {:induction false} InsertSorted<T(!new)>(c: Comparator<T>, x: T, s: seq<T>)
    requires TotalPreorder(c) && Sorted(c, s)
    ensures Sorted(c, Insert(c, x, s))
    decreases |s|
  {
    if |s| == 0 {
    } else if NotAfter(c, x, s[0]) {
      forall k | 0 <= k < |s|
        ensures c(x, s[k]) <= 0
      {
        if k > 0 {
          assert NotAfter(c, s[0], s[k]);
        }
      }
      ConsSorted(c, x, s);
    } else {
      var tail := s[1..];
      assert Sorted(c, tail) by {
        forall i, j | 0 <= i < j < |tail|
          ensures c(tail[i], tail[j]) <= 0
        {
          assert tail[i] == s[i + 1] && tail[j] == s[j + 1];
        }
      }
      InsertSorted(c, x, tail);
      assert NotAfter(c, s[0], x);
      assert forall k :: 0 <= k < |tail| ==> c(s[0], tail[k]) <= 0 by {
        forall k | 0 <= k < |tail|
          ensures c(s[0], tail[k]) <= 0
        {
          assert tail[k] == s[k + 1];
        }
      }
      InsertLowerBound(c, s[0], x, tail);
      ConsSorted(c, s[0], Insert(c, x, tail));
    }
  }

  /** The output of the sort is ordered by the comparator. */
  lemma {:induction false} InsertionSortSorted<T(!new)>(c: Comparator<T>, xs: seq<T>)
    requires TotalPreorder(c)
    ensures Sorted(c, InsertionSort(c, xs))
    decreases |xs|
  {
    if |xs| > 0 {
      InsertionSortSorted(c, xs[1..]);
      InsertSorted(c, xs[0], InsertionSort(c, xs[1..]));
    }
  }

  /** The elements ranking equal to `z` keep, after an insertion, the order they had. */
  lemma {:induction false} InsertKeepsRankOrder<T(!new)>(c: Comparator<T>, x: T, s: seq<T>, z: T)
    requires TotalPreorder(c)
    ensures Filter(Insert(c, x, s), RankOf(c, z)) == Filter([x] + s, RankOf(c, z))
    decreases |s|
  {
    var p := RankOf(c, z);
    if |s| > 0 && c(x, s[0]) > 0 {
      var rest := Insert(c, x, s[1..]);
      InsertKeepsRankOrder(c, x, s[1..], z);
      assert p(x) && p(s[0]) ==> NotAfter(c, x, z) && NotAfter(c, z, s[0]);
      assert !(p(x) && p(s[0]));
      assert ([s[0]] + rest)[1..] == rest;
      assert ([x] + s)[1..] == s;
      assert ([x] + s[1..])[1..] == s[1..];
      assert ([s[0]] + rest)[0] == s[0];
      assert ([x] + s[1..])[0] == x;
      assert s == [s[0]] + s[1..];
    }
  }

  /** Stability: the elements of each rank appear in the output in their input order. */
  lemma {:induction false} InsertionSortStable<T(!new)>(c: Comparator<T>, xs: seq<T>, z: T)
    requires TotalPreorder(c)
    ensures Filter(InsertionSort(c, xs), RankOf(c, z)) == Filter(xs, RankOf(c, z))
    decreases |xs|
  {
    if |xs| > 0 {
      var p := RankOf(c, z);
      var tail := InsertionSort(c, xs[1..]);
      InsertionSortStable(c, xs[1..], z);
      InsertKeepsRankOrder(c, xs[0], tail, z);
      assert ([xs[0]] + tail)[1..] == tail;
      assert ([xs[0]] + tail)[0] == xs[0];
    }
  }

  /** Sorting an already sorted sequence returns it unchanged. */
  lemma {:induction false} InsertionSortOfSorted<T>(c: Comparator<T>, xs: seq<T>)
    requires Sorted(c, xs)
    ensures InsertionSort(c, xs) == xs
    decreases |xs|
  {
    if |xs| > 0 {
      var tail := xs[1..];
      assert Sorted(c, tail) by {
        forall i, j | 0 <= i < j < |tail|
          ensures c(tail[i], tail[j]) <= 0
        {
          assert tail[i] == xs[i + 1] && tail[j] == xs[j + 1];
        }
      }
      InsertionSortOfSorted(c, tail);
      assert InsertionSort(c, xs) == Insert(c, xs[0], tail);
      if |tail| > 0 {
        assert c(xs[0], tail[0]) <= 0 by { assert tail[0] == xs[1]; }
      }
      assert xs == [xs[0]] + tail;
    }
  }
}
