// Ordering used by the modelled code: Go's byte-wise string comparison and
// `sort.Slice` with a caller-supplied "less" function, modelled by an
// insertion sort whose result is a sorted permutation of its input.
module Sorting {

  /** Go's `a < b` on strings: lexicographic on characters, a proper prefix first. */
  predicate StrLess(a: string, b: string)
    decreases |a|
  {
    if a == [] then b != []
    else b != [] && (a[0] < b[0] || (a[0] == b[0] && StrLess(a[1..], b[1..])))
  }

  lemma {:induction false} StrLessIrreflexive(a: string)
    ensures !StrLess(a, a)
    decreases |a|
  {
    if a != [] {
      StrLessIrreflexive(a[1..]);
    }
  }

  lemma {:induction false} StrLessTransitive(a: string, b: string, c: string)
    requires StrLess(a, b) && StrLess(b, c)
    ensures StrLess(a, c)
    decreases |a|
  {
    if a != [] && a[0] == b[0] && b[0] == c[0] {
      StrLessTransitive(a[1..], b[1..], c[1..]);
    }
  }

  /** Two different strings are ordered one way or the other. */
  lemma {:induction false} StrLessTotal(a: string, b: string)
    requires a != b
    ensures StrLess(a, b) || StrLess(b, a)
    decreases |a|
  {
    if a != [] && b != [] && a[0] == b[0] {
      assert a == [a[0]] + a[1..] && b == [b[0]] + b[1..];
      StrLessTotal(a[1..], b[1..]);
    }
  }

  /** A "less" function that sort.Slice can rely on: irreflexive and transitive. */
  ghost predicate StrictOrder<T(!new)>(less: (T, T) -> bool) {
    && (forall a :: !less(a, a))
    && (forall a, b, c :: less(a, b) && less(b, c) ==> less(a, c))
  }

  /** No element is "less" than one placed before it. */
  predicate Sorted<T>(s: seq<T>, less: (T, T) -> bool) {
    forall i, j :: 0 <= i < j < |s| ==> !less(s[j], s[i])
  }

  /** `x` placed just before the first element it is less than. */
  function Insert<T>(x: T, s: seq<T>, less: (T, T) -> bool): (r: seq<T>)
    ensures multiset(r) == multiset(s) + multiset{x}
    ensures |r| == |s| + 1
  {
    if s == [] then [x]
    else if less(x, s[0]) then [x] + s
    else
      assert s == [s[0]] + s[1..];
      [s[0]] + Insert(x, s[1..], less)
  }

  /** sort.Slice: an insertion sort, last element first. */
  function Sort<T>(s: seq<T>, less: (T, T) -> bool): (r: seq<T>)
    ensures multiset(r) == multiset(s)
    ensures |r| == |s|
  {
    if s == [] then []
    else
      assert s == [s[0]] + s[1..];
      Insert(s[0], Sort(s[1..], less), less)
  }

  /** An element no later element is less than can go in front of a sorted sequence. */
  lemma ConsSorted<T>(h: T, t: seq<T>, less: (T, T) -> bool)
    requires Sorted(t, less) && forall k :: 0 <= k < |t| ==> !less(t[k], h)
    ensures Sorted([h] + t, less)
  {
    var r := [h] + t;
    forall i, j | 0 <= i < j < |r|
      ensures !less(r[j], r[i])
    {
      assert r[j] == t[j - 1];
      if i > 0 {
        assert r[i] == t[i - 1];
      }
    }
  }

  lemma {:induction false} InsertSorted<T(!new)>(x: T, s: seq<T>, less: (T, T) -> bool)
    requires StrictOrder(less) && Sorted(s, less)
    ensures Sorted(Insert(x, s, less), less)
  {
    if s == [] {
    } else if less(x, s[0]) {
      forall k | 0 <= k < |s|
        ensures !less(s[k], x)
      {
        if k > 0 {
          assert !less(s[k], s[0]);
        }
      }
      ConsSorted(x, s, less);
    } else {
      var t := s[1..];
      assert Sorted(t, less);
      InsertSorted(x, t, less);
      var it := Insert(x, t, less);
      forall k | 0 <= k < |it|
        ensures !less(it[k], s[0])
      {
        assert it[k] in multiset(it);
        if it[k] != x {
          var m :| 0 <= m < |t| && t[m] == it[k];
          assert s[m + 1] == t[m];
        }
      }
      ConsSorted(s[0], it, less);
    }
  }

  /** Under a strict order the sort's result is sorted (and, by its contract, a permutation). */
  lemma {:induction false} SortSorted<T(!new)>(s: seq<T>, less: (T, T) -> bool)
    requires StrictOrder(less)
    ensures Sorted(Sort(s, less), less)
  {
    if s != [] {
      SortSorted(s[1..], less);
      InsertSorted(s[0], Sort(s[1..], less), less);
    }
  }

  /** The first elements of two sorted permutations agree when "less" orders every two different elements of them. */
  lemma SortedHead<T(!new)>(a: seq<T>, b: seq<T>, less: (T, T) -> bool)
    requires StrictOrder(less)
    requires forall x, y :: x in a && y in a && x != y ==> less(x, y) || less(y, x)
    requires Sorted(a, less) && Sorted(b, less) && multiset(a) == multiset(b)
    requires a != [] && b != []
    ensures a[0] == b[0]
  {
    assert b[0] in multiset(a);
    var i :| 0 <= i < |a| && a[i] == b[0];
    assert a[0] in multiset(b);
    var j :| 0 <= j < |b| && b[j] == a[0];
    assert !less(a[i], a[0]) && !less(b[j], b[0]);
  }

  lemma TailMultiset<T>(a: seq<T>)
    requires a != []
    ensures multiset(a[1..]) == multiset(a) - multiset{a[0]}
  {
    assert a == [a[0]] + a[1..];
  }

  lemma TailSorted<T>(a: seq<T>, less: (T, T) -> bool)
    requires a != [] && Sorted(a, less)
    ensures Sorted(a[1..], less)
  {
    var t := a[1..];
    forall i, j | 0 <= i < j < |t|
      ensures !less(t[j], t[i])
    {
      assert t[i] == a[i + 1] && t[j] == a[j + 1];
    }
  }

  /** Dropping equal first elements keeps both sequences sorted permutations of each other, and keeps "less" total on what is left. */
  lemma TailsAgree<T(!new)>(a: seq<T>, b: seq<T>, less: (T, T) -> bool)
    requires forall x, y :: x in a && y in a && x != y ==> less(x, y) || less(y, x)
    requires Sorted(a, less) && Sorted(b, less) && multiset(a) == multiset(b)
    requires a != [] && b != [] && a[0] == b[0]
    ensures forall x, y :: x in a[1..] && y in a[1..] && x != y ==> less(x, y) || less(y, x)
    ensures Sorted(a[1..], less) && Sorted(b[1..], less) && multiset(a[1..]) == multiset(b[1..])
  {
    TailMultiset(a);
    TailMultiset(b);
    TailSorted(a, less);
    TailSorted(b, less);
    assert forall x :: x in a[1..] ==> x in a;
  }

  /**
   * When "less" also orders every two different elements involved, a sorted
   * permutation is unique: any sorting of `s` is the one Sort computes.
   */
  lemma {:induction false} SortedUnique<T(!new)>(a: seq<T>, b: seq<T>, less: (T, T) -> bool)
    requires StrictOrder(less)
    requires forall x, y :: x in a && y in a && x != y ==> less(x, y) || less(y, x)
    requires Sorted(a, less) && Sorted(b, less) && multiset(a) == multiset(b)
    ensures a == b
    decreases |a|
  {
    assert |multiset(a)| == |a| && |multiset(b)| == |b|;
    if a != [] {
      SortedHead(a, b, less);
      TailsAgree(a, b, less);
      SortedUnique(a[1..], b[1..], less);
      assert a == [a[0]] + a[1..] && b == [b[0]] + b[1..];
    }
  }
}
