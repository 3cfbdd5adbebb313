/** Sorting by an order, as sort.Sort and sort.Ints do it. */
module Sorting {

  /** No element is less than one before it. */
  ghost predicate OrderedBy<T>(less: (T, T) -> bool, s: seq<T>) {
    forall i, j :: 0 <= i < j < |s| ==> !less(s[j], s[i])
  }

  /** What sort.Sort asks of an order. */
  ghost predicate StrictWeak<T(!new)>(less: (T, T) -> bool) {
    && (forall a, b :: less(a, b) ==> !less(b, a))
    && (forall a, b, c :: !less(a, b) && !less(b, c) ==> !less(a, c))
  }

  function InsertBy<T>(less: (T, T) -> bool, s: seq<T>, x: T): seq<T> {
    if s == [] then [x]
    else
      var init, last := s[..|s| - 1], s[|s| - 1];
      if less(x, last) then InsertBy(less, init, x) + [last] else s + [x]
  }

  function SortBy<T>(less: (T, T) -> bool, s: seq<T>): seq<T> {
    if s == [] then [] else InsertBy(less, SortBy(less, s[..|s| - 1]), s[|s| - 1])
  }

  lemma {:induction false} InsertKeepsElements<T>(less: (T, T) -> bool, s: seq<T>, x: T)
    ensures multiset(InsertBy(less, s, x)) == multiset(s) + multiset{x}
    ensures forall y :: y in InsertBy(less, s, x) ==> y == x || y in s
  {
    if s != [] && less(x, s[|s| - 1]) {
      var init, last := s[..|s| - 1], s[|s| - 1];
      InsertKeepsElements(less, init, x);
      assert s == init + [last];
    }
  }

  lemma OrderedSnoc<T>(less: (T, T) -> bool, s: seq<T>, x: T)
    requires OrderedBy(less, s) && forall y :: y in s ==> !less(x, y)
    ensures OrderedBy(less, s + [x])
  {
    assert forall i :: 0 <= i < |s| ==> s[i] in s;
  }

  lemma {:induction false} InsertKeepsOrder<T(!new)>(less: (T, T) -> bool, s: seq<T>, x: T)
    requires StrictWeak(less) && OrderedBy(less, s)
    ensures OrderedBy(less, InsertBy(less, s, x))
  {
    if s != [] {
      var init, last := s[..|s| - 1], s[|s| - 1];
      if less(x, last) {
        InsertKeepsOrder(less, init, x);
        InsertKeepsElements(less, init, x);
        OrderedSnoc(less, InsertBy(less, init, x), last);
      } else {
        forall y | y in s
          ensures !less(x, y)
        {
          assert y == last || !less(last, y);
        }
        OrderedSnoc(less, s, x);
      }
    }
  }

  /** Some ordered permutation. */
  lemma {:induction false} SortBySorts<T(!new)>(less: (T, T) -> bool, s: seq<T>)
    requires StrictWeak(less)
    ensures OrderedBy(less, SortBy(less, s)) && multiset(SortBy(less, s)) == multiset(s)
  {
    if s != [] {
      var init, last := s[..|s| - 1], s[|s| - 1];
      SortBySorts(less, init);
      InsertKeepsOrder(less, SortBy(less, init), last);
      InsertKeepsElements(less, SortBy(less, init), last);
      assert s == init + [last];
    }
  }

  // ---------------------------------------------------------------- integers

  ghost predicate Ascending(s: seq<int>) {
    forall i, j :: 0 <= i < j < |s| ==> s[i] <= s[j]
  }

  predicate Below(a: int, b: int) {
    a < b
  }

  function Sorted(s: seq<int>): seq<int> {
    SortBy(Below, s)
  }

  lemma SortedSorts(s: seq<int>)
    ensures Ascending(Sorted(s)) && multiset(Sorted(s)) == multiset(s) && |Sorted(s)| == |s|
    ensures forall x :: x in Sorted(s) <==> x in s
  {
    SortBySorts(Below, s);
    var r := Sorted(s);
    forall i, j | 0 <= i < j < |r|
      ensures r[i] <= r[j]
    {
      assert !Below(r[j], r[i]);
    }
    assert |multiset(r)| == |multiset(s)|;
    forall x
      ensures x in r <==> x in s
    {
      assert x in multiset(r) <==> x in multiset(s);
    }
  }

  ghost predicate NoDup<T>(s: seq<T>) {
    forall i, j :: 0 <= i < j < |s| ==> s[i] != s[j]
  }

  function Elements<T>(s: seq<T>): set<T> {
    set x | x in s
  }

  lemma {:induction false} NoDupCardinality<T>(s: seq<T>)
    requires NoDup(s)
    ensures |Elements(s)| == |s|
  {
    if s != [] {
      var init, last := s[..|s| - 1], s[|s| - 1];
      NoDupCardinality(init);
      assert Elements(s) == Elements(init) + {last};
    }
  }

  lemma SubsetOfSameSize<T>(a: set<T>, b: set<T>)
    requires a <= b && |b| <= |a|
    ensures a == b
  {
    assert b == a + (b - a);
    assert |b| == |a| + |b - a|;
  }

  lemma NoDupSnoc<T>(s: seq<T>, x: T)
    requires NoDup(s) && x !in s
    ensures NoDup(s + [x])
  {
  }

  lemma {:induction false} NoDupCount<T>(s: seq<T>, x: T)
    requires NoDup(s)
    ensures multiset(s)[x] <= 1
  {
    if s != [] {
      var init, last := s[..|s| - 1], s[|s| - 1];
      NoDupCount(init, x);
      assert s == init + [last] && last !in init;
    }
  }

  lemma RepetitionCount<T>(s: seq<T>, i: nat, j: nat)
    requires i < j < |s| && s[i] == s[j]
    ensures multiset(s)[s[i]] >= 2
  {
    assert s == s[..j] + [s[j]] + s[j + 1..];
    assert s[..j][i] == s[i];
  }

  lemma SortedNoDup(s: seq<int>)
    requires NoDup(s)
    ensures NoDup(Sorted(s))
  {
    SortedSorts(s);
    var r := Sorted(s);
    forall i, j | 0 <= i < j < |r|
      ensures r[i] != r[j]
    {
      NoDupCount(s, r[i]);
      if r[i] == r[j] {
        RepetitionCount(r, i, j);
        assert false;
      }
    }
  }

  method SortInts(a: array<int>)
    modifies a
    ensures a[..] == Sorted(old(a[..]))
  {
    var s := Sorted(a[..]);
    SortedSorts(a[..]);
    forall i | 0 <= i < a.Length {
      a[i] := s[i];
    }
    assert a[..] == s;
  }
}
