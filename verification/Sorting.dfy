/**
 Sorting by a total order, as the library sorts used throughout the repository do it, and the
 lexicographic order of strings. The point of the module is that the sorted sequence depends only
 on the elements, not on the order they come in.
 */
module Sorting {

  ghost predicate TotalPreorder<T(!new)>(leq: (T, T) -> bool) {
    && (forall a, b :: leq(a, b) || leq(b, a))
    && (forall a, b, c | leq(a, b) && leq(b, c) :: leq(a, c))
  }

  /** The same among the elements of a set. */
  ghost predicate PreorderOn<T>(s: set<T>, leq: (T, T) -> bool) {
    && (forall a, b | a in s && b in s :: leq(a, b) || leq(b, a))
    && (forall a, b, c | a in s && b in s && c in s && leq(a, b) && leq(b, c) :: leq(a, c))
  }

  ghost predicate TotalOrder<T(!new)>(leq: (T, T) -> bool) {
    TotalPreorder(leq) && forall a, b | leq(a, b) && leq(b, a) :: a == b
  }

  ghost predicate Sorted<T>(xs: seq<T>, leq: (T, T) -> bool) {
    forall i, j | 0 <= i < j < |xs| :: leq(xs[i], xs[j])
  }

  function InsertSorted<T>(x: T, xs: seq<T>, leq: (T, T) -> bool): (ys: seq<T>)
    ensures |ys| == |xs| + 1
  {
    if xs == [] || leq(x, xs[0]) then [x] + xs else [xs[0]] + InsertSorted(x, xs[1..], leq)
  }

  function Sort<T>(xs: seq<T>, leq: (T, T) -> bool): (ys: seq<T>)
    ensures |ys| == |xs|
  {
    if xs == [] then [] else InsertSorted(xs[0], Sort(xs[1..], leq), leq)
  }

  lemma {:induction false} InsertKeepsElements<T>(x: T, xs: seq<T>, leq: (T, T) -> bool)
    ensures multiset(InsertSorted(x, xs, leq)) == multiset(xs) + multiset{x}
  {
    if xs != [] && !leq(x, xs[0]) {
      InsertKeepsElements(x, xs[1..], leq);
      assert xs == [xs[0]] + xs[1..];
    }
  }

  lemma {:induction false} InsertKeepsOrder<T>(s: set<T>, x: T, xs: seq<T>, leq: (T, T) -> bool)
    requires PreorderOn(s, leq) && x in s && (forall y | y in xs :: y in s) && Sorted(xs, leq)
    ensures Sorted(InsertSorted(x, xs, leq), leq)
  {
    if xs == [] {
    } else if leq(x, xs[0]) {
      var ys := [x] + xs;
      forall i, j | 0 <= i < j < |ys| ensures leq(ys[i], ys[j]) {
        assert j > 1 ==> leq(xs[0], ys[j]);
      }
    } else {
      InsertKeepsOrder(s, x, xs[1..], leq);
      InsertKeepsElements(x, xs[1..], leq);
      var tail := InsertSorted(x, xs[1..], leq);
      forall j | 0 <= j < |tail| ensures leq(xs[0], tail[j]) {
        assert tail[j] in multiset(tail);
        assert tail[j] == x || tail[j] in xs[1..];
        assert xs[0] in xs;
      }
    }
  }

  lemma {:induction false} SortKeepsElements<T>(xs: seq<T>, leq: (T, T) -> bool)
    ensures multiset(Sort(xs, leq)) == multiset(xs)
  {
    if xs != [] {
      SortKeepsElements(xs[1..], leq);
      InsertKeepsElements(xs[0], Sort(xs[1..], leq), leq);
      assert xs == [xs[0]] + xs[1..];
    }
  }

  lemma {:induction false} SortSortsOn<T>(s: set<T>, xs: seq<T>, leq: (T, T) -> bool)
    requires PreorderOn(s, leq) && forall x | x in xs :: x in s
    ensures Sorted(Sort(xs, leq), leq)
  {
    if xs != [] {
      SortSortsOn(s, xs[1..], leq);
      SortKeepsElements(xs[1..], leq);
      forall y | y in Sort(xs[1..], leq) ensures y in s {
        assert y in multiset(xs[1..]);
      }
      InsertKeepsOrder(s, xs[0], Sort(xs[1..], leq), leq);
    }
  }

  lemma SortSorts<T(!new)>(xs: seq<T>, leq: (T, T) -> bool)
    requires TotalPreorder(leq)
    ensures Sorted(Sort(xs, leq), leq)
  {
    SortSortsOn(set x | x in xs :: x, xs, leq);
  }

  lemma {:induction false} SortedUnique<T>(xs: seq<T>, ys: seq<T>, leq: (T, T) -> bool)
    requires forall a, b | a in xs && b in xs && leq(a, b) && leq(b, a) :: a == b
    requires Sorted(xs, leq) && Sorted(ys, leq) && multiset(xs) == multiset(ys)
    ensures xs == ys
  {
    assert |xs| == |multiset(xs)| == |multiset(ys)| == |ys|;
    if xs != [] {
      assert xs[0] in multiset(ys) && ys[0] in multiset(xs);
      assert xs[0] == ys[0];
      assert xs == [xs[0]] + xs[1..] && ys == [ys[0]] + ys[1..];
      assert multiset(xs[1..]) == multiset(xs) - multiset{xs[0]};
      assert multiset(ys[1..]) == multiset(ys) - multiset{ys[0]};
      SortedUnique(xs[1..], ys[1..], leq);
    }
  }

  /** Sorting two arrangements of the same elements gives the same sequence. */
  lemma SortIgnoresOrder<T(!new)>(xs: seq<T>, ys: seq<T>, leq: (T, T) -> bool)
    requires TotalOrder(leq) && multiset(xs) == multiset(ys)
    ensures Sort(xs, leq) == Sort(ys, leq)
  {
    SortKeepsElements(xs, leq);
    SortKeepsElements(ys, leq);
    SortSorts(xs, leq);
    SortSorts(ys, leq);
    SortedUnique(Sort(xs, leq), Sort(ys, leq), leq);
  }

  /** The elements of a set, listed in some order. */
  method Elements<T>(s: set<T>) returns (xs: seq<T>)
    ensures multiset(xs) == multiset(s)
  {
    xs := [];
    var rest := s;
    while rest != {}
      invariant rest <= s && multiset(xs) + multiset(rest) == multiset(s)
      decreases rest
    {
      var x :| x in rest;
      xs, rest := xs + [x], rest - {x};
    }
  }

  /** A set listed in order: no repetition, and nothing missing. */
  lemma ListingOfSet<T>(s: set<T>, xs: seq<T>)
    requires multiset(xs) == multiset(s)
    ensures forall x :: x in xs <==> x in s
    ensures forall i, j | 0 <= i < j < |xs| :: xs[i] != xs[j]
  {
    forall x ensures x in xs <==> x in s {
      assert x in multiset(xs) <==> x in multiset(s);
    }
    forall i, j | 0 <= i < j < |xs| ensures xs[i] != xs[j] {
      var before, after := xs[..j], xs[j..];
      assert xs == before + after && before[i] in multiset(before) && after[0] in multiset(after);
      assert multiset(xs)[xs[j]] == multiset(before)[xs[j]] + multiset(after)[xs[j]];
    }
  }

  /** A set in sorted order, each element once. */
  method SortedElements<T(!new)>(s: set<T>, leq: (T, T) -> bool) returns (xs: seq<T>)
    requires TotalPreorder(leq)
    ensures multiset(xs) == multiset(s) && Sorted(xs, leq)
    ensures forall x :: x in xs <==> x in s
    ensures forall i, j | 0 <= i < j < |xs| :: xs[i] != xs[j]
  {
    var listed := Elements(s);
    xs := Sort(listed, leq);
    SortKeepsElements(listed, leq);
    SortSorts(listed, leq);
    ListingOfSet(s, xs);
  }

  /** Lexicographic order of strings. */
  predicate StringLeq(a: string, b: string) {
    a == [] || (b != [] && (a[0] < b[0] || (a[0] == b[0] && StringLeq(a[1..], b[1..]))))
  }

  /** A text comes before its extensions, and otherwise the first difference decides. */
  lemma {:induction false} FirstDifferenceDecides(shared: string, a: string, b: string)
    ensures a == [] ==> StringLeq(shared + a, shared + b)
    ensures a != [] && b == [] ==> !StringLeq(shared + a, shared + b)
    ensures a != [] && b != [] && a[0] != b[0] ==> (StringLeq(shared + a, shared + b) <==> a[0] < b[0])
  {
    if shared == [] {
      assert shared + a == a && shared + b == b;
    } else {
      assert (shared + a)[1..] == shared[1..] + a && (shared + b)[1..] == shared[1..] + b;
      FirstDifferenceDecides(shared[1..], a, b);
    }
  }

  lemma StringOrder()
    ensures TotalOrder(StringLeq)
  {
    forall a, b ensures StringLeq(a, b) || StringLeq(b, a) {
      StringTotal(a, b);
    }
    forall a, b | StringLeq(a, b) && StringLeq(b, a) ensures a == b {
      StringAntisymmetric(a, b);
    }
    forall a, b, c | StringLeq(a, b) && StringLeq(b, c) ensures StringLeq(a, c) {
      StringTransitive(a, b, c);
    }
  }

  lemma {:induction false} StringTotal(a: string, b: string)
    ensures StringLeq(a, b) || StringLeq(b, a)
  {
    if a != [] && b != [] && a[0] == b[0] {
      StringTotal(a[1..], b[1..]);
    }
  }

  lemma {:induction false} StringAntisymmetric(a: string, b: string)
    requires StringLeq(a, b) && StringLeq(b, a)
    ensures a == b
  {
    if a != [] {
      StringAntisymmetric(a[1..], b[1..]);
      assert a == [a[0]] + a[1..] && b == [b[0]] + b[1..];
    }
  }

  lemma {:induction false} StringTransitive(a: string, b: string, c: string)
    requires StringLeq(a, b) && StringLeq(b, c)
    ensures StringLeq(a, c)
  {
    if a != [] && a[0] == b[0] == c[0] {
      StringTransitive(a[1..], b[1..], c[1..]);
    }
  }
}
