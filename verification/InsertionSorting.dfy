/**
 The library's stable sort on lists of up to twenty elements: plain insertion from the left. Unlike
 the sorted sequence, what it makes of a list is fixed even when the comparison is not transitive.
 */
module InsertionSorting {
  import opened Sorting

  /** Move the new element to the left while it compares less than its neighbour. */
  function InsertLeft<T>(sorted: seq<T>, x: T, leq: (T, T) -> bool): seq<T> {
    if sorted == [] || leq(sorted[|sorted| - 1], x) then sorted + [x]
    else InsertLeft(sorted[..|sorted| - 1], x, leq) + [sorted[|sorted| - 1]]
  }

  function InsertionSort<T>(xs: seq<T>, leq: (T, T) -> bool): seq<T> {
    if xs == [] then [] else InsertLeft(InsertionSort(xs[..|xs| - 1], leq), xs[|xs| - 1], leq)
  }

  lemma {:induction false} InsertLeftKeeps<T>(sorted: seq<T>, x: T, leq: (T, T) -> bool)
    ensures multiset(InsertLeft(sorted, x, leq)) == multiset(sorted) + multiset{x}
  {
    if sorted != [] {
      var n := |sorted| - 1;
      assert sorted == sorted[..n] + [sorted[n]];
      InsertLeftKeeps(sorted[..n], x, leq);
    }
  }

  lemma {:induction false} InsertionSortKeeps<T>(xs: seq<T>, leq: (T, T) -> bool)
    ensures multiset(InsertionSort(xs, leq)) == multiset(xs)
  {
    if xs != [] {
      var n := |xs| - 1;
      InsertionSortKeeps(xs[..n], leq);
      InsertLeftKeeps(InsertionSort(xs[..n], leq), xs[n], leq);
      assert xs == xs[..n] + [xs[n]];
    }
  }

  lemma {:induction false} InsertLeftOrders<T>(s: set<T>, sorted: seq<T>, x: T, leq: (T, T) -> bool)
    requires PreorderOn(s, leq) && (forall y | y in sorted :: y in s) && x in s && Sorted(sorted, leq)
    ensures Sorted(InsertLeft(sorted, x, leq), leq)
  {
    if sorted != [] {
      var n := |sorted| - 1;
      assert sorted[n] in sorted;
      if leq(sorted[n], x) {
        forall i | 0 <= i < n ensures leq(sorted[i], x) {
          assert sorted[i] in sorted;
        }
      } else {
        InsertLeftOrders(s, sorted[..n], x, leq);
        InsertLeftKeeps(sorted[..n], x, leq);
        var front := InsertLeft(sorted[..n], x, leq);
        forall i | 0 <= i < |front| ensures leq(front[i], sorted[n]) {
          assert front[i] in multiset(front);
          assert front[i] == x || front[i] in sorted[..n];
        }
      }
    }
  }

  lemma {:induction false} InsertionSortOrders<T>(s: set<T>, xs: seq<T>, leq: (T, T) -> bool)
    requires PreorderOn(s, leq) && forall x | x in xs :: x in s
    ensures Sorted(InsertionSort(xs, leq), leq)
  {
    if xs != [] {
      var n := |xs| - 1;
      InsertionSortOrders(s, xs[..n], leq);
      InsertionSortKeeps(xs[..n], leq);
      forall x | x in InsertionSort(xs[..n], leq) ensures x in s {
        assert x in multiset(xs[..n]);
      }
      InsertLeftOrders(s, InsertionSort(xs[..n], leq), xs[n], leq);
    }
  }

  /** `a` stands before `b`. */
  ghost predicate Before<T>(xs: seq<T>, a: T, b: T) {
    exists i, j :: 0 <= i < j < |xs| && xs[i] == a && xs[j] == b
  }

  lemma BeforeInFront<T>(front: seq<T>, x: T, a: T, b: T)
    requires Before(front, a, b) || (a in front && b == x)
    ensures Before(front + [x], a, b)
  {
    if Before(front, a, b) {
      var i, j :| 0 <= i < j < |front| && front[i] == a && front[j] == b;
      assert (front + [x])[i] == a && (front + [x])[j] == b;
    } else {
      var i :| 0 <= i < |front| && front[i] == a;
      assert (front + [x])[i] == a && (front + [x])[|front|] == b;
    }
  }

  /** The insertion never changes which of two earlier elements comes first. */
  lemma {:induction false} InsertLeftKeepsBefore<T>(sorted: seq<T>, x: T, a: T, b: T, leq: (T, T) -> bool)
    requires Before(sorted, a, b)
    ensures Before(InsertLeft(sorted, x, leq), a, b)
  {
    var n := |sorted| - 1;
    if leq(sorted[n], x) {
      BeforeInFront(sorted, x, a, b);
    } else {
      var i, j :| 0 <= i < j < |sorted| && sorted[i] == a && sorted[j] == b;
      var front := InsertLeft(sorted[..n], x, leq);
      assert sorted[..n][i] == a;
      if j < n {
        assert sorted[..n][j] == b;
        InsertLeftKeepsBefore(sorted[..n], x, a, b, leq);
      } else {
        InsertLeftKeeps(sorted[..n], x, leq);
        assert a in multiset(sorted[..n]) && a in multiset(front);
      }
      BeforeInFront(front, sorted[n], a, b);
    }
  }

  /** So what the sort makes of the first elements is not undone by the others. */
  lemma {:induction false} SortKeepsBefore<T>(first: seq<T>, rest: seq<T>, a: T, b: T, leq: (T, T) -> bool)
    requires Before(InsertionSort(first, leq), a, b)
    ensures Before(InsertionSort(first + rest, leq), a, b)
  {
    if rest == [] {
      assert first + rest == first;
    } else {
      var n := |rest| - 1;
      SortKeepsBefore(first, rest[..n], a, b, leq);
      var xs := first + rest;
      assert xs[..|xs| - 1] == first + rest[..n] && xs[|xs| - 1] == rest[n];
      InsertLeftKeepsBefore(InsertionSort(first + rest[..n], leq), rest[n], a, b, leq);
    }
  }

  /**
   Of three elements that compare in a row, the sort of a list starting with them keeps the order of the last two
   and of the ends.
   */
  lemma StartDecides<T>(a: T, b: T, c: T, rest: seq<T>, leq: (T, T) -> bool)
    requires leq(a, b) && leq(b, c)
    ensures Before(InsertionSort([a, b, c] + rest, leq), a, c)
    ensures Before(InsertionSort([a, b, c] + rest, leq), b, c)
  {
    var first := [a, b, c];
    assert first[..2] == [a, b] && [a, b][..1] == [a] && [a][..0] == [];
    assert InsertionSort([a], leq) == [a];
    assert InsertionSort([a, b], leq) == [a, b];
    assert InsertionSort(first, leq) == first;
    assert first[0] == a && first[1] == b && first[2] == c;
    SortKeepsBefore(first, rest, a, c, leq);
    SortKeepsBefore(first, rest, b, c, leq);
  }

  /** Take one element out of a list. */
  lemma Without<T>(xs: seq<T>, x: T) returns (rest: seq<T>)
    requires x in multiset(xs)
    ensures multiset(xs) == multiset{x} + multiset(rest)
  {
    var i :| 0 <= i < |xs| && xs[i] == x;
    rest := xs[..i] + xs[i + 1..];
    assert xs == xs[..i] + [x] + xs[i + 1..];
  }

  /** Take three different elements out of a list. */
  lemma WithoutThree<T>(xs: seq<T>, a: T, b: T, c: T) returns (rest: seq<T>)
    requires a in xs && b in xs && c in xs && a != b && b != c && a != c
    ensures multiset(xs) == multiset([a, b, c] + rest) == multiset([b, c, a] + rest)
  {
    var less := Without(xs, a);
    assert b in multiset(xs) && c in multiset(xs);
    var least := Without(less, b);
    rest := Without(least, c);
  }
}
