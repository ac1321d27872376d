/**
 * Sorting by a comparator, as `Array.prototype.sort` does: the comparator is
 * given as its "goes strictly before" relation. A stable insertion sort
 * stands for the engine's algorithm; what the callers rely on is stated
 * independently of it: the result is a permutation of the input, and it is
 * ordered whenever the relation is a strict weak order.
 */
module Sorting {

  /** Irreflexive, asymmetric and negatively transitive: ties form equivalence classes. */
  ghost predicate StrictWeakOrder<T(!new)>(less: (T, T) -> bool) {
    && (forall a, b :: less(a, b) ==> !less(b, a))
    && (forall a, b, c :: less(a, c) ==> less(a, b) || less(b, c))
  }

  /** No element goes strictly before an element to its left. */
  ghost predicate Sorted<T>(s: seq<T>, less: (T, T) -> bool) {
    forall i, j :: 0 <= i < j < |s| ==> !less(s[j], s[i])
  }

  /** `x` placed after every element it does not go strictly before. */
  function Insert<T>(x: T, s: seq<T>, less: (T, T) -> bool): (r: seq<T>)
    ensures |r| == |s| + 1
    ensures multiset(r) == multiset(s) + multiset{x}
    decreases |s|
  {
    if |s| == 0 then [x]
    else if less(x, s[0]) then [x] + s
    else
      assert s == [s[0]] + s[1..];
      [s[0]] + Insert(x, s[1..], less)
  }

  function Sort<T>(s: seq<T>, less: (T, T) -> bool): (r: seq<T>)
    ensures |r| == |s|
    ensures multiset(r) == multiset(s)
    decreases |s|
  {
    if |s| == 0 then []
    else
      assert s == s[..|s| - 1] + [s[|s| - 1]];
      Insert(s[|s| - 1], Sort(s[..|s| - 1], less), less)
  }

  lemma {:induction false} InsertSorted<T(!new)>(x: T, s: seq<T>, less: (T, T) -> bool)
    requires StrictWeakOrder(less) && Sorted(s, less)
    ensures Sorted(Insert(x, s, less), less)
    decreases |s|
  {
    if |s| > 0 {
      if less(x, s[0]) {
        forall k | 0 <= k < |s|
          ensures !less(s[k], x)
        {
          assert k > 0 ==> !less(s[k], s[0]);
        }
        ConsSorted(x, s, less);
      } else {
        InsertSorted(x, s[1..], less);
        InsertKeepsHeadFirst(x, s, less);
        ConsSorted(s[0], Insert(x, s[1..], less), less);
      }
    }
  }

  /** An element none of a sorted list goes strictly before can head it. */
  lemma ConsSorted<T>(h: T, t: seq<T>, less: (T, T) -> bool)
    requires Sorted(t, less)
    requires forall k :: 0 <= k < |t| ==> !less(t[k], h)
    ensures Sorted([h] + t, less)
  {
    var r := [h] + t;
    forall i, j | 0 <= i < j < |r|
      ensures !less(r[j], r[i])
    {
      assert r[j] == t[j - 1];
      if i > 0 {
        assert r[i] == t[i - 1];
      }
    }
  }

  /** Inserting past the head of a sorted list leaves nothing that goes strictly before the head. */
  lemma InsertKeepsHeadFirst<T(!new)>(x: T, s: seq<T>, less: (T, T) -> bool)
    requires StrictWeakOrder(less) && Sorted(s, less) && |s| > 0 && !less(x, s[0])
    ensures forall k :: 0 <= k < |Insert(x, s[1..], less)| ==> !less(Insert(x, s[1..], less)[k], s[0])
  {
    var tail := Insert(x, s[1..], less);
    forall k | 0 <= k < |tail|
      ensures !less(tail[k], s[0])
    {
      assert tail[k] in multiset(tail);
      if tail[k] != x {
        assert tail[k] in multiset(s[1..]);
        var p :| 0 <= p < |s[1..]| && s[1..][p] == tail[k];
        assert s[p + 1] == tail[k];
      }
    }
  }

  /**
   * Under a strict weak order the sorted result is ordered: no element goes
   * strictly before one placed to its left.
   */
  lemma {:induction false} SortSorted<T(!new)>(s: seq<T>, less: (T, T) -> bool)
    requires StrictWeakOrder(less)
    ensures Sorted(Sort(s, less), less)
    decreases |s|
  {
    if |s| > 0 {
      SortSorted(s[..|s| - 1], less);
      InsertSorted(s[|s| - 1], Sort(s[..|s| - 1], less), less);
    }
  }

  /** An input that is already ordered comes back unchanged. */
  lemma {:induction false} SortOfSorted<T(!new)>(s: seq<T>, less: (T, T) -> bool)
    requires StrictWeakOrder(less) && Sorted(s, less)
    ensures Sort(s, less) == s
    decreases |s|
  {
    if |s| > 0 {
      var init := s[..|s| - 1];
      var x := s[|s| - 1];
      assert Sorted(init, less);
      SortOfSorted(init, less);
      InsertAtEnd(x, init, less);
      assert init + [x] == s;
    }
  }

  /** An element no earlier element goes strictly after is inserted at the end. */
  lemma {:induction false} InsertAtEnd<T>(x: T, s: seq<T>, less: (T, T) -> bool)
    requires forall k :: 0 <= k < |s| ==> !less(x, s[k])
    ensures Insert(x, s, less) == s + [x]
    decreases |s|
  {
    if |s| > 0 {
      InsertAtEnd(x, s[1..], less);
      assert [s[0]] + (s[1..] + [x]) == s + [x];
    }
  }

  // ---- stability ----

  /** Neither of `a` and `b` goes strictly before the other: the comparator calls them equal. */
  predicate Tied<T>(a: T, b: T, less: (T, T) -> bool) {
    !less(a, b) && !less(b, a)
  }

  /** The elements of `s` tied with `z`, in their order in `s`. */
  function Ties<T>(s: seq<T>, z: T, less: (T, T) -> bool): (r: seq<T>)
    ensures |r| <= |s|
    decreases |s|
  {
    if |s| == 0 then []
    else (if Tied(s[0], z, less) then [s[0]] else []) + Ties(s[1..], z, less)
  }

  lemma {:induction false} TiesConcat<T>(a: seq<T>, b: seq<T>, z: T, less: (T, T) -> bool)
    ensures Ties(a + b, z, less) == Ties(a, z, less) + Ties(b, z, less)
    decreases |a|
  {
    if |a| == 0 {
      assert a + b == b;
    } else {
      var h := if Tied(a[0], z, less) then [a[0]] else [];
      assert (a + b)[0] == a[0] && (a + b)[1..] == a[1..] + b;
      assert Ties(a + b, z, less) == h + Ties(a[1..] + b, z, less);
      assert Ties(a, z, less) == h + Ties(a[1..], z, less);
      TiesConcat(a[1..], b, z, less);
    }
  }

  /** Nothing in `s` is tied with an element that goes strictly before all of `s`. */
  lemma {:induction false} NoTiesAbove<T>(s: seq<T>, z: T, less: (T, T) -> bool)
    requires forall k :: 0 <= k < |s| ==> less(z, s[k])
    ensures Ties(s, z, less) == []
    decreases |s|
  {
    if |s| > 0 {
      NoTiesAbove(s[1..], z, less);
    }
  }

  /** Insertion puts an element after every element of the sorted list it is tied with. */
  lemma {:induction false} InsertTies<T(!new)>(x: T, s: seq<T>, z: T, less: (T, T) -> bool)
    requires StrictWeakOrder(less) && Sorted(s, less)
    ensures Ties(Insert(x, s, less), z, less) == Ties(s, z, less) + Ties([x], z, less)
    decreases |s|
  {
    if |s| == 0 {
      assert Insert(x, s, less) == [x];
    } else if less(x, s[0]) {
      InsertInFront(x, s, z, less);
    } else {
      assert Sorted(s[1..], less);
      InsertTies(x, s[1..], z, less);
      InsertPastHeadTies(x, s, z, less);
    }
  }

  lemma InsertPastHeadTies<T>(x: T, s: seq<T>, z: T, less: (T, T) -> bool)
    requires |s| > 0 && !less(x, s[0])
    requires Ties(Insert(x, s[1..], less), z, less) == Ties(s[1..], z, less) + Ties([x], z, less)
    ensures Ties(Insert(x, s, less), z, less) == Ties(s, z, less) + Ties([x], z, less)
  {
    InsertPastHead(x, s, less);
    TiesCons(x, s, Insert(x, s[1..], less), z, less);
  }

  lemma InsertPastHead<T>(x: T, s: seq<T>, less: (T, T) -> bool)
    requires |s| > 0 && !less(x, s[0])
    ensures Insert(x, s, less) == [s[0]] + Insert(x, s[1..], less)
  {
  }

  /** Ties of a list whose tail has the ties of `s`'s tail and then those of `x`. */
  lemma TiesCons<T>(x: T, s: seq<T>, rest: seq<T>, z: T, less: (T, T) -> bool)
    requires |s| > 0
    requires Ties(rest, z, less) == Ties(s[1..], z, less) + Ties([x], z, less)
    ensures Ties([s[0]] + rest, z, less) == Ties(s, z, less) + Ties([x], z, less)
  {
    TiesConcat([s[0]], rest, z, less);
    TiesConcat([s[0]], s[1..], z, less);
    assert [s[0]] + s[1..] == s;
  }

  lemma InsertInFront<T(!new)>(x: T, s: seq<T>, z: T, less: (T, T) -> bool)
    requires StrictWeakOrder(less) && Sorted(s, less) && |s| > 0 && less(x, s[0])
    ensures Ties([x] + s, z, less) == Ties(s, z, less) + Ties([x], z, less)
  {
    TiesConcat([x], s, z, less);
    if Tied(x, z, less) {
      TiedBelowHead(x, s, z, less);
    } else {
      assert Ties([x], z, less) == [] + Ties([], z, less);
    }
  }

  /** Nothing in a sorted list is tied with an element tied with one going strictly before its head. */
  lemma TiedBelowHead<T(!new)>(x: T, s: seq<T>, z: T, less: (T, T) -> bool)
    requires StrictWeakOrder(less) && Sorted(s, less) && |s| > 0 && less(x, s[0]) && Tied(x, z, less)
    ensures Ties(s, z, less) == []
  {
    var head := s[0];
    assert less(z, head) by {
      assert less(x, z) || less(z, head);
    }
    forall k | 0 <= k < |s|
      ensures less(z, s[k])
    {
      var y := s[k];
      if k > 0 {
        assert !less(y, head);
        assert less(z, y) || less(y, head);
      }
    }
    NoTiesAbove(s, z, less);
  }

  /**
   * Under a strict weak order the sort is stable: the elements the
   * comparator calls equal to any given `z` come out in their input order.
   */
  lemma {:induction false} SortStable<T(!new)>(s: seq<T>, z: T, less: (T, T) -> bool)
    requires StrictWeakOrder(less)
    ensures Ties(Sort(s, less), z, less) == Ties(s, z, less)
    decreases |s|
  {
    if |s| > 0 {
      var init, x := s[..|s| - 1], s[|s| - 1];
      SortStable(init, z, less);
      SortSorted(init, less);
      InsertTies(x, Sort(init, less), z, less);
      SortStep(s, z, less);
    }
  }

  lemma SortStep<T>(s: seq<T>, z: T, less: (T, T) -> bool)
    requires |s| > 0
    requires Ties(Sort(s[..|s| - 1], less), z, less) == Ties(s[..|s| - 1], z, less)
    requires Ties(Insert(s[|s| - 1], Sort(s[..|s| - 1], less), less), z, less) ==
      Ties(Sort(s[..|s| - 1], less), z, less) + Ties([s[|s| - 1]], z, less)
    ensures Ties(Sort(s, less), z, less) == Ties(s, z, less)
  {
    SortLast(s, less);
    TiesSnoc(s, z, less);
  }

  lemma SortLast<T>(s: seq<T>, less: (T, T) -> bool)
    requires |s| > 0
    ensures Sort(s, less) == Insert(s[|s| - 1], Sort(s[..|s| - 1], less), less)
  {
  }

  lemma TiesSnoc<T>(s: seq<T>, z: T, less: (T, T) -> bool)
    requires |s| > 0
    ensures Ties(s, z, less) == Ties(s[..|s| - 1], z, less) + Ties([s[|s| - 1]], z, less)
  {
    TiesConcat(s[..|s| - 1], [s[|s| - 1]], z, less);
    assert s[..|s| - 1] + [s[|s| - 1]] == s;
  }

  predicate Distinct<T(==)>(s: seq<T>) {
    forall i, j :: 0 <= i < j < |s| ==> s[i] != s[j]
  }

  lemma {:induction false} DistinctCounts<T>(s: seq<T>, x: T)
    requires Distinct(s)
    ensures multiset(s)[x] <= 1
    decreases |s|
  {
    if |s| > 0 {
      assert s == [s[0]] + s[1..];
      DistinctCounts(s[1..], x);
      if s[0] == x {
        assert x !in s[1..];
      }
    }
  }

  lemma RepeatCounts<T>(r: seq<T>, i: nat, j: nat)
    requires i < j < |r|
    ensures r[i] == r[j] ==> multiset(r)[r[i]] >= 2
  {
    assert r == r[..j] + r[j..];
    assert r[..j][i] == r[i];
    assert r[j..][0] == r[j];
    assert multiset(r[..j])[r[i]] >= 1;
    assert multiset(r[j..])[r[j]] >= 1;
  }

  /** Sorting neither creates nor merges duplicates: a duplicate-free input gives a duplicate-free result. */
  lemma SortKeepsDistinct<T>(s: seq<T>, less: (T, T) -> bool)
    requires Distinct(s)
    ensures Distinct(Sort(s, less))
  {
    var r := Sort(s, less);
    forall i, j | 0 <= i < j < |r|
      ensures r[i] != r[j]
    {
      RepeatCounts(r, i, j);
      DistinctCounts(s, r[i]);
    }
  }
}
