/**
 * The orders and the two collection predicates the tests use to judge
 * generated identifiers (src/FlakeGen.Test/AssertUtil.cs): lexicographic
 * order on sequences, "sorted" and "unique".
 */
module Ordering {

  /**
   * Lexicographic order on sequences under an element order `less`: the
   * first differing position decides, and a proper prefix comes first.
   * With `CharLess` it is the ordinal order of .NET strings.
   */
  predicate LexLess<T(==)>(x: seq<T>, y: seq<T>, less: (T, T) -> bool)
  {
    if x == [] then y != []
    else y != [] && (less(x[0], y[0]) || (x[0] == y[0] && LexLess(x[1..], y[1..], less)))
  }

  predicate CharLess(a: char, b: char) { a < b }

  predicate IntLess(a: int, b: int) { a < b }

  /**
   * Ordinal (code-unit by code-unit) string order. AreSorted on strings
   * sorts with `Comparer<string>.Default`, which is culture-sensitive; the
   * model uses the ordinal order in its place, and says nothing about the
   * culture order (collations with contractions such as Czech "CH" order
   * some base-32 strings differently).
   */
  predicate OrdinalLess(s: string, t: string)
  {
    LexLess(s, t, CharLess)
  }

  /**
   * Comparing two concatenations whose first parts have equal length: the
   * first parts decide, and only when they are equal do the second parts.
   */
  lemma {:induction false} LexLessAppend<T>(x1: seq<T>, x2: seq<T>, y1: seq<T>, y2: seq<T>, less: (T, T) -> bool)
    requires |x1| == |y1|
    requires forall a :: !less(a, a)
    ensures LexLess(x1 + x2, y1 + y2, less)
        <==> LexLess(x1, y1, less) || (x1 == y1 && LexLess(x2, y2, less))
  {
    if x1 == [] {
      assert x1 + x2 == x2 && y1 + y2 == y2;
    } else {
      assert (x1 + x2)[0] == x1[0] && (y1 + y2)[0] == y1[0];
      assert (x1 + x2)[1..] == x1[1..] + x2;
      assert (y1 + y2)[1..] == y1[1..] + y2;
      LexLessAppend(x1[1..], x2, y1[1..], y2, less);
      if x1[0] == y1[0] {
        assert x1 == y1 <==> x1[1..] == y1[1..] by {
          if x1[1..] == y1[1..] { assert x1 == [x1[0]] + x1[1..]; assert y1 == [y1[0]] + y1[1..]; }
        }
      }
    }
  }

  /** A sequence is never below itself, when its element order is irreflexive. */
  lemma {:induction false} LexLessIrreflexive<T>(x: seq<T>, less: (T, T) -> bool)
    requires forall a :: !less(a, a)
    ensures !LexLess(x, x, less)
  {
    if x != [] {
      LexLessIrreflexive(x[1..], less);
    }
  }

  /** Two sequences are never each below the other, when the element order is strict. */
  lemma {:induction false} LexLessAsymmetric<T>(x: seq<T>, y: seq<T>, less: (T, T) -> bool)
    requires forall a :: !less(a, a)
    requires forall a, b :: less(a, b) ==> !less(b, a)
    ensures LexLess(x, y, less) ==> !LexLess(y, x, less)
  {
    if x != [] && y != [] {
      LexLessAsymmetric(x[1..], y[1..], less);
    }
  }

  /**
   * AssertUtil.AreSorted: the sequence equals its sorted copy. For a strict
   * weak order `less` this is: no later element is below an earlier one
   * (AreSortedIsSortedCopy).
   */
  predicate AreSorted<T>(ids: seq<T>, less: (T, T) -> bool)
  {
    forall i, j :: 0 <= i < j < |ids| ==> !less(ids[j], ids[i])
  }

  /** AssertUtil.AreUnique: the number of distinct elements equals the number of elements. */
  predicate AreUnique<T(==)>(ids: seq<T>)
  {
    |set x | x in ids| == |ids|
  }

  /** Pairwise distinct elements make the distinct count equal to the count. */
  lemma {:induction false} PairwiseDistinctIsUnique<T>(ids: seq<T>)
    requires forall i, j :: 0 <= i < j < |ids| ==> ids[i] != ids[j]
    ensures AreUnique(ids)
  {
    if ids != [] {
      var init := ids[..|ids| - 1];
      var last := ids[|ids| - 1];
      PairwiseDistinctIsUnique(init);
      assert ids == init + [last];
      assert forall i :: 0 <= i < |init| ==> init[i] != last;
      assert (set x | x in ids) == (set x | x in init) + {last};
    }
  }

  /**
   * AreUnique holds exactly when no element occurs twice: the distinct count
   * falls short of the count as soon as two positions hold the same element.
   */
  lemma AreUniqueIsPairwiseDistinct<T>(ids: seq<T>)
    ensures AreUnique(ids) <==> forall i, j :: 0 <= i < j < |ids| ==> ids[i] != ids[j]
  {
    if forall i, j :: 0 <= i < j < |ids| ==> ids[i] != ids[j] {
      PairwiseDistinctIsUnique(ids);
    } else {
      var i, j :| 0 <= i < j < |ids| && ids[i] == ids[j];
      var rest := ids[..j] + ids[j + 1..];
      assert ids == ids[..j] + [ids[j]] + ids[j + 1..];
      assert ids[j] == rest[i];
      assert (set x | x in ids) == (set x | x in rest);
      DistinctCountAtMost(rest);
    }
  }

  /** A sequence has at most as many distinct elements as elements. */
  lemma {:induction false} DistinctCountAtMost<T>(s: seq<T>)
    ensures |set x | x in s| <= |s|
  {
    if s != [] {
      var init := s[..|s| - 1];
      DistinctCountAtMost(init);
      assert s == init + [s[|s| - 1]];
      assert (set x | x in s) == (set x | x in init) + {s[|s| - 1]};
    }
  }

  /**
   * The ordering laws `OrderBy` relies on: `less` is asymmetric and "not
   * below" is transitive (a strict weak order).
   */
  ghost predicate StrictWeakOrder<T(!new)>(less: (T, T) -> bool)
  {
    (forall a, b :: less(a, b) ==> !less(b, a)) &&
    (forall a, b, c :: !less(a, b) && !less(b, c) ==> !less(a, c))
  }

  /**
   * Stable insertion: `x` goes after every element it is not below, so
   * elements that compare equal keep their order.
   */
  function Insert<T>(t: seq<T>, x: T, less: (T, T) -> bool): (r: seq<T>)
    ensures multiset(r) == multiset(t) + multiset{x}
    decreases |t|
  {
    if t == [] || !less(x, t[|t| - 1]) then t + [x]
    else
      var init, last := t[..|t| - 1], t[|t| - 1];
      assert t == init + [last];
      Insert(init, x, less) + [last]
  }

  /** `ids.OrderBy(id => id)`: a stable sort of the sequence under `less`. */
  function SortedCopy<T>(ids: seq<T>, less: (T, T) -> bool): (r: seq<T>)
    ensures multiset(r) == multiset(ids)
    decreases |ids|
  {
    if ids == [] then []
    else
      var init, last := ids[..|ids| - 1], ids[|ids| - 1];
      assert ids == init + [last];
      Insert(SortedCopy(init, less), last, less)
  }

  /** A sorted sequence is its own sorted copy, whatever the order. */
  lemma {:induction false} SortedIsItsSortedCopy<T>(ids: seq<T>, less: (T, T) -> bool)
    ensures AreSorted(ids, less) ==> SortedCopy(ids, less) == ids
    decreases |ids|
  {
    if ids != [] && AreSorted(ids, less) {
      var init := ids[..|ids| - 1];
      assert AreSorted(init, less) by {
        forall i, j | 0 <= i < j < |init| ensures !less(init[j], init[i]) {
          assert init[j] == ids[j] && init[i] == ids[i];
        }
      }
      SortedIsItsSortedCopy(init, less);
      assert ids == init + [ids[|ids| - 1]];
    }
  }

  /** Inserting into a sorted sequence keeps it sorted. */
  lemma {:induction false} InsertSorted<T(!new)>(t: seq<T>, x: T, less: (T, T) -> bool)
    requires StrictWeakOrder(less) && AreSorted(t, less)
    ensures AreSorted(Insert(t, x, less), less)
    decreases |t|
  {
    var r := Insert(t, x, less);
    if t == [] {
    } else if !less(x, t[|t| - 1]) {
      assert r == t + [x];
      forall i, j | 0 <= i < j < |r| ensures !less(r[j], r[i]) {
        if j == |t| && i < |t| - 1 {
          assert !less(t[|t| - 1], t[i]);
        }
      }
    } else {
      var init, last := t[..|t| - 1], t[|t| - 1];
      assert AreSorted(init, less) by {
        forall i, j | 0 <= i < j < |init| ensures !less(init[j], init[i]) {
          assert init[j] == t[j] && init[i] == t[i];
        }
      }
      InsertSorted(init, x, less);
      var u := Insert(init, x, less);
      assert r == u + [last];
      forall i, j | 0 <= i < j < |r| ensures !less(r[j], r[i]) {
        if j == |u| {
          assert r[i] in multiset(init) + multiset{x} by {
            assert r[i] == u[i];
          }
          if r[i] != x {
            var k :| 0 <= k < |init| && init[k] == r[i];
            assert t[k] == r[i];
          }
        } else {
          assert r[j] == u[j] && r[i] == u[i];
        }
      }
    }
  }

  /** Under a strict weak order the sorted copy is sorted. */
  lemma {:induction false} SortedCopyIsSorted<T(!new)>(ids: seq<T>, less: (T, T) -> bool)
    requires StrictWeakOrder(less)
    ensures AreSorted(SortedCopy(ids, less), less)
    decreases |ids|
  {
    if ids != [] {
      SortedCopyIsSorted(ids[..|ids| - 1], less);
      InsertSorted(SortedCopy(ids[..|ids| - 1], less), ids[|ids| - 1], less);
    }
  }

  /**
   * AreSorted is `SequenceEqual(ids, ids.OrderBy(id => id))`: under a strict
   * weak order a sequence passes exactly when it equals its stable sort.
   */
  lemma AreSortedIsSortedCopy<T(!new)>(ids: seq<T>, less: (T, T) -> bool)
    requires StrictWeakOrder(less)
    ensures AreSorted(ids, less) <==> SortedCopy(ids, less) == ids
  {
    SortedIsItsSortedCopy(ids, less);
    SortedCopyIsSorted(ids, less);
  }

  /** The element laws of a strict total order. */
  ghost predicate StrictTotalOrder<T(!new)>(less: (T, T) -> bool)
  {
    (forall a :: !less(a, a)) &&
    (forall a, b, c :: less(a, b) && less(b, c) ==> less(a, c)) &&
    (forall a, b :: a != b ==> less(a, b) || less(b, a))
  }

  /** Lexicographic order is transitive when the element order is. */
  lemma {:induction false} LexLessTransitive<T(!new)>(x: seq<T>, y: seq<T>, z: seq<T>, less: (T, T) -> bool)
    requires StrictTotalOrder(less)
    requires LexLess(x, y, less) && LexLess(y, z, less)
    ensures LexLess(x, z, less)
  {
    if x != [] && x[0] == y[0] && y[0] == z[0] {
      LexLessTransitive(x[1..], y[1..], z[1..], less);
    }
  }

  /** Any two sequences are equal or one is lexicographically below the other. */
  lemma {:induction false} LexLessTotal<T(!new)>(x: seq<T>, y: seq<T>, less: (T, T) -> bool)
    requires StrictTotalOrder(less)
    ensures x == y || LexLess(x, y, less) || LexLess(y, x, less)
  {
    if x != [] && y != [] && x[0] == y[0] {
      LexLessTotal(x[1..], y[1..], less);
      assert x == [x[0]] + x[1..] && y == [y[0]] + y[1..];
    }
  }

  /** Over a strict total element order, lexicographic order is a strict weak order. */
  lemma LexLessStrictWeak<T(!new)>(less: (T, T) -> bool)
    requires StrictTotalOrder(less)
    ensures forall x, y :: LexLess(x, y, less) ==> !LexLess(y, x, less)
    ensures forall x, y, z :: !LexLess(x, y, less) && !LexLess(y, z, less) ==> !LexLess(x, z, less)
  {
    forall x: seq<T>, y: seq<T> ensures LexLess(x, y, less) ==> !LexLess(y, x, less) {
      LexLessAsymmetric(x, y, less);
    }
    forall x: seq<T>, y: seq<T>, z: seq<T> | !LexLess(x, y, less) && !LexLess(y, z, less)
      ensures !LexLess(x, z, less)
    {
      LexLessTotal(x, y, less);
      LexLessTotal(y, z, less);
      if x != y && y != z {
        LexLessTransitive(z, y, x, less);
      }
      LexLessAsymmetric(z, x, less);
      LexLessIrreflexive(x, less);
    }
  }

  /** Ordinal string order meets the laws OrderBy relies on. */
  lemma OrdinalLessIsStrictWeakOrder()
    ensures StrictWeakOrder(OrdinalLess)
  {
    LexLessStrictWeak(CharLess);
  }

  /** A sequence whose elements strictly increase is sorted and unique. */
  lemma IncreasingIsSortedAndUnique<T>(ids: seq<T>, less: (T, T) -> bool)
    requires forall a :: !less(a, a)
    requires forall a, b :: less(a, b) ==> !less(b, a)
    requires forall i, j :: 0 <= i < j < |ids| ==> less(ids[i], ids[j])
    ensures AreSorted(ids, less) && AreUnique(ids)
  {
    PairwiseDistinctIsUnique(ids);
  }
}
