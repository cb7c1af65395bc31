/**
 * The sort `Array.prototype.sort` performs on the copy of the rows: a stable
 * sort (ECMAScript 2019 onwards) under a caller-supplied comparator, modelled
 * as a stable insertion sort.
 */
module Sorting {

  /** `x` goes before the first `y` it does not exceed, so it stays ahead of its equals. */
  function Insert<T>(x: T, ys: seq<T>, cmp: (T, T) -> real): (r: seq<T>)
    ensures multiset(r) == multiset(ys) + multiset{x}
  {
    if |ys| == 0 then [x]
    else if cmp(x, ys[0]) <= 0.0 then [x] + ys
    else
      assert ys == [ys[0]] + ys[1..];
      [ys[0]] + Insert(x, ys[1..], cmp)
  }

  /** The sorted copy: a permutation of the input. */
  function Sort<T>(s: seq<T>, cmp: (T, T) -> real): (r: seq<T>)
    ensures multiset(r) == multiset(s)
  {
    if |s| == 0 then []
    else
      assert s == [s[0]] + s[1..];
      Insert(s[0], Sort(s[1..], cmp), cmp)
  }

  /**
   * On the elements of `u`, `cmp` behaves as a comparator must: swapping the
   * arguments flips the sign, and "not greater" is transitive.
   */
  ghost predicate Consistent<T(!new)>(u: set<T>, cmp: (T, T) -> real) {
    (forall a, b | a in u && b in u :: (cmp(a, b) < 0.0 <==> cmp(b, a) > 0.0) && (cmp(a, b) == 0.0 <==> cmp(b, a) == 0.0)) &&
    (forall a, b, c | a in u && b in u && c in u :: cmp(a, b) <= 0.0 && cmp(b, c) <= 0.0 ==> cmp(a, c) <= 0.0)
  }

  /** Every element is not greater than any later one. */
  ghost predicate Sorted<T>(s: seq<T>, cmp: (T, T) -> real) {
    forall i, j | 0 <= i < j < |s| :: cmp(s[i], s[j]) <= 0.0
  }

  /** The elements of `s` that compare equal to `z`, in their order in `s`. */
  function Ties<T>(s: seq<T>, z: T, cmp: (T, T) -> real): (r: seq<T>)
    ensures |r| <= |s|
    ensures forall k :: 0 <= k < |r| ==> cmp(z, r[k]) == 0.0
  {
    if |s| == 0 then []
    else (if cmp(z, s[0]) == 0.0 then [s[0]] else []) + Ties(s[1..], z, cmp)
  }

  lemma {:induction false} TiesAppend<T>(s: seq<T>, t: seq<T>, z: T, cmp: (T, T) -> real)
    ensures Ties(s + t, z, cmp) == Ties(s, z, cmp) + Ties(t, z, cmp)
    decreases |s|
  {
    if |s| > 0 {
      var head := if cmp(z, s[0]) == 0.0 then [s[0]] else [];
      TiesAppend(s[1..], t, z, cmp);
      assert (s + t)[0] == s[0] && (s + t)[1..] == s[1..] + t;
      assert Ties(s + t, z, cmp) == head + Ties(s[1..] + t, z, cmp);
      assert Ties(s, z, cmp) == head + Ties(s[1..], z, cmp);
    } else {
      assert s + t == t;
    }
  }

  /** `y` is not greater than any element of `s`. */
  ghost predicate AtMostAll<T>(y: T, s: seq<T>, cmp: (T, T) -> real) {
    forall k :: 0 <= k < |s| ==> cmp(y, s[k]) <= 0.0
  }

  lemma AtMostAllPermuted<T>(y: T, s: seq<T>, t: seq<T>, cmp: (T, T) -> real)
    requires multiset(s) == multiset(t) && AtMostAll(y, t, cmp)
    ensures AtMostAll(y, s, cmp)
  {
    forall k | 0 <= k < |s|
      ensures cmp(y, s[k]) <= 0.0
    {
      assert s[k] in multiset(t);
      var j :| 0 <= j < |t| && t[j] == s[k];
    }
  }

  lemma SortedCons<T>(y: T, s: seq<T>, cmp: (T, T) -> real)
    requires Sorted(s, cmp) && AtMostAll(y, s, cmp)
    ensures Sorted([y] + s, cmp)
  {
    var r := [y] + s;
    forall i, j | 0 <= i < j < |r|
      ensures cmp(r[i], r[j]) <= 0.0
    {
      if i > 0 {
        assert r[i] == s[i - 1] && r[j] == s[j - 1];
      }
    }
  }

  /** Inserting into a sorted sequence keeps it sorted. */
  lemma {:induction false} InsertSorted<T(!new)>(x: T, ys: seq<T>, u: set<T>, cmp: (T, T) -> real)
    requires Consistent(u, cmp) && x in u && (forall k :: 0 <= k < |ys| ==> ys[k] in u)
    requires Sorted(ys, cmp)
    ensures Sorted(Insert(x, ys, cmp), cmp)
    decreases |ys|
  {
    if |ys| > 0 && cmp(x, ys[0]) > 0.0 {
      var y := ys[0];
      var rest := Insert(x, ys[1..], cmp);
      assert Sorted(rest, cmp) by {
        assert Sorted(ys[1..], cmp);
        InsertSorted(x, ys[1..], u, cmp);
      }
      HeadBelowRest(x, ys, u, cmp);
      AtMostAllPermuted(y, rest, ys[1..] + [x], cmp);
      SortedCons(y, rest, cmp);
    } else if |ys| > 0 {
      HeadBelowAll(x, ys, u, cmp);
      SortedCons(x, ys, cmp);
    }
  }

  /** An element inserted after the head is not below the head. */
  lemma HeadBelowRest<T(!new)>(x: T, ys: seq<T>, u: set<T>, cmp: (T, T) -> real)
    requires Consistent(u, cmp) && x in u && |ys| > 0 && ys[0] in u
    requires Sorted(ys, cmp) && cmp(x, ys[0]) > 0.0
    ensures AtMostAll(ys[0], ys[1..] + [x], cmp)
  {
    assert cmp(ys[0], x) < 0.0;
    forall k | 0 <= k < |ys| - 1
      ensures cmp(ys[0], ys[1..][k]) <= 0.0
    {
      assert ys[1..][k] == ys[k + 1];
    }
  }

  /** An element not above the head of a sorted sequence is not above any of it. */
  lemma HeadBelowAll<T(!new)>(x: T, ys: seq<T>, u: set<T>, cmp: (T, T) -> real)
    requires Consistent(u, cmp) && x in u && (forall k :: 0 <= k < |ys| ==> ys[k] in u)
    requires Sorted(ys, cmp) && |ys| > 0 && cmp(x, ys[0]) <= 0.0
    ensures AtMostAll(x, ys, cmp)
  {
    forall k | 0 <= k < |ys|
      ensures cmp(x, ys[k]) <= 0.0
    {
      if k > 0 {
        assert cmp(ys[0], ys[k]) <= 0.0;
      }
    }
  }

  /** Under a consistent comparator the sorted copy is sorted. */
  lemma {:induction false} SortSorted<T(!new)>(s: seq<T>, u: set<T>, cmp: (T, T) -> real)
    requires Consistent(u, cmp) && (forall k :: 0 <= k < |s| ==> s[k] in u)
    ensures Sorted(Sort(s, cmp), cmp)
    ensures forall k :: 0 <= k < |Sort(s, cmp)| ==> Sort(s, cmp)[k] in u
  {
    if |s| > 0 {
      var rest := Sort(s[1..], cmp);
      SortSorted(s[1..], u, cmp);
      InsertSorted(s[0], rest, u, cmp);
      var r := Sort(s, cmp);
      forall k | 0 <= k < |r|
        ensures r[k] in u
      {
        assert r[k] in multiset(s);
      }
    }
  }

  lemma TiesOfOne<T>(w: T, z: T, cmp: (T, T) -> real)
    ensures Ties([w], z, cmp) == if cmp(z, w) == 0.0 then [w] else []
  {
    assert [w][1..] == [];
  }

  /** Two elements one of which exceeds the other are not both equal to a third. */
  lemma NotBothTied<T(!new)>(x: T, y: T, z: T, u: set<T>, cmp: (T, T) -> real)
    requires Consistent(u, cmp) && x in u && y in u && z in u && cmp(x, y) > 0.0
    ensures !(cmp(z, x) == 0.0 && cmp(z, y) == 0.0)
  {
  }

  /** Inserting `x` into a sequence keeps every group of equal elements in order, `x` first. */
  lemma {:induction false} InsertKeepsTies<T(!new)>(x: T, ys: seq<T>, z: T, u: set<T>, cmp: (T, T) -> real)
    requires Consistent(u, cmp) && x in u && z in u && (forall k :: 0 <= k < |ys| ==> ys[k] in u)
    ensures Ties(Insert(x, ys, cmp), z, cmp) == Ties([x] + ys, z, cmp)
    decreases |ys|
  {
    if |ys| > 0 && cmp(x, ys[0]) > 0.0 {
      var y, tail := ys[0], ys[1..];
      InsertKeepsTies(x, tail, z, u, cmp);
      NotBothTied(x, y, z, u, cmp);
      TiesSwap(x, y, tail, Insert(x, tail, cmp), z, cmp);
      assert ys == [y] + tail;
    }
  }

  /** Two neighbours not both equal to `z` can trade places without changing the ties of `z`. */
  lemma TiesSwap<T>(x: T, y: T, tail: seq<T>, rest: seq<T>, z: T, cmp: (T, T) -> real)
    requires !(cmp(z, x) == 0.0 && cmp(z, y) == 0.0)
    requires Ties(rest, z, cmp) == Ties([x] + tail, z, cmp)
    ensures Ties([y] + rest, z, cmp) == Ties([x] + ([y] + tail), z, cmp)
  {
    var tx, ty, tt := Ties([x], z, cmp), Ties([y], z, cmp), Ties(tail, z, cmp);
    SingleTiesCommute(x, y, z, cmp);
    TiesAppend([y], rest, z, cmp);
    TiesAppend([x], tail, z, cmp);
    TiesAppend([x], [y] + tail, z, cmp);
    TiesAppend([y], tail, z, cmp);
    assert ty + (tx + tt) == tx + (ty + tt);
  }

  lemma SingleTiesCommute<T>(x: T, y: T, z: T, cmp: (T, T) -> real)
    requires !(cmp(z, x) == 0.0 && cmp(z, y) == 0.0)
    ensures Ties([y], z, cmp) + Ties([x], z, cmp) == Ties([x], z, cmp) + Ties([y], z, cmp)
  {
    TiesOfOne(x, z, cmp);
    TiesOfOne(y, z, cmp);
  }

  /** The sort is stable: the elements equal to any `z` keep their input order. */
  lemma {:induction false} SortStable<T(!new)>(s: seq<T>, z: T, u: set<T>, cmp: (T, T) -> real)
    requires Consistent(u, cmp) && z in u && (forall k :: 0 <= k < |s| ==> s[k] in u)
    ensures Ties(Sort(s, cmp), z, cmp) == Ties(s, z, cmp)
  {
    if |s| > 0 {
      var rest := Sort(s[1..], cmp);
      SortStable(s[1..], z, u, cmp);
      SortSorted(s[1..], u, cmp);
      InsertKeepsTies(s[0], rest, z, u, cmp);
      TiesAppend([s[0]], rest, z, cmp);
      TiesAppend([s[0]], s[1..], z, cmp);
      assert s == [s[0]] + s[1..];
    }
  }

  /** Every element is in `u`. */
  ghost predicate Within<T>(s: seq<T>, u: set<T>) {
    forall k :: 0 <= k < |s| ==> s[k] in u
  }

  /** An element that occurs in `s` has a non-empty group of ties there, which it heads when it comes first. */
  lemma TiesOfHead<T(!new)>(s: seq<T>, u: set<T>, cmp: (T, T) -> real)
    requires Consistent(u, cmp) && |s| > 0 && s[0] in u
    ensures Ties(s, s[0], cmp) == [s[0]] + Ties(s[1..], s[0], cmp)
  {
  }

  /** A member of the group of ties of `z` in `s` is an element of `s` equal to `z`. */
  lemma TieOccurs<T>(s: seq<T>, z: T, cmp: (T, T) -> real)
    requires |Ties(s, z, cmp)| > 0
    ensures exists j :: 0 <= j < |s| && s[j] == Ties(s, z, cmp)[0] && cmp(z, s[j]) == 0.0
    decreases |s|
  {
    if cmp(z, s[0]) != 0.0 {
      TieOccurs(s[1..], z, cmp);
      var j :| 0 <= j < |s[1..]| && s[1..][j] == Ties(s[1..], z, cmp)[0] && cmp(z, s[1..][j]) == 0.0;
      assert s[j + 1] == s[1..][j];
    }
  }

  /** The first elements of two sorted sequences with the same groups of ties are equal. */
  lemma {:induction false} SameHead<T(!new)>(r1: seq<T>, r2: seq<T>, u: set<T>, cmp: (T, T) -> real)
    requires Consistent(u, cmp) && Within(r1, u) && Within(r2, u) && Sorted(r1, cmp) && Sorted(r2, cmp)
    requires |r1| > 0 && |r2| > 0
    requires Ties(r1, r1[0], cmp) == Ties(r2, r1[0], cmp) && Ties(r1, r2[0], cmp) == Ties(r2, r2[0], cmp)
    ensures r1[0] == r2[0]
  {
    var a, b := r1[0], r2[0];
    TiesOfHead(r1, u, cmp);
    TiesOfHead(r2, u, cmp);
    assert cmp(b, a) <= 0.0 by {
      TieOccurs(r2, a, cmp);
      var j :| 0 <= j < |r2| && cmp(a, r2[j]) == 0.0;
      if j > 0 {
        assert cmp(b, r2[j]) <= 0.0;
      }
    }
    assert cmp(a, b) <= 0.0 by {
      TieOccurs(r1, b, cmp);
      var j :| 0 <= j < |r1| && cmp(b, r1[j]) == 0.0;
      if j > 0 {
        assert cmp(a, r1[j]) <= 0.0;
      }
    }
    assert cmp(a, b) == 0.0;
    assert Ties(r2, a, cmp)[0] == b;
  }

  lemma NonEmptyTogether<T(!new)>(r1: seq<T>, r2: seq<T>, u: set<T>, cmp: (T, T) -> real)
    requires Consistent(u, cmp) && Within(r1, u)
    requires forall z | z in u :: Ties(r1, z, cmp) == Ties(r2, z, cmp)
    ensures |r1| > 0 ==> |r2| > 0
  {
    if |r1| > 0 {
      TiesOfHead(r1, u, cmp);
      assert |Ties(r2, r1[0], cmp)| > 0;
    }
  }

  /**
   * A stable sort has a single possible outcome: any sorted sequence with
   * the input's groups of ties, in the input's order, is exactly `Sort`.
   * So the model agrees with every conforming `Array.prototype.sort`.
   */
  lemma {:induction false} SortedTiesUnique<T(!new)>(r1: seq<T>, r2: seq<T>, u: set<T>, cmp: (T, T) -> real)
    requires Consistent(u, cmp) && Within(r1, u) && Within(r2, u) && Sorted(r1, cmp) && Sorted(r2, cmp)
    requires forall z | z in u :: Ties(r1, z, cmp) == Ties(r2, z, cmp)
    ensures r1 == r2
    decreases |r1| + |r2|
  {
    NonEmptyTogether(r1, r2, u, cmp);
    NonEmptyTogether(r2, r1, u, cmp);
    if |r1| > 0 {
      SameHead(r1, r2, u, cmp);
      var a := r1[0];
      forall z | z in u
        ensures Ties(r1[1..], z, cmp) == Ties(r2[1..], z, cmp)
      {
        TiesOfTails(r1, r2, z, cmp);
      }
      SortedTiesUnique(r1[1..], r2[1..], u, cmp);
      assert r1 == [a] + r1[1..] && r2 == [a] + r2[1..];
    }
  }

  /** Two sequences with the same head and the same ties of `z` have tails with the same ties of `z`. */
  lemma TiesOfTails<T>(r1: seq<T>, r2: seq<T>, z: T, cmp: (T, T) -> real)
    requires |r1| > 0 && |r2| > 0 && r1[0] == r2[0]
    requires Ties(r1, z, cmp) == Ties(r2, z, cmp)
    ensures Ties(r1[1..], z, cmp) == Ties(r2[1..], z, cmp)
  {
    var p := if cmp(z, r1[0]) == 0.0 then [r1[0]] else [];
    assert Ties(r1, z, cmp) == p + Ties(r1[1..], z, cmp);
    assert Ties(r2, z, cmp) == p + Ties(r2[1..], z, cmp);
    assert (p + Ties(r1[1..], z, cmp))[|p|..] == Ties(r1[1..], z, cmp);
    assert (p + Ties(r2[1..], z, cmp))[|p|..] == Ties(r2[1..], z, cmp);
  }

  /** Any sorted permutation that keeps the input's ties in order is the model's result. */
  lemma StableSortIsSort<T(!new)>(s: seq<T>, r: seq<T>, u: set<T>, cmp: (T, T) -> real)
    requires Consistent(u, cmp) && Within(s, u) && Within(r, u) && Sorted(r, cmp)
    requires forall z | z in u :: Ties(r, z, cmp) == Ties(s, z, cmp)
    ensures r == Sort(s, cmp)
  {
    SortSorted(s, u, cmp);
    forall z | z in u
      ensures Ties(r, z, cmp) == Ties(Sort(s, cmp), z, cmp)
    {
      SortStable(s, z, u, cmp);
    }
    SortedTiesUnique(r, Sort(s, cmp), u, cmp);
  }

  /** An input that is already in order comes back unchanged, whatever the comparator does elsewhere. */
  lemma {:induction false} SortOfSorted<T>(s: seq<T>, cmp: (T, T) -> real)
    requires Sorted(s, cmp)
    ensures Sort(s, cmp) == s
  {
    if |s| > 0 {
      assert Sorted(s[1..], cmp);
      SortOfSorted(s[1..], cmp);
      if |s| > 1 {
        assert cmp(s[0], s[1..][0]) <= 0.0;
      }
      assert [s[0]] + s[1..] == s;
    }
  }
}
