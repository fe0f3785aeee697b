/** `list.sort(key=lambda x: x.name)` on a list of file names: the result is
    the list in ascending `str` order. Because that order is total, there is
    exactly one such arrangement, so any sorting algorithm (Python's included)
    gives the same list as the insertion sort written here. */
module Sorting {
  import opened Strings

  predicate SortedByName(xs: seq<string>) {
    forall i, j :: 0 <= i < j < |xs| ==> LessEq(xs[i], xs[j])
  }

  /** A name no greater than every name of a sorted list can go in front of it. */
  lemma ConsSorted(y: string, rest: seq<string>)
    requires SortedByName(rest)
    requires forall z :: z in rest ==> LessEq(y, z)
    ensures SortedByName([y] + rest)
  {
    var r := [y] + rest;
    forall i, j | 0 <= i < j < |r| ensures LessEq(r[i], r[j]) {
      assert r[j] == rest[j - 1];
      if i > 0 { assert r[i] == rest[i - 1]; }
    }
  }

  /** A name no greater than the head of a sorted list is no greater than any of it. */
  lemma BelowHead(x: string, xs: seq<string>)
    requires SortedByName(xs) && xs != [] && LessEq(x, xs[0])
    ensures forall z :: z in xs ==> LessEq(x, z)
  {
    forall z | z in xs ensures LessEq(x, z) {
      var j :| 0 <= j < |xs| && xs[j] == z;
      if j > 0 { LessEqTransitive(x, xs[0], xs[j]); }
    }
  }

  /** When `x` goes after the head, the head stays below everything that follows it. */
  lemma HeadBelowRest(x: string, xs: seq<string>, rest: seq<string>)
    requires SortedByName(xs) && xs != [] && !LessEq(x, xs[0])
    requires multiset(rest) == multiset(xs[1..]) + multiset{x}
    ensures forall z :: z in rest ==> LessEq(xs[0], z)
  {
    LessEqTotal(x, xs[0]);
    forall z | z in rest ensures LessEq(xs[0], z) {
      assert z in multiset(rest);
      if z != x {
        assert z in multiset(xs[1..]);
        var j :| 0 <= j < |xs[1..]| && xs[1..][j] == z;
        assert xs[j + 1] == z;
      }
    }
  }

  /** Any stretch of a sorted list is sorted. */
  lemma SliceSorted(xs: seq<string>, i: nat, j: nat)
    requires SortedByName(xs) && i <= j <= |xs|
    ensures SortedByName(xs[i..j])
  {
    forall p, q | 0 <= p < q < j - i ensures LessEq(xs[i..j][p], xs[i..j][q]) {
      assert xs[i..j][p] == xs[i + p] && xs[i..j][q] == xs[i + q];
    }
  }

  /** `x` placed into the sorted list `xs` before the first name it does not exceed. */
  function Insert(x: string, xs: seq<string>): (r: seq<string>)
    requires SortedByName(xs)
    ensures SortedByName(r)
    ensures multiset(r) == multiset(xs) + multiset{x}
    decreases |xs|
  {
    if xs == [] then [x]
    else if LessEq(x, xs[0]) then
      BelowHead(x, xs);
      ConsSorted(x, xs);
      [x] + xs
    else
      assert xs == [xs[0]] + xs[1..];
      var rest := Insert(x, xs[1..]);
      HeadBelowRest(x, xs, rest);
      ConsSorted(xs[0], rest);
      [xs[0]] + rest
  }

  /** The names of `xs` in ascending order. */
  function SortByName(xs: seq<string>): (r: seq<string>)
    ensures SortedByName(r)
    ensures multiset(r) == multiset(xs)
    decreases |xs|
  {
    if xs == [] then []
    else
      assert xs == [xs[0]] + xs[1..];
      Insert(xs[0], SortByName(xs[1..]))
  }

  /** The first name of a sorted list is the smallest of all. */
  lemma SortedHeadIsLeast(xs: seq<string>, y: string)
    requires SortedByName(xs) && y in xs
    ensures LessEq(xs[0], y)
  {
    var j :| 0 <= j < |xs| && xs[j] == y;
    if j == 0 { LessEqReflexive(y); }
  }

  /** Removing the same first name from two lists with the same names leaves
      lists with the same names. */
  lemma SameTail(xs: seq<string>, ys: seq<string>)
    requires xs != [] && ys != [] && xs[0] == ys[0]
    requires multiset(xs) == multiset(ys)
    ensures multiset(xs[1..]) == multiset(ys[1..])
  {
    assert xs == [xs[0]] + xs[1..] && ys == [ys[0]] + ys[1..];
    assert multiset(xs) == multiset{xs[0]} + multiset(xs[1..]);
    assert multiset(ys) == multiset{ys[0]} + multiset(ys[1..]);
    forall z ensures multiset(xs[1..])[z] == multiset(ys[1..])[z] {
      assert multiset(xs)[z] == multiset(ys)[z];
    }
  }

  /** Two sorted lists holding the same names are the same list. */
  lemma {:induction false} SortedPermutationUnique(xs: seq<string>, ys: seq<string>)
    requires SortedByName(xs) && SortedByName(ys)
    requires multiset(xs) == multiset(ys)
    ensures xs == ys
    decreases |xs|
  {
    assert |ys| == |xs| by { assert |multiset(ys)| == |multiset(xs)|; }
    if xs != [] {
      assert xs[0] in multiset(ys) && ys[0] in multiset(xs);
      SortedHeadIsLeast(xs, ys[0]);
      SortedHeadIsLeast(ys, xs[0]);
      LessEqAntisymmetric(xs[0], ys[0]);
      SameTail(xs, ys);
      SortedPermutationUnique(xs[1..], ys[1..]);
      assert xs == [xs[0]] + xs[1..] && ys == [ys[0]] + ys[1..];
    }
  }

  /** Sorting a list that is already in order changes nothing. */
  lemma SortSorted(xs: seq<string>)
    requires SortedByName(xs)
    ensures SortByName(xs) == xs
  {
    SortedPermutationUnique(SortByName(xs), xs);
  }

  /** The sorted list depends only on which names there are, not on the order they came in. */
  lemma SortIgnoresArrivalOrder(xs: seq<string>, ys: seq<string>)
    requires multiset(xs) == multiset(ys)
    ensures SortByName(xs) == SortByName(ys)
  {
    SortedPermutationUnique(SortByName(xs), SortByName(ys));
  }
}
