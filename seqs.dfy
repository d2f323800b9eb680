/** Sequence notions shared by the roster and the record builder. */
module Seqs {

  /** xs is ys with some elements left out, the rest kept in order. */
  ghost predicate Subseq<T>(xs: seq<T>, ys: seq<T>)
  {
    if ys == [] then xs == []
    else (xs != [] && xs[0] == ys[0] && Subseq(xs[1..], ys[1..])) || Subseq(xs, ys[1..])
  }

  /** Index of the first occurrence of x in xs; |xs| when x does not occur. */
  function FirstIndex<T(==)>(xs: seq<T>, x: T): (i: nat)
    ensures i <= |xs|
    ensures i < |xs| <==> x in xs
    ensures i < |xs| ==> xs[i] == x
    ensures forall k :: 0 <= k < i ==> xs[k] != x
  {
    if xs == [] then 0
    else if xs[0] == x then 0
    else 1 + FirstIndex(xs[1..], x)
  }

  /** `[...new Set(xs)]`: a Set keeps insertion order and ignores an element
      inserted again, so after each prefix it holds that prefix's distinct
      elements in the order they were first seen. */
  function Distinct<T(==)>(xs: seq<T>): seq<T>
  {
    if xs == [] then []
    else
      var r := Distinct(xs[..|xs| - 1]);
      if xs[|xs| - 1] in r then r else r + [xs[|xs| - 1]]
  }

  lemma {:induction false} DistinctMembers<T>(xs: seq<T>)
    ensures forall x :: x in Distinct(xs) <==> x in xs
  {
    if xs != [] {
      var ys := xs[..|xs| - 1];
      DistinctMembers(ys);
      assert xs == ys + [xs[|xs| - 1]];
    }
  }

  lemma {:induction false} DistinctNoDuplicates<T>(xs: seq<T>)
    ensures forall i, j :: 0 <= i < j < |Distinct(xs)| ==> Distinct(xs)[i] != Distinct(xs)[j]
  {
    if xs != [] {
      DistinctNoDuplicates(xs[..|xs| - 1]);
    }
  }

  /** Appending an element does not move the first occurrence of anything
      already present, and places a new element's first occurrence last. */
  lemma FirstIndexAfterAppend<T>(ys: seq<T>, x: T, y: T)
    ensures y in ys ==> FirstIndex(ys + [x], y) == FirstIndex(ys, y) < |ys|
    ensures y !in ys && y == x ==> FirstIndex(ys + [x], y) == |ys|
  {
    var i, j := FirstIndex(ys + [x], y), FirstIndex(ys, y);
    if y in ys {
      assert (ys + [x])[j] == y;
      assert i < |ys| ==> ys[i] == y;
    } else if y == x {
      assert (ys + [x])[|ys|] == y;
    }
  }

  lemma {:induction false} DistinctFirstOccurrenceOrder<T>(xs: seq<T>)
    ensures forall i, j :: 0 <= i < j < |Distinct(xs)| ==>
      FirstIndex(xs, Distinct(xs)[i]) < FirstIndex(xs, Distinct(xs)[j])
  {
    if xs != [] {
      var ys, x := xs[..|xs| - 1], xs[|xs| - 1];
      assert xs == ys + [x];
      DistinctFirstOccurrenceOrder(ys);
      DistinctMembers(ys);
      var r, d := Distinct(ys), Distinct(xs);
      forall i, j | 0 <= i < j < |d|
        ensures FirstIndex(xs, d[i]) < FirstIndex(xs, d[j])
      {
        assert i < |r| && d[i] == r[i];
        assert d[i] in r;
        FirstIndexAfterAppend(ys, x, d[i]);
        if j < |r| {
          assert d[j] == r[j] && d[j] in r;
          FirstIndexAfterAppend(ys, x, d[j]);
          assert FirstIndex(ys, r[i]) < FirstIndex(ys, r[j]);
        } else {
          assert d[j] == x && x !in ys;
          FirstIndexAfterAppend(ys, x, x);
          assert FirstIndex(xs, d[j]) == |ys|;
          assert FirstIndex(xs, d[i]) < |ys|;
        }
      }
    }
  }
}
