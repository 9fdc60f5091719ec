/**
  Order-preserving filters: the shape of a forEach loop that pushes a
  transformed copy of each element that passes a test onto an array.
 */
module Filtering {

  /** f(x) for every x of xs with keep(x), in the order of xs. */
  function Filter<T, U>(xs: seq<T>, keep: T -> bool, f: T -> U): (ys: seq<U>)
    ensures |ys| <= |xs|
  {
    if xs == [] then []
    else (if keep(xs[0]) then [f(xs[0])] else []) + Filter(xs[1..], keep, f)
  }

  lemma {:induction false} FilterSnoc<T, U>(xs: seq<T>, x: T, keep: T -> bool, f: T -> U)
    ensures Filter(xs + [x], keep, f) == Filter(xs, keep, f) + (if keep(x) then [f(x)] else [])
  {
    if xs == [] {
      assert [x][1..] == [];
    } else {
      var ys := xs + [x];
      var front: seq<U> := if keep(xs[0]) then [f(xs[0])] else [];
      var last: seq<U> := if keep(x) then [f(x)] else [];
      assert ys[0] == xs[0] && ys[1..] == xs[1..] + [x];
      FilterSnoc(xs[1..], x, keep, f);
      assert Filter(ys, keep, f) == front + (Filter(xs[1..], keep, f) + last);
      assert Filter(xs, keep, f) == front + Filter(xs[1..], keep, f);
    }
  }

  /** The positions of xs, ascending, whose element passes keep. */
  function Positions<T>(xs: seq<T>, keep: T -> bool): seq<nat>
  {
    if xs == [] then []
    else
      var rest := Positions(xs[1..], keep);
      (if keep(xs[0]) then [0] else []) + Shift(rest)
  }

  function Shift(idx: seq<nat>): (r: seq<nat>)
    ensures |r| == |idx| && forall k :: 0 <= k < |idx| ==> r[k] == idx[k] + 1
  {
    seq(|idx|, k requires 0 <= k < |idx| => idx[k] + 1)
  }

  /** Every listed position is in range and its element passes keep. */
  lemma {:induction false} PositionsKept<T>(xs: seq<T>, keep: T -> bool)
    ensures forall k :: 0 <= k < |Positions(xs, keep)| ==>
      Positions(xs, keep)[k] < |xs| && keep(xs[Positions(xs, keep)[k]])
  {
    if xs != [] {
      var tail := xs[1..];
      PositionsKept(tail, keep);
      var rest := Positions(tail, keep);
      var head: seq<nat> := if keep(xs[0]) then [0] else [];
      var idx := Positions(xs, keep);
      assert idx == head + Shift(rest);
      forall k | 0 <= k < |idx|
        ensures idx[k] < |xs| && keep(xs[idx[k]])
      {
        if k >= |head| {
          var j := k - |head|;
          assert 0 <= j < |rest| && idx[k] == rest[j] + 1;
          assert rest[j] < |tail| && keep(tail[rest[j]]);
          assert tail[rest[j]] == xs[idx[k]];
        } else {
          assert idx[k] == 0;
        }
      }
    }
  }

  /** Positions are listed in strictly ascending order. */
  lemma {:induction false} PositionsAscending<T>(xs: seq<T>, keep: T -> bool)
    ensures forall j, k :: 0 <= j < k < |Positions(xs, keep)| ==>
      Positions(xs, keep)[j] < Positions(xs, keep)[k]
  {
    if xs != [] {
      var tail := xs[1..];
      PositionsAscending(tail, keep);
      var rest := Positions(tail, keep);
      var head: seq<nat> := if keep(xs[0]) then [0] else [];
      var idx := Positions(xs, keep);
      assert idx == head + Shift(rest);
      forall j, k | 0 <= j < k < |idx|
        ensures idx[j] < idx[k]
      {
        if j >= |head| {
          assert idx[j] == rest[j - |head|] + 1 && idx[k] == rest[k - |head|] + 1;
        } else {
          assert idx[j] == 0 && idx[k] == rest[k - |head|] + 1;
        }
      }
    }
  }

  /** Every position whose element passes keep is listed. */
  lemma {:induction false} PositionsComplete<T>(xs: seq<T>, keep: T -> bool)
    ensures forall i :: 0 <= i < |xs| && keep(xs[i]) ==> i in Positions(xs, keep)
  {
    if xs != [] {
      var tail := xs[1..];
      PositionsComplete(tail, keep);
      var rest := Positions(tail, keep);
      var head: seq<nat> := if keep(xs[0]) then [0] else [];
      var idx := Positions(xs, keep);
      assert idx == head + Shift(rest);
      forall i | 0 <= i < |xs| && keep(xs[i])
        ensures i in idx
      {
        if i > 0 {
          assert tail[i - 1] == xs[i];
          var k :| 0 <= k < |rest| && rest[k] == i - 1;
          assert idx[|head| + k] == i;
        } else {
          assert idx[0] == 0;
        }
      }
    }
  }

  /** The k-th element of the filter is f of the element at the k-th position that passes keep. */
  lemma {:induction false} FilterAtPositions<T, U>(xs: seq<T>, keep: T -> bool, f: T -> U)
    ensures |Positions(xs, keep)| == |Filter(xs, keep, f)|
    ensures forall k :: 0 <= k < |Positions(xs, keep)| ==>
      Positions(xs, keep)[k] < |xs| && Filter(xs, keep, f)[k] == f(xs[Positions(xs, keep)[k]])
  {
    if xs != [] {
      var tail := xs[1..];
      FilterAtPositions(tail, keep, f);
      var rest := Positions(tail, keep);
      var head: seq<nat> := if keep(xs[0]) then [0] else [];
      var idx := Positions(xs, keep);
      var ys, zs := Filter(xs, keep, f), Filter(tail, keep, f);
      var front: seq<U> := if keep(xs[0]) then [f(xs[0])] else [];
      assert idx == head + Shift(rest);
      assert ys == front + zs;
      forall k | 0 <= k < |idx|
        ensures idx[k] < |xs| && ys[k] == f(xs[idx[k]])
      {
        if k >= |head| {
          var j := k - |head|;
          assert idx[k] == rest[j] + 1 && ys[k] == zs[j];
          assert tail[rest[j]] == xs[idx[k]];
        } else {
          assert idx[k] == 0 && ys[k] == f(xs[0]);
        }
      }
    }
  }

  /**
    The filter keeps input order: its k-th element is f of the element at the k-th
    ascending position that passes keep, and every such position is listed.
   */
  lemma FilterInOrder<T, U>(xs: seq<T>, keep: T -> bool, f: T -> U)
    ensures |Positions(xs, keep)| == |Filter(xs, keep, f)|
    ensures forall k :: 0 <= k < |Positions(xs, keep)| ==>
      && Positions(xs, keep)[k] < |xs| && keep(xs[Positions(xs, keep)[k]])
      && Filter(xs, keep, f)[k] == f(xs[Positions(xs, keep)[k]])
    ensures forall j, k :: 0 <= j < k < |Positions(xs, keep)| ==>
      Positions(xs, keep)[j] < Positions(xs, keep)[k]
    ensures forall i :: 0 <= i < |xs| && keep(xs[i]) ==> i in Positions(xs, keep)
  {
    PositionsKept(xs, keep);
    PositionsAscending(xs, keep);
    PositionsComplete(xs, keep);
    FilterAtPositions(xs, keep, f);
  }

  /** f(x) of an element x that passes keep is in the filter. */
  lemma FilterContains<T, U>(xs: seq<T>, keep: T -> bool, f: T -> U, i: nat)
    requires i < |xs| && keep(xs[i])
    ensures f(xs[i]) in Filter(xs, keep, f)
  {
    FilterInOrder(xs, keep, f);
    var idx := Positions(xs, keep);
    var k :| 0 <= k < |idx| && idx[k] == i;
    assert Filter(xs, keep, f)[k] == f(xs[i]);
  }

  /** Every element of the filter is f of some element of xs that passes keep. */
  lemma FilterFrom<T, U>(xs: seq<T>, keep: T -> bool, f: T -> U, y: U)
    requires y in Filter(xs, keep, f)
    ensures exists i :: 0 <= i < |xs| && keep(xs[i]) && y == f(xs[i])
  {
    FilterInOrder(xs, keep, f);
    var ys, idx := Filter(xs, keep, f), Positions(xs, keep);
    var k :| 0 <= k < |ys| && ys[k] == y;
    assert keep(xs[idx[k]]) && y == f(xs[idx[k]]);
  }
}
