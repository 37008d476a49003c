/** Small sequence helpers shared by the game and the search tree. */
module Util {

  datatype Option<T> = None | Some(value: T)

  /** The number of occurrences of `x` in `xs`. */
  function Count<T(==)>(x: T, xs: seq<T>): nat
    decreases |xs|
  {
    if xs == [] then 0 else (if xs[0] == x then 1 else 0) + Count(x, xs[1..])
  }

  /** No element occurs twice. */
  predicate Distinct<T(==)>(xs: seq<T>)
  {
    forall i, j :: 0 <= i < j < |xs| ==> xs[i] != xs[j]
  }

  lemma DistinctSnoc<T>(xs: seq<T>, x: T)
    requires Distinct(xs) && x !in xs
    ensures Distinct(xs + [x])
  {
  }

  /** `ys` with its first occurrence of `x` taken out. */
  function RemoveOne<T(==)>(ys: seq<T>, x: T): (r: seq<T>)
    requires x in ys
    ensures |r| == |ys| - 1
    ensures forall y :: y in ys && y != x ==> y in r
    decreases |ys|
  {
    if ys[0] == x then ys[1..] else [ys[0]] + RemoveOne(ys[1..], x)
  }

  /** Pigeonhole: a sequence without repetitions whose elements all occur in `ys` is no longer than `ys`. */
  lemma {:induction false} DistinctSubsetLength<T>(xs: seq<T>, ys: seq<T>)
    requires Distinct(xs)
    requires forall x :: x in xs ==> x in ys
    ensures |xs| <= |ys|
    decreases |xs|
  {
    if xs != [] {
      var x := xs[0];
      var rest := RemoveOne(ys, x);
      forall y | y in xs[1..]
        ensures y in rest
      {
        var j :| 0 <= j < |xs[1..]| && xs[1..][j] == y;
        assert xs[j + 1] == y && xs[0] != xs[j + 1];
      }
      assert Distinct(xs[1..]) by {
        forall i, j | 0 <= i < j < |xs[1..]|
          ensures xs[1..][i] != xs[1..][j]
        {
          assert xs[1..][i] == xs[i + 1] && xs[1..][j] == xs[j + 1];
        }
      }
      DistinctSubsetLength(xs[1..], rest);
    }
  }
}
