/** Definitions that more than one component uses. */
module Basics {

  function Max(a: int, b: int): (m: int) {
    if a >= b then a else b
  }

  /** The elements of `b` from the last to the first. */
  ghost predicate Reverses<T>(a: seq<T>, b: seq<T>) {
    |a| == |b| && forall k :: 0 <= k < |a| ==> a[k] == b[|b| - 1 - k]
  }

  /** What is left of `b` after some of its elements are taken out: the rest, in its old order. */
  ghost predicate Subsequence<T(!new)>(a: seq<T>, b: seq<T>) {
    a == [] || (b != [] && ((a[0] == b[0] && Subsequence(a[1..], b[1..])) || Subsequence(a, b[1..])))
  }

  lemma {:induction false} SubsequenceMore<T(!new)>(a: seq<T>, b: seq<T>, x: T)
    requires Subsequence(a, b)
    ensures Subsequence(a, b + [x]) && Subsequence(a + [x], b + [x])
  {
    if b == [] {
      assert [x][1..] == [] && a + [x] == [x];
    } else {
      assert (b + [x])[1..] == b[1..] + [x];
      if a == [] || Subsequence(a, b[1..]) {
        SubsequenceMore(a, b[1..], x);
      } else {
        SubsequenceMore(a[1..], b[1..], x);
        assert (a + [x])[1..] == a[1..] + [x];
      }
    }
  }
}
