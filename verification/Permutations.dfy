/** Sequences with the same elements in a different order. */
module Permutations {

  function Map<T, U>(f: T -> U, xs: seq<T>): (ys: seq<U>)
    ensures |ys| == |xs| && forall i :: 0 <= i < |xs| ==> ys[i] == f(xs[i])
  {
    seq(|xs|, i requires 0 <= i < |xs| => f(xs[i]))
  }

  lemma MapAppend<T, U>(f: T -> U, xs: seq<T>, x: T)
    ensures Map(f, xs + [x]) == Map(f, xs) + [f(x)]
  {
  }

  /** Taking the last element of xs out of a permutation of xs leaves a permutation of the rest. */
  lemma RemoveLast<T>(xs: seq<T>, ys: seq<T>) returns (j: nat)
    requires multiset(xs) == multiset(ys) && xs != []
    ensures j < |ys| && ys[j] == xs[|xs| - 1]
    ensures multiset(xs[..|xs| - 1]) == multiset(ys[..j] + ys[j + 1..])
  {
    var x := xs[|xs| - 1];
    assert x in multiset(ys);
    j :| 0 <= j < |ys| && ys[j] == x;
    assert xs == xs[..|xs| - 1] + [x];
    assert ys == ys[..j] + [x] + ys[j + 1..];
    calc {
      multiset(xs[..|xs| - 1]) + multiset{x};
      multiset(xs);
      multiset(ys[..j] + [x] + ys[j + 1..]);
      multiset(ys[..j]) + multiset{x} + multiset(ys[j + 1..]);
      multiset(ys[..j] + ys[j + 1..]) + multiset{x};
    }
    assert multiset(xs[..|xs| - 1]) == multiset(xs[..|xs| - 1]) + multiset{x} - multiset{x};
    assert multiset(ys[..j] + ys[j + 1..]) == multiset(ys[..j] + ys[j + 1..]) + multiset{x} - multiset{x};
  }

  lemma EmptyPermutation<T>(ys: seq<T>)
    requires multiset(ys) == multiset{}
    ensures ys == []
  {
    assert |multiset(ys)| == 0;
  }

  lemma {:induction false} MapPermuted<T, U>(f: T -> U, xs: seq<T>, ys: seq<T>)
    requires multiset(xs) == multiset(ys)
    ensures multiset(Map(f, xs)) == multiset(Map(f, ys))
  {
    if xs == [] {
      EmptyPermutation(ys);
    } else {
      var n, x := |xs| - 1, xs[|xs| - 1];
      var j := RemoveLast(xs, ys);
      var front, back := Map(f, ys[..j]), Map(f, ys[j + 1..]);
      MapPermuted(f, xs[..n], ys[..j] + ys[j + 1..]);
      assert Map(f, xs) == Map(f, xs[..n]) + [f(x)];
      assert Map(f, ys[..j] + ys[j + 1..]) == front + back;
      assert Map(f, ys) == front + [f(x)] + back;
    }
  }
}
