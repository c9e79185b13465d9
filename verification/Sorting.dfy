/** std::sort by sequence order, used by every getter that returns its items in order. */
module Sorting {
  import opened Permutations

  predicate Sorted<T(!new)>(key: T -> int, xs: seq<T>) {
    forall i, j :: 0 <= i < j < |xs| ==> key(xs[i]) <= key(xs[j])
  }

  predicate DistinctKeys<T(!new)>(key: T -> int, xs: seq<T>) {
    forall i, j :: 0 <= i < j < |xs| ==> key(xs[i]) != key(xs[j])
  }

  /** Items with the same key are the same item. */
  ghost predicate KeysDecide<T(!new)>(key: T -> int, xs: seq<T>) {
    forall i, j :: 0 <= i < j < |xs| && key(xs[i]) == key(xs[j]) ==> xs[i] == xs[j]
  }

  function Insert<T>(key: T -> int, x: T, xs: seq<T>): (r: seq<T>)
    ensures |r| == |xs| + 1
  {
    if xs == [] || key(x) < key(xs[0]) then [x] + xs else [xs[0]] + Insert(key, x, xs[1..])
  }

  /** One way to sort. SortIsDetermined says when every other way gives the same result. */
  function Sort<T>(key: T -> int, xs: seq<T>): (r: seq<T>)
    ensures |r| == |xs|
  {
    if xs == [] then [] else Insert(key, xs[|xs| - 1], Sort(key, xs[..|xs| - 1]))
  }

  lemma {:induction false} InsertPermutes<T>(key: T -> int, x: T, xs: seq<T>)
    ensures multiset(Insert(key, x, xs)) == multiset(xs) + multiset{x}
  {
    if xs == [] || key(x) < key(xs[0]) {
    } else {
      InsertPermutes(key, x, xs[1..]);
      assert xs == [xs[0]] + xs[1..];
    }
  }

  lemma {:induction false} InsertSorts<T(!new)>(key: T -> int, x: T, xs: seq<T>)
    requires Sorted(key, xs)
    ensures Sorted(key, Insert(key, x, xs))
  {
    if xs == [] || key(x) < key(xs[0]) {
    } else {
      InsertSorts(key, x, xs[1..]);
      var tail := Insert(key, x, xs[1..]);
      InsertPermutes(key, x, xs[1..]);
      forall j | 0 <= j < |tail| ensures key(xs[0]) <= key(tail[j]) {
        assert tail[j] in multiset(tail);
        assert tail[j] == x || tail[j] in xs[1..];
      }
    }
  }

  lemma {:induction false} SortSorts<T(!new)>(key: T -> int, xs: seq<T>)
    ensures Sorted(key, Sort(key, xs)) && multiset(Sort(key, xs)) == multiset(xs)
  {
    if xs == [] {
    } else {
      SortSorts(key, xs[..|xs| - 1]);
      InsertSorts(key, xs[|xs| - 1], Sort(key, xs[..|xs| - 1]));
      InsertPermutes(key, xs[|xs| - 1], Sort(key, xs[..|xs| - 1]));
      assert xs == xs[..|xs| - 1] + [xs[|xs| - 1]];
    }
  }

  /** Whatever sorts xs finds the same arrangement. */
  ghost predicate OneArrangement<T(!new)>(key: T -> int, xs: seq<T>) {
    forall ys: seq<T> :: Sorted(key, ys) && multiset(ys) == multiset(xs) ==> ys == Sort(key, xs)
  }

  /** Sorting by key has a single result exactly when different items have different keys. */
  lemma SortIsDetermined<T(!new)>(key: T -> int, xs: seq<T>)
    ensures OneArrangement(key, xs) <==> KeysDecide(key, xs)
  {
    SortSorts(key, xs);
    if i, j :| 0 <= i < j < |xs| && key(xs[i]) == key(xs[j]) && xs[i] != xs[j] {
      var ys := OtherArrangement(key, xs, i, j);
    } else {
      forall ys: seq<T> | Sorted(key, ys) && multiset(ys) == multiset(xs) ensures ys == Sort(key, xs) {
        KeysDecidePermuted(key, xs, ys);
        SortedAreEqual(key, ys, Sort(key, xs));
      }
    }
  }

  lemma KeysDecidePermuted<T(!new)>(key: T -> int, xs: seq<T>, ys: seq<T>)
    requires multiset(xs) == multiset(ys) && KeysDecide(key, xs)
    ensures KeysDecide(key, ys)
  {
    forall i, j | 0 <= i < j < |ys| && key(ys[i]) == key(ys[j]) ensures ys[i] == ys[j] {
      assert ys[i] in multiset(xs) && ys[j] in multiset(xs);
    }
  }

  /** Two items under one key can change places. */
  lemma OtherArrangement<T(!new)>(key: T -> int, xs: seq<T>, i: nat, j: nat) returns (ys: seq<T>)
    requires i < |xs| && j < |xs| && key(xs[i]) == key(xs[j]) && xs[i] != xs[j]
    ensures Sorted(key, ys) && multiset(ys) == multiset(xs) && ys != Sort(key, xs)
  {
    hide Sort;
    SortSorts(key, xs);
    var sorted := Sort(key, xs);
    assert xs[i] in multiset(sorted) && xs[j] in multiset(sorted);
    var a :| 0 <= a < |sorted| && sorted[a] == xs[i];
    var b :| 0 <= b < |sorted| && sorted[b] == xs[j];
    ys := sorted[a := sorted[b]][b := sorted[a]];
    assert ys[a] != sorted[a];
  }

  /** Two sorted arrangements of items that their keys decide are the same sequence. */
  lemma {:induction false} SortedAreEqual<T(!new)>(key: T -> int, xs: seq<T>, ys: seq<T>)
    requires multiset(xs) == multiset(ys)
    requires Sorted(key, xs) && Sorted(key, ys) && KeysDecide(key, xs)
    ensures xs == ys
  {
    if xs == [] {
      EmptyPermutation(ys);
    } else {
      var n := |xs| - 1;
      LastAgrees(key, xs, ys);
      FrontsPermuted(xs, ys);
      SortedAreEqual(key, xs[..n], ys[..n]);
      assert xs == xs[..n] + [xs[n]] && ys == ys[..n] + [ys[n]];
    }
  }

  lemma FrontsPermuted<T>(xs: seq<T>, ys: seq<T>)
    requires multiset(xs) == multiset(ys) && xs != [] && |xs| == |ys| && xs[|xs| - 1] == ys[|ys| - 1]
    ensures multiset(xs[..|xs| - 1]) == multiset(ys[..|ys| - 1])
  {
    SplitLast(xs);
    SplitLast(ys);
    Cancel(multiset(xs[..|xs| - 1]), multiset(ys[..|ys| - 1]), multiset{xs[|xs| - 1]});
  }

  lemma SplitLast<T>(xs: seq<T>)
    requires xs != []
    ensures multiset(xs) == multiset(xs[..|xs| - 1]) + multiset{xs[|xs| - 1]}
  {
    assert xs == xs[..|xs| - 1] + [xs[|xs| - 1]];
  }

  lemma Cancel<T>(a: multiset<T>, b: multiset<T>, c: multiset<T>)
    requires a + c == b + c
    ensures a == b
  {
    assert a == (a + c) - c && b == (b + c) - c;
  }

  lemma LastAgrees<T(!new)>(key: T -> int, xs: seq<T>, ys: seq<T>)
    requires multiset(xs) == multiset(ys) && xs != []
    requires Sorted(key, xs) && Sorted(key, ys) && KeysDecide(key, xs)
    ensures |xs| == |ys| && xs[|xs| - 1] == ys[|ys| - 1]
  {
    assert |multiset(xs)| == |xs| && |multiset(ys)| == |ys|;
    var x, y := xs[|xs| - 1], ys[|ys| - 1];
    assert x in multiset(ys) && y in multiset(xs);
    var i :| 0 <= i < |xs| && xs[i] == y;
    var j :| 0 <= j < |ys| && ys[j] == x;
    assert key(x) <= key(y) <= key(x);
  }

  lemma {:induction false} SortOfSorted<T(!new)>(key: T -> int, xs: seq<T>)
    requires Sorted(key, xs)
    ensures DistinctKeys(key, xs) ==> Sort(key, xs) == xs
  {
    if DistinctKeys(key, xs) {
      SortSorts(key, xs);
      SortedAreEqual(key, xs, Sort(key, xs));
    }
  }

  /** Sorting looks at nothing but the keys. */
  lemma {:induction false} SortMapped<T(!new), U>(key: T -> int, key': U -> int, f: T -> U, xs: seq<T>)
    requires forall i :: 0 <= i < |xs| ==> key'(f(xs[i])) == key(xs[i])
    ensures Map(f, Sort(key, xs)) == Sort(key', Map(f, xs))
  {
    if xs == [] {
    } else {
      var n := |xs| - 1;
      SortMapped(key, key', f, xs[..n]);
      assert Map(f, xs)[..n] == Map(f, xs[..n]);
      var sorted := Sort(key, xs[..n]);
      SortSorts(key, xs[..n]);
      forall i | 0 <= i < |sorted| ensures key'(f(sorted[i])) == key(sorted[i]) {
        assert sorted[i] in multiset(xs[..n]);
        var j :| 0 <= j < n && xs[j] == sorted[i];
      }
      InsertMapped(key, key', f, xs[n], sorted);
    }
  }

  lemma {:induction false} InsertMapped<T(!new), U>(key: T -> int, key': U -> int, f: T -> U, x: T, xs: seq<T>)
    requires key'(f(x)) == key(x) && forall i :: 0 <= i < |xs| ==> key'(f(xs[i])) == key(xs[i])
    ensures Map(f, Insert(key, x, xs)) == Insert(key', f(x), Map(f, xs))
  {
    if xs == [] || key(x) < key(xs[0]) {
      assert Map(f, [x] + xs) == [f(x)] + Map(f, xs);
    } else {
      InsertMapped(key, key', f, x, xs[1..]);
      assert Map(f, xs)[1..] == Map(f, xs[1..]);
      assert Map(f, [xs[0]] + Insert(key, x, xs[1..])) == [f(xs[0])] + Map(f, Insert(key, x, xs[1..]));
    }
  }

  function Zipped<T>(xs: seq<T>, ys: seq<T>): (zs: seq<(T, T)>)
    requires |xs| == |ys|
    ensures |zs| == |xs|
  {
    seq(|xs|, i requires 0 <= i < |xs| => (xs[i], ys[i]))
  }

  /**
   * Two sequences with the same keys in the same places are rearranged alike: related after sorting, related before.
   */
  lemma SortedAlike<T(!new)>(key: T -> int, xs: seq<T>, ys: seq<T>, related: (T, T) -> bool)
    requires |xs| == |ys| && forall i :: 0 <= i < |xs| ==> key(xs[i]) == key(ys[i])
    requires forall i :: 0 <= i < |xs| ==> related(Sort(key, xs)[i], Sort(key, ys)[i])
    ensures forall i :: 0 <= i < |xs| ==> related(xs[i], ys[i])
  {
    var zs := Zipped(xs, ys);
    var keyOf := (z: (T, T)) => key(z.0);
    var first, second := (z: (T, T)) => z.0, (z: (T, T)) => z.1;
    SortMapped(keyOf, key, first, zs);
    SortMapped(keyOf, key, second, zs);
    assert Map(first, zs) == xs && Map(second, zs) == ys;
    var sorted := Sort(keyOf, zs);
    SortSorts(keyOf, zs);
    forall i | 0 <= i < |xs| ensures related(xs[i], ys[i]) {
      assert zs[i] in multiset(sorted);
      var j :| 0 <= j < |sorted| && sorted[j] == zs[i];
      assert first(sorted[j]) == Sort(key, xs)[j] && second(sorted[j]) == Sort(key, ys)[j];
    }
  }
}
