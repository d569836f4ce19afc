/** Stable sorting by a key, as Python's `list.sort(key=...)` and JavaScript's `Array.sort` do it. */
module Sorting {

  function Sort<T, K>(xs: seq<T>, key: T -> K, le: (K, K) -> bool): seq<T> {
    if |xs| == 0 then [] else Insert(xs[0], Sort(xs[1..], key, le), key, le)
  }

  function Insert<T, K>(x: T, xs: seq<T>, key: T -> K, le: (K, K) -> bool): seq<T> {
    if |xs| == 0 then [x]
    else if le(key(x), key(xs[0])) then [x] + xs
    else [xs[0]] + Insert(x, xs[1..], key, le)
  }

  ghost predicate TotalPreorder<K(!new)>(le: (K, K) -> bool) {
    && (forall a, b :: le(a, b) || le(b, a))
    && (forall a, b, c :: le(a, b) && le(b, c) ==> le(a, c))
  }

  predicate Sorted<T, K>(xs: seq<T>, key: T -> K, le: (K, K) -> bool) {
    forall i, j | 0 <= i < j < |xs| :: le(key(xs[i]), key(xs[j]))
  }

  /** No two positions carry keys that the order cannot tell apart. */
  predicate DistinctKeys<T, K>(xs: seq<T>, key: T -> K, le: (K, K) -> bool) {
    forall i, j | 0 <= i < j < |xs| :: !(le(key(xs[i]), key(xs[j])) && le(key(xs[j]), key(xs[i])))
  }

  lemma {:induction false} InsertPermutes<T, K>(x: T, xs: seq<T>, key: T -> K, le: (K, K) -> bool)
    ensures multiset(Insert(x, xs, key, le)) == multiset{x} + multiset(xs)
  {
    if |xs| > 0 && !le(key(x), key(xs[0])) {
      InsertPermutes(x, xs[1..], key, le);
      assert xs == [xs[0]] + xs[1..];
    }
  }

  lemma {:induction false} SortPermutes<T, K>(xs: seq<T>, key: T -> K, le: (K, K) -> bool)
    ensures multiset(Sort(xs, key, le)) == multiset(xs)
    ensures |Sort(xs, key, le)| == |xs|
  {
    if |xs| > 0 {
      SortPermutes(xs[1..], key, le);
      InsertPermutes(xs[0], Sort(xs[1..], key, le), key, le);
      assert xs == [xs[0]] + xs[1..];
    }
    assert |multiset(Sort(xs, key, le))| == |multiset(xs)|;
  }

  lemma {:induction false} InsertKeepsSorted<T, K(!new)>(x: T, xs: seq<T>, key: T -> K, le: (K, K) -> bool)
    requires TotalPreorder(le) && Sorted(xs, key, le)
    ensures Sorted(Insert(x, xs, key, le), key, le)
  {
    if |xs| == 0 {
    } else if le(key(x), key(xs[0])) {
      forall i | 0 <= i < |xs|
        ensures le(key(x), key(xs[i]))
      {
        assert i > 0 ==> le(key(xs[0]), key(xs[i]));
      }
    } else {
      var tail := Insert(x, xs[1..], key, le);
      InsertKeepsSorted(x, xs[1..], key, le);
      InsertPermutes(x, xs[1..], key, le);
      forall j | 0 <= j < |tail|
        ensures le(key(xs[0]), key(tail[j]))
      {
        assert tail[j] in multiset(tail);
        if tail[j] in multiset(xs[1..]) {
          var k :| 0 <= k < |xs[1..]| && xs[1..][k] == tail[j];
          assert xs[k + 1] == tail[j];
        }
      }
    }
  }

  lemma {:induction false} SortSorts<T, K(!new)>(xs: seq<T>, key: T -> K, le: (K, K) -> bool)
    requires TotalPreorder(le)
    ensures Sorted(Sort(xs, key, le), key, le)
  {
    if |xs| > 0 {
      SortSorts(xs[1..], key, le);
      InsertKeepsSorted(xs[0], Sort(xs[1..], key, le), key, le);
    }
  }

  /** Two sorted arrangements of the same elements start alike when the order tells all of them apart. */
  lemma SortedHeadIsUnique<T, K>(xs: seq<T>, ys: seq<T>, key: T -> K, le: (K, K) -> bool)
    requires Sorted(xs, key, le) && Sorted(ys, key, le) && DistinctKeys(xs, key, le)
    requires multiset(xs) == multiset(ys) && |xs| > 0 && |ys| > 0
    ensures xs[0] == ys[0]
  {
    assert xs[0] in multiset(ys) && ys[0] in multiset(xs);
    var i :| 0 <= i < |ys| && ys[i] == xs[0];
    var j :| 0 <= j < |xs| && xs[j] == ys[0];
  }

  lemma TailMultiset<T>(xs: seq<T>)
    requires |xs| > 0
    ensures multiset(xs[1..]) == multiset(xs) - multiset{xs[0]}
  {
    assert xs == [xs[0]] + xs[1..];
  }

  lemma HeadAndTail<T>(xs: seq<T>, ys: seq<T>)
    requires |xs| > 0 && |ys| > 0 && xs[0] == ys[0] && xs[1..] == ys[1..]
    ensures xs == ys
  {
    assert xs == [xs[0]] + xs[1..] && ys == [ys[0]] + ys[1..];
  }

  lemma TailStaysSorted<T, K>(xs: seq<T>, key: T -> K, le: (K, K) -> bool)
    requires Sorted(xs, key, le) && |xs| > 0
    ensures Sorted(xs[1..], key, le)
    ensures DistinctKeys(xs, key, le) ==> DistinctKeys(xs[1..], key, le)
  {
  }

  lemma {:induction false} SortedIsUnique<T, K>(xs: seq<T>, ys: seq<T>, key: T -> K, le: (K, K) -> bool)
    requires Sorted(xs, key, le) && Sorted(ys, key, le) && DistinctKeys(xs, key, le)
    requires multiset(xs) == multiset(ys)
    ensures xs == ys
  {
    assert |multiset(xs)| == |xs| && |multiset(ys)| == |ys|;
    if |xs| > 0 {
      SortedHeadIsUnique(xs, ys, key, le);
      TailMultiset(xs);
      TailMultiset(ys);
      TailStaysSorted(xs, key, le);
      TailStaysSorted(ys, key, le);
      SortedIsUnique(xs[1..], ys[1..], key, le);
      HeadAndTail(xs, ys);
    }
  }

  /** The order of the input does not show in the sorted result. */
  lemma SortForgetsOrder<T, K(!new)>(xs: seq<T>, ys: seq<T>, key: T -> K, le: (K, K) -> bool)
    requires TotalPreorder(le)
    requires multiset(xs) == multiset(ys)
    requires DistinctKeys(xs, key, le)
    ensures Sort(xs, key, le) == Sort(ys, key, le)
  {
    SortPermutes(xs, key, le);
    SortPermutes(ys, key, le);
    SortSorts(xs, key, le);
    SortSorts(ys, key, le);
    SortKeepsDistinct(xs, Sort(xs, key, le), key, le);
    SortedIsUnique(Sort(xs, key, le), Sort(ys, key, le), key, le);
  }

  lemma {:induction false} SortKeepsDistinct<T, K>(xs: seq<T>, ys: seq<T>, key: T -> K, le: (K, K) -> bool)
    requires multiset(xs) == multiset(ys) && DistinctKeys(xs, key, le)
    ensures DistinctKeys(ys, key, le)
  {
    forall i, j | 0 <= i < j < |ys|
      ensures !(le(key(ys[i]), key(ys[j])) && le(key(ys[j]), key(ys[i])))
    {
      var a, b := TwoPositions(ys, xs, i, j);
    }
  }

  /** Two different positions of one arrangement correspond to two different positions of the other. */
  lemma TwoPositions<T>(ys: seq<T>, xs: seq<T>, i: nat, j: nat) returns (a: nat, b: nat)
    requires multiset(xs) == multiset(ys) && i < j < |ys|
    ensures a < |xs| && b < |xs| && a != b && xs[a] == ys[i] && xs[b] == ys[j]
  {
    assert ys[i] in multiset(xs) && ys[j] in multiset(xs);
    a :| 0 <= a < |xs| && xs[a] == ys[i];
    if ys[i] == ys[j] {
      assert ys == ys[..j] + [ys[j]] + ys[j + 1..];
      assert ys[..j][i] == ys[i];
      assert multiset(ys)[ys[i]] >= 2;
      assert xs == xs[..a] + [xs[a]] + xs[a + 1..];
      assert ys[i] in multiset(xs[..a]) || ys[i] in multiset(xs[a + 1..]);
      if ys[i] in multiset(xs[..a]) {
        b :| 0 <= b < a && xs[..a][b] == ys[i];
      } else {
        var c :| 0 <= c < |xs| - a - 1 && xs[a + 1..][c] == ys[i];
        b := a + 1 + c;
      }
    } else {
      b :| 0 <= b < |xs| && xs[b] == ys[j];
    }
  }

  lemma SortSameMembers<T, K>(xs: seq<T>, key: T -> K, le: (K, K) -> bool, x: T)
    ensures x in Sort(xs, key, le) <==> x in xs
  {
    SortPermutes(xs, key, le);
    assert x in multiset(xs) <==> x in xs;
    assert x in multiset(Sort(xs, key, le)) <==> x in Sort(xs, key, le);
  }

  lemma {:induction false} InsertCommutes<S, T, K>(
    x: S, xs: seq<S>, ys: seq<T>, f: S -> T, keyS: S -> K, keyT: T -> K, le: (K, K) -> bool)
    requires |xs| == |ys| && forall i | 0 <= i < |xs| :: ys[i] == f(xs[i])
    requires forall z | z in [x] + xs :: keyS(z) == keyT(f(z))
    ensures var s, t := Insert(x, xs, keyS, le), Insert(f(x), ys, keyT, le);
            |s| == |t| && forall i | 0 <= i < |s| :: t[i] == f(s[i])
  {
    assert x in [x] + xs;
    if |xs| > 0 {
      assert xs[0] in [x] + xs;
      if !le(keyS(x), keyS(xs[0])) {
        assert forall z | z in [x] + xs[1..] :: z in [x] + xs;
        InsertCommutes(x, xs[1..], ys[1..], f, keyS, keyT, le);
      }
    }
  }

  /** Sorting the images is taking the images of the sorted. */
  lemma {:induction false} SortCommutes<S, T, K>(
    xs: seq<S>, ys: seq<T>, f: S -> T, keyS: S -> K, keyT: T -> K, le: (K, K) -> bool)
    requires |xs| == |ys| && forall i | 0 <= i < |xs| :: ys[i] == f(xs[i])
    requires forall z | z in xs :: keyS(z) == keyT(f(z))
    ensures var s, t := Sort(xs, keyS, le), Sort(ys, keyT, le);
            |s| == |t| && forall i | 0 <= i < |s| :: t[i] == f(s[i])
  {
    if |xs| > 0 {
      SortCommutes(xs[1..], ys[1..], f, keyS, keyT, le);
      forall z | z in [xs[0]] + Sort(xs[1..], keyS, le)
        ensures z in xs
      {
        SortSameMembers(xs[1..], keyS, le, z);
      }
      InsertCommutes(xs[0], Sort(xs[1..], keyS, le), Sort(ys[1..], keyT, le), f, keyS, keyT, le);
    }
  }
}
