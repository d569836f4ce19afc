/** The loop that keeps what a partial function yields, in order. */
module Filtering {
  import opened Options

  function FilterMap<S, T>(xs: seq<S>, f: S -> Option<T>): seq<T> {
    if |xs| == 0 then []
    else
      var init := FilterMap(xs[..|xs| - 1], f);
      var last := f(xs[|xs| - 1]);
      if last.Some? then init + [last.value] else init
  }

  /** One more turn of the loop. */
  lemma FilterMapStep<S, T>(xs: seq<S>, i: nat, f: S -> Option<T>)
    requires i < |xs|
    ensures FilterMap(xs[..i + 1], f) ==
            FilterMap(xs[..i], f) + if f(xs[i]).Some? then [f(xs[i]).value] else []
  {
    assert xs[..i + 1][..i] == xs[..i];
  }

  lemma {:induction false} FilterMapConcat<S, T>(xs: seq<S>, ys: seq<S>, f: S -> Option<T>)
    ensures FilterMap(xs + ys, f) == FilterMap(xs, f) + FilterMap(ys, f)
  {
    if |ys| == 0 {
      assert xs + ys == xs;
    } else {
      FilterMapConcat(xs, ys[..|ys| - 1], f);
      assert (xs + ys)[..|xs + ys| - 1] == xs + ys[..|ys| - 1];
    }
  }

  lemma {:induction false} FilterMapMembers<S, T>(xs: seq<S>, f: S -> Option<T>, y: T)
    ensures y in FilterMap(xs, f) <==> exists x | x in xs :: f(x) == Some(y)
  {
    if |xs| > 0 {
      FilterMapMembers(xs[..|xs| - 1], f, y);
      assert xs == xs[..|xs| - 1] + [xs[|xs| - 1]];
    }
  }

  /** Nothing is lost or moved when every element yields something. */
  lemma {:induction false} FilterMapTotal<S, T>(xs: seq<S>, f: S -> Option<T>, ys: seq<T>)
    requires |xs| == |ys| && forall i | 0 <= i < |xs| :: f(xs[i]) == Some(ys[i])
    ensures FilterMap(xs, f) == ys
  {
    if |xs| > 0 {
      FilterMapTotal(xs[..|xs| - 1], f, ys[..|ys| - 1]);
    }
  }

  /** What is yielded decides the result. */
  lemma {:induction false} FilterMapSame<S, T>(xs: seq<S>, ys: seq<S>, f: S -> Option<T>)
    requires |xs| == |ys| && forall i | 0 <= i < |xs| :: f(xs[i]) == f(ys[i])
    ensures FilterMap(xs, f) == FilterMap(ys, f)
  {
    if |xs| > 0 {
      FilterMapSame(xs[..|xs| - 1], ys[..|ys| - 1], f);
    }
  }

  /** Any order that holds between earlier and later yields holds between earlier and later results. */
  lemma {:induction false} FilterMapKeepsOrder<S, T>(xs: seq<S>, f: S -> Option<T>, before: (T, T) -> bool)
    requires forall i, j | 0 <= i < j < |xs| && f(xs[i]).Some? && f(xs[j]).Some? ::
               before(f(xs[i]).value, f(xs[j]).value)
    ensures forall i, j | 0 <= i < j < |FilterMap(xs, f)| :: before(FilterMap(xs, f)[i], FilterMap(xs, f)[j])
  {
    if |xs| > 0 {
      var init, last := xs[..|xs| - 1], f(xs[|xs| - 1]);
      FilterMapKeepsOrder(init, f, before);
      if last.Some? {
        var ys := FilterMap(init, f);
        forall i | 0 <= i < |ys|
          ensures before(ys[i], last.value)
        {
          FilterMapMembers(init, f, ys[i]);
          var x :| x in init && f(x) == Some(ys[i]);
          var n :| 0 <= n < |init| && init[n] == x;
        }
      }
    }
  }

  /** The loop that appends what a total function yields. */
  function Map<S, T>(xs: seq<S>, f: S -> T): seq<T> {
    if |xs| == 0 then [] else Map(xs[..|xs| - 1], f) + [f(xs[|xs| - 1])]
  }

  lemma MapSnoc<S, T>(xs: seq<S>, x: S, f: S -> T)
    ensures Map(xs + [x], f) == Map(xs, f) + [f(x)]
  {
    assert (xs + [x])[..|xs|] == xs;
  }

  lemma {:induction false} MapConcat<S, T>(xs: seq<S>, ys: seq<S>, f: S -> T)
    ensures Map(xs + ys, f) == Map(xs, f) + Map(ys, f)
  {
    if |ys| == 0 {
      assert xs + ys == xs;
    } else {
      MapConcat(xs, ys[..|ys| - 1], f);
      assert (xs + ys)[..|xs + ys| - 1] == xs + ys[..|ys| - 1];
    }
  }

  lemma {:induction false} MapAt<S, T>(xs: seq<S>, f: S -> T)
    ensures |Map(xs, f)| == |xs| && forall i | 0 <= i < |xs| :: Map(xs, f)[i] == f(xs[i])
  {
    if |xs| > 0 {
      MapAt(xs[..|xs| - 1], f);
    }
  }

  /** The loop that extends its result by what a function yields. */
  function Flat<S, T>(xs: seq<S>, f: S -> seq<T>): seq<T> {
    if |xs| == 0 then [] else Flat(xs[..|xs| - 1], f) + f(xs[|xs| - 1])
  }

  lemma FlatOne<S, T>(x: S, f: S -> seq<T>)
    ensures Flat([x], f) == f(x)
  {
    var one := [x];
    assert one[..|one| - 1] == [];
    assert Flat([], f) + f(x) == f(x);
  }

  lemma FlatStep<S, T>(xs: seq<S>, i: nat, f: S -> seq<T>)
    requires i < |xs|
    ensures Flat(xs[..i + 1], f) == Flat(xs[..i], f) + f(xs[i])
  {
    assert xs[..i + 1][..i] == xs[..i];
  }

  lemma {:induction false} FlatConcat<S, T>(xs: seq<S>, ys: seq<S>, f: S -> seq<T>)
    ensures Flat(xs + ys, f) == Flat(xs, f) + Flat(ys, f)
  {
    if |ys| == 0 {
      assert xs + ys == xs;
    } else {
      FlatConcat(xs, ys[..|ys| - 1], f);
      assert (xs + ys)[..|xs + ys| - 1] == xs + ys[..|ys| - 1];
    }
  }

  ghost predicate HasRelated<S, T(!new)>(x: S, related: (S, T) -> bool) { exists y :: related(x, y) }

  /** One related element for each. */
  lemma {:induction false} ChooseEach<S, T(!new)>(xs: seq<S>, related: (S, T) -> bool) returns (ys: seq<T>)
    requires forall x | x in xs :: HasRelated(x, related)
    ensures |ys| == |xs| && forall i | 0 <= i < |xs| :: related(xs[i], ys[i])
  {
    ys := [];
    if |xs| > 0 {
      var init, last := xs[..|xs| - 1], xs[|xs| - 1];
      assert last in xs && forall x | x in init :: x in xs;
      var some := ChooseEach(init, related);
      var one :| related(last, one);
      ys := some + [one];
    }
  }
}
