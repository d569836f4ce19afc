/** The order in which the wizard offers model ids: default and common picks first, then by name (configure_cmd.py). */
module ModelOrder {
  import opened Sorting
  import opened Strings

  function Members(ids: seq<string>): set<string> { set id | id in ids }

  function Same(id: string): string { id }

  /** The candidates that are offered at all, each where it first occurs. */
  function Ordered(candidates: seq<string>, offered: set<string>): seq<string> {
    if |candidates| == 0 then []
    else
      var init, last := Ordered(candidates[..|candidates| - 1], offered), candidates[|candidates| - 1];
      if last in offered && last !in init then init + [last] else init
  }

  method SortModelIds(ids: seq<string>, standard: string, preferred: seq<string>) returns (ordered: seq<string>)
    ensures ordered == Ordered([standard] + preferred + Sort(ids, Same, LexLe), Members(ids))
  {
    var seen: set<string> := {};
    ordered := [];
    var candidates := [standard] + preferred + Sort(ids, Same, LexLe);
    for i := 0 to |candidates|
      invariant ordered == Ordered(candidates[..i], Members(ids))
      invariant seen == Members(ordered)
    {
      assert candidates[..i + 1][..i] == candidates[..i];
      var candidate := candidates[i];
      if candidate in ids && candidate !in seen {
        ordered := ordered + [candidate];
        seen := seen + {candidate};
      }
    }
    assert candidates[..|candidates|] == candidates;
  }

  lemma LastIsGreatest(sorted: seq<string>, id: string)
    requires |sorted| > 0 && Sorted(sorted, Same, LexLe) && id in sorted[..|sorted| - 1]
    ensures LexLe(id, sorted[|sorted| - 1])
  {
    var k :| 0 <= k < |sorted| - 1 && sorted[k] == id;
    assert LexLe(Same(sorted[k]), Same(sorted[|sorted| - 1]));
  }

  lemma StrictSnoc(ids: seq<string>, last: string)
    requires StrictlySorted(ids) && last !in ids && forall id | id in ids :: LexLe(id, last)
    ensures StrictlySorted(ids + [last])
  {
  }

  /** Behind the front, the rest of `sorted` follows in strict order. */
  lemma {:induction false} RestIsSorted(front: seq<string>, sorted: seq<string>, offered: set<string>)
    returns (rest: seq<string>)
    requires Sorted(sorted, Same, LexLe)
    ensures Ordered(front + sorted, offered) == Ordered(front, offered) + rest
    ensures StrictlySorted(rest)
    ensures forall id :: id in rest <==> id in sorted && id in offered && id !in Ordered(front, offered)
  {
    rest := [];
    if |sorted| == 0 {
      assert front + sorted == front;
      assert Ordered(front, offered) + [] == Ordered(front, offered);
    } else {
      var init, last := sorted[..|sorted| - 1], sorted[|sorted| - 1];
      assert sorted == init + [last];
      var before := RestIsSorted(front, init, offered);
      assert (front + sorted)[..|front + sorted| - 1] == front + init;
      var head := Ordered(front, offered);
      forall id | id in before {
        LastIsGreatest(sorted, id);
      }
      if last in offered && last !in head + before {
        rest := before + [last];
        StrictSnoc(before, last);
        assert head + before + [last] == head + rest;
      } else {
        rest := before;
      }
    }
  }

  /** No candidate is offered twice, and no candidate on offer is passed over. */
  lemma {:induction false} OrderedMembers(candidates: seq<string>, offered: set<string>)
    ensures forall i, j | 0 <= i < j < |Ordered(candidates, offered)| ::
              Ordered(candidates, offered)[i] != Ordered(candidates, offered)[j]
    ensures forall id :: id in Ordered(candidates, offered) <==> id in candidates && id in offered
  {
    if |candidates| > 0 {
      var init, last := candidates[..|candidates| - 1], candidates[|candidates| - 1];
      OrderedMembers(init, offered);
      assert candidates == init + [last];
    }
  }

  /** Of two that are offered, the one that occurs first among the candidates comes first. */
  lemma {:induction false} OfferedByFirstPlace(candidates: seq<string>, offered: set<string>, i: nat, j: nat)
    returns (place: nat)
    requires i < j < |Ordered(candidates, offered)|
    ensures place < |candidates| && candidates[place] == Ordered(candidates, offered)[i]
    ensures Ordered(candidates, offered)[j] !in candidates[..place + 1]
  {
    var n := |candidates| - 1;
    var init, last := Ordered(candidates[..n], offered), candidates[n];
    assert candidates == candidates[..n] + [last];
    OrderedMembers(candidates[..n], offered);
    if j < |init| {
      place := OfferedByFirstPlace(candidates[..n], offered, i, j);
      assert candidates[..n][..place + 1] == candidates[..place + 1];
    } else {
      assert init[i] in candidates[..n];
      place :| 0 <= place < n && candidates[place] == init[i];
      assert forall c | c in candidates[..place + 1] :: c in candidates[..n];
    }
  }

  /** Every id is offered exactly once and nothing else is; the picks that are listed come first, and behind them the
      others follow in strict order. */
  lemma OfferedExactlyOnce(ids: seq<string>, front: seq<string>) returns (picks: seq<string>, rest: seq<string>)
    ensures var order := Ordered(front + Sort(ids, Same, LexLe), Members(ids));
            && order == picks + rest
            && (forall i, j | 0 <= i < j < |order| :: order[i] != order[j])
            && (forall id :: id in order <==> id in ids)
    ensures picks == Ordered(front, Members(ids))
    ensures forall id :: id in picks <==> id in front && id in ids
    ensures forall id :: id in rest <==> id in ids && id !in front
    ensures StrictlySorted(rest)
  {
    picks := Ordered(front, Members(ids));
    OrderedMembers(front, Members(ids));
    OrderedMembers(front + Sort(ids, Same, LexLe), Members(ids));
    LexLeIsOrder();
    SortSorts(ids, Same, LexLe);
    rest := RestIsSorted(front, Sort(ids, Same, LexLe), Members(ids));
    forall id
      ensures id in Sort(ids, Same, LexLe) <==> id in ids
    {
      SortSameMembers(ids, Same, LexLe, id);
    }
  }

  /** What the provider's list repeats, and in which order it comes, does not show. */
  lemma ListingOrderIsIrrelevant(ids: seq<string>, others: seq<string>, front: seq<string>)
    requires Members(ids) == Members(others)
    ensures Ordered(front + Sort(ids, Same, LexLe), Members(ids)) ==
            Ordered(front + Sort(others, Same, LexLe), Members(others))
  {
    var _, a := OfferedExactlyOnce(ids, front);
    var _, b := OfferedExactlyOnce(others, front);
    forall id
      ensures id in a <==> id in b
    {
      assert id in ids <==> id in Members(ids);
      assert id in others <==> id in Members(others);
    }
    SortedOnlyOneWay(a, b);
  }
}
