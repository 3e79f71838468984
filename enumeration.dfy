/** The deals the bottom-up table stands for: every deal of the first `m`
    items in which neither thief reaches the cap, listed in the order the
    table produces them (the first thief's choice before the second's at
    every item), and the splits those deals produce. */
module Enumeration {
  import opened Split
  import opened Deals
  import opened Collections

  /** Neither thief holds `Cap(n)` items under the deal `w`. */
  predicate DealWithinCap(n: nat, w: Choices)
  {
    Takes(w, true) < Cap(n) && Takes(w, false) < Cap(n)
  }

  function WithinCapDeals(n: nat): Choices -> bool
  {
    (w: Choices) => DealWithinCap(n, w)
  }

  /** The two ways to deal one more item after `w`, the first thief's first. */
  function Extensions(): Choices -> seq<Choices>
  {
    (w: Choices) => [Snoc(w, true), Snoc(w, false)]
  }

  /** The deals of the first `m` items that keep both thieves below the cap
      for `n` items, built one item at a time. */
  function DealsOfLength(m: nat, n: nat): seq<Choices>
  {
    if m == 0 then [Done] else Filter(WithinCapDeals(n), FlatMap(Extensions(), DealsOfLength(m - 1, n)))
  }

  /** Extending deals of `m` items gives deals of `m + 1` items. */
  lemma {:induction false} ExtendLengths(ws: seq<Choices>, m: nat)
    requires forall i :: 0 <= i < |ws| ==> Length(ws[i]) == m
    ensures forall i :: 0 <= i < |FlatMap(Extensions(), ws)| ==> Length(FlatMap(Extensions(), ws)[i]) == m + 1
  {
    if ws != [] {
      var init, last := ws[..|ws| - 1], ws[|ws| - 1];
      ExtendLengths(init, m);
      assert Extensions()(last) == [Snoc(last, true), Snoc(last, false)];
    }
  }

  /** Every deal but the empty one is some shorter deal with one more choice. */
  lemma {:induction false} SnocOf(w: Choices) returns (u: Choices, b: bool)
    requires w.Then?
    ensures w == Snoc(u, b)
  {
    match w
    case Then(c, rest) =>
      if rest == Done {
        u, b := Done, c;
      } else {
        var u', b' := SnocOf(rest);
        u, b := Then(c, u'), b';
      }
  }

  /** The deals listed all have length `m` and stay below the cap. */
  lemma {:induction false} DealsOfLengthValid(m: nat, n: nat)
    ensures forall w <- DealsOfLength(m, n) :: Length(w) == m && DealWithinCap(n, w)
  {
    if m > 0 {
      var shorter := DealsOfLength(m - 1, n);
      DealsOfLengthValid(m - 1, n);
      forall w <- DealsOfLength(m, n)
        ensures Length(w) == m && DealWithinCap(n, w)
      {
        ExtensionValid(m, n, shorter, w);
      }
    }
  }

  /** A deal kept after extending deals of length `m - 1` has length `m`
      and stays below the cap. */
  lemma {:induction false} ExtensionValid(m: nat, n: nat, shorter: seq<Choices>, w: Choices)
    requires forall u <- shorter :: Length(u) + 1 == m
    requires w in Filter(WithinCapDeals(n), FlatMap(Extensions(), shorter))
    ensures Length(w) == m && DealWithinCap(n, w)
  {
    var extended := FlatMap(Extensions(), shorter);
    FilterMembers(WithinCapDeals(n), extended);
    var u := FlatMapFrom(Extensions(), shorter, w);
  }

  /** Every deal of length `m` that stays below the cap is listed. */
  lemma {:induction false} DealsOfLengthComplete(m: nat, n: nat, w: Choices)
    requires Length(w) == m && DealWithinCap(n, w)
    ensures w in DealsOfLength(m, n)
  {
    if m == 0 {
      assert w == Done;
    } else {
      var u, b := SnocOf(w);
      DealsOfLengthComplete(m - 1, n, u);
      assert w in Extensions()(u);
      FlatMapHas(Extensions(), DealsOfLength(m - 1, n), u, w);
      FilterMembers(WithinCapDeals(n), FlatMap(Extensions(), DealsOfLength(m - 1, n)));
    }
  }

  /** Each deal of the list comes before every later one. */
  ghost predicate InOrder(ws: seq<Choices>)
  {
    forall i, j :: 0 <= i < j < |ws| ==> Before(ws[i], ws[j])
  }

  lemma {:induction false} InOrderSnoc(ws: seq<Choices>, w: Choices)
    requires InOrder(ws) && forall u <- ws :: Before(u, w)
    ensures InOrder(ws + [w])
  {
    forall i, j | 0 <= i < j < |ws + [w]|
      ensures Before((ws + [w])[i], (ws + [w])[j])
    {
      assert (ws + [w])[i] == ws[i];
      if j < |ws| {
        assert (ws + [w])[j] == ws[j];
      } else {
        assert ws[i] in ws;
      }
    }
  }

  lemma {:induction false} InOrderInit(ws: seq<Choices>, init: seq<Choices>, last: Choices)
    requires InOrder(ws) && ws == init + [last]
    ensures InOrder(init)
    ensures forall u <- init :: Before(u, last)
  {
    forall u <- init
      ensures Before(u, last)
    {
      var i :| 0 <= i < |init| && init[i] == u;
      assert ws[i] == u && ws[|init|] == last;
      assert Before(ws[i], ws[|init|]);
    }
    forall i, j | 0 <= i < j < |init|
      ensures Before(init[i], init[j])
    {
      assert ws[i] == init[i] && ws[j] == init[j];
    }
  }

  /** Filtering keeps the order. */
  lemma {:induction false} InOrderFilter(p: Choices -> bool, ws: seq<Choices>)
    requires InOrder(ws)
    ensures InOrder(Filter(p, ws))
  {
    if ws != [] {
      var init, last := ws[..|ws| - 1], ws[|ws| - 1];
      assert ws == init + [last];
      InOrderInit(ws, init, last);
      InOrderFilter(p, init);
      FilterMembers(p, init);
      if p(last) {
        InOrderSnoc(Filter(p, init), last);
      }
    }
  }

  /** Extending each deal both ways keeps the order: the extensions of a
      deal come after those of the deals before it, and the first thief's
      extension comes before the second thief's. */
  lemma {:induction false} InOrderExtend(ws: seq<Choices>)
    requires InOrder(ws)
    ensures InOrder(FlatMap(Extensions(), ws))
  {
    if ws != [] {
      var init, last := ws[..|ws| - 1], ws[|ws| - 1];
      assert ws == init + [last];
      InOrderInit(ws, init, last);
      InOrderExtend(init);
      FlatMapSnoc(Extensions(), init, last);
      var before := FlatMap(Extensions(), init);
      var first, second := Snoc(last, true), Snoc(last, false);
      forall v <- before
        ensures Before(v, first) && Before(v, second)
      {
        var u := FlatMapFrom(Extensions(), init, v);
        BeforeSnoc(u, last, if v == Snoc(u, true) then true else false, true);
        BeforeSnoc(u, last, if v == Snoc(u, true) then true else false, false);
      }
      InOrderSnoc(before, first);
      BeforeLast(last);
      forall v <- before + [first]
        ensures Before(v, second)
      {
      }
      InOrderSnoc(before + [first], second);
      assert before + [first] + [second] == before + Extensions()(last);
    }
  }

  lemma {:induction false} DealsOfLengthInOrder(m: nat, n: nat)
    ensures InOrder(DealsOfLength(m, n))
  {
    if m > 0 {
      DealsOfLengthInOrder(m - 1, n);
      InOrderExtend(DealsOfLength(m - 1, n));
      InOrderFilter(WithinCapDeals(n), FlatMap(Extensions(), DealsOfLength(m - 1, n)));
    }
  }
}
