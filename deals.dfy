/** Ways of dealing the items out to the two thieves. A deal of the items
    from index `from` on is a list of choices, one per item in index order:
    `Then(true, ...)` gives the item to the first thief, `Then(false, ...)`
    to the second. This module gives the splits a deal produces and says
    what the best deal is; the solvers are proved against it. */
module Deals {
  import opened Split

  datatype Choices = Done | Then(toFirst: bool, rest: Choices)

  /** How many items a deal hands out. */
  function Length(w: Choices): nat
  {
    match w
    case Done => 0
    case Then(_, rest) => 1 + Length(rest)
  }

  /** How many items `w` gives to the first thief (`toFirst`) or to the second. */
  function Takes(w: Choices, toFirst: bool): nat
  {
    match w
    case Done => 0
    case Then(b, rest) => (if b == toFirst then 1 else 0) + Takes(rest, toFirst)
  }

  /** A deal hands out every item: the two counts add up to the length. */
  lemma {:induction false} TakesAddUp(w: Choices)
    ensures Takes(w, true) + Takes(w, false) == Length(w)
  {
    match w
    case Done =>
    case Then(_, rest) => TakesAddUp(rest);
  }

  /** `w` followed by one more choice, for the next item. */
  function Snoc(w: Choices, b: bool): (r: Choices)
    ensures Length(r) == Length(w) + 1
    ensures forall toFirst :: Takes(r, toFirst) == Takes(w, toFirst) + (if b == toFirst then 1 else 0)
  {
    match w
    case Done => Then(b, Done)
    case Then(c, rest) => Then(c, Snoc(rest, b))
  }

  /** The items from index `from` on that `w` gives to the first thief
      (`toFirst`) or to the second, in index order. */
  function Pick(items: seq<int>, from: nat, w: Choices, toFirst: bool): (r: seq<int>)
    requires from + Length(w) <= |items|
    decreases w
    ensures |r| == Takes(w, toFirst)
  {
    match w
    case Done => []
    case Then(b, rest) => (if b == toFirst then [items[from]] else []) + Pick(items, from + 1, rest, toFirst)
  }

  /** Every item of a deal that runs to the end of the items goes to exactly
      one of the two thieves. */
  lemma {:induction false} PickPartition(items: seq<int>, from: nat, w: Choices)
    requires from + Length(w) == |items|
    decreases w
    ensures multiset(Pick(items, from, w, true)) + multiset(Pick(items, from, w, false))
              == multiset(items[from..])
  {
    match w
    case Done =>
    case Then(_, rest) =>
      PickHeadMultiset(items, from, w);
      PickPartition(items, from + 1, rest);
      SuffixMultiset(items, from);
  }

  /** Items past the ones a deal reaches do not matter to it. */
  lemma {:induction false} PickPrefix(items: seq<int>, from: nat, w: Choices, toFirst: bool, k: nat)
    requires from + Length(w) <= k <= |items|
    decreases w
    ensures Pick(items[..k], from, w, toFirst) == Pick(items, from, w, toFirst)
  {
    match w
    case Done =>
    case Then(_, rest) =>
      PickPrefix(items, from + 1, rest, toFirst, k);
  }

  /** The split of a deal holds, between the two thieves, exactly the items
      the deal reaches. */
  lemma {:induction false} DealPartition(items: seq<int>, w: Choices)
    requires Length(w) <= |items|
    ensures multiset(Deal(items, w).first.items) + multiset(Deal(items, w).second.items)
              == multiset(items[..Length(w)])
  {
    var k := Length(w);
    PickPrefix(items, 0, w, true, k);
    PickPrefix(items, 0, w, false, k);
    PickPartition(items[..k], 0, w);
    assert items[..k][0..] == items[..k];
  }

  lemma {:induction false} PickHeadMultiset(items: seq<int>, from: nat, w: Choices)
    requires w.Then? && from + Length(w) <= |items|
    ensures multiset(Pick(items, from, w, true)) + multiset(Pick(items, from, w, false))
              == multiset{items[from]}
                 + (multiset(Pick(items, from + 1, w.rest, true)) + multiset(Pick(items, from + 1, w.rest, false)))
  {
    var b := w.toFirst;
    assert Pick(items, from, w, b) == [items[from]] + Pick(items, from + 1, w.rest, b);
    assert Pick(items, from, w, !b) == Pick(items, from + 1, w.rest, !b);
  }

  lemma {:induction false} SuffixMultiset(items: seq<int>, from: nat)
    requires from < |items|
    ensures multiset(items[from..]) == multiset{items[from]} + multiset(items[from + 1..])
  {
    assert items[from..] == [items[from]] + items[from + 1..];
  }

  lemma {:induction false} PickSnoc(items: seq<int>, from: nat, w: Choices, b: bool, toFirst: bool)
    requires from + Length(w) < |items|
    decreases w, 1
    ensures Pick(items, from, Snoc(w, b), toFirst)
              == Pick(items, from, w, toFirst) + (if b == toFirst then [items[from + Length(w)]] else [])
  {
    if w.Then? {
      PickSnocStep(items, from, w, b, toFirst);
    }
  }

  /** The inductive case of `PickSnoc`. */
  lemma {:induction false} PickSnocStep(items: seq<int>, from: nat, w: Choices, b: bool, toFirst: bool)
    requires w.Then? && from + Length(w) < |items|
    decreases w, 0
    ensures Pick(items, from, Snoc(w, b), toFirst)
              == Pick(items, from, w, toFirst) + (if b == toFirst then [items[from + Length(w)]] else [])
  {
    var c, rest := w.toFirst, w.rest;
    var tail := if b == toFirst then [items[from + Length(w)]] else [];
    var p := Pick(items, from + 1, rest, toFirst);
    assert Pick(items, from + 1, Snoc(rest, b), toFirst) == p + tail by {
      PickSnoc(items, from + 1, rest, b, toFirst);
    }
    assert Snoc(w, b) == Then(c, Snoc(rest, b));
    if c == toFirst {
      assert Pick(items, from, w, toFirst) == [items[from]] + p;
      AppendAssociates([items[from]], p, tail);
    } else {
      assert Pick(items, from, w, toFirst) == p by {
        assert [] + p == p;
      }
      assert [] + (p + tail) == p + tail;
    }
  }

  lemma {:induction false} AppendAssociates(a: seq<int>, b: seq<int>, c: seq<int>)
    ensures a + (b + c) == (a + b) + c
  {
  }

  /** How much more value the first thief gets than the second from the
      items `w` deals. */
  function Balance(items: seq<int>, from: nat, w: Choices): int
    requires from + Length(w) <= |items|
    decreases w
  {
    match w
    case Done => 0
    case Then(b, rest) => (if b then items[from] else -items[from]) + Balance(items, from + 1, rest)
  }

  /** The balance is the first thief's total less the second thief's. */
  lemma {:induction false} BalanceOfPicks(items: seq<int>, from: nat, w: Choices)
    requires from + Length(w) <= |items|
    decreases w, 1
    ensures Balance(items, from, w) == Sum(Pick(items, from, w, true)) - Sum(Pick(items, from, w, false))
  {
    if w.Then? {
      BalanceOfPicksStep(items, from, w);
    }
  }

  /** The inductive case of `BalanceOfPicks`. */
  lemma {:induction false} BalanceOfPicksStep(items: seq<int>, from: nat, w: Choices)
    requires w.Then? && from + Length(w) <= |items|
    decreases w, 0
    ensures Balance(items, from, w) == Sum(Pick(items, from, w, true)) - Sum(Pick(items, from, w, false))
  {
    var x, rest := items[from], w.rest;
    var pt, pf := Pick(items, from + 1, rest, true), Pick(items, from + 1, rest, false);
    BalanceOfPicks(items, from + 1, rest);
    if w.toFirst {
      assert Pick(items, from, w, true) == [x] + pt;
      assert Pick(items, from, w, false) == pf by {
        assert [] + pf == pf;
      }
      SumAppend([x], pt);
    } else {
      assert Pick(items, from, w, true) == pt by {
        assert [] + pt == pt;
      }
      assert Pick(items, from, w, false) == [x] + pf;
      SumAppend([x], pf);
    }
  }

  /** Handing one more item to a thief appends it to that thief's spoils. */
  function Give(s: EqualSplitState, item: int, toFirst: bool): EqualSplitState
  {
    if toFirst then EqualSplit(s.first.Add(item), s.second)
    else EqualSplit(s.first, s.second.Add(item))
  }

  /** The split a deal of the first `Length(w)` items produces when each
      thief's items are appended in index order, as the bottom-up solver
      does. */
  function Deal(items: seq<int>, w: Choices): EqualSplitState
    requires Length(w) <= |items|
  {
    EqualSplit(SpoilsOf(Pick(items, 0, w, true)), SpoilsOf(Pick(items, 0, w, false)))
  }

  /** Extending a deal by one item extends its split by that item. */
  lemma {:induction false} DealSnoc(items: seq<int>, w: Choices, b: bool)
    requires Length(w) < |items|
    ensures Deal(items, Snoc(w, b)) == Give(Deal(items, w), items[Length(w)], b)
  {
    var x := items[Length(w)];
    var kept := Pick(items, 0, w, !b);
    assert Pick(items, 0, Snoc(w, b), b) == Pick(items, 0, w, b) + [x] by {
      PickSnoc(items, 0, w, b, b);
    }
    assert Pick(items, 0, Snoc(w, b), !b) == kept by {
      PickSnoc(items, 0, w, b, !b);
      assert kept + [] == kept;
    }
    SpoilsOfAppend(Pick(items, 0, w, b), x);
  }

  /** The split the recursive solvers build from a deal of the items from
      `from` on: the split of the later items is built first, then the item
      at `from` is appended to the spoils of the thief `w` names, so each
      thief's items end up from the last index back to the first
      (`DealReversedPicks`). */
  function DealReversed(items: seq<int>, from: nat, w: Choices): EqualSplitState
    requires from + Length(w) <= |items|
    decreases w
  {
    match w
    case Done => EqualSplit(NoSpoils, NoSpoils)
    case Then(b, rest) => Give(DealReversed(items, from + 1, rest), items[from], b)
  }

  /** One step of `DealReversed`, with the next index named. */
  lemma {:induction false} DealReversedStep(items: seq<int>, from: nat, from1: nat, b: bool, w: Choices)
    requires from1 == from + 1 && from1 + Length(w) <= |items|
    ensures DealReversed(items, from, Then(b, w)) == Give(DealReversed(items, from1, w), items[from], b)
  {
  }

  /** `DealReversed` gives each thief the items `Pick` names, in reverse index
      order, with their sums as values. */
  lemma {:induction false} DealReversedPicks(items: seq<int>, from: nat, w: Choices)
    requires from + Length(w) <= |items|
    decreases w, 1
    ensures DealReversed(items, from, w)
              == EqualSplit(SpoilsOf(Reverse(Pick(items, from, w, true))), SpoilsOf(Reverse(Pick(items, from, w, false))))
  {
    if w.Then? {
      DealReversedPicksStep(items, from, w);
    }
  }

  /** The inductive case of `DealReversedPicks`. */
  lemma {:induction false} DealReversedPicksStep(items: seq<int>, from: nat, w: Choices)
    requires w.Then? && from + Length(w) <= |items|
    decreases w, 0
    ensures DealReversed(items, from, w)
              == EqualSplit(SpoilsOf(Reverse(Pick(items, from, w, true))), SpoilsOf(Reverse(Pick(items, from, w, false))))
  {
    var x, rest := items[from], w.rest;
    var pt, pf := Pick(items, from + 1, rest, true), Pick(items, from + 1, rest, false);
    DealReversedPicks(items, from + 1, rest);
    if w.toFirst {
      assert Pick(items, from, w, true) == [x] + pt;
      assert Pick(items, from, w, false) == pf by {
        assert [] + pf == pf;
      }
      ReverseCons(x, pt);
      SpoilsOfAppend(Reverse(pt), x);
    } else {
      assert Pick(items, from, w, true) == pt by {
        assert [] + pt == pt;
      }
      assert Pick(items, from, w, false) == [x] + pf;
      ReverseCons(x, pf);
      SpoilsOfAppend(Reverse(pf), x);
    }
  }

  /** `DealReversed` holds the same items as `Deal`, each list reversed, and
      the same values. */
  lemma {:induction false} DealReversedIsReversed(items: seq<int>, w: Choices)
    requires Length(w) <= |items|
    ensures DealReversed(items, 0, w).first.items == Reverse(Deal(items, w).first.items)
    ensures DealReversed(items, 0, w).second.items == Reverse(Deal(items, w).second.items)
    ensures DealReversed(items, 0, w).first.value == Deal(items, w).first.value
    ensures DealReversed(items, 0, w).second.value == Deal(items, w).second.value
  {
    DealReversedPicks(items, 0, w);
    ReverseKeepsItems(Pick(items, 0, w, true));
    ReverseKeepsItems(Pick(items, 0, w, false));
  }

  /** The split of a deal leaves the first thief `Balance` ahead. */
  lemma {:induction false} DealBalance(items: seq<int>, w: Choices)
    requires Length(w) <= |items|
    ensures Deal(items, w).first.value - Deal(items, w).second.value == Balance(items, 0, w)
  {
    BalanceOfPicks(items, 0, w);
  }

  /** So does the split the recursive solvers build. */
  lemma {:induction false} DealReversedBalance(items: seq<int>, from: nat, w: Choices)
    requires from + Length(w) <= |items|
    decreases w
    ensures DealReversed(items, from, w).first.value - DealReversed(items, from, w).second.value
              == Balance(items, from, w)
  {
    match w
    case Done =>
    case Then(_, rest) => DealReversedBalance(items, from + 1, rest);
  }

  /** `u` comes before `v` when, at the first item where they differ, `u`
      gives it to the first thief and `v` to the second: the order in which
      the solvers try their branches. */
  predicate Before(u: Choices, v: Choices)
  {
    u.Then? && v.Then? &&
    ((u.toFirst && !v.toFirst) || (u.toFirst == v.toFirst && Before(u.rest, v.rest)))
  }

  lemma {:induction false} BeforeIrreflexive(u: Choices)
    ensures !Before(u, u)
  {
    if u.Then? {
      BeforeIrreflexive(u.rest);
    }
  }

  lemma {:induction false} BeforeAsymmetric(u: Choices, v: Choices)
    requires Before(u, v)
    ensures !Before(v, u)
  {
    if u.toFirst == v.toFirst {
      BeforeAsymmetric(u.rest, v.rest);
    }
  }

  lemma {:induction false} BeforeTransitive(u: Choices, v: Choices, t: Choices)
    requires Before(u, v) && Before(v, t)
    ensures Before(u, t)
  {
    if u.toFirst == v.toFirst && v.toFirst == t.toFirst {
      BeforeTransitive(u.rest, v.rest, t.rest);
    }
  }

  /** Two different deals of the same items are ordered one way or the other. */
  lemma {:induction false} BeforeTotal(u: Choices, v: Choices)
    requires Length(u) == Length(v)
    ensures u == v || Before(u, v) || Before(v, u)
  {
    if u.Then? && u.toFirst == v.toFirst {
      BeforeTotal(u.rest, v.rest);
    }
  }

  lemma {:induction false} BeforeSnoc(u: Choices, v: Choices, b: bool, c: bool)
    requires Before(u, v)
    ensures Before(Snoc(u, b), Snoc(v, c))
  {
    if u.toFirst == v.toFirst {
      BeforeSnoc(u.rest, v.rest, b, c);
    }
  }

  lemma {:induction false} BeforeLast(w: Choices)
    ensures Before(Snoc(w, true), Snoc(w, false))
  {
    if w.Then? {
      BeforeLast(w.rest);
    }
  }

  /** No deal `v` of the items from `from` on that gives `need` of them to
      the first thief leaves the two values closer together than `w` does
      once `lead` (how far ahead the first thief already is) is counted, and
      if `v` comes before `w` it leaves them strictly further apart. */
  ghost predicate NoBetterThan(items: seq<int>, from: nat, lead: int, need: int, w: Choices, v: Choices)
    requires from + Length(w) == |items|
  {
    from + Length(v) == |items| && Takes(v, true) == need ==>
      && Abs(lead + Balance(items, from, w)) <= Abs(lead + Balance(items, from, v))
      && (Before(v, w) ==> Abs(lead + Balance(items, from, w)) < Abs(lead + Balance(items, from, v)))
  }

  /** `w` deals the items from `from` on, giving `need` of them to the first
      thief and the rest to the second; no other such deal leaves the two
      values closer together, and the ones that come before `w` leave them
      strictly further apart. */
  ghost predicate BestDeal(items: seq<int>, from: nat, lead: int, need: int, w: Choices)
  {
    && from + Length(w) == |items|
    && Takes(w, true) == need
    && forall v :: NoBetterThan(items, from, lead, need, w, v)
  }

  lemma {:induction false} BestDealBound(items: seq<int>, from: nat, lead: int, need: int, w: Choices, v: Choices)
    requires BestDeal(items, from, lead, need, w)
    requires from + Length(v) == |items| && Takes(v, true) == need
    ensures Abs(lead + Balance(items, from, w)) <= Abs(lead + Balance(items, from, v))
    ensures Before(v, w) ==> Abs(lead + Balance(items, from, w)) < Abs(lead + Balance(items, from, v))
  {
    assert NoBetterThan(items, from, lead, need, w, v);
  }

  /** There is only one best deal. */
  lemma {:induction false} BestDealUnique(items: seq<int>, from: nat, lead: int, need: int, w1: Choices, w2: Choices)
    requires BestDeal(items, from, lead, need, w1) && BestDeal(items, from, lead, need, w2)
    ensures w1 == w2
  {
    BeforeTotal(w1, w2);
    BestDealBound(items, from, lead, need, w1, w2);
    BestDealBound(items, from, lead, need, w2, w1);
  }

  /** With nothing left to deal, the empty deal is the best one. */
  lemma {:induction false} BestDealOfNothing(items: seq<int>, lead: int)
    ensures BestDeal(items, |items|, lead, 0, Done)
  {
    forall v
      ensures NoBetterThan(items, |items|, lead, 0, Done, v)
    {
    }
  }

  /** When giving the item at `from` to the first thief can be completed best
      by `w1`, and giving it to the second thief either cannot be completed or
      is completed best by `w2` with a spread no smaller, the best deal gives
      it to the first thief. */
  lemma {:induction false} GiveFirstIsBest(items: seq<int>, from: nat, lead: int, need: int, w1: Choices, w2: Choices)
    requires from < |items|
    requires BestDeal(items, from + 1, lead + items[from], need - 1, w1)
    requires need <= |items| - from - 1 ==>
      BestDeal(items, from + 1, lead - items[from], need, w2) &&
      Abs(lead + items[from] + Balance(items, from + 1, w1)) <= Abs(lead - items[from] + Balance(items, from + 1, w2))
    ensures BestDeal(items, from, lead, need, Then(true, w1))
  {
    forall v
      ensures NoBetterThan(items, from, lead, need, Then(true, w1), v)
    {
      FirstBeatsOther(items, from, lead, need, w1, w2, v);
    }
  }

  lemma {:induction false} FirstBeatsOther(items: seq<int>, from: nat, lead: int, need: int, w1: Choices, w2: Choices, v: Choices)
    requires from < |items|
    requires BestDeal(items, from + 1, lead + items[from], need - 1, w1)
    requires need <= |items| - from - 1 ==>
      BestDeal(items, from + 1, lead - items[from], need, w2) &&
      Abs(lead + items[from] + Balance(items, from + 1, w1)) <= Abs(lead - items[from] + Balance(items, from + 1, w2))
    ensures NoBetterThan(items, from, lead, need, Then(true, w1), v)
  {
    if from + Length(v) == |items| && Takes(v, true) == need {
      if v.toFirst {
        FirstBeatsFirst(items, from, lead, need, w1, v);
      } else {
        TakesAddUp(v.rest);
        FirstBeatsSecond(items, from, lead, need, w1, w2, v);
      }
    }
  }

  /** `FirstBeatsOther` against a deal that also gives the item at `from`
      to the first thief. */
  lemma {:induction false} FirstBeatsFirst(items: seq<int>, from: nat, lead: int, need: int, w1: Choices, v: Choices)
    requires from < |items|
    requires BestDeal(items, from + 1, lead + items[from], need - 1, w1)
    requires from + Length(v) == |items| && Takes(v, true) == need && v.Then? && v.toFirst
    ensures NoBetterThan(items, from, lead, need, Then(true, w1), v)
  {
    var x, u := items[from], v.rest;
    assert lead + Balance(items, from, Then(true, w1)) == lead + x + Balance(items, from + 1, w1);
    assert lead + Balance(items, from, v) == lead + x + Balance(items, from + 1, u);
    assert Before(v, Then(true, w1)) == Before(u, w1);
    BestDealBound(items, from + 1, lead + x, need - 1, w1, u);
  }

  /** `FirstBeatsOther` against a deal that gives the item at `from` to the
      second thief. */
  lemma {:induction false} FirstBeatsSecond(items: seq<int>, from: nat, lead: int, need: int, w1: Choices, w2: Choices, v: Choices)
    requires from < |items|
    requires BestDeal(items, from + 1, lead - items[from], need, w2)
    requires from + 1 + Length(w1) == |items|
    requires Abs(lead + items[from] + Balance(items, from + 1, w1)) <= Abs(lead - items[from] + Balance(items, from + 1, w2))
    requires from + Length(v) == |items| && Takes(v, true) == need && v.Then? && !v.toFirst
    ensures NoBetterThan(items, from, lead, need, Then(true, w1), v)
  {
    var x, u := items[from], v.rest;
    assert lead + Balance(items, from, Then(true, w1)) == lead + x + Balance(items, from + 1, w1);
    assert lead + Balance(items, from, v) == lead - x + Balance(items, from + 1, u);
    assert !Before(v, Then(true, w1));
    BestDealBound(items, from + 1, lead - x, need, w2, u);
  }

  /** When giving the item at `from` to the second thief is completed best by
      `w2`, and giving it to the first thief either cannot be completed or is
      completed best by `w1` with a strictly larger spread, the best deal
      gives it to the second thief. */
  lemma {:induction false} GiveSecondIsBest(items: seq<int>, from: nat, lead: int, need: int, w1: Choices, w2: Choices)
    requires from < |items|
    requires BestDeal(items, from + 1, lead - items[from], need, w2)
    requires need >= 1 ==>
      BestDeal(items, from + 1, lead + items[from], need - 1, w1) &&
      Abs(lead - items[from] + Balance(items, from + 1, w2)) < Abs(lead + items[from] + Balance(items, from + 1, w1))
    ensures BestDeal(items, from, lead, need, Then(false, w2))
  {
    forall v
      ensures NoBetterThan(items, from, lead, need, Then(false, w2), v)
    {
      SecondBeatsOther(items, from, lead, need, w1, w2, v);
    }
  }

  lemma {:induction false} SecondBeatsOther(items: seq<int>, from: nat, lead: int, need: int, w1: Choices, w2: Choices, v: Choices)
    requires from < |items|
    requires BestDeal(items, from + 1, lead - items[from], need, w2)
    requires need >= 1 ==>
      BestDeal(items, from + 1, lead + items[from], need - 1, w1) &&
      Abs(lead - items[from] + Balance(items, from + 1, w2)) < Abs(lead + items[from] + Balance(items, from + 1, w1))
    ensures NoBetterThan(items, from, lead, need, Then(false, w2), v)
  {
    if from + Length(v) == |items| && Takes(v, true) == need {
      if v.toFirst {
        SecondBeatsFirst(items, from, lead, need, w1, w2, v);
      } else {
        SecondBeatsSecond(items, from, lead, need, w2, v);
      }
    }
  }

  /** `SecondBeatsOther` against a deal that gives the item at `from` to the
      first thief. */
  lemma {:induction false} SecondBeatsFirst(items: seq<int>, from: nat, lead: int, need: int, w1: Choices, w2: Choices, v: Choices)
    requires from < |items|
    requires BestDeal(items, from + 1, lead + items[from], need - 1, w1)
    requires from + 1 + Length(w2) == |items|
    requires Abs(lead - items[from] + Balance(items, from + 1, w2)) < Abs(lead + items[from] + Balance(items, from + 1, w1))
    requires from + Length(v) == |items| && Takes(v, true) == need && v.Then? && v.toFirst
    ensures NoBetterThan(items, from, lead, need, Then(false, w2), v)
  {
    var x, u := items[from], v.rest;
    assert lead + Balance(items, from, Then(false, w2)) == lead - x + Balance(items, from + 1, w2);
    assert lead + Balance(items, from, v) == lead + x + Balance(items, from + 1, u);
    assert Before(v, Then(false, w2));
    BestDealBound(items, from + 1, lead + x, need - 1, w1, u);
  }

  /** `SecondBeatsOther` against a deal that also gives the item at `from`
      to the second thief. */
  lemma {:induction false} SecondBeatsSecond(items: seq<int>, from: nat, lead: int, need: int, w2: Choices, v: Choices)
    requires from < |items|
    requires BestDeal(items, from + 1, lead - items[from], need, w2)
    requires from + Length(v) == |items| && Takes(v, true) == need && v.Then? && !v.toFirst
    ensures NoBetterThan(items, from, lead, need, Then(false, w2), v)
  {
    var x, u := items[from], v.rest;
    assert lead + Balance(items, from, Then(false, w2)) == lead - x + Balance(items, from + 1, w2);
    assert lead + Balance(items, from, v) == lead - x + Balance(items, from + 1, u);
    assert Before(v, Then(false, w2)) == Before(u, w2);
    BestDealBound(items, from + 1, lead - x, need, w2, u);
  }

  /** The deal the recursive solvers settle on, built the way they build it:
      the item at `from` goes to the second thief when the first needs no
      more, to the first thief when every remaining item must go to the
      first, and otherwise to the first thief exactly when the best
      completion that way leaves a spread no larger than the best completion
      the other way. `BestDealOfIsBest` proves it is the best deal. */
  function BestDealOf(items: seq<int>, from: nat, lead: int, need: nat): (w: Choices)
    requires from <= |items| && need <= |items| - from
    decreases |items| - from
    ensures from + Length(w) == |items|
    ensures Takes(w, true) == need
  {
    if from == |items| then Done
    else if need == 0 then Then(false, BestDealOf(items, from + 1, lead - items[from], 0))
    else if need == |items| - from then Then(true, BestDealOf(items, from + 1, lead + items[from], need - 1))
    else
      var w1, w2 := BestDealOf(items, from + 1, lead + items[from], need - 1), BestDealOf(items, from + 1, lead - items[from], need);
      if Abs(lead + items[from] + Balance(items, from + 1, w1)) <= Abs(lead - items[from] + Balance(items, from + 1, w2))
      then Then(true, w1) else Then(false, w2)
  }

  /** One step of `BestDealOf` when the first thief needs no more items:
      the item at `from` goes to the second thief. `from1` names the next
      index and `lead2` the lead after the second thief takes the item. */
  lemma {:induction false} BestDealOfSecondOnly(items: seq<int>, from: nat, lead: int, from1: nat, lead2: int)
    requires from < |items| && from1 == from + 1 && lead2 == lead - items[from]
    ensures BestDealOf(items, from, lead, 0) == Then(false, BestDealOf(items, from1, lead2, 0))
  {
  }

  /** One step of `BestDealOf` when every item left must go to the first
      thief; `lead1` is the lead after the first thief takes the item at
      `from`, and `need1` what the first thief still needs then. */
  lemma {:induction false} BestDealOfFirstOnly(items: seq<int>, from: nat, lead: int, need: nat,
                                               from1: nat, lead1: int, need1: nat)
    requires 0 < need == |items| - from
    requires from1 == from + 1 && lead1 == lead + items[from] && need1 == need - 1
    ensures BestDealOf(items, from, lead, need) == Then(true, BestDealOf(items, from1, lead1, need1))
  {
  }

  /** One step of `BestDealOf` when the item at `from` may go to either
      thief and the first thief's branch leaves no larger spread: the item
      goes to the first thief, ties included. */
  lemma {:induction false} BestDealOfTakesFirst(items: seq<int>, from: nat, lead: int, need: nat,
                                                from1: nat, lead1: int, lead2: int, need1: nat)
    requires 0 < need < |items| - from
    requires from1 == from + 1 && lead1 == lead + items[from] && lead2 == lead - items[from] && need1 == need - 1
    requires Abs(lead1 + Balance(items, from1, BestDealOf(items, from1, lead1, need1)))
             <= Abs(lead2 + Balance(items, from1, BestDealOf(items, from1, lead2, need)))
    ensures BestDealOf(items, from, lead, need) == Then(true, BestDealOf(items, from1, lead1, need1))
  {
  }

  /** One step of `BestDealOf` when the item at `from` may go to either
      thief and the second thief's branch leaves a strictly smaller spread:
      the item goes to the second thief. */
  lemma {:induction false} BestDealOfTakesSecond(items: seq<int>, from: nat, lead: int, need: nat,
                                                 from1: nat, lead1: int, lead2: int, need1: nat)
    requires 0 < need < |items| - from
    requires from1 == from + 1 && lead1 == lead + items[from] && lead2 == lead - items[from] && need1 == need - 1
    requires Abs(lead1 + Balance(items, from1, BestDealOf(items, from1, lead1, need1)))
             > Abs(lead2 + Balance(items, from1, BestDealOf(items, from1, lead2, need)))
    ensures BestDealOf(items, from, lead, need) == Then(false, BestDealOf(items, from1, lead2, need))
  {
  }

  /** Trying the first thief before the second and keeping the smaller
      spread, the first thief's on a tie, finds the best deal. */
  lemma {:induction false} BestDealOfIsBest(items: seq<int>, from: nat, lead: int, need: nat)
    requires from <= |items| && need <= |items| - from
    decreases |items| - from, 1
    ensures BestDeal(items, from, lead, need, BestDealOf(items, from, lead, need))
  {
    if from == |items| {
      BestDealOfNothing(items, lead);
    } else if need == 0 {
      SecondOnlyIsBest(items, from, lead);
    } else if need == |items| - from {
      FirstOnlyIsBest(items, from, lead, need);
    } else {
      EitherIsBest(items, from, lead, need);
    }
  }

  /** `BestDealOfIsBest` when the first thief needs no more items. */
  lemma {:induction false} SecondOnlyIsBest(items: seq<int>, from: nat, lead: int)
    requires from < |items|
    decreases |items| - from, 0
    ensures BestDeal(items, from, lead, 0, BestDealOf(items, from, lead, 0))
  {
    var w2 := BestDealOf(items, from + 1, lead - items[from], 0);
    BestDealOfIsBest(items, from + 1, lead - items[from], 0);
    GiveSecondIsBest(items, from, lead, 0, w2, w2);
  }

  /** `BestDealOfIsBest` when every item left must go to the first thief. */
  lemma {:induction false} FirstOnlyIsBest(items: seq<int>, from: nat, lead: int, need: nat)
    requires 0 < need == |items| - from
    decreases |items| - from, 0
    ensures BestDeal(items, from, lead, need, BestDealOf(items, from, lead, need))
  {
    var w1 := BestDealOf(items, from + 1, lead + items[from], need - 1);
    BestDealOfIsBest(items, from + 1, lead + items[from], need - 1);
    GiveFirstIsBest(items, from, lead, need, w1, w1);
  }

  /** `BestDealOfIsBest` when the item at `from` may go to either thief. */
  lemma {:induction false} EitherIsBest(items: seq<int>, from: nat, lead: int, need: nat)
    requires 0 < need < |items| - from
    decreases |items| - from, 0
    ensures BestDeal(items, from, lead, need, BestDealOf(items, from, lead, need))
  {
    var x := items[from];
    var w1, w2 := BestDealOf(items, from + 1, lead + x, need - 1), BestDealOf(items, from + 1, lead - x, need);
    BestDealOfIsBest(items, from + 1, lead + x, need - 1);
    BestDealOfIsBest(items, from + 1, lead - x, need);
    if Abs(lead + x + Balance(items, from + 1, w1)) <= Abs(lead - x + Balance(items, from + 1, w2)) {
      GiveFirstIsBest(items, from, lead, need, w1, w2);
    } else {
      GiveSecondIsBest(items, from, lead, need, w1, w2);
    }
  }

  /** The best deal of an even number of items gives each thief half of
      them, shares out exactly the given items, and stores each thief's
      total as its value. */
  lemma {:induction false} BestDealHalves(items: seq<int>)
    requires |items| % 2 == 0
    ensures var s := Deal(items, BestDealOf(items, 0, 0, |items| / 2));
      && |s.first.items| == |items| / 2 && |s.second.items| == |items| / 2
      && multiset(s.first.items) + multiset(s.second.items) == multiset(items)
      && s.first.Consistent() && s.second.Consistent()
  {
    var w := BestDealOf(items, 0, 0, |items| / 2);
    TakesAddUp(w);
    DealPartition(items, w);
    assert items[..|items|] == items;
  }

  /** No deal that gives each thief half of the items leaves the values
      closer together than the best deal, and every deal listed before it
      leaves them strictly further apart. */
  lemma {:induction false} BestDealFairest(items: seq<int>, v: Choices)
    requires |items| % 2 == 0 && Length(v) == |items| && Takes(v, true) == |items| / 2
    ensures var w := BestDealOf(items, 0, 0, |items| / 2);
      && Spread(Deal(items, w)) <= Spread(Deal(items, v))
      && (Before(v, w) ==> Spread(Deal(items, w)) < Spread(Deal(items, v)))
  {
    var w := BestDealOf(items, 0, 0, |items| / 2);
    BestDealOfIsBest(items, 0, 0, |items| / 2);
    BestDealBound(items, 0, 0, |items| / 2, w, v);
    DealBalance(items, w);
    DealBalance(items, v);
  }
}
