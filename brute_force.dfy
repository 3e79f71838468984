/** `computeWithRecursionAndBruteForce`: every item is tried with each thief in
    turn, and of the two completed splits the one with the smaller spread is
    kept. */
module BruteForce {
  import opened Split
  import opened Deals

  /** How far apart the values end up when the current item goes to the
      first thief on top of the split `s` the first branch returned: the
      first branch's score lambda. */
  function FirstScore(item: int, firstValue: int, secondValue: int, s: EqualSplitState): nat
  {
    Abs(firstValue + s.first.value + item - (secondValue + s.second.value))
  }

  /** The second branch's score lambda, computed from the second thief's side. */
  function SecondScore(item: int, firstValue: int, secondValue: int, s: EqualSplitState): nat
  {
    Abs(secondValue + s.second.value + item - (firstValue + s.first.value))
  }

  /** A branch of the recursion that did not hit the cap: the split it leads
      to once the current item is handed over, and its score. */
  datatype Candidate = Candidate(split: SpoilsSplit, score: nat)

  function Scores(cs: seq<Candidate>): (r: seq<int>)
    ensures |r| == |cs| && forall j :: 0 <= j < |cs| ==> r[j] == cs[j].score
  {
    if cs == [] then [] else [cs[0].score] + Scores(cs[1..])
  }

  /** The two branches after the `filter` that drops an `UnequalSplit` and the
      `map` that applies each branch's extend and score lambdas, the first
      thief's branch first. */
  function Candidates(item: int, firstValue: int, secondValue: int, toFirst: SpoilsSplit, toSecond: SpoilsSplit): (cs: seq<Candidate>)
    ensures |cs| == (if toFirst.EqualSplit? then 1 else 0) + (if toSecond.EqualSplit? then 1 else 0)
    ensures forall c <- cs :: c.split.EqualSplit?
  {
    (if toFirst.EqualSplit? then [Candidate(Give(toFirst, item, true), FirstScore(item, firstValue, secondValue, toFirst))]
     else [])
    +
    (if toSecond.EqualSplit? then [Candidate(Give(toSecond, item, false), SecondScore(item, firstValue, secondValue, toSecond))]
     else [])
  }

  /** `sortedBy { score }.first()` on the candidates, whose extend lambdas
      `Candidates` has already applied: `first()` throws on an empty list,
      and otherwise the stable sort puts first a candidate with the least
      score, the earliest of them. */
  function Cheapest(cs: seq<Candidate>): (r: Outcome)
    ensures cs == [] <==> r == NoSuchElement
    ensures r.Returned? ==>
              exists i :: 0 <= i < |cs| && r.split == cs[i].split
                && (forall j :: 0 <= j < |cs| ==> cs[i].score <= cs[j].score)
                && (forall j :: 0 <= j < i ==> cs[i].score < cs[j].score)
  {
    if cs == [] then NoSuchElement else Returned(cs[FirstMinIndex(Scores(cs))].split)
  }

  /** The branch the list pipeline keeps, by cases: none is left, only one is
      left, or the one with the smaller score, the first thief's branch when
      the scores are equal. `KeepCheaperIsCheapest` proves it equal to
      `Cheapest(Candidates(...))`. */
  function KeepCheaper(item: int, firstValue: int, secondValue: int, toFirst: SpoilsSplit, toSecond: SpoilsSplit): Outcome
  {
    if toFirst.UnequalSplit? && toSecond.UnequalSplit? then NoSuchElement
    else if toSecond.UnequalSplit? then Returned(Give(toFirst, item, true))
    else if toFirst.UnequalSplit? then Returned(Give(toSecond, item, false))
    else if FirstScore(item, firstValue, secondValue, toFirst) <= SecondScore(item, firstValue, secondValue, toSecond)
    then Returned(Give(toFirst, item, true))
    else Returned(Give(toSecond, item, false))
  }

  /** Filtering out `UnequalSplit`, scoring, sorting stably by score and
      taking the first element keeps the branch `KeepCheaper` names. */
  lemma {:induction false} KeepCheaperIsCheapest(item: int, firstValue: int, secondValue: int, toFirst: SpoilsSplit, toSecond: SpoilsSplit)
    ensures KeepCheaper(item, firstValue, secondValue, toFirst, toSecond)
              == Cheapest(Candidates(item, firstValue, secondValue, toFirst, toSecond))
  {
    var cs := Candidates(item, firstValue, secondValue, toFirst, toSecond);
    var scores := Scores(cs);
    if |cs| == 2 {
      if scores[0] <= scores[1] {
        FirstMinIndexUnique(scores, 0);
      } else {
        FirstMinIndexUnique(scores, 1);
      }
    } else if |cs| == 1 {
      FirstMinIndexUnique(scores, 0);
    }
  }

  /** The local `compute` of `computeWithRecursionAndBruteForce`. The cap
      check comes before the end-of-items check; a call that is not capped
      never returns `UnequalSplit` (`ComputeDealsBest` says what it returns
      instead). */
  function Compute(items: seq<int>, itemIndex: nat, firstValue: int, secondValue: int,
                   firstCount: nat, secondCount: nat): (r: Outcome)
    requires itemIndex <= |items|
    decreases |items| - itemIndex
    ensures r == Returned(UnequalSplit) <==> firstCount >= Cap(|items|) || secondCount >= Cap(|items|)
    ensures firstCount < Cap(|items|) && secondCount < Cap(|items|) && itemIndex == |items| ==>
              r == Returned(EqualSplit(NoSpoils, NoSpoils))
  {
    if firstCount >= Cap(|items|) || secondCount >= Cap(|items|) then Returned(UnequalSplit)
    else if itemIndex > |items| - 1 then Returned(EqualSplit(NoSpoils, NoSpoils))
    else
      var item := items[itemIndex];
      var toFirst := Compute(items, itemIndex + 1, firstValue + item, secondValue, firstCount + 1, secondCount);
      if toFirst.NoSuchElement? then NoSuchElement
      else
        var toSecond := Compute(items, itemIndex + 1, firstValue, secondValue + item, firstCount, secondCount + 1);
        if toSecond.NoSuchElement? then NoSuchElement
        else KeepCheaper(item, firstValue, secondValue, toFirst.split, toSecond.split)
  }

  /** One step of `compute` that is neither capped nor past the last item:
      if either recursive call throws, so does this one (the second call is
      not made when the first throws); otherwise the result is what the
      `filter`, `map`, `sortedBy` and `first()` pipeline over the two
      branches yields. */
  lemma {:induction false} BranchChoice(items: seq<int>, itemIndex: nat, firstValue: int, secondValue: int,
                     firstCount: nat, secondCount: nat)
    requires itemIndex < |items|
    requires firstCount < Cap(|items|) && secondCount < Cap(|items|)
    ensures
      var item := items[itemIndex];
      var toFirst := Compute(items, itemIndex + 1, firstValue + item, secondValue, firstCount + 1, secondCount);
      var toSecond := Compute(items, itemIndex + 1, firstValue, secondValue + item, firstCount, secondCount + 1);
      Compute(items, itemIndex, firstValue, secondValue, firstCount, secondCount)
        == if toFirst.NoSuchElement? || toSecond.NoSuchElement? then NoSuchElement
           else Cheapest(Candidates(item, firstValue, secondValue, toFirst.split, toSecond.split))
  {
    var item := items[itemIndex];
    var toFirst := Compute(items, itemIndex + 1, firstValue + item, secondValue, firstCount + 1, secondCount);
    var toSecond := Compute(items, itemIndex + 1, firstValue, secondValue + item, firstCount, secondCount + 1);
    if toFirst.Returned? && toSecond.Returned? {
      assert Compute(items, itemIndex, firstValue, secondValue, firstCount, secondCount)
          == KeepCheaper(item, firstValue, secondValue, toFirst.split, toSecond.split);
      KeepCheaperIsCheapest(item, firstValue, secondValue, toFirst.split, toSecond.split);
    }
  }

  /** On an odd number of items the thieves can never end up with equal
      counts: from every state the top-level call reaches, `compute` throws. */
  lemma {:induction false} ComputeThrowsWhenOdd(items: seq<int>, itemIndex: nat, firstValue: int, secondValue: int,
                                                firstCount: nat, secondCount: nat)
    requires |items| % 2 == 1 && itemIndex <= |items| && firstCount + secondCount == itemIndex
    requires firstCount < Cap(|items|) && secondCount < Cap(|items|)
    decreases |items| - itemIndex
    ensures Compute(items, itemIndex, firstValue, secondValue, firstCount, secondCount) == NoSuchElement
  {
    var item := items[itemIndex];
    if firstCount + 1 < Cap(|items|) {
      ComputeThrowsWhenOdd(items, itemIndex + 1, firstValue + item, secondValue, firstCount + 1, secondCount);
    } else if secondCount + 1 < Cap(|items|) {
      ComputeThrowsWhenOdd(items, itemIndex + 1, firstValue, secondValue + item, firstCount, secondCount + 1);
    }
  }

  /** One step of `compute` that is neither capped nor past the last item,
      with the arguments of the two recursive calls named: it throws when
      either call throws, and otherwise returns the branch `KeepCheaper`
      keeps. */
  lemma {:induction false} ComputeStep(items: seq<int>, itemIndex: nat, firstValue: int, secondValue: int,
                                       firstCount: nat, secondCount: nat,
                                       next: nat, firstValue1: int, secondValue2: int, firstCount1: nat, secondCount2: nat)
    requires itemIndex < |items| && firstCount < Cap(|items|) && secondCount < Cap(|items|)
    requires next == itemIndex + 1
    requires firstValue1 == firstValue + items[itemIndex] && secondValue2 == secondValue + items[itemIndex]
    requires firstCount1 == firstCount + 1 && secondCount2 == secondCount + 1
    ensures
      var toFirst := Compute(items, next, firstValue1, secondValue, firstCount1, secondCount);
      var toSecond := Compute(items, next, firstValue, secondValue2, firstCount, secondCount2);
      Compute(items, itemIndex, firstValue, secondValue, firstCount, secondCount)
        == if toFirst.NoSuchElement? || toSecond.NoSuchElement? then NoSuchElement
           else KeepCheaper(items[itemIndex], firstValue, secondValue, toFirst.split, toSecond.split)
  {
  }

  /** The score lambdas measure the spread the deal of the later items
      leaves once the current item is handed over: `lead1` and `lead2` are
      how far ahead the first thief is after taking the item or after the
      second thief takes it. */
  lemma {:induction false} ScoresAreSpreads(item: int, firstValue: int, secondValue: int, lead1: int, lead2: int,
                                            items: seq<int>, from: nat, w: Choices)
    requires from + Length(w) <= |items|
    requires lead1 == firstValue - secondValue + item && lead2 == firstValue - secondValue - item
    ensures FirstScore(item, firstValue, secondValue, DealReversed(items, from, w)) == Abs(lead1 + Balance(items, from, w))
    ensures SecondScore(item, firstValue, secondValue, DealReversed(items, from, w)) == Abs(lead2 + Balance(items, from, w))
  {
    DealReversedBalance(items, from, w);
  }

  /** From any state the top-level call can reach on an even number of items
      (the counts add up to the index and neither exceeds half), `compute`
      returns the split of the deal `BestDealOf` picks for the items from the
      index on, where `lead` is how far the first thief's value is ahead and
      `need` how many more items the first thief must take.
      `BestDealOfIsBest` shows that deal to be the best one: it leaves the
      final values closest, and of those it comes first when the first thief
      is tried before the second. The three kinds of step are proved by
      `BothOpenDealsBest`, `OnlyFirstDealsBest` and `OnlySecondDealsBest`. */
  lemma {:induction false} ComputeDealsBest(items: seq<int>, itemIndex: nat, firstValue: int, secondValue: int,
                                            firstCount: nat, secondCount: nat, lead: int, need: nat)
    requires |items| % 2 == 0 && itemIndex <= |items| && firstCount + secondCount == itemIndex
    requires firstCount <= |items| / 2 && secondCount <= |items| / 2
    requires lead == firstValue - secondValue && need == |items| / 2 - firstCount
    decreases |items| - itemIndex, 1
    ensures need <= |items| - itemIndex
    ensures Compute(items, itemIndex, firstValue, secondValue, firstCount, secondCount)
              == Returned(DealReversed(items, itemIndex, BestDealOf(items, itemIndex, lead, need)))
  {
    if itemIndex < |items| {
      if firstCount < |items| / 2 && secondCount < |items| / 2 {
        BothOpenDealsBest(items, itemIndex, firstValue, secondValue, firstCount, secondCount, lead, need);
      } else if firstCount < |items| / 2 {
        OnlyFirstDealsBest(items, itemIndex, firstValue, secondValue, firstCount, secondCount, lead, need);
      } else {
        OnlySecondDealsBest(items, itemIndex, firstValue, secondValue, firstCount, secondCount, lead, need);
      }
    }
  }

  /** A step where both thieves can still take the item: the branch whose
      best completion scores better wins, the first thief's on a tie. */
  lemma {:induction false} BothOpenDealsBest(items: seq<int>, itemIndex: nat, firstValue: int, secondValue: int,
                                             firstCount: nat, secondCount: nat, lead: int, need: nat)
    requires |items| % 2 == 0 && itemIndex < |items| && firstCount + secondCount == itemIndex
    requires firstCount < |items| / 2 && secondCount < |items| / 2
    requires lead == firstValue - secondValue && need == |items| / 2 - firstCount
    decreases |items| - itemIndex, 0
    ensures need <= |items| - itemIndex
    ensures Compute(items, itemIndex, firstValue, secondValue, firstCount, secondCount)
              == Returned(DealReversed(items, itemIndex, BestDealOf(items, itemIndex, lead, need)))
  {
    var item := items[itemIndex];
    var next, firstValue1, secondValue2, firstCount1, secondCount2 :=
      itemIndex + 1, firstValue + item, secondValue + item, firstCount + 1, secondCount + 1;
    var lead1, lead2, need1 := lead + item, lead - item, need - 1;
    ComputeDealsBest(items, next, firstValue1, secondValue, firstCount1, secondCount, lead1, need1);
    ComputeDealsBest(items, next, firstValue, secondValue2, firstCount, secondCount2, lead2, need);
    ComputeStep(items, itemIndex, firstValue, secondValue, firstCount, secondCount, next, firstValue1, secondValue2, firstCount1, secondCount2);
    KeepCheaperKeepsBest(items, itemIndex, firstValue, secondValue, lead, need, next, lead1, lead2, need1);
  }

  /** When the first thief's continuation is no worse, `KeepCheaper` gives
      the item to the first thief on top of that continuation's deal. */
  lemma {:induction false} KeepFirstDeal(items: seq<int>, itemIndex: nat, firstValue: int, secondValue: int,
                                         next: nat, lead1: int, lead2: int, w1: Choices, w2: Choices)
    requires itemIndex < |items| && next == itemIndex + 1
    requires next + Length(w1) <= |items| && next + Length(w2) <= |items|
    requires lead1 == firstValue - secondValue + items[itemIndex] && lead2 == firstValue - secondValue - items[itemIndex]
    requires Abs(lead1 + Balance(items, next, w1)) <= Abs(lead2 + Balance(items, next, w2))
    ensures KeepCheaper(items[itemIndex], firstValue, secondValue, DealReversed(items, next, w1), DealReversed(items, next, w2))
            == Returned(DealReversed(items, itemIndex, Then(true, w1)))
  {
    var item := items[itemIndex];
    ScoresAreSpreads(item, firstValue, secondValue, lead1, lead2, items, next, w1);
    ScoresAreSpreads(item, firstValue, secondValue, lead1, lead2, items, next, w2);
    DealReversedStep(items, itemIndex, next, true, w1);
  }

  /** When the second thief's continuation is strictly better, `KeepCheaper`
      gives the item to the second thief on top of that continuation's deal. */
  lemma {:induction false} KeepSecondDeal(items: seq<int>, itemIndex: nat, firstValue: int, secondValue: int,
                                          next: nat, lead1: int, lead2: int, w1: Choices, w2: Choices)
    requires itemIndex < |items| && next == itemIndex + 1
    requires next + Length(w1) <= |items| && next + Length(w2) <= |items|
    requires lead1 == firstValue - secondValue + items[itemIndex] && lead2 == firstValue - secondValue - items[itemIndex]
    requires Abs(lead1 + Balance(items, next, w1)) > Abs(lead2 + Balance(items, next, w2))
    ensures KeepCheaper(items[itemIndex], firstValue, secondValue, DealReversed(items, next, w1), DealReversed(items, next, w2))
            == Returned(DealReversed(items, itemIndex, Then(false, w2)))
  {
    var item := items[itemIndex];
    ScoresAreSpreads(item, firstValue, secondValue, lead1, lead2, items, next, w1);
    ScoresAreSpreads(item, firstValue, secondValue, lead1, lead2, items, next, w2);
    DealReversedStep(items, itemIndex, next, false, w2);
  }

  /** Both branches open: keeping the cheaper of the two best continuations
      is the best deal from `itemIndex` on. */
  lemma {:induction false} KeepCheaperKeepsBest(items: seq<int>, itemIndex: nat, firstValue: int, secondValue: int,
                                                lead: int, need: nat, next: nat, lead1: int, lead2: int, need1: nat)
    requires itemIndex < |items| && 0 < need < |items| - itemIndex
    requires lead == firstValue - secondValue && next == itemIndex + 1
    requires lead1 == lead + items[itemIndex] && lead2 == lead - items[itemIndex] && need1 == need - 1
    ensures
      var w1, w2 := BestDealOf(items, next, lead1, need1), BestDealOf(items, next, lead2, need);
      KeepCheaper(items[itemIndex], firstValue, secondValue, DealReversed(items, next, w1), DealReversed(items, next, w2))
        == Returned(DealReversed(items, itemIndex, BestDealOf(items, itemIndex, lead, need)))
  {
    var w1, w2 := BestDealOf(items, next, lead1, need1), BestDealOf(items, next, lead2, need);
    if Abs(lead1 + Balance(items, next, w1)) <= Abs(lead2 + Balance(items, next, w2)) {
      assert BestDealOf(items, itemIndex, lead, need) == Then(true, w1) by {
        BestDealOfTakesFirst(items, itemIndex, lead, need, next, lead1, lead2, need1);
      }
      KeepFirstDeal(items, itemIndex, firstValue, secondValue, next, lead1, lead2, w1, w2);
    } else {
      assert BestDealOf(items, itemIndex, lead, need) == Then(false, w2) by {
        BestDealOfTakesSecond(items, itemIndex, lead, need, next, lead1, lead2, need1);
      }
      KeepSecondDeal(items, itemIndex, firstValue, secondValue, next, lead1, lead2, w1, w2);
    }
  }

  lemma {:induction false} OnlyFirstDealsBest(items: seq<int>, itemIndex: nat, firstValue: int, secondValue: int,
                                              firstCount: nat, secondCount: nat, lead: int, need: nat)
    requires |items| % 2 == 0 && itemIndex < |items| && firstCount + secondCount == itemIndex
    requires firstCount < |items| / 2 && secondCount == |items| / 2
    requires lead == firstValue - secondValue && need == |items| / 2 - firstCount
    decreases |items| - itemIndex, 0
    ensures need <= |items| - itemIndex
    ensures Compute(items, itemIndex, firstValue, secondValue, firstCount, secondCount)
              == Returned(DealReversed(items, itemIndex, BestDealOf(items, itemIndex, lead, need)))
  {
    var item := items[itemIndex];
    var next, firstValue1, secondValue2, firstCount1, secondCount2 :=
      itemIndex + 1, firstValue + item, secondValue + item, firstCount + 1, secondCount + 1;
    var lead1, lead2, need1 := lead + item, lead - item, need - 1;
    ComputeDealsBest(items, next, firstValue1, secondValue, firstCount1, secondCount, lead1, need1);
    ComputeStep(items, itemIndex, firstValue, secondValue, firstCount, secondCount, next, firstValue1, secondValue2, firstCount1, secondCount2);
    BestDealOfFirstOnly(items, itemIndex, lead, need, next, lead1, need1);
    DealReversedStep(items, itemIndex, next, true, BestDealOf(items, next, lead1, need1));
  }

  /** A step where the first thief already holds half of the items, so the
      item goes to the second thief. */
  lemma {:induction false} OnlySecondDealsBest(items: seq<int>, itemIndex: nat, firstValue: int, secondValue: int,
                                               firstCount: nat, secondCount: nat, lead: int, need: nat)
    requires |items| % 2 == 0 && itemIndex < |items| && firstCount + secondCount == itemIndex
    requires firstCount == |items| / 2 && secondCount < |items| / 2
    requires lead == firstValue - secondValue && need == |items| / 2 - firstCount
    decreases |items| - itemIndex, 0
    ensures need <= |items| - itemIndex
    ensures Compute(items, itemIndex, firstValue, secondValue, firstCount, secondCount)
              == Returned(DealReversed(items, itemIndex, BestDealOf(items, itemIndex, lead, need)))
  {
    var item := items[itemIndex];
    var next, firstValue1, secondValue2, firstCount1, secondCount2 :=
      itemIndex + 1, firstValue + item, secondValue + item, firstCount + 1, secondCount + 1;
    var lead1, lead2, need1 := lead + item, lead - item, need - 1;
    ComputeDealsBest(items, next, firstValue, secondValue2, firstCount, secondCount2, lead2, need);
    ComputeStep(items, itemIndex, firstValue, secondValue, firstCount, secondCount, next, firstValue1, secondValue2, firstCount1, secondCount2);
    BestDealOfSecondOnly(items, itemIndex, lead, next, lead2);
    DealReversedStep(items, itemIndex, next, false, BestDealOf(items, next, lead2, need));
  }

  /** `computeWithRecursionAndBruteForce`: `compute` from the first item with
      nothing handed out yet. It throws on an odd number of items, and
      otherwise returns the split of the deal `BestDealOf` picks, each
      thief's items listed from the last index back to the first. */
  function ComputeWithRecursionAndBruteForce(items: seq<int>): (r: Outcome)
    ensures |items| % 2 == 1 <==> r == NoSuchElement
    ensures |items| % 2 == 0 ==> r == Returned(DealReversed(items, 0, BestDealOf(items, 0, 0, |items| / 2)))
  {
    if |items| % 2 == 1 then
      ComputeThrowsWhenOdd(items, 0, 0, 0, 0, 0);
      Compute(items, 0, 0, 0, 0, 0)
    else
      ComputeDealsBest(items, 0, 0, 0, 0, 0, 0, |items| / 2);
      Compute(items, 0, 0, 0, 0, 0)
  }

  /** On an even number of items the brute-force split gives each thief half
      of the items, shares out exactly the given items, and stores each
      thief's total as its value. */
  lemma {:induction false} BruteForceSplitsInHalves(items: seq<int>)
    requires |items| % 2 == 0
    ensures ComputeWithRecursionAndBruteForce(items).Returned?
    ensures var s := ComputeWithRecursionAndBruteForce(items).split;
      && s.EqualSplit?
      && |s.first.items| == |items| / 2 && |s.second.items| == |items| / 2
      && multiset(s.first.items) + multiset(s.second.items) == multiset(items)
      && s.first.Consistent() && s.second.Consistent()
  {
    var w := BestDealOf(items, 0, 0, |items| / 2);
    DealReversedPicks(items, 0, w);
    TakesAddUp(w);
    PickPartition(items, 0, w);
    assert items[0..] == items;
    ReverseKeepsItems(Pick(items, 0, w, true));
    ReverseKeepsItems(Pick(items, 0, w, false));
  }

  /** No way of dealing the items that gives each thief half of them leaves
      the two values closer together than the brute-force split, and every
      deal that tries the first thief earlier than it does leaves them
      strictly further apart: the smallest spread, the first thief's branch
      winning ties. */
  lemma {:induction false} BruteForceIsFairest(items: seq<int>, v: Choices)
    requires |items| % 2 == 0 && Length(v) == |items| && Takes(v, true) == |items| / 2
    ensures ComputeWithRecursionAndBruteForce(items).Returned?
    ensures var s := ComputeWithRecursionAndBruteForce(items).split;
      && s.EqualSplit?
      && Spread(s) <= Spread(DealReversed(items, 0, v))
      && (Before(v, BestDealOf(items, 0, 0, |items| / 2)) ==> Spread(s) < Spread(DealReversed(items, 0, v)))
  {
    var w := BestDealOf(items, 0, 0, |items| / 2);
    BestDealOfIsBest(items, 0, 0, |items| / 2);
    BestDealBound(items, 0, 0, |items| / 2, w, v);
    DealReversedBalance(items, 0, w);
    DealReversedBalance(items, 0, v);
  }
}
