/** How the two recursive solvers and the bottom-up solver compare. They
    pick the same deal of an even number of items, but the recursive ones
    append each item on the way back out of the recursion, so each thief's
    items come out in the reverse order of the bottom-up solver's. On an
    odd number of items all of them throw, except that the bottom-up solver
    returns its unfiltered first row's first split for a single item. */
module Agreement {
  import opened Split
  import opened Deals
  import opened BruteForce
  import opened BottomUp

  lemma {:induction false} SolversAgree(items: seq<int>)
    ensures |items| % 2 == 0 ==>
      var recursive, bottomUp := ComputeWithRecursionAndBruteForce(items), BottomUpResult(items);
      && recursive.Returned? && bottomUp.Returned?
      && recursive.split.EqualSplit? && bottomUp.split.EqualSplit?
      && recursive.split.first.items == Reverse(bottomUp.split.first.items)
      && recursive.split.second.items == Reverse(bottomUp.split.second.items)
      && recursive.split.first.value == bottomUp.split.first.value
      && recursive.split.second.value == bottomUp.split.second.value
    ensures |items| % 2 == 1 && |items| >= 3 ==>
      ComputeWithRecursionAndBruteForce(items) == NoSuchElement && BottomUpResult(items) == NoSuchElement
    ensures |items| == 1 ==>
      ComputeWithRecursionAndBruteForce(items) == NoSuchElement
      && BottomUpResult(items) == Returned(EqualSplit(SpoilsOf(items), NoSpoils))
  {
    BottomUpCases(items);
    if |items| % 2 == 0 {
      DealReversedIsReversed(items, BestDealOf(items, 0, 0, |items| / 2));
    }
  }
}
