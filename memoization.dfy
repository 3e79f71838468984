/** `computeWithRecursionAndMemoization`: the brute-force recursion with a
    cache of results keyed by the full argument tuple of `compute`. */
module Memoization {
  import opened Split
  import opened BruteForce

  /** The arguments of one call of `compute`. */
  datatype Key = Key(itemIndex: nat, firstValue: int, secondValue: int, firstCount: nat, secondCount: nat)

  /** One run of `computeWithRecursionAndMemoization`: the items and the
      cache its local `compute` fills. */
  class MemoizedSolver {
    const items: seq<int>
    var cache: map<Key, SpoilsSplit>

    /** Every cached split is what the uncached recursion returns for its key. */
    ghost predicate Valid()
      reads this
    {
      forall k :: k in cache ==>
        k.itemIndex <= |items| &&
        BruteForce.Compute(items, k.itemIndex, k.firstValue, k.secondValue, k.firstCount, k.secondCount)
          == Returned(cache[k])
    }

    /** A fresh run starts with an empty cache. */
    constructor(items: seq<int>)
      ensures this.items == items && cache == map[]
      ensures Valid()
    {
      this.items := items;
      cache := map[];
    }

    /** The local `compute`. A cached key is answered from the cache and the
        cache is left alone; otherwise the result of the cap check, the
        end-of-items case or the two recursive branches is stored under the
        key before it is returned. An exception from `first()` leaves the
        key unstored and propagates. The cache only grows, and every call
        agrees with the uncached recursion. */
    method Compute(itemIndex: nat, firstValue: int, secondValue: int, firstCount: nat, secondCount: nat)
      returns (r: Outcome)
      requires Valid() && itemIndex <= |items|
      modifies this
      decreases |items| - itemIndex
      ensures Valid()
      ensures r == BruteForce.Compute(items, itemIndex, firstValue, secondValue, firstCount, secondCount)
      ensures forall k :: k in old(cache) ==> k in cache && cache[k] == old(cache)[k]
      ensures var key := Key(itemIndex, firstValue, secondValue, firstCount, secondCount);
        (key in old(cache) ==> cache == old(cache)) &&
        (r.Returned? ==> key in cache && cache[key] == r.split)
    {
      var key := Key(itemIndex, firstValue, secondValue, firstCount, secondCount);
      if key in cache {
        return Returned(cache[key]);
      }
      var result: SpoilsSplit;
      if firstCount >= Cap(|items|) || secondCount >= Cap(|items|) {
        result := UnequalSplit;
      } else if itemIndex > |items| - 1 {
        result := EqualSplit(NoSpoils, NoSpoils);
      } else {
        var item := items[itemIndex];
        var next, firstValue1, secondValue2, firstCount1, secondCount2 :=
          itemIndex + 1, firstValue + item, secondValue + item, firstCount + 1, secondCount + 1;
        ComputeStep(items, itemIndex, firstValue, secondValue, firstCount, secondCount,
                    next, firstValue1, secondValue2, firstCount1, secondCount2);
        var toFirst := Compute(next, firstValue1, secondValue, firstCount1, secondCount);
        if toFirst.NoSuchElement? {
          return NoSuchElement;
        }
        var toSecond := Compute(next, firstValue, secondValue2, firstCount, secondCount2);
        if toSecond.NoSuchElement? {
          return NoSuchElement;
        }
        var kept := KeepCheaper(item, firstValue, secondValue, toFirst.split, toSecond.split);
        if kept.NoSuchElement? {
          return NoSuchElement;
        }
        result := kept.split;
      }
      cache := cache[key := result];
      r := Returned(result);
    }
  }

  /** `computeWithRecursionAndMemoization`: a fresh cache, then `compute`
      from the first item with nothing handed out yet. It returns exactly
      what the brute-force solver returns, so it inherits that solver's
      properties: `BruteForceSplitsInHalves` and `BruteForceIsFairest`. */
  method ComputeWithRecursionAndMemoization(items: seq<int>) returns (r: Outcome)
    ensures r == ComputeWithRecursionAndBruteForce(items)
  {
    var solver := new MemoizedSolver(items);
    r := solver.Compute(0, 0, 0, 0, 0);
  }
}
