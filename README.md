# Dividing the spoils fairly, with the same number of items for each thief

This project models `DivideSpoilsFairlyWithSameNumberOfItemsForEachThief`, a
solution to problem 17.6.6 of *Elements of Programming Interviews*. A list of
integer item values is split between two thieves. Each thief must get the
same number of items, and the difference between the two totals (the
*spread*) must be as small as possible. The object solves this three ways,
and all three are modelled:

- `computeWithRecursionAndBruteForce` is a recursion over the state (item
  index, the two running values, the two item counts). It is modelled as the
  pure function `BruteForce.Compute`.
- `computeWithRecursionAndMemoization` is the same recursion with a
  `MutableMap<Key, SpoilsSplit>` cache. It is modelled as the class
  `Memoization.MemoizedSolver`, whose method `Compute` updates a
  `map<Key, SpoilsSplit>` field. The data class `Key` (lines 93-95) is the
  datatype `Memoization.Key`, with the same five fields: the item index, the
  two running values and the two item counts.
- `computeBottomUpWithMemoization` fills a table with one row per item.
  Row 0 holds the two ways of giving away the first item and is not
  filtered. Every later row is the deduplicated, insertion-ordered set of
  splits of the items so far in which neither thief holds more than half of
  all the items. For two or more items row 0 passes that filter too, so the
  description holds for every row; for a single item it does not. It is
  modelled as the method `BottomUp.ComputeBottomUpWithMemoization`. The
  method fills an array of rows in a loop, and its loop invariant ties each
  row to the function `BottomUp.Row`.

Modules:

- `Split` holds the data model: `Spoils` with `add`, `SpoilsSplit` with
  `toList`, the outcome of a call, and the position that
  `sortedBy { … }.first()` selects.
- `Deals` describes a deal as one choice of thief per item, in index order.
  It defines the best deal and proves that `BestDealOf`, which tries the
  first thief before the second, finds it.
- `Collections` models Kotlin's `flatMap`, `filter` and `toSet`. `toSet`
  keeps the first occurrence of each element, in order.
- `Enumeration` lists every deal within the cap, in the order the bottom-up
  table generates them.
- `BruteForce`, `Memoization` and `BottomUp` model the three solvers.
- `Agreement` compares the three solvers.

A Kotlin exception is the outcome `NoSuchElement`. The only exception the
code can raise is `NoSuchElementException`, thrown by `first()` on an empty
list.

On an odd number of items the two recursive solvers throw for every input.
Every leaf of the recursion hits the count cap, the filtered list ends up
empty, and `first()` throws. The comment at lines 74-76 of
`DivideSpoilsFairlyWithSameNumberOfItemsForEachThief.kt` says
the filter always leaves one split; that holds only for an even number of
items. This model follows the code. The bottom-up solver throws for an odd
number of at least three items. For a single item it returns
`EqualSplit(Spoils(x), Spoils())`, because its first row is never filtered.

## Model

All source paths are in
`java/src/main/kotlin/com/lagostout/elementsofprogramminginterviews/dynamicprogramming/`,
written out in full in each row.

| member | source | states |
|---|---|---|
| Split.SpoilsSplit.ToList | java/src/main/kotlin/com/lagostout/elementsofprogramminginterviews/dynamicprogramming/DivideSpoilsFairlyWithSameNumberOfItemsForEachThief.kt:20-25 | `UnequalSplit` gives the empty list, and only it does; `EqualSplit` gives the first thief's spoils, then the second thief's |
| Split.Spoils.Add | java/src/main/kotlin/com/lagostout/elementsofprogramminginterviews/dynamicprogramming/DivideSpoilsFairlyWithSameNumberOfItemsForEachThief.kt:54-55 | adding an item keeps the stored value equal to the sum of the stored items |
| Split.SpoilsOf | java/src/main/kotlin/com/lagostout/elementsofprogramminginterviews/dynamicprogramming/DivideSpoilsFairlyWithSameNumberOfItemsForEachThief.kt:164-166 | `Spoils(x)` holds exactly the given items, and its value is their sum |
| Split.SpoilsOfAppend | java/src/main/kotlin/com/lagostout/elementsofprogramminginterviews/dynamicprogramming/DivideSpoilsFairlyWithSameNumberOfItemsForEachThief.kt:170-171 | adding an item to the spoils of some items gives the spoils of those items with the new item appended |
| Split.Cap | java/src/main/kotlin/com/lagostout/elementsofprogramminginterviews/dynamicprogramming/DivideSpoilsFairlyWithSameNumberOfItemsForEachThief.kt:43 | definition: `items.size / 2 + 1`, the item count at which a thief holds more than half of the items |
| Split.Spread | java/src/main/kotlin/com/lagostout/elementsofprogramminginterviews/dynamicprogramming/DivideSpoilsFairlyWithSameNumberOfItemsForEachThief.kt:180 | definition: the absolute difference of the two thieves' values |
| Split.FirstMinIndex | java/src/main/kotlin/com/lagostout/elementsofprogramminginterviews/dynamicprogramming/DivideSpoilsFairlyWithSameNumberOfItemsForEachThief.kt:80-85 | the stable `sortedBy` followed by `first()` picks a smallest score, and every earlier score is strictly larger |
| Split.FirstMinIndexUnique | java/src/main/kotlin/com/lagostout/elementsofprogramminginterviews/dynamicprogramming/DivideSpoilsFairlyWithSameNumberOfItemsForEachThief.kt:80-85 | exactly one position is the earliest smallest, so the selection is determined |
| Collections.FlatMap | java/src/main/kotlin/com/lagostout/elementsofprogramminginterviews/dynamicprogramming/DivideSpoilsFairlyWithSameNumberOfItemsForEachThief.kt:169-172 | definition: the lists the function gives for the elements, concatenated in order |
| Collections.Filter | java/src/main/kotlin/com/lagostout/elementsofprogramminginterviews/dynamicprogramming/DivideSpoilsFairlyWithSameNumberOfItemsForEachThief.kt:173-176 | definition: the elements that satisfy the predicate, in order |
| Collections.Dedup | java/src/main/kotlin/com/lagostout/elementsofprogramminginterviews/dynamicprogramming/DivideSpoilsFairlyWithSameNumberOfItemsForEachThief.kt:177 | definition: each element once, where it first occurs, as `toSet` keeps insertion order |
| BruteForce.FirstScore | java/src/main/kotlin/com/lagostout/elementsofprogramminginterviews/dynamicprogramming/DivideSpoilsFairlyWithSameNumberOfItemsForEachThief.kt:56-59 | definition: the first branch's score, the absolute difference of the values once the item goes to the first thief |
| BruteForce.SecondScore | java/src/main/kotlin/com/lagostout/elementsofprogramminginterviews/dynamicprogramming/DivideSpoilsFairlyWithSameNumberOfItemsForEachThief.kt:68-71 | definition: the second branch's score, the absolute difference of the values once the item goes to the second thief |
| BruteForce.Candidates | java/src/main/kotlin/com/lagostout/elementsofprogramminginterviews/dynamicprogramming/DivideSpoilsFairlyWithSameNumberOfItemsForEachThief.kt:73-79 | the filter keeps one candidate per branch that did not return `UnequalSplit`, and every candidate it keeps is an `EqualSplit` |
| BruteForce.Cheapest | java/src/main/kotlin/com/lagostout/elementsofprogramminginterviews/dynamicprogramming/DivideSpoilsFairlyWithSameNumberOfItemsForEachThief.kt:80-86 | `first()` throws exactly when no candidate is left; otherwise it returns a candidate with the least score, and every candidate before it has a strictly larger score |
| BruteForce.KeepCheaper | java/src/main/kotlin/com/lagostout/elementsofprogramminginterviews/dynamicprogramming/DivideSpoilsFairlyWithSameNumberOfItemsForEachThief.kt:73-86 | definition: the branch the pipeline keeps, by cases; `KeepCheaperIsCheapest` proves it equal to the pipeline |
| BruteForce.KeepCheaperIsCheapest | java/src/main/kotlin/com/lagostout/elementsofprogramminginterviews/dynamicprogramming/DivideSpoilsFairlyWithSameNumberOfItemsForEachThief.kt:73-86 | the filter-map-sort-first pipeline keeps the only branch left, or else the branch with the lower score; on a tie it keeps the first thief's branch |
| BruteForce.Compute | java/src/main/kotlin/com/lagostout/elementsofprogramminginterviews/dynamicprogramming/DivideSpoilsFairlyWithSameNumberOfItemsForEachThief.kt:41-45 | a call returns `UnequalSplit` if and only if a count has reached `size / 2 + 1`, and this check comes before the end-of-items check; past the last item with both counts under the cap it returns two empty spoils |
| BruteForce.BranchChoice | java/src/main/kotlin/com/lagostout/elementsofprogramminginterviews/dynamicprogramming/DivideSpoilsFairlyWithSameNumberOfItemsForEachThief.kt:46-86 | an uncapped call on an item throws when either recursive call throws; otherwise it returns the pipeline's choice between the two branches |
| BruteForce.ComputeThrowsWhenOdd | java/src/main/kotlin/com/lagostout/elementsofprogramminginterviews/dynamicprogramming/DivideSpoilsFairlyWithSameNumberOfItemsForEachThief.kt:73-86 | on an odd number of items, every state reachable from the top-level call ends in `first()` throwing |
| BruteForce.ScoresAreSpreads | java/src/main/kotlin/com/lagostout/elementsofprogramminginterviews/dynamicprogramming/DivideSpoilsFairlyWithSameNumberOfItemsForEachThief.kt:56-71 | each branch's score is the final spread of the split that branch would return |
| BruteForce.ComputeDealsBest | java/src/main/kotlin/com/lagostout/elementsofprogramminginterviews/dynamicprogramming/DivideSpoilsFairlyWithSameNumberOfItemsForEachThief.kt:36-89 | on an even number of items, from every reachable state, `compute` returns the split of the best deal of the remaining items |
| BruteForce.ComputeWithRecursionAndBruteForce | java/src/main/kotlin/com/lagostout/elementsofprogramminginterviews/dynamicprogramming/DivideSpoilsFairlyWithSameNumberOfItemsForEachThief.kt:34-91 | throws if and only if the number of items is odd; on an even number it returns the split of the best deal, with each thief's items listed from the last index back |
| BruteForce.BruteForceSplitsInHalves | java/src/main/kotlin/com/lagostout/elementsofprogramminginterviews/dynamicprogramming/DivideSpoilsFairlyWithSameNumberOfItemsForEachThief.kt:48-72 | on an even number of items, each thief gets exactly half of them; the two item lists together are a permutation of the input; each value is the sum of its items |
| BruteForce.BruteForceIsFairest | java/src/main/kotlin/com/lagostout/elementsofprogramminginterviews/dynamicprogramming/DivideSpoilsFairlyWithSameNumberOfItemsForEachThief.kt:73-86 | no split giving each thief half of the items has a smaller spread; every such deal that tries the first thief earlier has a strictly larger spread |
| Deals.BestDealOfIsBest | java/src/main/kotlin/com/lagostout/elementsofprogramminginterviews/dynamicprogramming/DivideSpoilsFairlyWithSameNumberOfItemsForEachThief.kt:48-86 | trying the first thief first and keeping the smaller spread, the first thief's on a tie, yields the deal with the least spread that comes first in that order |
| Deals.BestDealUnique | java/src/main/kotlin/com/lagostout/elementsofprogramminginterviews/dynamicprogramming/DivideSpoilsFairlyWithSameNumberOfItemsForEachThief.kt:80-85 | the stable tie-break leaves only one best deal |
| Deals.Give | java/src/main/kotlin/com/lagostout/elementsofprogramminginterviews/dynamicprogramming/DivideSpoilsFairlyWithSameNumberOfItemsForEachThief.kt:170-171 | definition: the split with the item appended to the chosen thief's spoils, the other thief's left as it was |
| Deals.DealReversedPicks | java/src/main/kotlin/com/lagostout/elementsofprogramminginterviews/dynamicprogramming/DivideSpoilsFairlyWithSameNumberOfItemsForEachThief.kt:49-67 | adding each item on the way back out of the recursion gives each thief its items in reverse index order, with their sum as its value |
| Deals.DealSnoc | java/src/main/kotlin/com/lagostout/elementsofprogramminginterviews/dynamicprogramming/DivideSpoilsFairlyWithSameNumberOfItemsForEachThief.kt:169-171 | extending a deal by one item adds that item to the chosen thief's spoils |
| Deals.BestDealHalves | java/src/main/kotlin/com/lagostout/elementsofprogramminginterviews/dynamicprogramming/DivideSpoilsFairlyWithSameNumberOfItemsForEachThief.kt:168-181 | the best deal of an even number of items gives each thief half of them and shares out exactly the input, with consistent values |
| Deals.BestDealFairest | java/src/main/kotlin/com/lagostout/elementsofprogramminginterviews/dynamicprogramming/DivideSpoilsFairlyWithSameNumberOfItemsForEachThief.kt:179-181 | no deal giving each thief half of the items has a smaller spread than the best deal; the deals before it have a strictly larger one |
| Memoization.MemoizedSolver.constructor | java/src/main/kotlin/com/lagostout/elementsofprogramminginterviews/dynamicprogramming/DivideSpoilsFairlyWithSameNumberOfItemsForEachThief.kt:98 | a run starts with an empty cache |
| Memoization.MemoizedSolver.Compute | java/src/main/kotlin/com/lagostout/elementsofprogramminginterviews/dynamicprogramming/DivideSpoilsFairlyWithSameNumberOfItemsForEachThief.kt:99-153 | returns what the uncached recursion returns; a hit leaves the cache unchanged; a computed result is stored under its key; no entry is ever changed; every entry stays correct |
| Memoization.ComputeWithRecursionAndMemoization | java/src/main/kotlin/com/lagostout/elementsofprogramminginterviews/dynamicprogramming/DivideSpoilsFairlyWithSameNumberOfItemsForEachThief.kt:97-155 | the memoized solver returns exactly what the brute-force solver returns, for every input |
| BottomUp.Children | java/src/main/kotlin/com/lagostout/elementsofprogramminginterviews/dynamicprogramming/DivideSpoilsFairlyWithSameNumberOfItemsForEachThief.kt:169-172 | definition: a split of the previous row with the item given to the first thief, then to the second |
| BottomUp.WithinCap | java/src/main/kotlin/com/lagostout/elementsofprogramminginterviews/dynamicprogramming/DivideSpoilsFairlyWithSameNumberOfItemsForEachThief.kt:173-176 | definition: both item counts are below `items.size / 2 + 1` |
| BottomUp.FirstRow | java/src/main/kotlin/com/lagostout/elementsofprogramminginterviews/dynamicprogramming/DivideSpoilsFairlyWithSameNumberOfItemsForEachThief.kt:164-166 | definition: the first item with the first thief, then with the second; not filtered |
| BottomUp.NextRow | java/src/main/kotlin/com/lagostout/elementsofprogramminginterviews/dynamicprogramming/DivideSpoilsFairlyWithSameNumberOfItemsForEachThief.kt:168-177 | definition: `flatMap` over the two children, then `filter` by the cap, then `toSet` |
| BottomUp.Row | java/src/main/kotlin/com/lagostout/elementsofprogramminginterviews/dynamicprogramming/DivideSpoilsFairlyWithSameNumberOfItemsForEachThief.kt:161-178 | definition: the table's row `index` once the loop has filled it |
| BottomUp.BottomUpResult | java/src/main/kotlin/com/lagostout/elementsofprogramminginterviews/dynamicprogramming/DivideSpoilsFairlyWithSameNumberOfItemsForEachThief.kt:158-183 | definition: the empty split for no items, otherwise the first fairest split of the last row |
| BottomUp.FirstFairest | java/src/main/kotlin/com/lagostout/elementsofprogramminginterviews/dynamicprogramming/DivideSpoilsFairlyWithSameNumberOfItemsForEachThief.kt:179-181 | `first()` throws if and only if the row is empty; otherwise it returns a split of the row with the least spread, and every split before it has a strictly larger spread |
| BottomUp.FairestSpread | java/src/main/kotlin/com/lagostout/elementsofprogramminginterviews/dynamicprogramming/DivideSpoilsFairlyWithSameNumberOfItemsForEachThief.kt:179-181 | the selected split is at least as fair as every split in the row, and strictly fairer than each split before it |
| BottomUp.FirstFairestDedup | java/src/main/kotlin/com/lagostout/elementsofprogramminginterviews/dynamicprogramming/DivideSpoilsFairlyWithSameNumberOfItemsForEachThief.kt:177-181 | removing duplicates with `toSet` does not change which split the stable sort puts first |
| BottomUp.ComputeBottomUpWithMemoization | java/src/main/kotlin/com/lagostout/elementsofprogramminginterviews/dynamicprogramming/DivideSpoilsFairlyWithSameNumberOfItemsForEachThief.kt:157-184 | the loop fills every row as `Row` describes it. No items give `EqualSplit()`; one item goes to the first thief; any other odd number throws; an even number gives the best deal's split, with items in index order |
| BottomUp.BottomUpCases | java/src/main/kotlin/com/lagostout/elementsofprogramminginterviews/dynamicprogramming/DivideSpoilsFairlyWithSameNumberOfItemsForEachThief.kt:158-181 | the result in each case: none, one, odd and at least three, or even number of items |
| BottomUp.FirstRowSplits | java/src/main/kotlin/com/lagostout/elementsofprogramminginterviews/dynamicprogramming/DivideSpoilsFairlyWithSameNumberOfItemsForEachThief.kt:164-167 | row 0 holds the splits of the two deals of the first item, first thief first |
| BottomUp.RowDeals | java/src/main/kotlin/com/lagostout/elementsofprogramminginterviews/dynamicprogramming/DivideSpoilsFairlyWithSameNumberOfItemsForEachThief.kt:161-178 | for two or more items, row `index` as a set is the set of splits of all deals of the first `index + 1` items within the cap |
| BottomUp.RowInvariant | java/src/main/kotlin/com/lagostout/elementsofprogramminginterviews/dynamicprogramming/DivideSpoilsFairlyWithSameNumberOfItemsForEachThief.kt:168-177 | for two or more items, every split in row `index` keeps both counts under the cap; between the two thieves it holds exactly the first `index + 1` items; its values are the sums of its items |
| BottomUp.RowComplete | java/src/main/kotlin/com/lagostout/elementsofprogramminginterviews/dynamicprogramming/DivideSpoilsFairlyWithSameNumberOfItemsForEachThief.kt:168-177 | the converse, for two or more items: every way of dealing the first `index + 1` items within the cap has its split in row `index` |
| BottomUp.RowSplitIsDealt | java/src/main/kotlin/com/lagostout/elementsofprogramminginterviews/dynamicprogramming/DivideSpoilsFairlyWithSameNumberOfItemsForEachThief.kt:168-177 | for two or more items, every split in row `index` comes from a deal of the first `index + 1` items within the cap |
| BottomUp.RowNoRepeats | java/src/main/kotlin/com/lagostout/elementsofprogramminginterviews/dynamicprogramming/DivideSpoilsFairlyWithSameNumberOfItemsForEachThief.kt:177 | no row holds the same split twice |
| BottomUp.NoDealsWhenOdd | java/src/main/kotlin/com/lagostout/elementsofprogramminginterviews/dynamicprogramming/DivideSpoilsFairlyWithSameNumberOfItemsForEachThief.kt:173-177 | on an odd number of items, at least three, the cap filter empties the last row |
| BottomUp.FairestDealIsBest | java/src/main/kotlin/com/lagostout/elementsofprogramminginterviews/dynamicprogramming/DivideSpoilsFairlyWithSameNumberOfItemsForEachThief.kt:179-181 | the first fairest split over all deals that give each thief half of the items is the best deal's split |
| BottomUp.BottomUpSplitsInHalves | java/src/main/kotlin/com/lagostout/elementsofprogramminginterviews/dynamicprogramming/DivideSpoilsFairlyWithSameNumberOfItemsForEachThief.kt:157-184 | on an even number of items, each thief gets exactly half of them; the two lists together are a permutation of the input; values are sums |
| BottomUp.BottomUpIsFairest | java/src/main/kotlin/com/lagostout/elementsofprogramminginterviews/dynamicprogramming/DivideSpoilsFairlyWithSameNumberOfItemsForEachThief.kt:179-181 | no split giving each thief half of the items has a smaller spread than the result; those before it in table order have a strictly larger one |
| Agreement.SolversAgree | java/src/main/kotlin/com/lagostout/elementsofprogramminginterviews/dynamicprogramming/DivideSpoilsFairlyWithSameNumberOfItemsForEachThief.kt:34-184 | on an even number of items, the recursive and bottom-up solvers pick the same split, each thief's list reversed, with equal values; on three or more odd items both throw; on one item only the bottom-up solver returns |

## Left out

- `Spoils` is defined in `DivideSpoilsFairly.kt`, which is not part of this model. It is modelled from its uses here as a list of items and a value, with `add` appending one item and adding its value. `add` is taken to return a new `Spoils` and to leave its receiver unchanged: if it updated the receiver in place, the two `copy` calls at lines 170-171 would share one `Spoils` between splits, and results already stored in the memoization cache could change afterwards. Its equality is taken to be structural, as for a Kotlin data class.
- Hashing and `toString` of `Spoils`, `SpoilsSplit` and `Key` are not modelled.
- `setOf`/`toSet` are modelled as order-keeping deduplication that keeps the first occurrence. The internals of `LinkedHashSet` are not modelled.
- `takeFrom` from `com.lagostout.common` is not part of this model. The bottom-up loop runs over the indices 1 to `size - 1`, which is what its use at line 168 implies.
- Kotlin's 32-bit `Int` arithmetic is not modelled. Item values, running values and counts are unbounded integers, so the model does not capture overflow of the running sums.
- The commented-out `println` at line 107 is not modelled.
- The strategy of running the solver `n - 1` times without one item, described in the comment at lines 29-32, is not modelled. The code does not implement it.
- Running time, stack depth and cache size are not modelled.
- BottomUp.ComputeBottomUpWithMemoization: its loop invariant describes only the rows filled so far. Rows not yet reached keep their initial empty value, and the invariant does not state this.
