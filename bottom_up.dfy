/** `computeBottomUpWithMemoization`: row `index` of the table holds the set
    of splits of the items up to `index` in which neither thief holds more
    than half of all the items; the answer is the split of the last row with
    the smallest spread. */
module BottomUp {
  import opened Split
  import opened Deals
  import opened Collections
  import opened Enumeration

  /** The two splits a split of the previous row leads to: the item appended
      to the first thief's spoils, or to the second thief's. They always
      differ in the first thief's item count, so the two-element `setOf` is
      this two-element list. */
  function Children(item: int): EqualSplitState -> seq<EqualSplitState>
  {
    (s: EqualSplitState) => [Give(s, item, true), Give(s, item, false)]
  }

  /** The `filter` of a new row: both item counts stay below the cap. */
  function WithinCap(n: nat): EqualSplitState -> bool
  {
    (s: EqualSplitState) => |s.first.items| < Cap(n) && |s.second.items| < Cap(n)
  }

  /** Row 0: the first item with either thief. It is not filtered. */
  function FirstRow(item: int): seq<EqualSplitState>
  {
    [EqualSplit(SpoilsOf([item]), NoSpoils), EqualSplit(NoSpoils, SpoilsOf([item]))]
  }

  /** Row `index` from row `index - 1`: `flatMap` over the two children,
      `filter` by the cap, `toSet`. */
  function NextRow(row: seq<EqualSplitState>, item: int, n: nat): seq<EqualSplitState>
  {
    Dedup(Filter(WithinCap(n), FlatMap(Children(item), row)))
  }

  /** The table's row `index` once the loop has filled it. */
  function Row(items: seq<int>, index: nat): seq<EqualSplitState>
    requires index < |items|
  {
    if index == 0 then FirstRow(items[0]) else NextRow(Row(items, index - 1), items[index], |items|)
  }

  function Spreads(row: seq<EqualSplitState>): (r: seq<int>)
    ensures |r| == |row| && forall j :: 0 <= j < |row| ==> r[j] == Spread(row[j])
  {
    if row == [] then [] else Spreads(row[..|row| - 1]) + [Spread(row[|row| - 1])]
  }

  /** `sortedBy { spread }.first()`: the split with the smallest spread, the
      earliest of them as the sort is stable; `first()` throws on an empty
      row. */
  function FirstFairest(row: seq<EqualSplitState>): (r: Outcome)
    ensures row == [] <==> r == NoSuchElement
    ensures r.Returned? ==>
              exists i :: 0 <= i < |row| && r.split == row[i]
                && (forall j :: 0 <= j < |row| ==> Spread(row[i]) <= Spread(row[j]))
                && (forall j :: 0 <= j < i ==> Spread(row[i]) < Spread(row[j]))
  {
    if row == [] then NoSuchElement else Returned(row[FirstMinIndex(Spreads(row))])
  }

  /** What `computeBottomUpWithMemoization` returns: the empty split for no
      items, and otherwise the first fairest split of the last row. */
  function BottomUpResult(items: seq<int>): Outcome
  {
    if items == [] then Returned(EqualSplit(NoSpoils, NoSpoils)) else FirstFairest(Row(items, |items| - 1))
  }

  /** `computeBottomUpWithMemoization`, with the table as an array of rows
      filled one row per item. The table's last row is the one its specification
      `BottomUpResult` reads, so the solver has the properties proved about
      it: no items give the empty split, one item goes to the first thief,
      any other odd number of items throws, and an even number of items
      gives the split of the best deal, each thief's items in index order. */
  method ComputeBottomUpWithMemoization(items: seq<int>) returns (r: Outcome)
    ensures r == BottomUpResult(items)
    ensures |items| == 0 ==> r == Returned(EqualSplit(NoSpoils, NoSpoils))
    ensures |items| == 1 ==> r == Returned(EqualSplit(SpoilsOf(items), NoSpoils))
    ensures |items| % 2 == 1 && |items| >= 3 ==> r == NoSuchElement
    ensures |items| % 2 == 0 ==> r == Returned(Deal(items, BestDealOf(items, 0, 0, |items| / 2)))
  {
    BottomUpCases(items);
    if |items| == 0 {
      r := Returned(EqualSplit(NoSpoils, NoSpoils));
    } else {
      var cache := new seq<EqualSplitState>[|items|](_ => []);
      cache[0] := FirstRow(items[0]);
      var index := 1;
      while index < |items|
        invariant 1 <= index <= |items|
        invariant forall j :: 0 <= j < index ==> cache[j] == Row(items, j)
      {
        var next := NextRow(cache[index - 1], items[index], |items|);
        assert next == Row(items, index);
        cache[index] := next;
        index := index + 1;
      }
      assert cache[index - 1] == Row(items, index - 1);
      r := FirstFairest(cache[index - 1]);
      LastRow(items, index);
    }
  }

  /** Once the loop has filled every row, the row it reads last is the one
      `BottomUpResult` reads. */
  lemma {:induction false} LastRow(items: seq<int>, index: nat)
    requires 0 < index == |items|
    ensures BottomUpResult(items) == FirstFairest(Row(items, index - 1))
  {
  }

  /** The splits the deals `ws` produce, in the same order. Every deal
      listed here fits the items; one that would not gives no split. */
  function DealAll(items: seq<int>, ws: seq<Choices>): (r: seq<EqualSplitState>)
    ensures |r| == |ws|
  {
    if ws == [] then []
    else
      var w := ws[|ws| - 1];
      DealAll(items, ws[..|ws| - 1]) + [if Length(w) <= |items| then Deal(items, w) else EqualSplit(NoSpoils, NoSpoils)]
  }

  /** The split at each position is the split of the deal at that position. */
  lemma {:induction false} DealAllAt(items: seq<int>, ws: seq<Choices>, i: nat)
    requires i < |ws| && Length(ws[i]) <= |items|
    ensures DealAll(items, ws)[i] == Deal(items, ws[i])
  {
    var init := ws[..|ws| - 1];
    if i < |init| {
      DealAllAt(items, init, i);
    }
  }

  lemma {:induction false} DealAllAppend(items: seq<int>, ws: seq<Choices>, vs: seq<Choices>)
    decreases |vs|
    ensures DealAll(items, ws + vs) == DealAll(items, ws) + DealAll(items, vs)
  {
    if vs == [] {
      assert ws + vs == ws;
    } else {
      var init := vs[..|vs| - 1];
      assert (ws + vs)[..|ws + vs| - 1] == ws + init;
      DealAllAppend(items, ws, init);
    }
  }

  /** Filtering deals by the cap and filtering their splits by the cap keep
      the same ones: a deal's split holds as many items for each thief as
      the deal gives that thief. */
  lemma {:induction false} DealAllFilter(items: seq<int>, ws: seq<Choices>, n: nat)
    requires forall i :: 0 <= i < |ws| ==> Length(ws[i]) <= |items|
    ensures DealAll(items, Filter(WithinCapDeals(n), ws)) == Filter(WithinCap(n), DealAll(items, ws))
  {
    if ws != [] {
      var init, last := ws[..|ws| - 1], ws[|ws| - 1];
      var kept := Filter(WithinCapDeals(n), [last]);
      assert Filter(WithinCapDeals(n), ws) == Filter(WithinCapDeals(n), init) + kept by {
        assert ws == init + [last];
        FilterAppend(WithinCapDeals(n), init, [last]);
      }
      DealAllFilter(items, init, n);
      DealAllAppend(items, Filter(WithinCapDeals(n), init), kept);
      DealAllFilterLast(items, last, n);
      FilterAppend(WithinCap(n), DealAll(items, init), [Deal(items, last)]);
    }
  }

  /** `DealAllFilter` for a single deal. */
  lemma {:induction false} DealAllFilterLast(items: seq<int>, w: Choices, n: nat)
    requires Length(w) <= |items|
    ensures DealAll(items, Filter(WithinCapDeals(n), [w])) == Filter(WithinCap(n), [Deal(items, w)])
  {
    FilterSingle(WithinCapDeals(n), w);
    FilterSingle(WithinCap(n), Deal(items, w));
    DealAllSingle(items, w);
  }

  lemma DealAllSingle(items: seq<int>, w: Choices)
    requires Length(w) <= |items|
    ensures DealAll(items, [w]) == [Deal(items, w)]
  {
    assert [w][..0] == [];
  }

  lemma {:induction false} DealAllSnoc(items: seq<int>, ws: seq<Choices>, w: Choices)
    requires Length(w) <= |items|
    ensures DealAll(items, ws + [w]) == DealAll(items, ws) + [Deal(items, w)]
  {
    assert (ws + [w])[..|ws|] == ws;
  }

  /** The splits of two deals, in order. */
  lemma DealAllPair(items: seq<int>, u: Choices, v: Choices)
    requires Length(u) <= |items| && Length(v) <= |items|
    ensures DealAll(items, [u, v]) == [Deal(items, u), Deal(items, v)]
  {
    assert [u, v][..1] == [u];
    assert [u][..0] == [];
  }

  /** The splits of a deal's two extensions are the split's two children. */
  lemma {:induction false} DealExtensions(items: seq<int>, w: Choices)
    requires Length(w) < |items|
    ensures DealAll(items, Extensions()(w)) == Children(items[Length(w)])(Deal(items, w))
  {
    var toFirst, toSecond := Snoc(w, true), Snoc(w, false);
    var d, item := Deal(items, w), items[Length(w)];
    assert Extensions()(w) == [toFirst, toSecond];
    DealAllPair(items, toFirst, toSecond);
    DealSnoc(items, w, true);
    DealSnoc(items, w, false);
  }

  /** Extending every deal both ways and taking the splits is taking the
      splits and appending the next item to either thief. */
  lemma {:induction false} DealAllExtend(items: seq<int>, ws: seq<Choices>, m: nat)
    requires m < |items| && forall i :: 0 <= i < |ws| ==> Length(ws[i]) == m
    ensures DealAll(items, FlatMap(Extensions(), ws)) == FlatMap(Children(items[m]), DealAll(items, ws))
  {
    if ws != [] {
      var init, last := ws[..|ws| - 1], ws[|ws| - 1];
      assert ws == init + [last];
      var extended := FlatMap(Extensions(), init);
      DealAllExtend(items, init, m);
      FlatMapSnoc(Extensions(), init, last);
      DealExtensions(items, last);
      DealAllAppend(items, extended, Extensions()(last));
      DealAllSnoc(items, init, last);
      FlatMapSnoc(Children(items[m]), DealAll(items, init), Deal(items, last));
    }
  }

  /** A list that `toSet` built is its own set. */
  lemma {:induction false} DedupTwice(s: seq<EqualSplitState>)
    ensures Dedup(Dedup(s)) == Dedup(s)
  {
    DedupNoRepeats(s);
    DedupDistinct(Dedup(s));
  }

  /** The deals of one item: to the first thief, or to the second. */
  lemma {:induction false} FirstDeals(n: nat)
    requires 2 <= n
    ensures DealsOfLength(1, n) == [Then(true, Done), Then(false, Done)]
  {
    assert DealsOfLength(1, n) == Filter(WithinCapDeals(n), FlatMap(Extensions(), [Done]));
    ExtendDone();
    KeepFirstDeals(n);
  }

  /** Extending the empty deal gives the two deals of one item. */
  lemma ExtendDone()
    ensures FlatMap(Extensions(), [Done]) == [Then(true, Done), Then(false, Done)]
  {
    assert Extensions()(Done) == [Then(true, Done), Then(false, Done)];
    FlatMapSnoc(Extensions(), [], Done);
    assert [] + [Done] == [Done];
  }

  /** With two items or more, one item is below the cap either way. */
  lemma KeepFirstDeals(n: nat)
    requires 2 <= n
    ensures Filter(WithinCapDeals(n), [Then(true, Done), Then(false, Done)]) == [Then(true, Done), Then(false, Done)]
  {
    var toFirst, toSecond := Then(true, Done), Then(false, Done);
    var within := WithinCapDeals(n);
    assert within(toFirst) && within(toSecond);
    assert Filter(within, [toFirst]) == [toFirst] by {
      assert [toFirst][..0] == [];
    }
    assert Filter(within, [toSecond]) == [toSecond] by {
      assert [toSecond][..0] == [];
    }
    FilterAppend(within, [toFirst], [toSecond]);
    assert [toFirst] + [toSecond] == [toFirst, toSecond];
  }

  /** Row 0 is the split of each deal of the first item. */
  lemma {:induction false} FirstRowSplits(items: seq<int>)
    requires 1 <= |items|
    ensures DealAll(items, [Then(true, Done), Then(false, Done)]) == FirstRow(items[0])
  {
    var toFirst, toSecond := Then(true, Done), Then(false, Done);
    assert DealAll(items, [toFirst, toSecond]) == [Deal(items, toFirst), Deal(items, toSecond)] by {
      assert [toFirst, toSecond][..1] == [toFirst];
      assert [toFirst][..0] == [];
    }
    assert Pick(items, 0, toFirst, true) == [items[0]];
    assert Pick(items, 0, toSecond, false) == [items[0]];
  }

  /** Row `index` holds, once each, the splits of the deals of the items up
      to `index` that keep both thieves below the cap, in the order those
      deals are listed. */
  ghost predicate RowIsDealt(items: seq<int>, index: nat)
    requires index < |items|
  {
    Dedup(Row(items, index)) == Dedup(DealAll(items, DealsOfLength(index + 1, |items|)))
  }

  lemma {:induction false} RowDeals(items: seq<int>, index: nat)
    requires 2 <= |items| && index < |items|
    ensures Dedup(Row(items, index)) == Dedup(DealAll(items, DealsOfLength(index + 1, |items|)))
  {
    RowDealsUpTo(items, index);
  }

  /** `RowDeals` by induction on `index`. */
  lemma {:induction false} RowDealsUpTo(items: seq<int>, index: nat)
    requires 2 <= |items| && index < |items|
    decreases index, 1
    ensures RowIsDealt(items, index)
  {
    if index == 0 {
      RowDealsFirst(items);
    } else {
      RowDealsAfter(items, index);
    }
  }

  /** The inductive case of `RowDealsUpTo`. */
  lemma {:induction false} RowDealsAfter(items: seq<int>, index: nat)
    requires 2 <= |items| && 0 < index < |items|
    decreases index, 0
    ensures RowIsDealt(items, index)
  {
    RowDealsUpTo(items, index - 1);
    RowDealsStep(items, index);
  }

  /** Row 0 is the split of each deal of the first item. */
  lemma {:induction false} RowDealsFirst(items: seq<int>)
    requires 2 <= |items|
    ensures RowIsDealt(items, 0)
  {
    var n := |items|;
    assert DealsOfLength(1, n) == [Then(true, Done), Then(false, Done)] by {
      FirstDeals(n);
    }
    FirstRowSplits(items);
    assert Row(items, 0) == FirstRow(items[0]);
  }

  /** One step of `RowDeals`: if row `index - 1` has the set of splits of
      the deals of the items before `index`, row `index` has the set of
      splits of the deals of one more item. */
  lemma {:induction false} RowDealsStep(items: seq<int>, index: nat)
    requires 0 < index < |items|
    requires RowIsDealt(items, index - 1)
    ensures RowIsDealt(items, index)
  {
    var n, item := |items|, items[index];
    var ws := DealsOfLength(index, n);
    NextRowSet(Row(items, index - 1), DealAll(items, ws), item, n);
    DealAllNext(items, ws, index);
    DealsUnfold(index, n);
  }

  /** The deals of `m + 1` items extend those of `m` items both ways. */
  lemma DealsUnfold(m: nat, n: nat)
    ensures DealsOfLength(m + 1, n) == Filter(WithinCapDeals(n), FlatMap(Extensions(), DealsOfLength(m, n)))
  {
  }

  /** The next row built from the splits of some deals is the splits of
      those deals extended both ways and filtered by the cap. */
  lemma {:induction false} DealAllNext(items: seq<int>, ws: seq<Choices>, index: nat)
    requires index < |items| && ws == DealsOfLength(index, |items|)
    ensures Filter(WithinCap(|items|), FlatMap(Children(items[index]), DealAll(items, ws)))
              == DealAll(items, Filter(WithinCapDeals(|items|), FlatMap(Extensions(), ws)))
  {
    var n := |items|;
    var extended := FlatMap(Extensions(), ws);
    assert forall i :: 0 <= i < |ws| ==> Length(ws[i]) == index by {
      DealsOfLengthValid(index, n);
    }
    DealAllExtend(items, ws, index);
    assert forall i :: 0 <= i < |extended| ==> Length(extended[i]) <= n by {
      ExtendLengths(ws, index);
    }
    DealAllFilter(items, extended, n);
  }

  /** The set a row gives the next row depends only on the row's set. */
  lemma {:induction false} NextRowSet(rows: seq<EqualSplitState>, splits: seq<EqualSplitState>, item: int, n: nat)
    requires Dedup(rows) == Dedup(splits)
    ensures Dedup(NextRow(rows, item, n)) == Dedup(Filter(WithinCap(n), FlatMap(Children(item), splits)))
  {
    var within, children := WithinCap(n), Children(item);
    var each := FilterEach(within, children);
    calc {
      Dedup(NextRow(rows, item, n));
      Dedup(Dedup(Filter(within, FlatMap(children, rows))));
      { DedupTwice(Filter(within, FlatMap(children, rows))); }
      Dedup(Filter(within, FlatMap(children, rows)));
      { FilterFlatMap(within, children, rows); }
      Dedup(FlatMap(each, rows));
      { DedupFlatMap(each, rows); }
      Dedup(FlatMap(each, Dedup(rows)));
      Dedup(FlatMap(each, Dedup(splits)));
      { DedupFlatMap(each, splits); }
      Dedup(FlatMap(each, splits));
      { FilterFlatMap(within, children, splits); }
      Dedup(Filter(within, FlatMap(children, splits)));
    }
  }

  function FairestIndex(row: seq<EqualSplitState>): (k: nat)
    requires row != []
    ensures k < |row|
  {
    FirstMinIndex(Spreads(row))
  }

  /** Appending a split to a row changes the first fairest split only when
      the new split is strictly fairer. */
  lemma {:induction false} FirstFairestSnoc(row: seq<EqualSplitState>, s: EqualSplitState)
    requires row != []
    ensures FirstFairest(row + [s])
              == if Spread(s) < Spread(row[FairestIndex(row)]) then Returned(s) else FirstFairest(row)
  {
    var k := FairestIndex(row);
    var spreads := Spreads(row + [s]);
    assert forall j :: 0 <= j < |row| ==> spreads[j] == Spreads(row)[j];
    if Spread(s) < Spread(row[k]) {
      FirstMinIndexUnique(spreads, |row|);
    } else {
      FirstMinIndexUnique(spreads, k);
    }
  }

  /** The first fairest split is at least as fair as every split of the row. */
  lemma {:induction false} FirstFairestIsFairest(row: seq<EqualSplitState>, s: EqualSplitState)
    requires s in row
    ensures Spread(row[FairestIndex(row)]) <= Spread(s)
  {
  }

  /** Building the set first does not change which split is the first
      fairest: a repeated split is never strictly fairer than its first
      occurrence. */
  lemma {:induction false} FirstFairestDedup(row: seq<EqualSplitState>)
    ensures FirstFairest(Dedup(row)) == FirstFairest(row)
  {
    if row != [] {
      var init, last := row[..|row| - 1], row[|row| - 1];
      assert row == init + [last];
      DedupSnoc(init, last);
      if init == [] {
        assert Dedup(init) == [];
        assert Dedup(row) == row;
      } else {
        FirstFairestDedup(init);
        DedupMembers(init);
        FirstFairestSnoc(init, last);
        if last in init {
          FirstFairestIsFairest(init, last);
        } else {
          FirstFairestSnoc(Dedup(init), last);
        }
      }
    }
  }

  /** The first fairest split of a row is at least as fair as every split of
      the row and strictly fairer than every split before it. */
  lemma {:induction false} FairestSpread(row: seq<EqualSplitState>, j: nat)
    requires row != [] && j < |row|
    ensures Spread(row[FairestIndex(row)]) <= Spread(row[j])
    ensures j < FairestIndex(row) ==> Spread(row[FairestIndex(row)]) < Spread(row[j])
  {
    var spreads := Spreads(row);
    assert spreads[j] == Spread(row[j]);
  }

  /** The spread of a deal's split is the size of its balance. */
  lemma {:induction false} DealAllSpread(items: seq<int>, ws: seq<Choices>, j: nat)
    requires j < |ws| && Length(ws[j]) <= |items|
    ensures Spread(DealAll(items, ws)[j]) == Abs(0 + Balance(items, 0, ws[j]))
  {
    DealAllAt(items, ws, j);
    DealBalance(items, ws[j]);
  }

  /** The deal behind the first fairest split leaves the values no further
      apart than any listed deal, and strictly closer than the deals listed
      before it. */
  lemma {:induction false} FairestBeatsLater(items: seq<int>, ws: seq<Choices>, k: nat, j: nat)
    requires ws != [] && k == FairestIndex(DealAll(items, ws)) && j < |ws|
    requires Length(ws[k]) <= |items| && Length(ws[j]) <= |items|
    ensures Abs(0 + Balance(items, 0, ws[k])) <= Abs(0 + Balance(items, 0, ws[j]))
    ensures j < k ==> Abs(0 + Balance(items, 0, ws[k])) < Abs(0 + Balance(items, 0, ws[j]))
  {
    FairestSpread(DealAll(items, ws), j);
    DealAllSpread(items, ws, k);
    DealAllSpread(items, ws, j);
  }

  /** A listed deal whose balance is no larger than any listed deal's, and
      strictly smaller than those of the deals listed before it, is a best
      deal: the listed deals are all the deals that give each thief half of
      the items, in order. */
  lemma {:induction false} LeastListedIsBest(items: seq<int>, ws: seq<Choices>, k: nat)
    requires |items| % 2 == 0 && 2 <= |items| && ws == DealsOfLength(|items|, |items|)
    requires k < |ws|
    requires forall j :: 0 <= j < |ws| ==> Length(ws[j]) == |items|
    requires forall j :: 0 <= j < |ws| ==>
      && Abs(0 + Balance(items, 0, ws[k])) <= Abs(0 + Balance(items, 0, ws[j]))
      && (j < k ==> Abs(0 + Balance(items, 0, ws[k])) < Abs(0 + Balance(items, 0, ws[j])))
    ensures BestDeal(items, 0, 0, |items| / 2, ws[k])
  {
    var n, u := |items|, ws[k];
    assert Takes(u, true) == n / 2 by {
      assert u in ws;
      DealsOfLengthValid(n, n);
      TakesAddUp(u);
    }
    forall v
      ensures NoBetterThan(items, 0, 0, n / 2, u, v)
    {
      if Length(v) == n && Takes(v, true) == n / 2 {
        assert v in ws by {
          TakesAddUp(v);
          DealsOfLengthComplete(n, n, v);
        }
        var j :| 0 <= j < |ws| && ws[j] == v;
        if Before(v, u) {
          assert j < k by {
            DealsOfLengthInOrder(n, n);
            if k < j {
              BeforeAsymmetric(ws[k], ws[j]);
            } else if k == j {
              BeforeIrreflexive(ws[k]);
            }
          }
        }
      }
    }
  }

  /** The first fairest split of the splits of all deals that give each
      thief half of an even number of items is the split of the best deal. */
  lemma {:induction false} FairestDealIsBest(items: seq<int>)
    requires |items| % 2 == 0 && 2 <= |items|
    ensures FirstFairest(DealAll(items, DealsOfLength(|items|, |items|)))
              == Returned(Deal(items, BestDealOf(items, 0, 0, |items| / 2)))
  {
    var n := |items|;
    var ws := DealsOfLength(n, n);
    assert forall j :: 0 <= j < |ws| ==> Length(ws[j]) == n by {
      DealsOfLengthValid(n, n);
    }
    var best := BestDealOf(items, 0, 0, n / 2);
    assert best in ws by {
      TakesAddUp(best);
      DealsOfLengthComplete(n, n, best);
    }
    var k := FairestIndex(DealAll(items, ws));
    forall j | 0 <= j < |ws|
      ensures Abs(0 + Balance(items, 0, ws[k])) <= Abs(0 + Balance(items, 0, ws[j]))
      ensures j < k ==> Abs(0 + Balance(items, 0, ws[k])) < Abs(0 + Balance(items, 0, ws[j]))
    {
      FairestBeatsLater(items, ws, k, j);
    }
    assert ws[k] == best by {
      LeastListedIsBest(items, ws, k);
      BestDealOfIsBest(items, 0, 0, n / 2);
      BestDealUnique(items, 0, 0, n / 2, ws[k], best);
    }
    DealAllAt(items, ws, k);
  }

  /** With an odd number of items no deal gives the thieves equal counts,
      so the last row is empty. */
  lemma {:induction false} NoDealsWhenOdd(items: seq<int>)
    requires |items| % 2 == 1 && 3 <= |items|
    ensures Row(items, |items| - 1) == []
  {
    var n := |items|;
    var ws := DealsOfLength(n, n);
    DealsOfLengthValid(n, n);
    if ws != [] {
      var w := ws[0];
      assert w in ws;
      TakesAddUp(w);
      assert false;
    }
    RowDeals(items, n - 1);
    var row := Row(items, n - 1);
    if row != [] {
      var s := row[0];
      assert s in row;
      DedupMembers(row);
      assert false;
    }
  }

  /** Every split in row `index` is the split of one of the deals the row
      stands for. */
  lemma {:induction false} RowSplitIsListed(items: seq<int>, index: nat, s: EqualSplitState)
    requires 2 <= |items| && index < |items| && s in Row(items, index)
    ensures s in DealAll(items, DealsOfLength(index + 1, |items|))
  {
    RowDeals(items, index);
    DedupMembers(Row(items, index));
    DedupMembers(DealAll(items, DealsOfLength(index + 1, |items|)));
  }

  /** The split of every deal the row stands for is in row `index`. */
  lemma {:induction false} ListedSplitIsInRow(items: seq<int>, index: nat, s: EqualSplitState)
    requires 2 <= |items| && index < |items| && s in DealAll(items, DealsOfLength(index + 1, |items|))
    ensures s in Row(items, index)
  {
    RowDeals(items, index);
    DedupMembers(Row(items, index));
    DedupMembers(DealAll(items, DealsOfLength(index + 1, |items|)));
  }

  /** Every split of row `index` is the split of a deal of the items up to
      `index` that keeps both thieves below the cap. */
  lemma {:induction false} RowSplitIsDealt(items: seq<int>, index: nat, s: EqualSplitState) returns (w: Choices)
    requires 2 <= |items| && index < |items| && s in Row(items, index)
    ensures Length(w) == index + 1 && DealWithinCap(|items|, w)
    ensures s == Deal(items, w)
  {
    RowSplitIsListed(items, index, s);
    w := ListedSplitIsDealt(items, index, s);
  }

  /** A split of one of the listed deals of the items up to `index` is the
      split of a deal of those items within the cap. */
  lemma {:induction false} ListedSplitIsDealt(items: seq<int>, index: nat, s: EqualSplitState) returns (w: Choices)
    requires index < |items| && s in DealAll(items, DealsOfLength(index + 1, |items|))
    ensures Length(w) == index + 1 && DealWithinCap(|items|, w)
    ensures s == Deal(items, w)
  {
    var ws := DealsOfLength(index + 1, |items|);
    var splits := DealAll(items, ws);
    var i :| 0 <= i < |splits| && splits[i] == s;
    w := ws[i];
    ListedDealAt(index, |items|, i);
    DealAllAt(items, ws, i);
  }

  /** Each listed deal of the items up to `index` has `index + 1` choices
      and keeps both thieves below the cap. */
  lemma {:induction false} ListedDealAt(index: nat, n: nat, i: nat)
    requires i < |DealsOfLength(index + 1, n)|
    ensures Length(DealsOfLength(index + 1, n)[i]) == index + 1
    ensures DealWithinCap(n, DealsOfLength(index + 1, n)[i])
  {
    var ws := DealsOfLength(index + 1, n);
    assert ws[i] in ws;
    DealsOfLengthValid(index + 1, n);
  }

  /** The table's invariant: every split of row `index` keeps both thieves
      below the cap, hands out exactly the items up to `index` between the
      two of them, and carries each thief's value as the sum of the items. */
  lemma {:induction false} RowInvariant(items: seq<int>, index: nat, s: EqualSplitState)
    requires 2 <= |items| && index < |items| && s in Row(items, index)
    ensures |s.first.items| < Cap(|items|) && |s.second.items| < Cap(|items|)
    ensures multiset(s.first.items) + multiset(s.second.items) == multiset(items[..index + 1])
    ensures s.first.Consistent() && s.second.Consistent()
  {
    var w := RowSplitIsDealt(items, index, s);
    DealPartition(items, w);
  }

  /** Conversely, the split of every deal of the items up to `index` that
      keeps both thieves below the cap is in row `index`. */
  lemma {:induction false} RowComplete(items: seq<int>, index: nat, w: Choices)
    requires 2 <= |items| && index < |items|
    requires Length(w) == index + 1 && DealWithinCap(|items|, w)
    ensures Deal(items, w) in Row(items, index)
  {
    DealIsListed(items, index, w);
    ListedSplitIsInRow(items, index, Deal(items, w));
  }

  /** The split of a deal of the items up to `index` within the cap is
      among the listed splits. */
  lemma {:induction false} DealIsListed(items: seq<int>, index: nat, w: Choices)
    requires index < |items| && Length(w) == index + 1 && DealWithinCap(|items|, w)
    ensures Deal(items, w) in DealAll(items, DealsOfLength(index + 1, |items|))
  {
    var ws := DealsOfLength(index + 1, |items|);
    DealsOfLengthComplete(index + 1, |items|, w);
    var i :| 0 <= i < |ws| && ws[i] == w;
    DealAllAt(items, ws, i);
  }

  /** `toSet` leaves no split twice in a row. */
  lemma {:induction false} RowNoRepeats(items: seq<int>, index: nat)
    requires index < |items|
    ensures forall i, j :: 0 <= i < j < |Row(items, index)| ==> Row(items, index)[i] != Row(items, index)[j]
  {
    if index > 0 {
      DedupNoRepeats(Filter(WithinCap(|items|), FlatMap(Children(items[index]), Row(items, index - 1))));
    }
  }

  /** The outcomes of `BottomUpResult` by the number of items. */
  lemma {:induction false} BottomUpCases(items: seq<int>)
    ensures |items| == 0 ==> BottomUpResult(items) == Returned(EqualSplit(NoSpoils, NoSpoils))
    ensures |items| == 1 ==> BottomUpResult(items) == Returned(EqualSplit(SpoilsOf(items), NoSpoils))
    ensures |items| % 2 == 1 && |items| >= 3 ==> BottomUpResult(items) == NoSuchElement
    ensures |items| % 2 == 0 ==> BottomUpResult(items) == Returned(Deal(items, BestDealOf(items, 0, 0, |items| / 2)))
  {
    var n := |items|;
    if n == 1 {
      var row := Row(items, 0);
      FirstMinIndexUnique(Spreads(row), 0);
      assert items == [items[0]];
    } else if n % 2 == 1 {
      NoDealsWhenOdd(items);
    } else if n > 0 {
      var row := Row(items, n - 1);
      RowDeals(items, n - 1);
      var splits := DealAll(items, DealsOfLength(n, n));
      FirstFairestDedup(row);
      FirstFairestDedup(splits);
      FairestDealIsBest(items);
    }
  }

  /** On an even number of items the bottom-up split gives each thief half
      of the items, shares out exactly the given items, and stores each
      thief's total as its value. */
  lemma {:induction false} BottomUpSplitsInHalves(items: seq<int>)
    requires |items| % 2 == 0
    ensures BottomUpResult(items).Returned?
    ensures var s := BottomUpResult(items).split;
      && s.EqualSplit?
      && |s.first.items| == |items| / 2 && |s.second.items| == |items| / 2
      && multiset(s.first.items) + multiset(s.second.items) == multiset(items)
      && s.first.Consistent() && s.second.Consistent()
  {
    assert BottomUpResult(items) == Returned(Deal(items, BestDealOf(items, 0, 0, |items| / 2))) by {
      BottomUpCases(items);
    }
    BestDealHalves(items);
  }

  /** No way of dealing the items that gives each thief half of them leaves
      the two values closer together than the bottom-up split, and every
      deal listed before it in the table's order leaves them strictly
      further apart. */
  lemma {:induction false} BottomUpIsFairest(items: seq<int>, v: Choices)
    requires |items| % 2 == 0 && Length(v) == |items| && Takes(v, true) == |items| / 2
    ensures BottomUpResult(items).Returned?
    ensures var s := BottomUpResult(items).split;
      && s.EqualSplit?
      && Spread(s) <= Spread(Deal(items, v))
      && (Before(v, BestDealOf(items, 0, 0, |items| / 2)) ==> Spread(s) < Spread(Deal(items, v)))
  {
    assert BottomUpResult(items) == Returned(Deal(items, BestDealOf(items, 0, 0, |items| / 2))) by {
      BottomUpCases(items);
    }
    BestDealFairest(items, v);
  }
}
