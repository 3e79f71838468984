/** The data model shared by the three solvers: one thief's spoils, the split
    between the two thieves, and the outcome of a solver call (a split, or the
    `NoSuchElementException` that Kotlin's `first()` raises on an empty list). */
module Split {

  /** Sum of a list of item values. */
  function Sum(s: seq<int>): int
  {
    if s == [] then 0 else s[0] + Sum(s[1..])
  }

  lemma {:induction false} SumAppend(s: seq<int>, t: seq<int>)
    ensures Sum(s + t) == Sum(s) + Sum(t)
  {
    if s == [] {
      assert s + t == t;
    } else {
      assert (s + t)[1..] == s[1..] + t;
      SumAppend(s[1..], t);
    }
  }

  function Reverse<T>(s: seq<T>): seq<T>
  {
    if s == [] then [] else Reverse(s[1..]) + [s[0]]
  }

  lemma {:induction false} ReverseKeepsItems(s: seq<int>)
    ensures |Reverse(s)| == |s|
    ensures multiset(Reverse(s)) == multiset(s)
    ensures Sum(Reverse(s)) == Sum(s)
  {
    if s != [] {
      ReverseKeepsItems(s[1..]);
      SumAppend(Reverse(s[1..]), [s[0]]);
      assert s == [s[0]] + s[1..];
    }
  }

  lemma {:induction false} ReverseCons<T>(x: T, s: seq<T>)
    ensures Reverse([x] + s) == Reverse(s) + [x]
  {
    assert ([x] + s)[1..] == s;
  }

  function Abs(x: int): nat
  {
    if x < 0 then -x else x
  }

  /** `items.size / 2 + 1`: a thief holding this many items holds more than
      half of them, so the counts can no longer end up equal. */
  function Cap(n: nat): nat
  {
    n / 2 + 1
  }

  /** What a thief holds: the items handed over so far, in the order `add`
      appended them, and their total value. */
  datatype Spoils = Spoils(items: seq<int>, value: int)
  {
    /** The stored value is the total of the stored items. */
    predicate Consistent()
    {
      value == Sum(items)
    }

    /** `add`: a new Spoils with `item` appended and its value added. */
    function Add(item: int): (r: Spoils)
      ensures Consistent() ==> r.Consistent()
    {
      SumAppend(items, [item]);
      Spoils(items + [item], value + item)
    }
  }

  /** `Spoils()`: nothing taken yet. */
  const NoSpoils := Spoils([], 0)

  /** `Spoils(x, ...)`: the spoils made of exactly these items. */
  function SpoilsOf(items: seq<int>): (r: Spoils)
    ensures r.items == items && r.Consistent()
  {
    Spoils(items, Sum(items))
  }

  lemma {:induction false} SpoilsOfAppend(items: seq<int>, item: int)
    ensures SpoilsOf(items).Add(item) == SpoilsOf(items + [item])
  {
    SumAppend(items, [item]);
  }

  /** The result of a solver: either no split with equal item counts was
      reachable from this state, or the two thieves' spoils. */
  datatype SpoilsSplit = UnequalSplit | EqualSplit(first: Spoils, second: Spoils)
  {
    /** `toList`: the spoils of the split, the first thief's first. */
    function ToList(): (r: seq<Spoils>)
      ensures UnequalSplit? <==> r == []
      ensures EqualSplit? ==> |r| == 2 && r[0] == first && r[1] == second
    {
      match this
      case UnequalSplit => []
      case EqualSplit(first, second) => [first, second]
    }
  }

  /** The elements of the bottom-up table, which only ever holds `EqualSplit`s. */
  type EqualSplitState = s: SpoilsSplit | s.EqualSplit? witness EqualSplit(NoSpoils, NoSpoils)

  /** How unfair a split is: the absolute difference of the two values. */
  function Spread(s: EqualSplitState): nat
  {
    Abs(s.first.value - s.second.value)
  }

  /** The outcome of calling a solver: the split it returns, or the
      `NoSuchElementException` thrown by `first()` on an empty list. */
  datatype Outcome = Returned(split: SpoilsSplit) | NoSuchElement

  /** The position `sortedBy { score }.first()` selects: `sortedBy` is a
      stable sort, so this is a smallest score, and the earliest of the
      smallest ones. */
  function FirstMinIndex(scores: seq<int>): (k: nat)
    requires |scores| > 0
    ensures k < |scores|
    ensures forall j :: 0 <= j < |scores| ==> scores[k] <= scores[j]
    ensures forall j :: 0 <= j < k ==> scores[k] < scores[j]
  {
    if |scores| == 1 then 0
    else
      var rest := 1 + FirstMinIndex(scores[1..]);
      if scores[0] <= scores[rest] then 0 else rest
  }

  /** The two properties of `FirstMinIndex` single out one position. */
  lemma {:induction false} FirstMinIndexUnique(scores: seq<int>, k: nat)
    requires k < |scores|
    requires forall j :: 0 <= j < |scores| ==> scores[k] <= scores[j]
    requires forall j :: 0 <= j < k ==> scores[k] < scores[j]
    ensures FirstMinIndex(scores) == k
  {
  }
}
