/** The Kotlin collection operations the bottom-up solver chains: `flatMap`,
    `filter`, and `toSet`, whose set keeps the first occurrence of each
    element in the order the elements were met. All three are written from
    the back, the way the operations add elements one after another. */
module Collections {

  /** `flatMap`: the lists `f` gives for the elements, concatenated in order. */
  function FlatMap<T, U>(f: T -> seq<U>, s: seq<T>): seq<U>
  {
    if s == [] then [] else FlatMap(f, s[..|s| - 1]) + f(s[|s| - 1])
  }

  /** `filter`: the elements satisfying `p`, in order. */
  function Filter<T>(p: T -> bool, s: seq<T>): seq<T>
  {
    if s == [] then [] else Filter(p, s[..|s| - 1]) + (if p(s[|s| - 1]) then [s[|s| - 1]] else [])
  }

  /** `toSet`: each element once, where it first occurs. */
  function Dedup<T(==)>(s: seq<T>): seq<T>
  {
    if s == [] then []
    else
      var d := Dedup(s[..|s| - 1]);
      if s[|s| - 1] in d then d else d + [s[|s| - 1]]
  }

  /** `filter` keeps exactly the elements that satisfy `p`. */
  lemma {:induction false} FilterMembers<T>(p: T -> bool, s: seq<T>)
    ensures forall y <- Filter(p, s) :: y in s && p(y)
    ensures forall y <- s :: p(y) ==> y in Filter(p, s)
  {
    if s != [] {
      var init, last := s[..|s| - 1], s[|s| - 1];
      assert s == init + [last];
      FilterMembers(p, init);
    }
  }

  /** `toSet` loses no element and adds none. */
  lemma {:induction false} DedupMembers<T>(s: seq<T>)
    ensures forall y <- Dedup(s) :: y in s
    ensures forall y <- s :: y in Dedup(s)
  {
    if s != [] {
      var init, last := s[..|s| - 1], s[|s| - 1];
      assert s == init + [last];
      DedupMembers(init);
    }
  }

  /** `toSet` holds each element once. */
  lemma {:induction false} DedupNoRepeats<T>(s: seq<T>)
    ensures forall i, j :: 0 <= i < j < |Dedup(s)| ==> Dedup(s)[i] != Dedup(s)[j]
  {
    if s != [] {
      var init := s[..|s| - 1];
      DedupNoRepeats(init);
    }
  }

  lemma {:induction false} FlatMapSnoc<T, U>(f: T -> seq<U>, s: seq<T>, x: T)
    ensures FlatMap(f, s + [x]) == FlatMap(f, s) + f(x)
  {
    assert (s + [x])[..|s|] == s;
  }

  /** What `f` gives for an element of `s` is in the flattened list. */
  lemma {:induction false} FlatMapHas<T, U>(f: T -> seq<U>, s: seq<T>, x: T, y: U)
    requires x in s && y in f(x)
    ensures y in FlatMap(f, s)
  {
    var last := s[|s| - 1];
    if x != last {
      assert x in s[..|s| - 1] by {
        var i :| 0 <= i < |s| && s[i] == x;
        assert s[..|s| - 1][i] == x;
      }
      FlatMapHas(f, s[..|s| - 1], x, y);
    }
  }

  /** Everything in the flattened list comes from some element of `s`. */
  lemma {:induction false} FlatMapFrom<T, U>(f: T -> seq<U>, s: seq<T>, y: U) returns (x: T)
    requires y in FlatMap(f, s)
    ensures x in s && y in f(x)
  {
    var init := s[..|s| - 1];
    if y in f(s[|s| - 1]) {
      x := s[|s| - 1];
    } else {
      x := FlatMapFrom(f, init, y);
      assert s == init + [s[|s| - 1]];
    }
  }

  lemma {:induction false} FilterAppend<T>(p: T -> bool, s: seq<T>, t: seq<T>)
    decreases |t|
    ensures Filter(p, s + t) == Filter(p, s) + Filter(p, t)
  {
    if t == [] {
      assert s + t == s;
    } else {
      var init := t[..|t| - 1];
      assert (s + t)[..|s + t| - 1] == s + init;
      FilterAppend(p, s, init);
    }
  }

  /** `filter` on a single element. */
  lemma FilterSingle<T>(p: T -> bool, x: T)
    ensures Filter(p, [x]) == if p(x) then [x] else []
  {
    assert [x][..0] == [];
  }

  /** `f` followed by `filter`, element by element. */
  function FilterEach<T, U>(p: U -> bool, f: T -> seq<U>): T -> seq<U>
  {
    x => Filter(p, f(x))
  }

  /** Filtering after `flatMap` is filtering each element's list. */
  lemma {:induction false} FilterFlatMap<T, U>(p: U -> bool, f: T -> seq<U>, s: seq<T>)
    ensures Filter(p, FlatMap(f, s)) == FlatMap(FilterEach(p, f), s)
  {
    if s != [] {
      var init := s[..|s| - 1];
      FilterFlatMap(p, f, init);
      FilterAppend(p, FlatMap(f, init), f(s[|s| - 1]));
    }
  }

  lemma {:induction false} DedupSnoc<T>(s: seq<T>, x: T)
    ensures Dedup(s + [x]) == if x in s then Dedup(s) else Dedup(s) + [x]
  {
    assert (s + [x])[..|s|] == s;
    DedupMembers(s);
  }

  /** Appending elements the list already holds leaves its set unchanged. */
  lemma {:induction false} DedupAbsorbs<T>(s: seq<T>, t: seq<T>)
    requires forall y :: y in t ==> y in s
    decreases |t|
    ensures Dedup(s + t) == Dedup(s)
  {
    if t == [] {
      assert s + t == s;
    } else {
      var init, last := t[..|t| - 1], t[|t| - 1];
      assert s + t == (s + init) + [last];
      DedupSnoc(s + init, last);
      DedupAbsorbs(s, init);
    }
  }

  /** The set built from `s + t` depends on `s` only through the set built
      from `s`. */
  lemma {:induction false} DedupAppend<T>(s: seq<T>, s': seq<T>, t: seq<T>)
    requires Dedup(s) == Dedup(s')
    decreases |t|
    ensures Dedup(s + t) == Dedup(s' + t)
  {
    if t == [] {
      assert s + t == s && s' + t == s';
    } else {
      var init, last := t[..|t| - 1], t[|t| - 1];
      assert s + t == (s + init) + [last];
      assert s' + t == (s' + init) + [last];
      DedupAppend(s, s', init);
      DedupSnoc(s + init, last);
      DedupSnoc(s' + init, last);
      DedupMembers(s + init);
      DedupMembers(s' + init);
      assert last in s + init <==> last in Dedup(s + init);
      assert last in s' + init <==> last in Dedup(s' + init);
    }
  }

  /** Building the set before a `flatMap` and again after it gives the same
      set as building it only after. */
  lemma {:induction false} DedupFlatMap<T, U>(f: T -> seq<U>, s: seq<T>)
    ensures Dedup(FlatMap(f, Dedup(s))) == Dedup(FlatMap(f, s))
  {
    if s != [] {
      var init, last := s[..|s| - 1], s[|s| - 1];
      assert s == init + [last];
      DedupFlatMap(f, init);
      DedupSnoc(init, last);
      FlatMapSnoc(f, init, last);
      if last in init {
        forall y | y in f(last)
          ensures y in FlatMap(f, init)
        {
          FlatMapHas(f, init, last, y);
        }
        DedupAbsorbs(FlatMap(f, init), f(last));
      } else {
        FlatMapSnoc(f, Dedup(init), last);
        DedupAppend(FlatMap(f, Dedup(init)), FlatMap(f, init), f(last));
      }
    }
  }

  /** A list without repeated elements is its own set. */
  lemma {:induction false} DedupDistinct<T>(s: seq<T>)
    requires forall i, j :: 0 <= i < j < |s| ==> s[i] != s[j]
    ensures Dedup(s) == s
  {
    if s != [] {
      var init, last := s[..|s| - 1], s[|s| - 1];
      assert last !in init;
      DedupDistinct(init);
    }
  }
}
