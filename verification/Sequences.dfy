/** Counting, filtering and minima over sequences. Every recursion peels the
    last element, so that each definition follows a log that grows by appending. */
module Sequences {

  datatype Option<+T> = None | Some(value: T) {
    function GetOr(default: T): T {
      match this
      case Some(v) => v
      case None => default
    }
  }

  function Front<T>(xs: seq<T>): seq<T>
    requires xs != []
  {
    xs[..|xs| - 1]
  }

  function Last<T>(xs: seq<T>): T
    requires xs != []
  {
    xs[|xs| - 1]
  }

  lemma Snoc<T>(xs: seq<T>, x: T)
    ensures xs + [x] != [] && Front(xs + [x]) == xs && Last(xs + [x]) == x
  {
  }

  function CountIf<T>(xs: seq<T>, p: T -> bool): nat {
    if xs == [] then 0 else CountIf(Front(xs), p) + if p(Last(xs)) then 1 else 0
  }

  function SumOf<T>(xs: seq<T>, f: T -> nat): nat {
    if xs == [] then 0 else SumOf(Front(xs), f) + f(Last(xs))
  }

  function Filter<T>(xs: seq<T>, p: T -> bool): seq<T> {
    if xs == [] then []
    else if p(Last(xs)) then Filter(Front(xs), p) + [Last(xs)]
    else Filter(Front(xs), p)
  }

  /** The least element: attained, and a lower bound. */
  function MinOf(ts: seq<int>): (m: int)
    requires ts != []
    ensures m in ts
    ensures forall t | t in ts :: m <= t
  {
    if |ts| == 1 then ts[0]
    else
      assert ts == Front(ts) + [Last(ts)];
      var m := MinOf(Front(ts));
      if Last(ts) < m then Last(ts) else m
  }

  lemma MinUnique(ts: seq<int>, m: int)
    requires m in ts && forall t | t in ts :: m <= t
    ensures MinOf(ts) == m
  {
  }

  lemma SplitAt<T>(xs: seq<T>, i: nat)
    requires i < |xs|
    ensures xs == xs[..i] + [xs[i]] + xs[i + 1..]
  {
  }

  lemma SplitInTwo<T>(xs: seq<T>, i: nat)
    requires i <= |xs|
    ensures xs == xs[..i] + xs[i..]
  {
  }

  ghost predicate Distinct<T>(xs: seq<T>) {
    forall i, j | 0 <= i < j < |xs| :: xs[i] != xs[j]
  }

  lemma CountIfSnoc<T>(xs: seq<T>, x: T, p: T -> bool)
    ensures CountIf(xs + [x], p) == CountIf(xs, p) + if p(x) then 1 else 0
  {
    Snoc(xs, x);
  }

  lemma {:induction false} CountIfConcat<T>(xs: seq<T>, ys: seq<T>, p: T -> bool)
    ensures CountIf(xs + ys, p) == CountIf(xs, p) + CountIf(ys, p)
  {
    if ys == [] {
      assert xs + ys == xs;
    } else {
      CountIfConcat(xs, Front(ys), p);
      assert xs + ys == (xs + Front(ys)) + [Last(ys)];
      CountIfSnoc(xs + Front(ys), Last(ys), p);
    }
  }

  lemma {:induction false} CountIfSame<T>(xs: seq<T>, p: T -> bool, q: T -> bool)
    requires forall x | x in xs :: p(x) == q(x)
    ensures CountIf(xs, p) == CountIf(xs, q)
  {
    if xs == [] {
    } else {
      CountIfSame(Front(xs), p, q);
    }
  }

  lemma {:induction false} CountIfMonotone<T>(xs: seq<T>, p: T -> bool, q: T -> bool)
    requires forall x | x in xs :: p(x) ==> q(x)
    ensures CountIf(xs, p) <= CountIf(xs, q)
  {
    if xs == [] {
    } else {
      CountIfMonotone(Front(xs), p, q);
    }
  }

  /** A sequence seen as a bag splits at any of its elements. */
  lemma SplitBag<T>(xs: seq<T>, i: nat)
    requires i < |xs|
    ensures multiset(xs[..i] + xs[i + 1..]) == multiset(xs) - multiset{xs[i]}
  {
    SplitAt(xs, i);
  }

  function BroughtForward<T>(xs: seq<T>, i: nat): seq<T>
    requires i < |xs|
  {
    [xs[i]] + (xs[..i] + xs[i + 1..])
  }

  lemma ForwardBag<T>(xs: seq<T>, i: nat)
    requires i < |xs|
    ensures multiset(BroughtForward(xs, i)) == multiset(xs)
  {
    SplitBag(xs, i);
  }

  lemma CountIfInsert<T>(before: seq<T>, x: T, after: seq<T>, p: T -> bool)
    ensures CountIf(before + [x] + after, p) == CountIf(before + after, p) + if p(x) then 1 else 0
  {
    CountIfConcat(before + [x], after, p);
    CountIfSnoc(before, x, p);
    CountIfConcat(before, after, p);
  }

  lemma FrontBag<T>(xs: seq<T>)
    requires xs != []
    ensures multiset(Front(xs)) == multiset(xs) - multiset{Last(xs)}
  {
    assert xs == Front(xs) + [Last(xs)];
  }

  /** Where a reordering of `xs` puts its last element. */
  lemma PlaceOfLast<T>(xs: seq<T>, ys: seq<T>) returns (i: nat)
    requires xs != [] && multiset(xs) == multiset(ys)
    ensures i < |ys| && ys == ys[..i] + [Last(xs)] + ys[i + 1..]
    ensures multiset(Front(xs)) == multiset(ys[..i] + ys[i + 1..])
  {
    assert Last(xs) in multiset(ys);
    i :| 0 <= i < |ys| && ys[i] == Last(xs);
    FrontBag(xs);
    SplitBag(ys, i);
  }

  /** Counting does not see the order. */
  lemma {:induction false} CountIfBag<T>(xs: seq<T>, ys: seq<T>, p: T -> bool)
    requires multiset(xs) == multiset(ys)
    ensures CountIf(xs, p) == CountIf(ys, p)
    decreases |xs|
  {
    if xs == [] {
      assert |ys| == |multiset(ys)| == 0;
    } else {
      var i := PlaceOfLast(xs, ys);
      CountIfBag(Front(xs), ys[..i] + ys[i + 1..], p);
      CountIfInsert(ys[..i], Last(xs), ys[i + 1..], p);
    }
  }

  lemma SumOfSnoc<T>(xs: seq<T>, x: T, f: T -> nat)
    ensures SumOf(xs + [x], f) == SumOf(xs, f) + f(x)
  {
    Snoc(xs, x);
  }

  lemma {:induction false} SumOfConcat<T>(xs: seq<T>, ys: seq<T>, f: T -> nat)
    ensures SumOf(xs + ys, f) == SumOf(xs, f) + SumOf(ys, f)
  {
    if ys == [] {
      assert xs + ys == xs;
    } else {
      SumOfConcat(xs, Front(ys), f);
      assert xs + ys == (xs + Front(ys)) + [Last(ys)];
      SumOfSnoc(xs + Front(ys), Last(ys), f);
    }
  }

  /** Nor does summing. */
  lemma {:induction false} SumOfBag<T>(xs: seq<T>, ys: seq<T>, f: T -> nat)
    requires multiset(xs) == multiset(ys)
    ensures SumOf(xs, f) == SumOf(ys, f)
    decreases |xs|
  {
    if xs == [] {
      assert |ys| == |multiset(ys)| == 0;
    } else {
      var i := PlaceOfLast(xs, ys);
      SumOfBag(Front(xs), ys[..i] + ys[i + 1..], f);
      SumOfConcat(ys[..i], ys[i + 1..], f);
      SumOfConcat(ys[..i] + [Last(xs)], ys[i + 1..], f);
      SumOfSnoc(ys[..i], Last(xs), f);
    }
  }

  lemma FilterSnoc<T>(xs: seq<T>, x: T, p: T -> bool)
    ensures Filter(xs + [x], p) == if p(x) then Filter(xs, p) + [x] else Filter(xs, p)
  {
    Snoc(xs, x);
  }

  lemma {:induction false} FilterConcat<T>(xs: seq<T>, ys: seq<T>, p: T -> bool)
    ensures Filter(xs + ys, p) == Filter(xs, p) + Filter(ys, p)
  {
    if ys == [] {
      assert xs + ys == xs;
    } else {
      FilterConcat(xs, Front(ys), p);
      assert xs + ys == (xs + Front(ys)) + [Last(ys)];
      FilterSnoc(xs + Front(ys), Last(ys), p);
    }
  }

  /** Leaving out one element before filtering loses that element, if it passes. */
  lemma FilterInsert<T>(before: seq<T>, x: T, after: seq<T>, p: T -> bool)
    ensures multiset(Filter(before + [x] + after, p))
            == multiset(Filter(before + after, p)) + if p(x) then multiset{x} else multiset{}
  {
    FilterConcat(before + [x], after, p);
    FilterSnoc(before, x, p);
    FilterConcat(before, after, p);
  }

  /** Filtering keeps exactly the elements that pass, with their multiplicities. */
  lemma {:induction false} FilterBag<T>(xs: seq<T>, p: T -> bool, x: T)
    ensures multiset(Filter(xs, p))[x] == if p(x) then multiset(xs)[x] else 0
  {
    if xs == [] {
    } else {
      FilterBag(Front(xs), p, x);
      assert xs == Front(xs) + [Last(xs)];
    }
  }

  lemma FilterMembers<T>(xs: seq<T>, p: T -> bool, x: T)
    ensures x in Filter(xs, p) <==> x in xs && p(x)
  {
    FilterBag(xs, p, x);
    assert x in multiset(Filter(xs, p)) <==> x in Filter(xs, p);
    assert x in multiset(xs) <==> x in xs;
  }

  lemma {:induction false} FilterLength<T>(xs: seq<T>, p: T -> bool)
    ensures |Filter(xs, p)| == CountIf(xs, p)
  {
    if xs == [] {
    } else {
      FilterLength(Front(xs), p);
    }
  }

  lemma {:induction false} FilterSame<T>(xs: seq<T>, p: T -> bool, q: T -> bool)
    requires forall x | x in xs :: p(x) == q(x)
    ensures Filter(xs, p) == Filter(xs, q)
  {
    if xs == [] {
    } else {
      FilterSame(Front(xs), p, q);
    }
  }

  lemma FilterPermuted<T(!new)>(xs: seq<T>, ys: seq<T>, p: T -> bool)
    requires multiset(xs) == multiset(ys)
    ensures multiset(Filter(xs, p)) == multiset(Filter(ys, p))
  {
    forall x ensures multiset(Filter(xs, p))[x] == multiset(Filter(ys, p))[x] {
      FilterBag(xs, p, x);
      FilterBag(ys, p, x);
    }
  }

  lemma SameElements<T(!new)>(xs: seq<T>, ys: seq<T>)
    requires multiset(xs) == multiset(ys)
    ensures forall x :: x in xs <==> x in ys
  {
    forall x ensures x in xs <==> x in ys {
      assert x in xs <==> x in multiset(xs);
      assert x in ys <==> x in multiset(ys);
    }
  }

  // ---- Sorting by a key ----

  ghost predicate SortedBy<T>(xs: seq<T>, key: T -> int) {
    forall i, j | 0 <= i < j < |xs| :: key(xs[i]) <= key(xs[j])
  }

  function InsertBy<T>(sorted: seq<T>, x: T, key: T -> int): (r: seq<T>)
    ensures multiset(r) == multiset(sorted) + multiset{x}
  {
    if sorted == [] || key(x) >= key(Last(sorted)) then sorted + [x]
    else
      assert sorted == Front(sorted) + [Last(sorted)];
      InsertBy(Front(sorted), x, key) + [Last(sorted)]
  }

  lemma {:induction false} InsertBySorted<T>(sorted: seq<T>, x: T, key: T -> int)
    requires SortedBy(sorted, key)
    ensures SortedBy(InsertBy(sorted, x, key), key)
  {
    if sorted == [] || key(x) >= key(Last(sorted)) {
    } else {
      InsertBySorted(Front(sorted), x, key);
      var r := InsertBy(Front(sorted), x, key);
      forall y | y in r ensures key(y) <= key(Last(sorted)) {
        assert y in multiset(r);
        assert y == x || y in Front(sorted);
      }
    }
  }

  /** Stands for the standard library's sorts by key. */
  method SortBy<T>(xs: seq<T>, key: T -> int) returns (sorted: seq<T>)
    ensures SortedBy(sorted, key) && multiset(sorted) == multiset(xs)
  {
    sorted := [];
    for i := 0 to |xs|
      invariant SortedBy(sorted, key) && multiset(sorted) == multiset(xs[..i])
    {
      assert xs[..i + 1] == xs[..i] + [xs[i]];
      InsertBySorted(sorted, xs[i], key);
      sorted := InsertBy(sorted, xs[i], key);
    }
    assert xs[..|xs|] == xs;
  }
}
