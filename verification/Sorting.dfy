/** Sorting by a total preorder, and what makes a sorted sequence unique. */
module Sorting {

  ghost predicate TotalPreorder<T(!new)>(le: (T, T) -> bool) {
    && (forall x, y :: le(x, y) || le(y, x))
    && (forall x, y, z :: le(x, y) && le(y, z) ==> le(x, z))
  }

  ghost predicate SortedBy<T>(xs: seq<T>, le: (T, T) -> bool) {
    forall i, j :: 0 <= i < j < |xs| ==> le(xs[i], xs[j])
  }

  ghost predicate NoRepeats<T>(xs: seq<T>) {
    forall i, j :: 0 <= i < j < |xs| ==> xs[i] != xs[j]
  }

  function InsertBy<T>(x: T, xs: seq<T>, le: (T, T) -> bool): (r: seq<T>)
    ensures multiset(r) == multiset{x} + multiset(xs)
    ensures |r| == |xs| + 1
  {
    if xs == [] || le(x, xs[0]) then [x] + xs
    else
      assert xs == [xs[0]] + xs[1..];
      [xs[0]] + InsertBy(x, xs[1..], le)
  }

  /** A stable sort: elements that compare equal keep their order. */
  function SortBy<T>(xs: seq<T>, le: (T, T) -> bool): (r: seq<T>)
    ensures multiset(r) == multiset(xs)
    ensures |r| == |xs|
  {
    if xs == [] then []
    else
      assert xs == [xs[0]] + xs[1..];
      InsertBy(xs[0], SortBy(xs[1..], le), le)
  }

  lemma {:induction false} InsertSorts<T(!new)>(x: T, xs: seq<T>, le: (T, T) -> bool)
    requires TotalPreorder(le) && SortedBy(xs, le)
    ensures SortedBy(InsertBy(x, xs, le), le)
  {
    if xs == [] || le(x, xs[0]) {
    } else {
      InsertSorts(x, xs[1..], le);
      var rest := InsertBy(x, xs[1..], le);
      forall j | 0 <= j < |rest|
        ensures le(xs[0], rest[j])
      {
        assert rest[j] in multiset(rest);
      }
    }
  }

  lemma {:induction false} SortSorts<T(!new)>(xs: seq<T>, le: (T, T) -> bool)
    requires TotalPreorder(le)
    ensures SortedBy(SortBy(xs, le), le)
    ensures forall x :: x in SortBy(xs, le) <==> x in xs
  {
    if xs != [] {
      SortSorts(xs[1..], le);
      InsertSorts(xs[0], SortBy(xs[1..], le), le);
    }
    forall x
      ensures x in SortBy(xs, le) <==> x in xs
    {
      assert x in SortBy(xs, le) <==> x in multiset(SortBy(xs, le));
    }
  }

  /** Sorting changes nothing but the order: distinct elements stay distinct. */
  lemma {:induction false} SortKeepsDistinct<T(!new)>(xs: seq<T>, le: (T, T) -> bool)
    requires NoRepeats(xs)
    ensures NoRepeats(SortBy(xs, le))
  {
    var r := SortBy(xs, le);
    forall i, j | 0 <= i < j < |r|
      ensures r[i] != r[j]
    {
      DistinctCounts(xs, r[i]);
      if r[i] == r[j] {
        RepeatCounts(r, i, j);
      }
    }
  }

  lemma {:induction false} DistinctCounts<T>(xs: seq<T>, x: T)
    requires NoRepeats(xs)
    ensures multiset(xs)[x] <= 1
  {
    if xs != [] {
      DistinctCounts(xs[1..], x);
      assert xs == [xs[0]] + xs[1..];
      if x == xs[0] {
        assert x !in xs[1..];
      }
    }
  }

  lemma RepeatCounts<T>(xs: seq<T>, i: nat, j: nat)
    requires i < j < |xs| && xs[i] == xs[j]
    ensures multiset(xs)[xs[i]] >= 2
  {
    assert xs == xs[..j] + [xs[j]] + xs[j + 1..];
    assert xs[i] in xs[..j];
  }

  function Filter<T>(keep: T -> bool, xs: seq<T>): seq<T> {
    if xs == [] then []
    else if keep(xs[0]) then [xs[0]] + Filter(keep, xs[1..])
    else Filter(keep, xs[1..])
  }

  lemma {:induction false} FilterMembers<T(!new)>(keep: T -> bool, xs: seq<T>)
    ensures forall x :: x in Filter(keep, xs) <==> x in xs && keep(x)
  {
    if xs != [] {
      FilterMembers(keep, xs[1..]);
      assert xs == [xs[0]] + xs[1..];
    }
  }

  lemma {:induction false} FilterKeepsDistinct<T(!new)>(keep: T -> bool, xs: seq<T>)
    requires NoRepeats(xs)
    ensures NoRepeats(Filter(keep, xs))
  {
    if xs != [] {
      FilterKeepsDistinct(keep, xs[1..]);
      FilterMembers(keep, xs[1..]);
    }
  }

  function Take<T>(xs: seq<T>, n: nat): (r: seq<T>)
    ensures |r| == if |xs| <= n then |xs| else n
    ensures r <= xs
  {
    if |xs| <= n then xs else xs[..n]
  }

  /** A selection, sorted, cut off: a database query without ties on repeated rows. */
  function Query<T>(keep: T -> bool, xs: seq<T>, le: (T, T) -> bool): seq<T> {
    SortBy(Filter(keep, xs), le)
  }

  lemma {:induction false} QueryResult<T(!new)>(keep: T -> bool, xs: seq<T>, le: (T, T) -> bool)
    requires TotalPreorder(le) && NoRepeats(xs)
    ensures var r := Query(keep, xs, le);
            && SortedBy(r, le)
            && (forall x :: x in r <==> x in xs && keep(x))
            && NoRepeats(r)
  {
    FilterMembers(keep, xs);
    FilterKeepsDistinct(keep, xs);
    SortSorts(Filter(keep, xs), le);
    SortKeepsDistinct(Filter(keep, xs), le);
  }

  // ----- Order kept -----

  /** Strictly increasing positions in ys that carry xs. */
  ghost predicate Carries<T>(positions: seq<nat>, xs: seq<T>, ys: seq<T>) {
    && |positions| == |xs|
    && (forall i, j :: 0 <= i < j < |positions| ==> positions[i] < positions[j])
    && (forall i :: 0 <= i < |positions| ==> positions[i] < |ys| && ys[positions[i]] == xs[i])
  }

  ghost predicate InOrder<T>(xs: seq<T>, ys: seq<T>) {
    exists positions :: Carries(positions, xs, ys)
  }

  function Shifted(positions: seq<nat>, n: nat): (r: seq<nat>)
    ensures |r| == |positions| && forall i :: 0 <= i < |r| ==> r[i] == positions[i] + n
  {
    seq(|positions|, i requires 0 <= i < |positions| => positions[i] + n)
  }

  lemma {:induction false} InOrderConcat<T>(xs: seq<T>, ys: seq<T>, us: seq<T>, vs: seq<T>)
    requires InOrder(xs, ys) && InOrder(us, vs)
    ensures InOrder(xs + us, ys + vs)
  {
    var p :| Carries(p, xs, ys);
    var q :| Carries(q, us, vs);
    assert Carries(p + Shifted(q, |ys|), xs + us, ys + vs);
  }

  lemma {:induction false} InOrderSlice<T>(xs: seq<T>, ys: seq<T>, lo: nat, hi: nat)
    requires InOrder(xs, ys) && lo <= hi <= |xs|
    ensures InOrder(xs[lo..hi], ys)
  {
    var p :| Carries(p, xs, ys);
    assert Carries(p[lo..hi], xs[lo..hi], ys);
  }

  lemma {:induction false} EmptyInOrder<T>(ys: seq<T>)
    ensures InOrder([], ys)
  {
    assert Carries([], [], ys);
  }

  lemma {:induction false} InOrderCons<T>(first: T, xs: seq<T>, ys: seq<T>)
    requires InOrder(xs, ys)
    ensures InOrder(xs, [first] + ys) && InOrder([first] + xs, [first] + ys)
  {
    EmptyInOrder([first]);
    assert Carries([0], [first], [first]);
    InOrderConcat([], [first], xs, ys);
    InOrderConcat([first], [first], xs, ys);
    assert [] + xs == xs;
  }

  lemma {:induction false} OneInOrder<T>(x: T, kept: bool)
    ensures InOrder(if kept then [x] else [], [x])
  {
    EmptyInOrder([x]);
    assert Carries([0], [x], [x]);
  }
}
