/** `Enumerable.OrderBy` (and `ThenBy`) as a stable insertion sort under a
    comparison `le` ("orders no later than"). */
module Sorting {
  import opened Text

  /** `le` relates every pair one way or the other and chains. */
  ghost predicate TotalPreorder<T(!new)>(le: (T, T) -> bool)
  {
    (forall a, b :: le(a, b) || le(b, a))
    && forall a, b, c :: le(a, b) && le(b, c) ==> le(a, c)
  }

  predicate SortedBy<T>(xs: seq<T>, le: (T, T) -> bool)
  {
    forall i, j | 0 <= i < j < |xs| :: le(xs[i], xs[j])
  }

  /** Puts `x` after every element that orders no later than it, which keeps
      equal elements in the order they arrived. */
  function InsertBy<T>(x: T, xs: seq<T>, le: (T, T) -> bool): (r: seq<T>)
    ensures multiset(r) == multiset(xs) + multiset{x}
  {
    if xs == [] || !le(xs[0], x) then [x] + xs
    else
      assert xs == [xs[0]] + xs[1..];
      [xs[0]] + InsertBy(x, xs[1..], le)
  }

  /** The elements of `xs` ordered by `le`, ties in their original order. */
  function SortBy<T>(xs: seq<T>, le: (T, T) -> bool): (r: seq<T>)
    ensures multiset(r) == multiset(xs)
  {
    if xs == [] then []
    else
      assert xs == xs[..|xs| - 1] + [xs[|xs| - 1]];
      InsertBy(xs[|xs| - 1], SortBy(xs[..|xs| - 1], le), le)
  }

  lemma {:induction false} InsertBySorted<T(!new)>(x: T, xs: seq<T>, le: (T, T) -> bool)
    requires TotalPreorder(le) && SortedBy(xs, le)
    ensures SortedBy(InsertBy(x, xs, le), le)
  {
    if xs == [] || !le(xs[0], x) {
      assert xs == [] || le(x, xs[0]);
    } else {
      var tail := InsertBy(x, xs[1..], le);
      InsertBySorted(x, xs[1..], le);
      var r := [xs[0]] + tail;
      forall j | 0 < j < |r|
        ensures le(xs[0], r[j])
      {
        assert r[j] in multiset(tail);
        assert r[j] in multiset(xs[1..]) + multiset{x};
        if r[j] != x {
          var k :| 0 <= k < |xs[1..]| && xs[1..][k] == r[j];
          assert xs[1..][k] == xs[k + 1];
        }
      }
    }
  }

  /** `SortBy` yields an ordered permutation of its input. */
  lemma {:induction false} SortBySorted<T(!new)>(xs: seq<T>, le: (T, T) -> bool)
    requires TotalPreorder(le)
    ensures SortedBy(SortBy(xs, le), le)
    ensures multiset(SortBy(xs, le)) == multiset(xs)
  {
    if xs != [] {
      SortBySorted(xs[..|xs| - 1], le);
      InsertBySorted(xs[|xs| - 1], SortBy(xs[..|xs| - 1], le), le);
    }
  }

  /** Two ordered arrangements of the same elements under an order that
      leaves no two different elements tied are the same sequence: the
      order alone decides the result. */
  lemma {:induction false} SortedUnique<T(!new)>(xs: seq<T>, ys: seq<T>, le: (T, T) -> bool)
    requires forall a, b :: le(a, b) && le(b, a) ==> a == b
    requires SortedBy(xs, le) && SortedBy(ys, le) && multiset(xs) == multiset(ys)
    ensures xs == ys
  {
    if xs != [] {
      assert ys[0] in multiset(xs) && xs[0] in multiset(ys);
      SortedFirst(xs, le, ys[0]);
      SortedFirst(ys, le, xs[0]);
      assert xs[0] == ys[0];
      MultisetTails(xs, ys);
      SortedTail(xs, le);
      SortedTail(ys, le);
      SortedUnique(xs[1..], ys[1..], le);
      assert xs == [xs[0]] + xs[1..] && ys == [ys[0]] + ys[1..];
    }
  }

  lemma MultisetTails<T>(xs: seq<T>, ys: seq<T>)
    requires xs != [] && ys != [] && xs[0] == ys[0] && multiset(xs) == multiset(ys)
    ensures multiset(xs[1..]) == multiset(ys[1..])
  {
    assert xs == [xs[0]] + xs[1..];
    assert ys == [ys[0]] + ys[1..];
    assert multiset(xs) == multiset{xs[0]} + multiset(xs[1..]);
    assert multiset(ys) == multiset{ys[0]} + multiset(ys[1..]);
    assert multiset(xs[1..]) == multiset(xs) - multiset{xs[0]};
    assert multiset(ys[1..]) == multiset(ys) - multiset{ys[0]};
  }

  lemma SortedFirst<T>(xs: seq<T>, le: (T, T) -> bool, y: T)
    requires SortedBy(xs, le) && y in xs
    ensures y == xs[0] || le(xs[0], y)
  {
    var i :| 0 <= i < |xs| && xs[i] == y;
    if i > 0 {
      assert le(xs[0], xs[i]);
    }
  }

  lemma SortedTail<T>(xs: seq<T>, le: (T, T) -> bool)
    requires SortedBy(xs, le) && xs != []
    ensures SortedBy(xs[1..], le)
  {
    forall i, j | 0 <= i < j < |xs| - 1
      ensures le(xs[1..][i], xs[1..][j])
    {
      assert xs[1..][i] == xs[i + 1] && xs[1..][j] == xs[j + 1];
    }
  }

  /** `xs.Select(f)`. */
  function Apply<A, B>(f: A -> B, xs: seq<A>): (r: seq<B>)
    ensures |r| == |xs| && forall i | 0 <= i < |xs| :: r[i] == f(xs[i])
  {
    seq(|xs|, i requires 0 <= i < |xs| => f(xs[i]))
  }

  /** Projecting two arrangements of the same elements gives two
      arrangements of the same projections. */
  lemma {:induction false} ApplyPermutation<A, B>(f: A -> B, xs: seq<A>, ys: seq<A>)
    requires multiset(xs) == multiset(ys)
    ensures multiset(Apply(f, xs)) == multiset(Apply(f, ys))
    decreases |xs|
  {
    if xs == [] {
      assert |ys| == |multiset(ys)| == 0;
      assert Apply(f, xs) == [] == Apply(f, ys);
    } else {
      var j := RemoveFirstMatching(xs, ys);
      var rest := ys[..j] + ys[j + 1..];
      ApplyPermutation(f, xs[1..], rest);
      ApplySplit(f, ys, j);
      ApplyCons(f, xs);
    }
  }

  /** Where the first element of `xs` sits in its rearrangement `ys`. */
  lemma RemoveFirstMatching<A>(xs: seq<A>, ys: seq<A>) returns (j: nat)
    requires multiset(xs) == multiset(ys) && xs != []
    ensures j < |ys| && ys[j] == xs[0]
    ensures multiset(xs[1..]) == multiset(ys[..j] + ys[j + 1..])
  {
    assert xs[0] in multiset(ys);
    assert xs[0] in ys;
    j :| 0 <= j < |ys| && ys[j] == xs[0];
    RemoveAt(ys, j);
    assert xs == [xs[0]] + xs[1..];
    assert multiset(xs) == multiset{xs[0]} + multiset(xs[1..]);
  }

  lemma RemoveAt<A>(ys: seq<A>, j: nat)
    requires j < |ys|
    ensures multiset(ys[..j] + ys[j + 1..]) == multiset(ys) - multiset{ys[j]}
  {
    assert ys == ys[..j] + [ys[j]] + ys[j + 1..];
  }

  lemma ApplyCons<A, B>(f: A -> B, xs: seq<A>)
    requires xs != []
    ensures multiset(Apply(f, xs)) == multiset(Apply(f, xs[1..])) + multiset{f(xs[0])}
  {
    assert Apply(f, xs) == [f(xs[0])] + Apply(f, xs[1..]);
  }

  lemma ApplySplit<A, B>(f: A -> B, ys: seq<A>, j: nat)
    requires j < |ys|
    ensures multiset(Apply(f, ys)) == multiset(Apply(f, ys[..j] + ys[j + 1..])) + multiset{f(ys[j])}
  {
    var rest := ys[..j] + ys[j + 1..];
    assert Apply(f, ys) == Apply(f, ys[..j]) + [f(ys[j])] + Apply(f, ys[j + 1..]);
    assert Apply(f, rest) == Apply(f, ys[..j]) + Apply(f, ys[j + 1..]);
  }

  /** Ordinal string order, the order used for paths. */
  function OrdinalOrder(): (string, string) -> bool
  {
    (a: string, b: string) => OrdinalLessOrEqual(a, b)
  }

  lemma OrdinalOrderTotal()
    ensures TotalPreorder(OrdinalOrder())
    ensures forall a, b :: OrdinalOrder()(a, b) && OrdinalOrder()(b, a) ==> a == b
  {
    forall a: string, b: string
      ensures OrdinalLessOrEqual(a, b) || OrdinalLessOrEqual(b, a)
    {
      OrdinalTotal(a, b);
    }
    forall a: string, b: string, c: string | OrdinalLessOrEqual(a, b) && OrdinalLessOrEqual(b, c)
      ensures OrdinalLessOrEqual(a, c)
    {
      OrdinalTransitive(a, b, c);
    }
    forall a: string, b: string | OrdinalLessOrEqual(a, b) && OrdinalLessOrEqual(b, a)
      ensures a == b
    {
      OrdinalAntisymmetric(a, b);
    }
  }

  /** The strings in ordinal order. */
  function SortOrdinal(xs: seq<string>): (r: seq<string>)
    ensures SortedBy(r, OrdinalOrder())
    ensures multiset(r) == multiset(xs)
  {
    OrdinalOrderTotal();
    SortBySorted(xs, OrdinalOrder());
    SortBy(xs, OrdinalOrder())
  }
}
