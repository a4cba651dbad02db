/** Sorting by a total preorder (a sorted permutation, with ties in any order), distinct and
    left-out elements, and set sizes. */
module Collections {
  import opened Bytes

  ghost predicate Preorder<T(!new)>(le: (T, T) -> bool)
  {
    (forall a, b :: le(a, b) || le(b, a)) && (forall a, b, c :: le(a, b) && le(b, c) ==> le(a, c))
  }

  predicate Sorted<T(==)>(xs: seq<T>, le: (T, T) -> bool)
  {
    xs != [] ==> (forall y :: y in xs[1..] ==> le(xs[0], y)) && Sorted(xs[1..], le)
  }

  function Insert<T>(xs: seq<T>, x: T, le: (T, T) -> bool): seq<T>
  {
    if xs == [] || le(x, xs[0]) then [x] + xs else [xs[0]] + Insert(xs[1..], x, le)
  }

  lemma {:induction false} InsertPermutes<T>(xs: seq<T>, x: T, le: (T, T) -> bool)
    ensures multiset(Insert(xs, x, le)) == multiset(xs) + multiset{x}
  {
    if xs != [] {
      assert xs == [xs[0]] + xs[1..];
      InsertPermutes(xs[1..], x, le);
    }
  }

  lemma {:induction false} InsertSorted<T(!new)>(xs: seq<T>, x: T, le: (T, T) -> bool)
    requires Preorder(le) && Sorted(xs, le)
    ensures Sorted(Insert(xs, x, le), le)
  {
    var r := Insert(xs, x, le);
    if xs == [] || le(x, xs[0]) {
      assert r[1..] == xs;
      assert xs != [] ==> xs == [xs[0]] + xs[1..];
    } else {
      InsertSorted(xs[1..], x, le);
      InsertPermutes(xs[1..], x, le);
      assert r[1..] == Insert(xs[1..], x, le);
      forall y | y in r[1..]
        ensures le(xs[0], y)
      {
        assert y in multiset(r[1..]);
      }
    }
  }

  /** In a sorted list earlier elements come first in the order. */
  lemma {:induction false} SortedAt<T>(xs: seq<T>, le: (T, T) -> bool, i: nat, j: nat)
    requires Sorted(xs, le) && i < j < |xs|
    ensures le(xs[i], xs[j])
  {
    if i == 0 {
      assert xs[j] == xs[1..][j - 1];
    } else {
      SortedAt(xs[1..], le, i - 1, j - 1);
    }
  }

  method Sort<T(!new)>(xs: seq<T>, le: (T, T) -> bool) returns (r: seq<T>)
    requires Preorder(le)
    ensures Sorted(r, le) && multiset(r) == multiset(xs)
  {
    hide Preorder;
    r := [];
    for i := 0 to |xs|
      invariant Sorted(r, le) && multiset(r) == multiset(xs[..i])
    {
      assert xs[..i + 1] == xs[..i] + [xs[i]];
      InsertSorted(r, xs[i], le);
      InsertPermutes(r, xs[i], le);
      r := Insert(r, xs[i], le);
    }
    assert xs[..|xs|] == xs;
  }

  lemma {:induction false} SubsetSize<T>(a: set<T>, b: set<T>)
    requires a <= b
    ensures |a| <= |b|
  {
    if a != {} {
      var x :| x in a;
      SubsetSize(a - {x}, b - {x});
    }
  }

  predicate Distinct<T(==)>(xs: seq<T>)
  {
    forall i, j :: 0 <= i < j < |xs| ==> xs[i] != xs[j]
  }

  /** `ps` in front of what follows, if anything can be read there at all. */
  function Prepend<T>(ps: seq<T>, r: Option<seq<T>>): Option<seq<T>>
  {
    match r case None => None case Some(qs) => Some(ps + qs)
  }

  lemma PrependMore<T>(ps: seq<T>, qs: seq<T>, r: Option<seq<T>>)
    ensures Prepend([], r) == r
    ensures Prepend(ps, Prepend(qs, r)) == Prepend(ps + qs, r)
  {
    if r.Some? {
      assert [] + r.value == r.value;
      assert ps + (qs + r.value) == ps + qs + r.value;
    }
  }

  /** `a` is `b` with some elements left out. */
  ghost predicate Subsequence<T>(a: seq<T>, b: seq<T>)
  {
    || a == []
    || (b != [] && (Subsequence(a, b[..|b| - 1])
                    || (a[|a| - 1] == b[|b| - 1] && Subsequence(a[..|a| - 1], b[..|b| - 1]))))
  }

  lemma SubsequenceGrows<T>(a: seq<T>, b: seq<T>, x: T)
    requires Subsequence(a, b)
    ensures Subsequence(a, b + [x]) && Subsequence(a + [x], b + [x])
  {
    assert (b + [x])[..|b|] == b && (a + [x])[..|a|] == a;
  }
}
