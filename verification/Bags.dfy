/** Result sets as sequences, compared as multisets. */
module Bags {

  lemma SameBag<T>(a: multiset<T>, b: multiset<T>)
    requires forall x :: a[x] == b[x]
    ensures a == b
    decreases |a|
  {
  }

  /** The rows a predicate keeps, in order. */
  function Where<R>(rows: seq<R>, p: R -> bool): seq<R> {
    if rows == [] then []
    else
      var rest, r := Where(rows[..|rows| - 1], p), rows[|rows| - 1];
      if p(r) then rest + [r] else rest
  }

  lemma WhereSnoc<R>(rows: seq<R>, r: R, p: R -> bool)
    ensures |Where(rows + [r], p)| == |Where(rows, p)| + if p(r) then 1 else 0
  {
    assert (rows + [r])[..|rows|] == rows;
  }

  lemma {:induction false} WhereCount<R>(rows: seq<R>, p: R -> bool, r: R)
    ensures multiset(Where(rows, p))[r] == if p(r) then multiset(rows)[r] else 0
  {
    if rows != [] {
      WhereCount(rows[..|rows| - 1], p, r);
      assert rows == rows[..|rows| - 1] + [rows[|rows| - 1]];
    }
  }

  function Flatten<T>(xss: seq<seq<T>>): seq<T> {
    if xss == [] then [] else Flatten(xss[..|xss| - 1]) + xss[|xss| - 1]
  }

  lemma FlattenSnoc<T>(xss: seq<seq<T>>, xs: seq<T>)
    ensures Flatten(xss + [xs]) == Flatten(xss) + xs
  {
  }

  /** Flattening depends on each part only up to reordering, as far as the bag is concerned. */
  lemma {:induction false} FlattenBags<T>(xss: seq<seq<T>>, yss: seq<seq<T>>)
    requires |xss| == |yss|
    requires forall i :: 0 <= i < |xss| ==> multiset(xss[i]) == multiset(yss[i])
    ensures multiset(Flatten(xss)) == multiset(Flatten(yss))
  {
    if xss != [] {
      FlattenBags(xss[..|xss| - 1], yss[..|yss| - 1]);
    }
  }

  lemma SameMembers<T>(xs: seq<T>, ys: seq<T>)
    requires multiset(xs) == multiset(ys)
    ensures |xs| == |ys| && forall x :: x in xs <==> x in ys
  {
    assert |xs| == |multiset(xs)| == |multiset(ys)| == |ys|;
    forall x
      ensures x in xs <==> x in ys
    {
      assert x in xs <==> x in multiset(xs);
    }
  }

  function Mapped<S, T>(f: S -> T, xs: seq<S>): seq<T> {
    seq(|xs|, i requires 0 <= i < |xs| => f(xs[i]))
  }

  lemma OneLess<T>(a: multiset<T>, b: multiset<T>, x: T)
    requires a + multiset{x} == b + multiset{x}
    ensures a == b
  {
    forall y
      ensures a[y] == b[y]
    {
      assert (a + multiset{x})[y] == (b + multiset{x})[y];
    }
    SameBag(a, b);
  }

  function Without<T>(xs: seq<T>, k: nat): seq<T>
    requires k < |xs|
  {
    xs[..k] + xs[k + 1..]
  }

  lemma WithoutBag<T>(xs: seq<T>, k: nat)
    requires k < |xs|
    ensures multiset(xs) == multiset(Without(xs, k)) + multiset{xs[k]}
  {
    assert xs == xs[..k] + [xs[k]] + xs[k + 1..];
  }

  lemma MappedWithout<S, T>(f: S -> T, xs: seq<S>, k: nat)
    requires k < |xs|
    ensures multiset(Mapped(f, xs)) == multiset(Mapped(f, Without(xs, k))) + multiset{f(xs[k])}
  {
    WithoutBag(Mapped(f, xs), k);
    assert Mapped(f, Without(xs, k)) == Without(Mapped(f, xs), k);
  }

  /** Mapping rows one by one keeps equal bags equal. */
  lemma {:induction false} MappedBags<S, T>(f: S -> T, xs: seq<S>, ys: seq<S>)
    requires multiset(xs) == multiset(ys)
    ensures multiset(Mapped(f, xs)) == multiset(Mapped(f, ys))
    decreases |xs|
  {
    if xs == [] {
      assert |ys| == |multiset(ys)| == 0;
    } else {
      var x := xs[0];
      assert x in multiset(ys);
      var k :| 0 <= k < |ys| && ys[k] == x;
      WithoutBag(xs, 0);
      WithoutBag(ys, k);
      OneLess(multiset(Without(xs, 0)), multiset(Without(ys, k)), x);
      MappedBags(f, Without(xs, 0), Without(ys, k));
      MappedWithout(f, xs, 0);
      MappedWithout(f, ys, k);
    }
  }
}
