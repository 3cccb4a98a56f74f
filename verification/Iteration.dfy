/** Repeated application and left folds, with the laws they inherit from one step. */
module Iteration {

  function Iterate<T>(f: T -> T, x: T, n: nat): T {
    if n == 0 then x else f(Iterate(f, x, n - 1))
  }

  lemma {:induction false} IterateAdditive<T(!new)>(f: T -> T, add: (T, T) -> T, a: T, b: T, n: nat)
    requires forall x, y {:trigger f(add(x, y))} :: f(add(x, y)) == add(f(x), f(y))
    ensures Iterate(f, add(a, b), n) == add(Iterate(f, a, n), Iterate(f, b, n))
  {
    if n == 0 {
    } else {
      IterateAdditive(f, add, a, b, n - 1);
    }
  }

  lemma {:induction false} IterateInjective<T(!new)>(f: T -> T, a: T, b: T, n: nat)
    requires forall x, y {:trigger f(x), f(y)} :: f(x) == f(y) ==> x == y
    requires Iterate(f, a, n) == Iterate(f, b, n)
    ensures a == b
  {
    if n == 0 {
    } else {
      IterateInjective(f, a, b, n - 1);
    }
  }

  lemma {:induction false} IterateAdd<T>(f: T -> T, a: T, m: nat, n: nat)
    ensures Iterate(f, a, m + n) == Iterate(f, Iterate(f, a, m), n)
  {
    if n == 0 {
    } else {
      IterateAdd(f, a, m, n - 1);
    }
  }

  function Fold<S, X>(f: (S, X) -> S, s: S, d: seq<X>): S {
    if d == [] then s else f(Fold(f, s, d[..|d| - 1]), d[|d| - 1])
  }

  lemma {:induction false} FoldConcat<S, X>(f: (S, X) -> S, s: S, d: seq<X>, e: seq<X>)
    ensures Fold(f, s, d + e) == Fold(f, Fold(f, s, d), e)
  {
    if e == [] {
      assert d + e == d;
    } else {
      assert (d + e)[..|d + e| - 1] == d + e[..|e| - 1];
      FoldConcat(f, s, d, e[..|e| - 1]);
    }
  }

  lemma {:induction false} FoldAgree<S(!new), X(!new)>(f: (S, X) -> S, g: (S, X) -> S, s: S, d: seq<X>)
    requires forall t, x {:trigger f(t, x)} :: f(t, x) == g(t, x)
    ensures Fold(f, s, d) == Fold(g, s, d)
  {
    if d == [] {
    } else {
      FoldAgree(f, g, s, d[..|d| - 1]);
    }
  }

  lemma {:induction false} FoldInjective<S(!new), X(!new)>(f: (S, X) -> S, s: S, t: S, d: seq<X>)
    requires forall a, b, x {:trigger f(a, x), f(b, x)} :: f(a, x) == f(b, x) ==> a == b
    requires Fold(f, s, d) == Fold(f, t, d)
    ensures s == t
  {
    if d == [] {
    } else {
      FoldInjective(f, s, t, d[..|d| - 1]);
    }
  }

  lemma FoldFour<S, X>(f: (S, X) -> S, s: S, d: seq<X>)
    requires |d| == 4
    ensures Fold(f, s, d) == f(f(f(f(s, d[0]), d[1]), d[2]), d[3])
  {
    assert d[..3][..2] == d[..2] && d[..2][..1] == d[..1] && d[..1][..0] == [];
    assert Fold(f, s, d[..1]) == f(s, d[0]);
    assert Fold(f, s, d[..2]) == f(Fold(f, s, d[..1]), d[1]);
    assert Fold(f, s, d[..3]) == f(Fold(f, s, d[..2]), d[2]);
  }
}
