/** Loops over a sequence as functions of the number of turns taken. */
module Folds {

  function Fold<S, E>(f: (S, E) -> S, s: S, es: seq<E>, n: nat): S
    requires n <= |es|
  {
    if n == 0 then s else f(Fold(f, s, es, n - 1), es[n - 1])
  }

  lemma {:induction false} FoldPrefix<S, E>(f: (S, E) -> S, s: S, es: seq<E>, more: seq<E>, n: nat)
    requires n <= |es|
    ensures Fold(f, s, es + more, n) == Fold(f, s, es, n)
  {
    if n > 0 {
      FoldPrefix(f, s, es, more, n - 1);
    }
  }

  lemma {:induction false} FoldAppend<S, E>(f: (S, E) -> S, s: S, es: seq<E>, more: seq<E>, n: nat)
    requires n <= |more|
    ensures Fold(f, s, es + more, |es| + n) == Fold(f, Fold(f, s, es, |es|), more, n)
  {
    if n == 0 {
      FoldPrefix(f, s, es, more, |es|);
    } else {
      FoldAppend(f, s, es, more, n - 1);
    }
  }

  /** What every turn keeps, the loop keeps. */
  lemma {:induction false} FoldKeeps<S(!new), E>(f: (S, E) -> S, p: S -> bool, s: S, es: seq<E>, n: nat)
    requires n <= |es| && p(s)
    requires forall a, x: S {:trigger f(x, es[a])} | 0 <= a < |es| && p(x) :: p(f(x, es[a]))
    ensures p(Fold(f, s, es, n))
  {
    if n > 0 {
      FoldKeeps(f, p, s, es, n - 1);
      assert p(f(Fold(f, s, es, n - 1), es[n - 1]));
    }
  }

  /** The same, for a property that depends on the number of turns. */
  lemma {:induction false} FoldTracks<S(!new), E>(f: (S, E) -> S, p: (nat, S) -> bool, s: S, es: seq<E>, n: nat)
    requires n <= |es| && p(0, s)
    requires forall a: nat, x: S {:trigger f(x, es[a])} | a < |es| && p(a, x) :: p(a + 1, f(x, es[a]))
    ensures p(n, Fold(f, s, es, n))
  {
    if n > 0 {
      FoldTracks(f, p, s, es, n - 1);
      assert p(n - 1 + 1, f(Fold(f, s, es, n - 1), es[n - 1]));
    }
  }
}
