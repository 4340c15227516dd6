/** Repeated application and left folds over any type. The checksum proofs need
    these facts about a 32-bit register; stated here for every type, they never
    look inside it. */
module Iterate {
  function Iter<T>(f: T -> T, c: T, n: nat): T
    decreases n
  {
    if n == 0 then c else Iter(f, f(c), n - 1)
  }

  function Fold<S, T>(f: (S, T) -> S, c: S, data: seq<T>): S
    decreases |data|
  {
    if data == [] then c else Fold(f, f(c, data[0]), data[1..])
  }

  /** A ternary relation that f carries along, such as "the third is the sum of the first two". */
  ghost predicate Preserves<T(!new)>(f: T -> T, rel: (T, T, T) -> bool) {
    forall a, b, c :: rel(a, b, c) ==> rel(f(a), f(b), f(c))
  }

  ghost predicate Injective<T(!new)>(f: T -> T) {
    forall a, b :: f(a) == f(b) ==> a == b
  }

  lemma {:induction false} IterPreserves<T(!new)>(f: T -> T, rel: (T, T, T) -> bool, a: T, b: T, c: T, n: nat)
    requires Preserves(f, rel)
    requires rel(a, b, c)
    ensures rel(Iter(f, a, n), Iter(f, b, n), Iter(f, c, n))
    decreases n
  {
    if n == 0 {
    } else {
      IterPreserves(f, rel, f(a), f(b), f(c), n - 1);
    }
  }

  lemma {:induction false} IterInjective<T(!new)>(f: T -> T, a: T, b: T, n: nat)
    requires Injective(f)
    requires Iter(f, a, n) == Iter(f, b, n)
    ensures a == b
    decreases n
  {
    if n == 0 {
    } else {
      IterInjective(f, f(a), f(b), n - 1);
    }
  }

  lemma {:induction false} IterAdd<T>(f: T -> T, c: T, m: nat, n: nat)
    ensures Iter(f, c, m + n) == Iter(f, Iter(f, c, m), n)
    decreases m
  {
    if m == 0 {
    } else {
      IterAdd(f, f(c), m - 1, n);
    }
  }

  /** Following a recorded orbit. */
  lemma {:induction false} IterOrbit<T>(f: T -> T, orbit: seq<T>)
    requires orbit != []
    requires forall i :: 0 <= i < |orbit| - 1 ==> f(orbit[i]) == orbit[i + 1]
    ensures Iter(f, orbit[0], |orbit| - 1) == orbit[|orbit| - 1]
    decreases |orbit|
  {
    if |orbit| == 1 {
    } else {
      IterOrbit(f, orbit[1..]);
    }
  }

  lemma {:induction false} FoldAppend<S, T>(f: (S, T) -> S, c: S, s: seq<T>, t: seq<T>)
    ensures Fold(f, c, s + t) == Fold(f, Fold(f, c, s), t)
    decreases |s|
  {
    if s == [] {
      assert s + t == t;
    } else {
      assert (s + t)[1..] == s[1..] + t;
      FoldAppend(f, f(c, s[0]), s[1..], t);
    }
  }

  /** A fold whose every step is injective in the accumulator is injective in it. */
  lemma {:induction false} FoldInjective<S(!new), T(!new)>(f: (S, T) -> S, c: S, d: S, data: seq<T>)
    requires forall a, b, x :: f(a, x) == f(b, x) ==> a == b
    requires c != d
    ensures Fold(f, c, data) != Fold(f, d, data)
    decreases |data|
  {
    if data == [] {
    } else {
      FoldInjective(f, f(c, data[0]), f(d, data[0]), data[1..]);
    }
  }

  /** Folding three sequences that are related elementwise relates the three folds. */
  lemma {:induction false} FoldPreserves<S(!new), T(!new)>(
    f: (S, T) -> S, relS: (S, S, S) -> bool, relT: (T, T, T) -> bool,
    a: S, b: S, c: S, s: seq<T>, t: seq<T>, u: seq<T>)
    requires forall p, q, r, x, y, z :: relS(p, q, r) && relT(x, y, z) ==> relS(f(p, x), f(q, y), f(r, z))
    requires relS(a, b, c)
    requires |s| == |t| == |u|
    requires forall i :: 0 <= i < |s| ==> relT(s[i], t[i], u[i])
    ensures relS(Fold(f, a, s), Fold(f, b, t), Fold(f, c, u))
    decreases |s|
  {
    if s == [] {
    } else {
      FoldPreserves(f, relS, relT, f(a, s[0]), f(b, t[0]), f(c, u[0]), s[1..], t[1..], u[1..]);
    }
  }

  lemma {:induction false} FoldFixpoint<S, T>(f: (S, T) -> S, c: S, data: seq<T>)
    requires forall i :: 0 <= i < |data| ==> f(c, data[i]) == c
    ensures Fold(f, c, data) == c
    decreases |data|
  {
    if data == [] {
    } else {
      FoldFixpoint(f, c, data[1..]);
    }
  }

  lemma {:induction false} FoldCongruent<S(!new), T(!new)>(f: (S, T) -> S, g: (S, T) -> S, c: S, data: seq<T>)
    requires forall a, x :: f(a, x) == g(a, x)
    ensures Fold(f, c, data) == Fold(g, c, data)
    decreases |data|
  {
    if data == [] {
    } else {
      FoldCongruent(f, g, f(c, data[0]), data[1..]);
    }
  }
}
