/** Repeated application of a function. */
module Iteration {
  function Iterate<T>(f: T -> T, x: T, n: nat): T {
    if n == 0 then x else f(Iterate(f, x, n - 1))
  }

  lemma {:induction false} IterateAdd<T>(f: T -> T, x: T, m: nat, n: nat)
    ensures Iterate(f, Iterate(f, x, m), n) == Iterate(f, x, m + n)
  {
    if n > 0 {
      IterateAdd(f, x, m, n - 1);
    }
  }

  lemma {:induction false} IterateInjective<T(!new)>(f: T -> T, x: T, y: T, n: nat)
    requires forall a, b :: f(a) == f(b) ==> a == b
    requires Iterate(f, x, n) == Iterate(f, y, n)
    ensures x == y
  {
    if n > 0 {
      IterateInjective(f, x, y, n - 1);
    }
  }

  lemma {:induction false} IterateFixpoint<T>(f: T -> T, x: T, n: nat)
    requires f(x) == x
    ensures Iterate(f, x, n) == x
  {
    if n > 0 {
      IterateFixpoint(f, x, n - 1);
    }
  }

  // Whole periods may be dropped.
  lemma {:induction false} IteratePeriods<T>(f: T -> T, x: T, period: nat, k: nat)
    requires Iterate(f, x, period) == x
    ensures Iterate(f, x, period * k) == x
  {
    if k > 0 {
      IteratePeriods(f, x, period, k - 1);
      IterateAdd(f, x, period, period * (k - 1));
      assert period + period * (k - 1) == period * k;
    }
  }

  // Only the number of steps modulo a period counts.
  lemma DropPeriods<T>(f: T -> T, x: T, p: nat, n: nat)
    requires p > 0 && Iterate(f, x, p) == x
    ensures Iterate(f, x, n % p) == Iterate(f, x, n)
  {
    var k, r := n / p, n % p;
    assert p * k + r == n;
    IteratePeriods(f, x, p, k);
    IterateAdd(f, x, p * k, r);
  }

  // If f returns to x after a prime number of steps and moves x, then it returns to x
  // only after multiples of that number.
  lemma PrimePeriod<T(!new)>(f: T -> T, x: T, prime: nat, d: nat)
    requires forall a, b :: f(a) == f(b) ==> a == b
    requires prime > 1 && forall k :: 2 <= k < prime ==> prime % k != 0
    requires Iterate(f, x, prime) == x && f(x) != x
    ensures Iterate(f, x, d) == x <==> d % prime == 0
  {
    DropPeriods(f, x, prime, d);
    if d % prime != 0 && Iterate(f, x, d % prime) == x {
      NoShorterPeriod(f, x, prime, d % prime);
    }
  }

  lemma {:induction false} NoShorterPeriod<T(!new)>(f: T -> T, x: T, prime: nat, p: nat)
    requires forall a, b :: f(a) == f(b) ==> a == b
    requires prime > 1 && forall k :: 2 <= k < prime ==> prime % k != 0
    requires Iterate(f, x, prime) == x && f(x) != x
    requires 0 < p < prime && Iterate(f, x, p) == x
    ensures false
    decreases p
  {
    if p > 1 {
      assert prime % p != 0;
      DropPeriods(f, x, p, prime);
      NoShorterPeriod(f, x, prime, prime % p);
    }
  }

  // A state machine run over its inputs.
  function Fold<S, I>(step: (S, I) -> S, s: S, inputs: seq<I>): S {
    if inputs == [] then s
    else step(Fold(step, s, inputs[..|inputs| - 1]), inputs[|inputs| - 1])
  }

  lemma FoldSnoc<S, I>(step: (S, I) -> S, s: S, inputs: seq<I>, x: I)
    ensures Fold(step, s, inputs + [x]) == step(Fold(step, s, inputs), x)
  {
  }

  lemma {:induction false} FoldConcat<S, I>(step: (S, I) -> S, s: S, x: seq<I>, y: seq<I>)
    ensures Fold(step, s, x + y) == Fold(step, Fold(step, s, x), y)
    decreases |y|
  {
    if y == [] {
      assert x + y == x;
    } else {
      var k := |y| - 1;
      assert (x + y)[..|x + y| - 1] == x + y[..k];
      FoldConcat(step, s, x, y[..k]);
    }
  }

  // An input that acts as f, repeated.
  lemma {:induction false} FoldConstant<S(!new), I>(step: (S, I) -> S, f: S -> S, s: S, x: I, inputs: seq<I>)
    requires forall t :: step(t, x) == f(t)
    requires forall i | 0 <= i < |inputs| :: inputs[i] == x
    ensures Fold(step, s, inputs) == Iterate(f, s, |inputs|)
  {
    if inputs != [] {
      FoldConstant(step, f, s, x, inputs[..|inputs| - 1]);
    }
  }

  // Feeding inputs one by one, or mixing them in beforehand and iterating f; rest(k) is
  // what the mixture still holds after k inputs.
  lemma {:induction false} FoldMixed<S(!new), I>(step: (S, I) -> S, f: S -> S, mix: (S, S) -> S,
      s: S, inputs: seq<I>, rest: nat -> S, k: nat)
    requires k <= |inputs|
    requires forall t, j: nat :: j < |inputs| ==> mix(step(t, inputs[j]), rest(j + 1)) == f(mix(t, rest(j)))
    ensures mix(Fold(step, s, inputs[..k]), rest(k)) == Iterate(f, mix(s, rest(0)), k)
  {
    if k > 0 {
      FoldMixed(step, f, mix, s, inputs, rest, k - 1);
      assert inputs[..k] == inputs[..k - 1] + [inputs[k - 1]];
      FoldSnoc(step, s, inputs[..k - 1], inputs[k - 1]);
    }
  }
}
