/**
 What several modules need: optional values, results, 64-bit counters, and sums over sequences.
 */
module Basics {
  datatype Option<T> = None | Some(value: T)

  datatype Result<T, E> = Ok(value: T) | Err(error: E)

  // ---------------------------------------------------------------- 64-bit counters

  const U64_MODULUS: nat := 0x1_0000_0000_0000_0000
  const U64_MAX: nat := U64_MODULUS - 1

  type U64 = n: nat | n < U64_MODULUS

  /** `fetch_add` on an atomic 64-bit counter wraps around. */
  function Wrap(n: nat): U64 { n % U64_MODULUS }

  lemma WrapSteps(n: nat, k: nat)
    ensures Wrap(Wrap(n) + k) == Wrap(n + k)
  {
  }

  function Saturated(n: nat): U64 { if n <= U64_MAX then n else U64_MAX }

  /** `saturating_add` on 64-bit counters. */
  function SaturatingAdd(a: nat, b: nat): U64 { Saturated(a + b) }

  // ---------------------------------------------------------------- sums

  function Sum<T>(xs: seq<T>, f: T -> nat): nat {
    if xs == [] then 0 else Sum(xs[..|xs| - 1], f) + f(xs[|xs| - 1])
  }

  lemma SumAppend<T>(xs: seq<T>, x: T, f: T -> nat)
    ensures Sum(xs + [x], f) == Sum(xs, f) + f(x)
  {
    assert (xs + [x])[..|xs|] == xs;
  }

  lemma {:induction false} SumCons<T>(x: T, xs: seq<T>, f: T -> nat)
    ensures Sum([x] + xs, f) == f(x) + Sum(xs, f)
    decreases |xs|
  {
    if xs == [] {
      assert [x] + xs == [] + [x];
      SumAppend([], x, f);
    } else {
      var n := |xs| - 1;
      SumCons(x, xs[..n], f);
      assert [x] + xs == [x] + xs[..n] + [xs[n]];
      SumAppend([x] + xs[..n], xs[n], f);
    }
  }

  lemma {:induction false} SumUpdate<T>(xs: seq<T>, i: nat, x: T, f: T -> nat)
    requires i < |xs|
    ensures Sum(xs[i := x], f) + f(xs[i]) == Sum(xs, f) + f(x)
    decreases |xs|
  {
    var n := |xs| - 1;
    if i < n {
      assert xs[i := x][..n] == xs[..n][i := x];
      SumUpdate(xs[..n], i, x, f);
    } else {
      assert xs[i := x][..n] == xs[..n];
    }
  }
}
