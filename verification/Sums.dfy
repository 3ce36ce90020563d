/** Sums of a weight over a sequence. */
module Sums {

  function Sum<T>(xs: seq<T>, f: T -> nat): nat {
    if xs == [] then 0 else f(xs[0]) + Sum(xs[1..], f)
  }

  lemma {:induction false} SumAppend<T>(xs: seq<T>, x: T, f: T -> nat)
    ensures Sum(xs + [x], f) == Sum(xs, f) + f(x)
  {
    if xs == [] {
      assert xs + [x] == [x];
    } else {
      assert (xs + [x])[1..] == xs[1..] + [x];
      SumAppend(xs[1..], x, f);
    }
  }

  lemma {:induction false} SumUpdate<T>(xs: seq<T>, i: nat, x: T, f: T -> nat)
    requires i < |xs|
    ensures Sum(xs[i := x], f) + f(xs[i]) == Sum(xs, f) + f(x)
  {
    if i == 0 {
      assert xs[i := x][1..] == xs[1..];
    } else {
      assert xs[i := x][1..] == xs[1..][i - 1 := x];
      SumUpdate(xs[1..], i - 1, x, f);
    }
  }

  /** A positive sum has a positive summand. */
  lemma {:induction false} SumWitness<T>(xs: seq<T>, f: T -> nat) returns (i: nat)
    requires Sum(xs, f) > 0
    ensures i < |xs| && f(xs[i]) > 0
  {
    if f(xs[0]) > 0 {
      i := 0;
    } else {
      i := SumWitness(xs[1..], f);
      i := i + 1;
    }
  }

  lemma {:induction false} SumLess<T>(xs: seq<T>, f: T -> nat, g: T -> nat)
    requires forall x | x in xs :: f(x) <= g(x)
    ensures Sum(xs, f) <= Sum(xs, g)
  {
    if xs != [] {
      SumLess(xs[1..], f, g);
    }
  }
}
