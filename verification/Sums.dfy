// Sums over the indices of a list.
module Sums {
  function Sum(n: nat, f: nat -> real): real {
    if n == 0 then 0.0 else Sum(n - 1, f) + f(n - 1)
  }

  lemma {:induction false} SameSums(n: nat, f: nat -> real, g: nat -> real)
    requires forall i: nat | i < n :: f(i) == g(i)
    ensures Sum(n, f) == Sum(n, g)
  {
    if n > 0 {
      SameSums(n - 1, f, g);
    }
  }

  // The first of `n + 1` summands, and the others.
  lemma {:induction false} FirstSummand(n: nat, f: nat -> real)
    ensures Sum(n + 1, f) == f(0) + Sum(n, (i: nat) => f(i + 1))
  {
    if n > 0 {
      FirstSummand(n - 1, f);
    }
  }

  // Changing one summand changes the sum by as much.
  lemma {:induction false} OneChanged(n: nat, f: nat -> real, g: nat -> real, k: nat)
    requires k < n && forall i: nat | i < n && i != k :: f(i) == g(i)
    ensures Sum(n, g) - Sum(n, f) == g(k) - f(k)
  {
    if k == n - 1 {
      SameSums(n - 1, f, g);
    } else {
      OneChanged(n - 1, f, g, k);
    }
  }

  lemma {:induction false} SumOfConstant(n: nat, f: nat -> real, c: real)
    requires forall i: nat | i < n :: f(i) == c
    ensures Sum(n, f) == n as real * c
  {
    if n > 0 {
      SumOfConstant(n - 1, f, c);
      assert n as real * c == (n - 1) as real * c + c;
    }
  }
}
