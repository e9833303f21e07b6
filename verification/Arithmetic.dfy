// Products of naturals, one step at a time.
module Arithmetic {

  lemma ScaledDifference(a: nat, d: nat, c: nat)
    ensures (a + d) * c == a * c + d * c
    ensures d > 0 ==> d * c >= c
  {
  }

  lemma Scaled(a: nat, b: nat, c: nat)
    ensures a <= b ==> a * c <= b * c
    ensures a < b ==> a * c + c <= b * c
  {
    if a < b {
      ScaledDifference(a, b - a, c);
    }
  }

  // Division by repeated subtraction.
  ghost function Quotient(a: nat, b: nat): nat
    requires b > 0
  {
    if a < b then 0 else 1 + Quotient(a - b, b)
  }

  ghost function Rest(a: nat, b: nat): nat
    requires b > 0
  {
    if a < b then a else Rest(a - b, b)
  }

  lemma {:induction false} DivisionIsExact(a: nat, b: nat)
    requires b > 0
    ensures Quotient(a, b) * b + Rest(a, b) == a && Rest(a, b) < b
  {
    if a >= b {
      DivisionIsExact(a - b, b);
      ScaledDifference(Quotient(a - b, b), 1, b);
    }
  }

  lemma DivisionIsUnique(q: nat, r: nat, p: nat, s: nat, b: nat)
    requires q * b + r == p * b + s && r < b && s < b
    ensures q == p && r == s
  {
    Scaled(q, p, b);
    Scaled(p, q, b);
  }

  lemma Division(a: nat, b: nat)
    requires b > 0
    ensures a / b == Quotient(a, b) && a % b == Rest(a, b)
  {
    DivisionIsExact(a, b);
    assert (a / b) * b + a % b == a;
    DivisionIsUnique(a / b, a % b, Quotient(a, b), Rest(a, b), b);
  }
}
