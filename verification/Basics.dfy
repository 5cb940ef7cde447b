/**
  Optional values, and products that the solver treats as opaque terms.
 */
module Basics {

  datatype Option<+T> = None | Some(value: T)

  function Min(a: nat, b: nat): nat {
    if a < b then a else b
  }

  function Mul(a: nat, b: nat): nat {
    a * b
  }

  lemma MulStep(a: nat, n: nat)
    ensures Mul(a + 1, n) == Mul(a, n) + n && Mul(0, n) == 0
  {
  }

  lemma MulSum(a: nat, b: nat, n: nat)
    ensures Mul(a + b, n) == Mul(a, n) + Mul(b, n)
  {
  }

  lemma {:induction false} MulMonotone(a: nat, b: nat, n: nat)
    requires a <= b
    ensures Mul(a, n) <= Mul(b, n)
    decreases b - a
  {
    hide Mul;
    if a < b {
      MulStep(a, n);
      MulMonotone(a + 1, b, n);
    }
  }

  lemma QuotientIs(x: nat, d: nat, q: nat, r: nat)
    requires 0 < d && x == q * d + r && r < d
    ensures x / d == q
  {
    var p := x / d;
    assert p < q ==> (p + 1) * d <= q * d;
    assert p > q ==> (q + 1) * d <= p * d;
  }

  lemma DivideTwice(x: nat, c: nat, d: nat)
    requires 0 < c && 0 < d
    ensures 0 < c * d && x / (c * d) == x / c / d
  {
    var a, b := x / c, x / c / d;
    Regroup(x, c, d, a, b, a % d, x % c);
    QuotientIs(x, c * d, b, c * (a % d) + x % c);
  }

  lemma Regroup(x: nat, c: nat, d: nat, a: nat, b: nat, r: nat, s: nat)
    requires 0 < c && 0 < d && x == c * a + s && a == b * d + r && r < d && s < c
    ensures 0 < c * d && x == b * (c * d) + (c * r + s) && c * r + s < c * d
  {
    var p := b * d;
    assert c * (p + r) == c * p + c * r;
    assert c * p == b * (c * d);
    assert c * (r + 1) <= c * d && c * (r + 1) == c * r + c;
  }
}
