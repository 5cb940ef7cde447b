/**
  Loops that start at i and advance by n visit exactly the numbers with the
  same remainder.
 */
module Strides {

  lemma StrideStep(n: nat, i: nat, p: nat)
    requires 0 < n
    ensures (i + n) % n == i % n
    ensures i <= p < i + n && p % n == i % n ==> p == i
    ensures i < n ==> i % n == i
  {
    ModUnique(i + n, n, i / n + 1, i % n);
    if i <= p < i + n && p % n == i % n {
      QuotientUnique(n, p / n - i / n, p - i);
    }
    if i < n {
      ModUnique(i, n, 0, i);
    }
  }

  // A multiple of n below n is zero.
  lemma QuotientUnique(n: int, d: int, m: int)
    requires 0 < n && -n < m < n && m == d * n
    ensures d == 0
  {
    if d >= 1 { MulAtLeast(d, n); }
    if d <= -1 { MulAtLeast(-d, n); }
  }

  lemma ModUnique(a: nat, n: nat, q: int, r: nat)
    requires 0 < n && r < n && a == q * n + r
    ensures a % n == r
  {
    QuotientUnique(n, a / n - q, r - a % n);
  }

  lemma MulAtLeast(d: int, n: int)
    requires d >= 1 && n >= 0
    ensures d * n >= n
  {
  }
}
