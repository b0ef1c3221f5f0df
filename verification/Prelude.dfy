/** What several modules share: optional values and powers of two. */
module Prelude {
  datatype Option<+T> = None | Some(value: T)

  function Pow2(n: nat): (r: nat)
    ensures r > 0
  {
    if n == 0 then 1 else 2 * Pow2(n - 1)
  }

  lemma {:induction false} Pow2Sum(a: nat, b: nat)
    ensures Pow2(a + b) == Pow2(a) * Pow2(b)
  {
    if a == 0 {
    } else {
      Pow2Sum(a - 1, b);
    }
  }

  lemma {:induction false} MultipleBelow(d: nat, q: nat, p: nat)
    requires q < p
    ensures d * q + d <= d * p
  {
    assert d * p == d * (p - 1) + d;
    if p == q + 1 {
    } else {
      MultipleBelow(d, q, p - 1);
    }
  }

  lemma QuotientUnique(n: nat, d: nat, q: nat, r: nat)
    requires d > 0 && n == d * q + r && r < d
    ensures n / d == q
  {
    var p := n / d;
    assert n == d * p + n % d;
    if p < q { MultipleBelow(d, p, q); }
    if q < p { MultipleBelow(d, q, p); }
  }

  lemma DivideTwice(n: nat, a: nat, b: nat)
    requires a > 0 && b > 0
    ensures a * b > 0 && n / a / b == n / (a * b)
  {
    var m, low := n / a, n % a;
    var q, r := m / b, m % b;
    MultipleBelow(a, r, b);
    assert a * (b * q) == (a * b) * q;
    assert n == a * (b * q + r) + low == a * (b * q) + a * r + low;
    QuotientUnique(n, a * b, q, a * r + low);
  }
}
