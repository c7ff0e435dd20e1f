/** An optional value, and the uniqueness of quotient and remainder. */
module Basics {
  datatype Option<+T> = None | Some(value: T)

  lemma Monotone(a: int, b: int, n: nat)
    requires a <= b
    ensures a * n <= b * n
  {
    var k := b - a;
    assert (a + k) * n == a * n + k * n;
  }

  lemma NatProduct(a: nat, b: nat)
    ensures a * b >= 0
  {
    Monotone(0, a, b);
  }

  lemma ModUnique(n: int, d: int, q: int, r: int)
    requires d > 0 && 0 <= r < d && n == d * q + r
    ensures n % d == r && n / d == q
  {
    var q', r' := n / d, n % d;
    assert n == d * q' + r';
    assert (q' + 1) * d == d * q' + d && (q + 1) * d == d * q + d;
    if q' < q {
      Monotone(q' + 1, q, d);
    } else if q < q' {
      Monotone(q + 1, q', d);
    }
  }

  lemma ModAdd(a: int, b: int, m: int)
    requires m > 0
    ensures (a % m + b) % m == (a + b) % m
  {
    var t := a % m + b;
    assert a == m * (a / m) + a % m && t == m * (t / m) + t % m;
    assert m * (a / m + t / m) == m * (a / m) + m * (t / m);
    ModUnique(a + b, m, a / m + t / m, t % m);
  }
}
