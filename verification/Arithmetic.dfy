/** Products and remainders of integers: the few nonlinear facts the word arithmetic builds on. */
module Arithmetic {

  lemma MulAssoc(a: int, b: int, c: int)
    ensures (a * b) * c == a * (b * c)
  {
  }

  lemma MulCommutes(a: int, b: int)
    ensures a * b == b * a
  {
  }

  lemma MulAdd(a: int, b: int, c: int)
    ensures a * (b + c) == a * b + a * c
  {
  }

  lemma MulMonotone(q: nat, a: int, b: int)
    requires a <= b
    ensures q * a <= q * b
  {
  }

  lemma Nonnegative(x: nat, y: nat)
    ensures x * y >= 0
  {
  }

  /** Quotient and remainder are unique. */
  lemma RemainderUnique(m: nat, x: int, q: int, r: int)
    requires 0 <= r < m && x == m * q + r
    ensures x % m == r
  {
    var p, s := x / m, x % m;
    assert x == m * p + s;
    if q > p { MulMonotone(m, p + 1, q); MulAdd(m, p, 1); }
    if q < p { MulMonotone(m, q + 1, p); MulAdd(m, q, 1); }
  }

  /** Multiples of the modulus do not show. */
  lemma AddMultiple(m: nat, k: int, z: int)
    requires m > 0
    ensures (m * k + z) % m == z % m
  {
    MulAdd(m, k, z / m);
    RemainderUnique(m, m * k + z, k + z / m, z % m);
  }

  lemma SmallMod(m: nat, x: int)
    requires 0 <= x < m
    ensures x % m == x
  {
    RemainderUnique(m, x, 0, x);
  }

  /** A summand may be reduced first. */
  lemma AddModLeft(m: nat, a: int, b: int)
    requires m > 0
    ensures (a % m + b) % m == (a + b) % m
  {
    var q, r := a / m, a % m;
    assert a == m * q + r;
    AddMultiple(m, q, r + b);
  }

  lemma AddMod(m: nat, a: int, b: int)
    requires m > 0
    ensures (a % m + b % m) % m == (a + b) % m
  {
    AddModLeft(m, a, b % m);
    AddModLeft(m, b, a);
  }

  /** And so may a factor. */
  lemma MulMod(m: nat, x: int, y: int)
    requires m > 0
    ensures (x * (y % m)) % m == (x * y) % m
  {
    var q, r := y / m, y % m;
    assert y == m * q + r;
    MulAdd(x, m * q, r);
    MulAssoc(x, m, q);
    MulAssoc(m, x, q);
    MulCommutes(x, m);
    AddMultiple(m, x * q, x * r);
  }
}
