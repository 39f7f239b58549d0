/** Remainders and quotients modulo a positive number. */
module Modular {

  lemma MultipleAtLeast(m: int, d: int)
    requires m > 0 && d >= 1
    ensures m * d >= m
  {
    assert m * d == m * (d - 1) + m;
    assert m * (d - 1) >= 0;
  }

  lemma SmallMultiple(m: int, d: int, e: int)
    requires m > 0 && m * d == e && -m < e < m
    ensures e == 0
  {
    if d >= 1 { MultipleAtLeast(m, d); }
    if d <= -1 { MultipleAtLeast(m, -d); }
  }

  lemma RemainderUnique(x: int, q: int, r: int, m: int)
    requires 0 <= r < m && x == m * q + r
    ensures x % m == r
  {
    var d, r' := q - x / m, x % m;
    assert x == m * (x / m) + r';
    assert m * q == m * (x / m) + m * d;
    SmallMultiple(m, d, r' - r);
  }

  lemma QuotientUnique(x: int, q: int, r: int, m: int)
    requires 0 <= r < m && x == m * q + r
    ensures x / m == q
  {
    RemainderUnique(x, q, r, m);
    var p := x / m;
    assert m * (p - q) == 0;
    if p > q { MultipleAtLeast(m, p - q); }
    if p < q { MultipleAtLeast(m, q - p); }
  }

  /** Adding a multiple of the modulus changes no remainder. */
  lemma ModShift(x: int, k: int, m: int)
    requires m > 0
    ensures (x + m * k) % m == x % m
  {
    var q, r := x / m, x % m;
    assert x + m * k == m * (q + k) + r;
    RemainderUnique(x + m * k, q + k, r, m);
  }

  lemma AddReduce(x: int, y: int, m: int)
    requires m > 0
    ensures (x % m + y) % m == (x + y) % m
  {
    var q := x / m;
    assert x + y == (x % m + y) + m * q;
    ModShift(x % m + y, q, m);
  }

  lemma MulReduce(x: int, y: int, m: int)
    requires m > 0
    ensures (x * (y % m)) % m == (x * y) % m
  {
    var q, r := y / m, y % m;
    assert y == m * q + r;
    assert x * y == x * r + m * (x * q);
    ModShift(x * r, x * q, m);
  }

  /** Equal sums with a common term come from equal reduced terms. */
  lemma AddCancel(a: int, b: int, s: int, m: int)
    requires 0 <= a < m && 0 <= b < m && (a + s) % m == (b + s) % m
    ensures a == b
  {
    var j, k := (a + s) / m, (b + s) / m;
    assert a + s == m * j + (a + s) % m && b + s == m * k + (b + s) % m;
    assert m * (j - k) == a - b;
    SmallMultiple(m, j - k, a - b);
  }
}
