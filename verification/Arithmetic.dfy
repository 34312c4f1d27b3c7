/** Quotients and remainders. */
module Arithmetic {

  lemma SmallMultiple(m: int, d: int)
    requires m >= 0
    ensures -m < m * d < m ==> d == 0
  {
    if d >= 1 {
      assert m * d >= m;
    } else if d <= -1 {
      assert m * d <= -m;
    }
  }

  lemma DivUnique(v: nat, m: nat, a: nat, r: nat)
    requires v == m * a + r && r < m
    ensures v % m == r && v / m == a
  {
    assert m * (v / m - a) == r - v % m;
    SmallMultiple(m, v / m - a);
  }

  lemma Regroup(m: nat, n: nat, q: nat, r: nat)
    ensures m * (n * q + r) == (m * n) * q + m * r
  {
    assert m * (n * q) == (m * n) * q;
  }

  lemma OneLess(m: nat, r: nat, n: nat)
    requires r < n
    ensures m * r + m <= m * n
  {
    assert m * n == m * (r + 1) + m * (n - r - 1);
  }

  lemma DivTwice(v: nat, m: nat, n: nat)
    requires m > 0 && n > 0
    ensures m * n > 0 && v / m / n == v / (m * n)
  {
    var a, b := v / m, v % m;
    var q, r := a / n, a % n;
    Regroup(m, n, q, r);
    OneLess(m, r, n);
    OneLess(m, 0, n);
    DivUnique(v, m * n, q, m * r + b);
  }

  /** Taking a remainder digit by digit, in base 256 and in base 2. */
  lemma ModByBytes(v: nat, m: nat)
    requires m > 0
    ensures v % (256 * m) == v % 256 + 256 * ((v / 256) % m)
  {
    var q, r := v / 256, v % 256;
    var a, b := q / m, q % m;
    assert v == 256 * (m * a + b) + r == (256 * m) * a + (256 * b + r);
    DivUnique(v, 256 * m, a, 256 * b + r);
  }

  lemma ModByBits(v: nat, m: nat)
    requires m > 0
    ensures v % (2 * m) == v % 2 + 2 * ((v / 2) % m)
  {
    var q, r := v / 2, v % 2;
    var a, b := q / m, q % m;
    assert v == 2 * (m * a + b) + r == (2 * m) * a + (2 * b + r);
    DivUnique(v, 2 * m, a, 2 * b + r);
  }
}
