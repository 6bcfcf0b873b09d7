/** Facts about products, quotients and powers that several models need. */
module Arithmetic {
  lemma {:induction false} MulNonNegative(a: nat, b: nat)
    ensures 0 <= a * b
    decreases b
  {
    if b > 0 {
      MulNonNegative(a, b - 1);
      Distribute(a, b - 1, 1);
    }
  }

  lemma Distribute(a: int, b: int, c: int)
    ensures a * (b + c) == a * b + a * c
  {
  }

  /** Multiplication keeps order. */
  lemma Ordered(c: nat, x: int, y: int)
    ensures x <= y ==> c * x <= c * y
  {
    if x <= y {
      MulNonNegative(c, y - x);
      Distribute(c, x, y - x);
    }
  }

  /** Multiples of m are at least m apart. */
  lemma MulGap(m: nat, p: int, q: int)
    requires p < q
    ensures m * p + m <= m * q
  {
    Ordered(m, p + 1, q);
    Distribute(m, p, 1);
  }

  /** Quotient and remainder are unique. */
  lemma DivisionUnique(n: nat, m: nat, q: nat, r: nat)
    requires r < m && n == m * q + r
    ensures n / m == q && n % m == r
  {
    var p := n / m;
    assert n == m * p + n % m;
    if p < q { MulGap(m, p, q); } else if q < p { MulGap(m, q, p); }
  }

  /** Adding a multiple of m changes no remainder. */
  lemma AddMultiple(m: nat, k: nat, y: nat)
    requires m > 0
    ensures (m * k + y) % m == y % m
  {
    var q := y / m;
    Distribute(m, k, q);
    DivisionUnique(m * k + y, m, k + q, y % m);
  }

  function Pow(b: nat, e: nat): (p: nat)
    ensures b > 0 ==> p > 0
  {
    if e == 0 then 1 else b * Pow(b, e - 1)
  }

  lemma {:induction false} PowAdd(b: nat, m: nat, n: nat)
    ensures Pow(b, m + n) == Pow(b, m) * Pow(b, n)
  {
    if m > 0 {
      PowAdd(b, m - 1, n);
      Associate(b, Pow(b, m - 1), Pow(b, n));
    }
  }

  lemma Associate(a: int, b: int, c: int)
    ensures a * (b * c) == (a * b) * c
  {
  }

  /** Eight hexadecimal digits fill a 32-bit word. */
  lemma EightHexDigits()
    ensures Pow(16, 8) == 0x1_0000_0000
  {
    assert Pow(16, 1) == 16 * Pow(16, 0);
    PowAdd(16, 1, 1);
    PowAdd(16, 2, 2);
    PowAdd(16, 4, 4);
  }

  /** A remainder is the given one exactly when the difference is a multiple. */
  lemma RemainderIs(n: nat, m: nat, r: nat)
    requires r < m && r <= n
    ensures n % m == r <==> (n - r) % m == 0
  {
    if n % m == r {
      assert n - r == m * (n / m) + 0;
      DivisionUnique(n - r, m, n / m, 0);
    }
    if (n - r) % m == 0 {
      assert n == m * ((n - r) / m) + r;
      DivisionUnique(n, m, (n - r) / m, r);
    }
  }
}
