/** Numbers as digit lists, most significant digit first: shared by the formatter and the decoders. */
module Numerals {
  import opened Arithmetic

  function Value(ds: seq<nat>, base: nat): nat {
    if ds == [] then 0 else Value(ds[..|ds| - 1], base) * base + ds[|ds| - 1]
  }

  predicate Digits(ds: seq<nat>, base: nat) { forall i :: 0 <= i < |ds| ==> ds[i] < base }

  /** The shortest digit list of `n`. */
  function Numeral(n: nat, base: nat): (ds: seq<nat>)
    requires base >= 2
    ensures ds != [] && Digits(ds, base)
    decreases n
  {
    if n < base then [n] else
      Shrinks(n, base);
      Numeral(n / base, base) + [n % base]
  }

  lemma Shrinks(n: nat, base: nat)
    requires base >= 2 && n > 0
    ensures n / base < n && 2 * (n / base) <= n && n == (n / base) * base + n % base
  {
    var q := n / base;
    assert n == base * q + n % base;
    Ordered(q, 2, base);
    Commuted(base, q);
  }

  lemma Commuted(a: int, b: int)
    ensures a * b == b * a
  {
  }

  lemma {:induction false} ValueOfNumeral(n: nat, base: nat)
    requires base >= 2
    ensures Value(Numeral(n, base), base) == n
    decreases n
  {
    if n < base {
      assert Value([n], base) == Value([], base) * base + n;
    } else {
      Shrinks(n, base);
      ValueOfNumeral(n / base, base);
      var ds := Numeral(n, base);
      assert ds[..|ds| - 1] == Numeral(n / base, base);
    }
  }

  /** No digit list of a number above zero starts with a zero. */
  lemma {:induction false} NoLeadingZero(n: nat, base: nat)
    requires base >= 2 && n > 0
    ensures Numeral(n, base)[0] != 0
    decreases n
  {
    if n >= base {
      Shrinks(n, base);
      NoLeadingZero(n / base, base);
    }
  }

  /** A number below base^w needs at most w digits. */
  lemma {:induction false} NumeralFits(n: nat, base: nat, w: nat)
    requires base >= 2 && w > 0 && n < Pow(base, w)
    ensures |Numeral(n, base)| <= w
    decreases w
  {
    if n >= base {
      Shrinks(n, base);
      assert Pow(base, 0) == 1;
      QuotientBelow(n, base, Pow(base, w - 1));
      NumeralFits(n / base, base, w - 1);
    }
  }

  lemma QuotientBelow(n: nat, base: nat, m: nat)
    requires base >= 2 && n < base * m
    ensures n / base < m
  {
    var q := n / base;
    assert n == base * q + n % base;
    Ordered(base, m, q);
  }

  lemma {:induction false} LeadingZeros(k: nat, ds: seq<nat>, base: nat)
    ensures Value(seq(k, _ => 0) + ds, base) == Value(ds, base)
    decreases |ds|, k
  {
    var all := seq(k, _ => 0) + ds;
    if ds != [] {
      LeadingZeros(k, ds[..|ds| - 1], base);
      assert all[..|all| - 1] == seq(k, _ => 0) + ds[..|ds| - 1];
    } else if k > 0 {
      LeadingZeros(k - 1, [], base);
      assert all[..|all| - 1] == seq(k - 1, _ => 0) + [];
    }
  }

  /** Reading one digit more in arithmetic modulo m. */
  lemma DigitStep(x: nat, base: nat, d: nat, m: nat)
    requires m > 0
    ensures ((x % m) * base + d) % m == (x * base + d) % m
  {
    var q, r := x / m, x % m;
    assert x == m * q + r;
    assert x * base + d == m * (q * base) + (r * base + d) by { MultipliedOut(m, q, r, base); }
    AddMultiple(m, q * base, r * base + d);
  }

  lemma MultipliedOut(m: int, q: int, r: int, base: int)
    ensures (m * q + r) * base == m * (q * base) + r * base
  {
  }

  /** Appending a digit. */
  lemma ValueAppend(ds: seq<nat>, d: nat, base: nat)
    ensures Value(ds + [d], base) == Value(ds, base) * base + d
  {
    assert (ds + [d])[..|ds|] == ds;
  }

  /** Appending a whole digit list. */
  lemma {:induction false} ValueConcat(a: seq<nat>, b: seq<nat>, base: nat)
    ensures Value(a + b, base) == Value(a, base) * Pow(base, |b|) + Value(b, base)
    decreases |b|
  {
    if b == [] {
      assert a + b == a;
    } else {
      var k := |b| - 1;
      ValueConcat(a, b[..k], base);
      assert (a + b)[..|a| + k] == a + b[..k];
      Regroup(Value(a, base), Pow(base, k), Value(b[..k], base), base);
    }
  }

  lemma Regroup(x: nat, p: nat, y: nat, base: nat)
    ensures (x * p + y) * base == x * (base * p) + y * base
  {
  }
}
