/** The number and text fields of archive headers, as apps/deb_installer/deb_installer.c reads them. */
module Fields {
  import opened Arithmetic
  import opened Types
  import opened Numerals

  // ---- fields ------------------------------------------------------------------------------------------

  predicate IsDigit(c: u8, base: nat) { 48 <= c < 48 + base }

  /** The end of the digits from `i` on, at `end` at the latest. */
  function DigitsEnd(s: seq<u8>, i: nat, end: nat, base: nat): (j: nat)
    requires i <= end <= |s|
    ensures i <= j <= end
    decreases end - i
  {
    if i < end && IsDigit(s[i], base) then DigitsEnd(s, i + 1, end, base) else i
  }

  function Digit(c: u8): nat { if c >= 48 then c - 48 else 0 }

  function DigitValues(t: seq<u8>): seq<nat> {
    if t == [] then [] else DigitValues(t[..|t| - 1]) + [Digit(t[|t| - 1])]
  }

  function TextValue(t: seq<u8>, base: nat): nat { Value(DigitValues(t), base) }

  /** The number a field shows: its leading digits. */
  function Number(s: seq<u8>, i: nat, end: nat, base: nat): nat
    requires i <= end <= |s|
  {
    TextValue(s[i..DigitsEnd(s, i, end, base)], base)
  }

  lemma TextValueStep(s: seq<u8>, i: nat, j: nat, base: nat)
    requires i <= j < |s|
    ensures TextValue(s[i..j + 1], base) == TextValue(s[i..j], base) * base + Digit(s[j])
  {
    assert s[i..j + 1][..j - i] == s[i..j];
    ValueAppend(DigitValues(s[i..j]), Digit(s[j]), base);
  }

  /** The digit loops of tar_octal and ar_parse, in 32-bit arithmetic. */
  method ReadNumber(s: seq<u8>, i: nat, end: nat, base: nat) returns (v: u32)
    requires i <= end <= |s|
    ensures v == Number(s, i, end, base) % TWO32
  {
    hide TextValue;
    var j: nat := i;
    v := 0;
    assert TextValue(s[i..j], base) == 0 by { EmptyText(s, i, base); }
    while j < end && IsDigit(s[j], base)
      invariant i <= j <= end && DigitsEnd(s, j, end, base) == DigitsEnd(s, i, end, base)
      invariant v == TextValue(s[i..j], base) % TWO32
    {
      TextValueStep(s, i, j, base);
      DigitStep(TextValue(s[i..j], base), base, Digit(s[j]), TWO32);
      v := (v * base + (s[j] - 48)) % TWO32;
      j := j + 1;
    }
  }

  lemma EmptyText(s: seq<u8>, i: nat, base: nat)
    requires i <= |s|
    ensures TextValue(s[i..i], base) == 0
  {
    assert s[i..i] == [];
  }

  /** A field holding digits and then, unless it is full, something else. */
  predicate NumberField(f: seq<u8>, digits: seq<u8>, base: nat) {
    && |digits| <= |f| && f[..|digits|] == digits && (forall i :: 0 <= i < |digits| ==> IsDigit(digits[i], base))
    && (|digits| < |f| ==> !IsDigit(f[|digits|], base))
  }

  lemma NumberOfField(s: seq<u8>, i: nat, end: nat, digits: seq<u8>, base: nat)
    requires i <= end <= |s| && NumberField(s[i..end], digits, base)
    ensures Number(s, i, end, base) == TextValue(digits, base)
  {
    hide TextValue, IsDigit;
    var f := s[i..end];
    forall k | 0 <= k < |digits| ensures s[i + k] == digits[k] { assert s[i + k] == f[k] == f[..|digits|][k]; }
    if |digits| < |f| { assert s[i + |digits|] == f[|digits|]; }
    DigitsEndAt(s, i, end, i + |digits|, base);
    assert s[i..i + |digits|] == digits;
  }

  /** The number read is that of the leading characters '0' and above, below the base: no other character counts. */
  lemma NumberIs(s: seq<u8>, i: nat, j: nat, end: nat, ds: seq<nat>, base: nat)
    requires i <= j <= end <= |s| && |ds| == j - i && forall k :: 0 <= k < |ds| ==> ds[k] < base && s[i + k] == 48 + ds[k]
    requires j < end ==> s[j] < 48 || s[j] >= 48 + base
    ensures Number(s, i, end, base) == Value(ds, base)
  {
    forall k | i <= k < j ensures IsDigit(s[k], base) { assert s[i + (k - i)] == 48 + ds[k - i]; }
    DigitsEndAt(s, i, end, j, base);
    DigitValuesAre(s[i..j], ds);
  }

  lemma {:induction false} DigitValuesAre(t: seq<u8>, ds: seq<nat>)
    requires |t| == |ds| && forall k :: 0 <= k < |ds| ==> t[k] == 48 + ds[k]
    ensures DigitValues(t) == ds
    decreases |t|
  {
    if t != [] {
      var k := |t| - 1;
      DigitValuesAre(t[..k], ds[..k]);
      assert ds == ds[..k] + [ds[k]];
    }
  }

  lemma {:induction false} DigitsEndAt(s: seq<u8>, i: nat, end: nat, j: nat, base: nat)
    requires i <= j <= end <= |s| && (forall k :: i <= k < j ==> IsDigit(s[k], base)) && (j < end ==> !IsDigit(s[j], base))
    ensures DigitsEnd(s, i, end, base) == j
    decreases j - i
  {
    if i < j { DigitsEndAt(s, i + 1, end, j, base); }
  }

  function DigitText(ds: seq<nat>): seq<u8>
    requires Digits(ds, 10)
  {
    if ds == [] then [] else DigitText(ds[..|ds| - 1]) + [48 + ds[|ds| - 1]]
  }

  lemma {:induction false} DigitTextValues(ds: seq<nat>, base: nat)
    requires base <= 10 && Digits(ds, base) && Digits(ds, 10)
    ensures DigitValues(DigitText(ds)) == ds && |DigitText(ds)| == |ds|
    ensures forall i :: 0 <= i < |ds| ==> IsDigit(DigitText(ds)[i], base)
    decreases |ds|
  {
    hide DigitValues, IsDigit;
    if ds == [] {
      NoDigitValues();
    } else {
      var k := |ds| - 1;
      DigitTextValues(ds[..k], base);
      DigitValuesAppend(DigitText(ds[..k]), 48 + ds[k]);
      CodeOfDigit(ds[k], base);
      assert ds == ds[..k] + [ds[k]];
    }
  }

  lemma CodeOfDigit(d: nat, base: nat)
    requires d < base <= 10
    ensures IsDigit(48 + d, base) && Digit(48 + d) == d
  {
  }

  lemma NoDigitValues()
    ensures DigitValues([]) == []
  {
  }

  lemma DigitValuesAppend(t: seq<u8>, c: u8)
    ensures DigitValues(t + [c]) == DigitValues(t) + [Digit(c)]
  {
    assert (t + [c])[..|t|] == t;
  }

  /** A number field of width `w` can hold every number below base^w. */
  lemma EveryNumberHasAField(n: nat, base: nat, w: nat, filler: u8) returns (f: seq<u8>, digits: seq<u8>)
    requires 2 <= base <= 10 && w > 0 && n < Pow(base, w) && !IsDigit(filler, base)
    ensures |f| == w && NumberField(f, digits, base) && TextValue(digits, base) == n
  {
    hide DigitText, DigitValues, Value, Numeral, Pow, NumberField;
    var ds := Numeral(n, base);
    assert Digits(ds, 10);
    DigitTextValues(ds, base);
    NumeralFits(n, base, w);
    ValueOfNumeral(n, base);
    digits := DigitText(ds);
    f := digits + seq(w - |digits|, _ => filler);
    FilledField(digits, w, filler, base);
  }

  lemma FilledField(digits: seq<u8>, w: nat, filler: u8, base: nat)
    requires |digits| <= w && !IsDigit(filler, base) && forall i :: 0 <= i < |digits| ==> IsDigit(digits[i], base)
    ensures NumberField(digits + seq(w - |digits|, _ => filler), digits, base)
  {
  }

  /** Up to `n` bytes from `i`, ending before a zero byte: what kstrncpy with bound n + 1 copies. */
  function Text(s: seq<u8>, i: nat, n: nat): (t: seq<u8>)
    requires i + n <= |s|
    ensures |t| <= n
    decreases n
  {
    if n == 0 || s[i] == 0 then [] else [s[i]] + Text(s, i + 1, n - 1)
  }

  lemma TextStep(s: seq<u8>, i: nat, n: nat)
    requires 0 < n && i + n <= |s| && s[i] != 0
    ensures Text(s, i, n) == [s[i]] + Text(s, i + 1, n - 1)
  {
  }

  lemma TextEnds(s: seq<u8>, i: nat, n: nat)
    requires i + n <= |s| && (n == 0 || s[i] == 0)
    ensures Text(s, i, n) == []
  {
  }

  method ReadText(s: seq<u8>, i: nat, n: nat) returns (t: seq<u8>)
    requires i + n <= |s|
    ensures t == Text(s, i, n)
  {
    hide Text;
    t := [];
    assert [] + Text(s, i, n) == Text(s, i, n);
    while |t| < n && s[i + |t|] != 0
      invariant |t| <= n && t + Text(s, i + |t|, n - |t|) == Text(s, i, n)
      decreases n - |t|
    {
      TextStep(s, i + |t|, n - |t|);
      Regrouped(t, [s[i + |t|]], Text(s, i + |t| + 1, n - |t| - 1));
      t := t + [s[i + |t|]];
    }
    TextEnds(s, i + |t|, n - |t|);
    assert t + [] == t;
  }

  lemma {:induction false} TextIs(s: seq<u8>, i: nat, n: nat, t: seq<u8>)
    requires i + n <= |s| && |t| <= n && s[i..i + |t|] == t && 0 !in t && (|t| < n ==> s[i + |t|] == 0)
    ensures Text(s, i, n) == t
    decreases n
  {
    if t != [] {
      assert s[i] == s[i..i + |t|][0] == t[0] && t[0] in t;
      assert s[i + 1..i + |t|] == s[i..i + |t|][1..];
      TextIs(s, i + 1, n - 1, t[1..]);
    }
  }

  /** A field holding a text, ended by a zero byte unless it is full. */
  predicate TextField(f: seq<u8>, t: seq<u8>) {
    |t| <= |f| && 0 !in t && f[..|t|] == t && (|t| < |f| ==> f[|t|] == 0)
  }

  lemma TextOfField(s: seq<u8>, i: nat, k: nat, n: nat, t: seq<u8>)
    requires i + n <= |s| && i + k <= |s| && TextField(s[i..i + k], t)
    ensures |t| <= n && (|t| < k || n == k || (|t| < n && s[i + |t|] == 0)) ==> Text(s, i, n) == t
    ensures |t| > n ==> |Text(s, i, n)| < |t|
  {
    var f := s[i..i + k];
    assert s[i..i + |t|] == f[..|t|];
    if |t| < k { assert s[i + |t|] == f[|t|]; }
    if |t| <= n && (|t| < k || n == k || (|t| < n && s[i + |t|] == 0)) { TextIs(s, i, n, t); }
  }

  lemma {:induction false} TextAtLeast(s: seq<u8>, i: nat, n: nat, k: nat)
    requires k <= n && i + n <= |s| && forall j :: i <= j < i + k ==> s[j] != 0
    ensures |Text(s, i, n)| >= k
    decreases k
  {
    if k > 0 { TextAtLeast(s, i + 1, n - 1, k - 1); }
  }

  /** A text is the bytes where it stands, none of them zero, up to a zero byte or its limit. */
  lemma {:induction false} TextBytes(s: seq<u8>, i: nat, n: nat)
    requires i + n <= |s|
    ensures var t := Text(s, i, n); t == s[i..i + |t|] && 0 !in t && (|t| < n ==> s[i + |t|] == 0)
    decreases n
  {
    if n > 0 && s[i] != 0 {
      TextBytes(s, i + 1, n - 1);
      var u := Text(s, i + 1, n - 1);
      assert s[i..i + 1 + |u|] == [s[i]] + s[i + 1..i + 1 + |u|];
    }
  }

  /** A full field read with a smaller limit is cut. */
  lemma TextCut(s: seq<u8>, i: nat, k: nat, n: nat, t: seq<u8>)
    requires n <= k == |t| && i + k <= |s| && TextField(s[i..i + k], t)
    ensures Text(s, i, n) == t[..n]
  {
    assert s[i..i + k] == t;
    assert s[i..i + n] == s[i..i + k][..n];
    TextIs(s, i, n, t[..n]);
  }
}
