/** The formatted printing of kernel/kprintf.c: a reference reading of format strings, and the printer proved against it. */
module Format {
  import opened Arithmetic
  import opened Types
  import opened Numerals

  // ---- what a conversion produces -------------------------------------------------------------------

  function Glyph(d: nat, upper: bool): char
    requires d < 16
  {
    (if upper then "0123456789ABCDEF" else "0123456789abcdef")[d]
  }

  function Glyphs(ds: seq<nat>, upper: bool): (t: string)
    requires Digits(ds, 16)
    ensures |t| == |ds|
  {
    if ds == [] then "" else Glyphs(ds[..|ds| - 1], upper) + [Glyph(ds[|ds| - 1], upper)]
  }

  /** `v` in base `base`. */
  function Shown(v: nat, base: nat, upper: bool): string
    requires 2 <= base <= 16
  {
    WithinSixteen(Numeral(v, base), base);
    Glyphs(Numeral(v, base), upper)
  }

  lemma WithinSixteen(ds: seq<nat>, base: nat)
    requires base <= 16 && Digits(ds, base)
    ensures Digits(ds, 16)
  {
  }

  function Times(c: char, n: int): (t: string)
    ensures |t| == if n > 0 then n else 0
  {
    seq(if n > 0 then n else 0, _ => c)
  }

  /** A field of at least `width` characters: `left` puts the spaces behind; otherwise `zero` fills between sign
      and text, and without it spaces go in front. */
  function Field(left: bool, zero: bool, width: int, sign: string, text: string): string {
    var gap := width - |sign| - |text|;
    if left then sign + text + Times(' ', gap)
    else if zero then sign + Times('0', gap) + text
    else Times(' ', gap) + sign + text
  }

  /** A 32-bit word read as a signed integer. */
  function Signed(w: u32): int { if w < 0x8000_0000 then w else w - TWO32 }

  function Sign(x: int): string { if x < 0 then "-" else "" }

  function Magnitude(x: int): nat { if x < 0 then -x else x }

  // ---- format strings ----------------------------------------------------------------------------------

  datatype Piece = Plain(c: char) | Conv(left: bool, zero: bool, width: nat, kind: char)

  function IsDigit(c: char): bool { '0' <= c <= '9' }

  /** The end of the digits from `i` on. */
  function DigitsEnd(fmt: string, i: nat): (j: nat)
    requires i <= |fmt|
    ensures i <= j <= |fmt|
    decreases |fmt| - i
  {
    if i < |fmt| && IsDigit(fmt[i]) then DigitsEnd(fmt, i + 1) else i
  }

  function Decimal(t: string): nat {
    if t == "" then 0
    else Decimal(t[..|t| - 1]) * 10 + if IsDigit(t[|t| - 1]) then (t[|t| - 1] - '0') as nat else 0
  }

  /** Behind the flag `c`, if it stands at `i`. */
  function Behind(fmt: string, i: nat, c: char): (j: nat)
    requires i <= |fmt|
    ensures i <= j <= |fmt|
  {
    if i < |fmt| && fmt[i] == c then i + 1 else i
  }

  /** The pieces of a format string from `i` on: a directive is `%`, an optional `-`, an optional `0`, digits and a
      letter; one that the end of the string cuts off ends the output. */
  function Pieces(fmt: string, i: nat): seq<Piece>
    requires i <= |fmt|
    decreases |fmt| - i
  {
    if i == |fmt| then []
    else if fmt[i] != '%' then [Plain(fmt[i])] + Pieces(fmt, i + 1)
    else
      var a := Behind(fmt, i + 1, '-');
      var b := Behind(fmt, a, '0');
      var e := DigitsEnd(fmt, b);
      if e == |fmt| then []
      else [Conv(a == i + 2, b == a + 1, Decimal(fmt[b..e]), fmt[e])] + Pieces(fmt, e + 1)
  }

  /** A variadic argument: a 32-bit word, a string, or the null string. */
  datatype Arg = Word(w: u32) | Text(s: string) | Null

  predicate TakesWord(p: Piece) {
    p.Conv? && (p.kind == 'd' || p.kind == 'u' || p.kind == 'x' || p.kind == 'X' || p.kind == 'p' || p.kind == 'c')
  }

  predicate TakesText(p: Piece) { p.Conv? && p.kind == 's' }

  predicate FitsOne(p: Piece, args: seq<Arg>) {
    && (TakesWord(p) ==> args != [] && args[0].Word?)
    && (TakesText(p) ==> args != [] && !args[0].Word?)
  }

  /** How many arguments a piece uses up. */
  function Taken(p: Piece): nat { if TakesWord(p) || TakesText(p) then 1 else 0 }

  /** The caller passes one argument of the right kind for each directive that takes one. */
  predicate Fits(ps: seq<Piece>, args: seq<Arg>) {
    ps == [] || (FitsOne(ps[0], args) && Fits(ps[1..], args[Taken(ps[0])..]))
  }

  function WordText(p: Piece, w: u32): string
    requires TakesWord(p)
  {
    match p.kind
    case 'd' => Field(p.left, p.zero, p.width, Sign(Signed(w)), Shown(Magnitude(Signed(w)), 10, false))
    case 'u' => Field(p.left, p.zero, p.width, "", Shown(w, 10, false))
    case 'x' => Field(p.left, p.zero, p.width, "", Shown(w, 16, false))
    case 'X' => Field(p.left, p.zero, p.width, "", Shown(w, 16, true))
    case 'p' => "0x" + Field(false, true, 8, "", Shown(w, 16, false))
    case _ => [LowByte(w)]
  }

  /** The conversion of a word to char keeps its low byte. */
  function LowByte(w: u32): char { (w % 256) as char }

  function StringOf(a: Arg): string
    requires !a.Word?
  {
    if a.Null? then "(null)" else a.s
  }

  function PieceText(p: Piece, args: seq<Arg>): string
    requires FitsOne(p, args)
  {
    if p.Plain? then [p.c]
    else if TakesWord(p) then WordText(p, args[0].w)
    else if TakesText(p) then Field(p.left, false, p.width, "", StringOf(args[0]))
    else if p.kind == '%' then "%" else "?"
  }

  /** The output of the pieces. */
  function Output(ps: seq<Piece>, args: seq<Arg>): string
    requires Fits(ps, args)
  {
    if ps == [] then "" else PieceText(ps[0], args) + Output(ps[1..], args[Taken(ps[0])..])
  }

  // ---- reading a field back ----------------------------------------------------------------------------

  function DigitOf(c: char): nat {
    if '0' <= c <= '9' then (c - '0') as nat
    else if 'a' <= c <= 'f' then (c - 'a') as nat + 10
    else if 'A' <= c <= 'F' then (c - 'A') as nat + 10
    else 16
  }

  function SkipSpaces(t: string): string {
    if t != "" && t[0] == ' ' then SkipSpaces(t[1..]) else t
  }

  /** The leading digits of a text. */
  function TakeDigits(t: string, base: nat): seq<nat>
    requires base <= 16
  {
    if t != "" && DigitOf(t[0]) < base then [DigitOf(t[0])] + TakeDigits(t[1..], base) else []
  }

  /** A number as a reader sees it: spaces, an optional minus sign, digits up to the first other character. */
  function Scan(t: string, base: nat): int
    requires base <= 16
  {
    var u := SkipSpaces(t);
    if u != "" && u[0] == '-' then -(Value(TakeDigits(u[1..], base), base) as int) else Value(TakeDigits(u, base), base)
  }

  lemma {:induction false} SkipTimes(n: int, t: string)
    ensures SkipSpaces(Times(' ', n) + t) == SkipSpaces(t)
    decreases if n > 0 then n else 0
  {
    if n > 0 {
      assert (Times(' ', n) + t)[1..] == Times(' ', n - 1) + t;
      SkipTimes(n - 1, t);
    } else {
      assert Times(' ', n) + t == t;
    }
  }

  lemma {:induction false} TakeGlyphs(ds: seq<nat>, upper: bool, base: nat, rest: string)
    requires base <= 16 && Digits(ds, base) && Digits(ds, 16)
    ensures TakeDigits(Glyphs(ds, upper) + rest, base) == ds + TakeDigits(rest, base)
    decreases |ds|
  {
    hide TakeDigits, Glyph;
    if ds == [] {
      assert Glyphs(ds, upper) + rest == rest;
    } else {
      var k := |ds| - 1;
      var g := Glyph(ds[k], upper);
      assert Glyphs(ds, upper) + rest == Glyphs(ds[..k], upper) + ([g] + rest);
      TakeGlyphs(ds[..k], upper, base, [g] + rest);
      TakeOne(ds[k], upper, base, rest);
      assert ds == ds[..k] + [ds[k]];
    }
  }

  lemma TakeOne(d: nat, upper: bool, base: nat, rest: string)
    requires d < base <= 16
    ensures TakeDigits([Glyph(d, upper)] + rest, base) == [d] + TakeDigits(rest, base)
  {
    assert DigitOf(Glyph(d, upper)) == d;
    assert ([Glyph(d, upper)] + rest)[1..] == rest;
  }

  lemma {:induction false} TakeZeros(n: int, t: string, base: nat)
    requires 0 < base <= 16
    ensures TakeDigits(Times('0', n) + t, base) == seq(|Times('0', n)|, _ => 0) + TakeDigits(t, base)
    decreases if n > 0 then n else 0
  {
    if n > 0 {
      assert (Times('0', n) + t)[1..] == Times('0', n - 1) + t;
      TakeZeros(n - 1, t, base);
    } else {
      assert Times('0', n) + t == t;
    }
  }

  lemma {:induction false} GlyphsStart(ds: seq<nat>, upper: bool)
    requires ds != [] && Digits(ds, 16)
    ensures Glyphs(ds, upper)[0] == Glyph(ds[0], upper)
    decreases |ds|
  {
    if |ds| > 1 { GlyphsStart(ds[..|ds| - 1], upper); }
  }

  /** Whatever its flags and width, a field holding the digits of `v` reads back as `v`, with its sign. */
  lemma FieldReadsBack(left: bool, zero: bool, width: int, negative: bool, v: nat, base: nat, upper: bool)
    requires 2 <= base <= 16
    ensures Scan(Field(left, zero, width, if negative then "-" else "", Shown(v, base, upper)), base)
         == if negative then -(v as int) else v
  {
    var ds, text, sign := Numeral(v, base), Shown(v, base, upper), if negative then "-" else "";
    var gap := width - |sign| - |text|;
    var zeros := if !left && zero then Times('0', gap) else "";
    var tail := if left then Times(' ', gap) else "";
    var front := if !left && !zero then Times(' ', gap) else "";
    assert Field(left, zero, width, sign, text) == front + (sign + (zeros + (text + tail))) by {
      hide Shown, Times;
      FieldParts(left, zero, width, sign, text);
    }
    DigitsOfField(if !left && zero then gap else 0, v, base, upper, if left then gap else 0);
    var body := zeros + (text + tail);
    assert body != "" && body[0] != ' ' && body[0] != '-' by { GlyphsStart(ds, upper); }
    SkipTimes(if !left && !zero then gap else 0, sign + body);
    if negative { assert (sign + body)[1..] == body; } else { assert sign + body == body; }
  }

  /** Where the filling of a field goes: behind with the left flag, between sign and text with the zero flag alone, and
      in front otherwise. */
  lemma FieldShape(left: bool, zero: bool, width: int, sign: string, text: string, i: nat)
    requires i < |Field(left, zero, width, sign, text)|
    ensures var f := Field(left, zero, width, sign, text);
      var n, k := |sign| + |text|, |f| - |sign| - |text|;
      && |f| == (if width > n then width else n)
      && (left ==> f[..n] == sign + text && (i >= n ==> f[i] == ' '))
      && (!left && zero ==> f[..|sign|] == sign && f[|sign| + k..] == text && (|sign| <= i < |sign| + k ==> f[i] == '0'))
      && (!left && !zero ==> f[k..] == sign + text && (i < k ==> f[i] == ' '))
  {
    FieldWidth(left, zero, width, sign, text);
    var gap := width - |sign| - |text|;
    var f, k := Field(left, zero, width, sign, text), if gap > 0 then gap else 0;
    if left {
      assert f == (sign + text) + Times(' ', gap);
    } else if zero {
      assert f == sign + Times('0', gap) + text;
    } else {
      assert f == Times(' ', gap) + (sign + text);
    }
  }

  /** The digits shown are those of the number, 0 to 9 and then letters, small or capital as asked. */
  lemma {:induction false} GlyphsAre(ds: seq<nat>, upper: bool, i: nat)
    requires Digits(ds, 16) && i < |ds|
    ensures Glyphs(ds, upper)[i] ==
      if ds[i] < 10 then '0' + ds[i] as char else (if upper then 'A' else 'a') + (ds[i] - 10) as char
    decreases |ds|
  {
    hide Glyph;
    var k := |ds| - 1;
    if i < k { GlyphsAre(ds[..k], upper, i); } else { GlyphIs(ds[k], upper); }
  }

  lemma GlyphIs(d: nat, upper: bool)
    requires d < 16
    ensures Glyph(d, upper) == if d < 10 then '0' + d as char else (if upper then 'A' else 'a') + (d - 10) as char
  {
  }

  lemma ShownDigits(v: nat, base: nat, upper: bool, i: nat)
    requires 2 <= base <= 16 && i < |Numeral(v, base)|
    ensures |Shown(v, base, upper)| == |Numeral(v, base)|
    ensures var d := Numeral(v, base)[i];
      d < base && Shown(v, base, upper)[i] ==
        if d < 10 then '0' + d as char else (if upper then 'A' else 'a') + (d - 10) as char
  {
    WithinSixteen(Numeral(v, base), base);
    GlyphsAre(Numeral(v, base), upper, i);
  }

  /** `%x` sends no capital letter and `%X` no small one: besides filling there are the digits of their own case. */
  lemma HexLetters(p: Piece, w: u32, i: nat)
    requires TakesWord(p) && p.kind in "xX" && i < |WordText(p, w)|
    ensures var c := WordText(p, w)[i];
      c == ' ' || '0' <= c <= '9' || (p.kind == 'x' && 'a' <= c <= 'f') || (p.kind == 'X' && 'A' <= c <= 'F')
  {
    hide Shown, Field;
    var t := Shown(w, 16, p.kind == 'X');
    assert WordText(p, w) == Field(p.left, p.zero, p.width, "", t);
    FieldLetters(p.left, p.zero, p.width, t, i);
    if WordText(p, w)[i] in t {
      var at :| 0 <= at < |t| && t[at] == WordText(p, w)[i];
      ShownLengthIs(w, 16, p.kind == 'X');
      ShownDigits(w, 16, p.kind == 'X', at);
    }
  }

  /** A field without a sign holds its text and what fills it. */
  lemma FieldLetters(left: bool, zero: bool, width: int, t: string, i: nat)
    requires i < |Field(left, zero, width, "", t)|
    ensures var c := Field(left, zero, width, "", t)[i]; c == ' ' || c == '0' || c in t
  {
    var gap := width - |t|;
    UnsignedField(left, zero, width, t);
    OnlyFilling(' ', gap);
    OnlyFilling('0', gap);
    hide Times, Field;
    if left {
      InEither(t, Times(' ', gap), i);
    } else {
      InEither(Times(if zero then '0' else ' ', gap), t, i);
    }
  }

  lemma UnsignedField(left: bool, zero: bool, width: int, t: string)
    ensures var gap := width - |t|;
      Field(left, zero, width, "", t) ==
        if left then t + Times(' ', gap) else Times(if zero then '0' else ' ', gap) + t
  {
    hide Times;
    var gap := width - |t|;
    assert "" + t == t && "" + Times('0', gap) == Times('0', gap) && Times(' ', gap) + "" == Times(' ', gap);
  }

  lemma OnlyFilling(c: char, n: int)
    ensures forall x :: x in Times(c, n) ==> x == c
  {
  }

  lemma InEither(a: string, b: string, i: nat)
    requires i < |a + b|
    ensures (a + b)[i] in a || (a + b)[i] in b
  {
    if i < |a| { assert (a + b)[i] == a[i]; } else { assert (a + b)[i] == b[i - |a|]; }
  }

  lemma ShownLengthIs(v: nat, base: nat, upper: bool)
    requires 2 <= base <= 16
    ensures |Shown(v, base, upper)| == |Numeral(v, base)|
  {
    WithinSixteen(Numeral(v, base), base);
  }

  /** The other directives: `%c` sends the character of the low byte, `%s` the string, or "(null)", in a field filled with
      spaces, `%%` a percent sign, any other letter a question mark; only the first two take an argument. */
  lemma OtherDirectives(left: bool, zero: bool, width: nat, kind: char, args: seq<Arg>)
    requires FitsOne(Conv(left, zero, width, kind), args) && kind !in "duxXp"
    ensures var (t, n) := (PieceText(Conv(left, zero, width, kind), args), Taken(Conv(left, zero, width, kind)));
      if kind == 'c' then args != [] && args[0].Word? && t == [(args[0].w % 256) as char] && n == 1
      else if kind == 's' then args != [] && n == 1 &&
        match args[0]
        case Text(s) => t == Field(left, false, width, "", s)
        case Null => t == Field(left, false, width, "", "(null)")
        case Word(_) => false
      else n == 0 && t == if kind == '%' then "%" else "?"
  {
  }

  lemma FieldParts(left: bool, zero: bool, width: int, sign: string, text: string)
    ensures var gap := width - |sign| - |text|;
      Field(left, zero, width, sign, text)
      == (if !left && !zero then Times(' ', gap) else "")
         + (sign + ((if !left && zero then Times('0', gap) else "") + (text + if left then Times(' ', gap) else "")))
  {
    var gap := width - |sign| - |text|;
    if left {
      assert text + Times(' ', gap) == "" + (text + Times(' ', gap));
    } else {
      assert text + "" == text;
      assert "" + text == text;
    }
  }

  /** Zeros in front and spaces behind leave the digits' value alone. */
  lemma DigitsOfField(zeros: int, v: nat, base: nat, upper: bool, spaces: int)
    requires 2 <= base <= 16
    ensures Value(TakeDigits(Times('0', zeros) + (Shown(v, base, upper) + Times(' ', spaces)), base), base) == v
  {
    var ds := Numeral(v, base);
    TakeZeros(zeros, Shown(v, base, upper) + Times(' ', spaces), base);
    WithinSixteen(ds, base);
    TakeGlyphs(ds, upper, base, Times(' ', spaces));
    assert ds + [] == ds;
    LeadingZeros(|Times('0', zeros)|, ds, base);
    ValueOfNumeral(v, base);
  }

  /** `%d` of every word, the smallest one included, reads back as its signed value. */
  lemma SignedReadsBack(p: Piece, w: u32)
    requires TakesWord(p) && p.kind == 'd'
    ensures Scan(WordText(p, w), 10) == if w < 0x8000_0000 then w else w - 0x1_0000_0000
  {
    FieldReadsBack(p.left, p.zero, p.width, Signed(w) < 0, Magnitude(Signed(w)), 10, false);
  }

  /** `%u`, `%x` and `%X` read back as the word itself, and `%p` does behind its prefix. */
  lemma UnsignedReadsBack(p: Piece, w: u32)
    requires TakesWord(p) && p.kind in "uxXp"
    ensures p.kind == 'u' ==> Scan(WordText(p, w), 10) == w
    ensures p.kind == 'x' || p.kind == 'X' ==> Scan(WordText(p, w), 16) == w
    ensures p.kind == 'p' ==> WordText(p, w)[..2] == "0x" && Scan(WordText(p, w)[2..], 16) == w && |WordText(p, w)| == 10
  {
    hide Field, Scan;
    var base := if p.kind == 'u' then 10 else 16;
    FieldReadsBack(p.left, p.zero, p.width, false, w, base, p.kind == 'X');
    if p.kind == 'p' {
      FieldReadsBack(false, true, 8, false, w, 16, false);
      PointerWidth(w);
    }
  }

  lemma PointerWidth(w: u32)
    ensures |Field(false, true, 8, "", Shown(w, 16, false))| == 8
  {
    assert Pow(16, 8) == TWO32 by { EightHexDigits(); }
    NumeralFits(w, 16, 8);
    FieldWidth(false, true, 8, "", Shown(w, 16, false));
  }

  /** A field is as long as its width asks, or as its sign and text when those are longer. */
  lemma FieldWidth(left: bool, zero: bool, width: int, sign: string, text: string)
    ensures |Field(left, zero, width, sign, text)| == if width > |sign| + |text| then width else |sign| + |text|
  {
    var gap := width - |sign| - |text|;
    assert |Times(' ', gap)| == |Times('0', gap)| == if gap > 0 then gap else 0;
  }

  // ---- the printer -------------------------------------------------------------------------------------

  method CountDigits(v: u32, base: nat) returns (n: nat)
    requires 2 <= base <= 16
    ensures n == |Numeral(v, base)|
  {
    n := 1;
    var rest: nat := v;
    while rest >= base
      invariant n - 1 + |Numeral(rest, base)| == |Numeral(v, base)|
      decreases rest
    {
      Shrinks(rest, base);
      rest := rest / base;
      n := n + 1;
    }
  }

  /** snbuf_putc's statics: the caller's buffer, its size and the next free place. `sent` is every character put. */
  class Printer {
    const buf: array<char>
    const max: nat
    var pos: nat
    ghost var sent: string

    /** The buffer starts with what was sent, cut so that one place is left for the terminator. */
    ghost predicate Valid()
      reads this, buf
    {
      && 0 < max <= buf.Length
      && pos == (if |sent| < max then |sent| else max - 1)
      && buf[..pos] == sent[..pos]
    }

    constructor (buf: array<char>, max: nat)
      requires 0 < max <= buf.Length
      ensures Valid() && sent == "" && this.buf == buf && this.max == max
    {
      this.buf, this.max, pos, sent := buf, max, 0, "";
    }

    method Put(c: char)
      requires Valid()
      modifies `pos, `sent, buf
      ensures Valid() && sent == old(sent) + [c] && buf[max - 1..] == old(buf[max - 1..])
    {
      if pos + 1 < max {
        buf[pos] := c;
        pos := pos + 1;
      }
      sent := sent + [c];
    }

    method EmitPad(c: char, n: int)
      requires Valid()
      modifies `pos, `sent, buf
      ensures Valid() && sent == old(sent) + Times(c, n) && buf[max - 1..] == old(buf[max - 1..])
    {
      var left := n;
      while left > 0
        invariant Valid() && left <= n && buf[max - 1..] == old(buf[max - 1..])
        invariant sent == old(sent) + Times(c, n - left)
        invariant left >= 0 || left == n
      {
        Put(c);
        left := left - 1;
      }
      assert Times(c, n - left) == Times(c, n);
    }

    /** emit_uint; the digits are collected lowest first in a 32-place buffer and sent in reverse. */
    method EmitUint(v: u32, base: int, pad: int, zero: bool, upper: bool, left: bool)
      requires Valid()
      modifies `pos, `sent, buf
      ensures Valid() && buf[max - 1..] == old(buf[max - 1..])
      ensures sent == old(sent) + Field(left, zero, pad, "", Shown(v, if 2 <= base <= 16 then base else 10, upper))
    {
      hide Times, Shown, Field;
      var b := if base < 2 || base > 16 then 10 else base;
      ghost var text := Shown(v, b, upper);
      UnsignedAfter(sent, left, zero, pad, text);
      var digits, n := ReversedDigits(v, b, upper);
      if !left { EmitPad(if zero then '0' else ' ', pad - n); }
      SendBackwards(digits, n);
      if left { EmitPad(' ', pad - n); }
    }

    /** The first `n` characters of a buffer, the last one first. */
    method SendBackwards(digits: array<char>, n: nat)
      requires Valid() && digits != buf && n <= digits.Length
      modifies `pos, `sent, buf
      ensures Valid() && sent == old(sent) + Backwards(old(digits[..n])) && buf[max - 1..] == old(buf[max - 1..])
    {
      hide Backwards;
      ghost var text := digits[..n];
      var i := n;
      assert text[..n] == text;
      while i > 0
        invariant 0 <= i <= n && Valid() && buf[max - 1..] == old(buf[max - 1..]) && digits[..n] == text
        invariant sent + Backwards(text[..i]) == old(sent) + Backwards(text)
      {
        i := i - 1;
        BackwardsLast(text[..i], text[i]);
        assert text[..i + 1] == text[..i] + [text[i]];
        Regrouped(sent, [text[i]], Backwards(text[..i]));
        Put(digits[i]);
      }
      BackwardsNothing(sent);
    }

    /** The characters of a string in order. */
    method Send(s: string)
      requires Valid()
      modifies `pos, `sent, buf
      ensures Valid() && sent == old(sent) + s && buf[max - 1..] == old(buf[max - 1..])
    {
      var i := 0;
      while i < |s|
        invariant i <= |s| && Valid() && buf[max - 1..] == old(buf[max - 1..])
        invariant sent == old(sent) + s[..i]
      {
        Put(s[i]);
        i := i + 1;
      }
    }

    method EmitStr(s: string, pad: int, left: bool)
      requires Valid()
      modifies `pos, `sent, buf
      ensures Valid() && buf[max - 1..] == old(buf[max - 1..])
      ensures sent == old(sent) + Field(left, false, pad, "", s)
    {
      hide Times, Field;
      UnsignedAfter(sent, left, false, pad, s);
      var n := |s|;
      if !left { EmitPad(' ', pad - n); }
      Send(s);
      if left { EmitPad(' ', pad - n); }
    }

    /** The case 'd' of kvformat. */
    method EmitSigned(w: u32, left: bool, zero: bool, pad: nat)
      requires Valid()
      modifies `pos, `sent, buf
      ensures Valid() && buf[max - 1..] == old(buf[max - 1..])
      ensures sent == old(sent) + WordText(Conv(left, zero, pad, 'd'), w)
    {
      hide Field, Shown;
      var v := Signed(w);
      var uv: u32 := if v < 0 then -(v + 1) + 1 else v;
      if v >= 0 {
        EmitUint(uv, 10, pad, zero, false, left);
      } else if zero && !left {
        EmitZeroFilled(uv, pad);
      } else {
        EmitSpaced(uv, left, zero, pad);
      }
    }

    /** A negative number with zeros behind its sign. */
    method EmitZeroFilled(uv: u32, pad: nat)
      requires Valid()
      modifies `pos, `sent, buf
      ensures Valid() && buf[max - 1..] == old(buf[max - 1..])
      ensures sent == old(sent) + Field(false, true, pad, "-", Shown(uv, 10, false))
    {
      hide Times, Shown, Field;
      ghost var t := Shown(uv, 10, false);
      FieldAfter(sent, false, true, pad, "-", t);
      UnsignedAfter(sent + "-", false, true, pad - 1, t);
      Put('-');
      EmitUint(uv, 10, pad - 1, true, false, false);
    }

    /** A negative number with spaces in front or behind; count_digits tells how many. */
    method EmitSpaced(uv: u32, left: bool, zero: bool, pad: nat)
      requires Valid() && (left || !zero)
      modifies `pos, `sent, buf
      ensures Valid() && buf[max - 1..] == old(buf[max - 1..])
      ensures sent == old(sent) + Field(left, zero, pad, "-", Shown(uv, 10, false))
    {
      hide Times, Shown, Field;
      ShownLength(uv);
      Unpadded(zero, Shown(uv, 10, false));
      FieldAfter(sent, left, zero, pad, "-", Shown(uv, 10, false));
      var n := CountDigits(uv, 10);
      if !left { EmitPad(' ', pad - 1 - n); }
      Put('-');
      EmitUint(uv, 10, 0, zero, false, false);
      if left { EmitPad(' ', pad - 1 - n); }
    }

    /** The cases of kvformat's switch that fetch a word. */
    method EmitWord(left: bool, zero: bool, pad: nat, kind: char, w: u32)
      requires Valid() && TakesWord(Conv(left, zero, pad, kind))
      modifies `pos, `sent, buf
      ensures Valid() && buf[max - 1..] == old(buf[max - 1..])
      ensures sent == old(sent) + WordText(Conv(left, zero, pad, kind), w)
    {
      hide Field, Shown;
      match kind {
        case 'd' => EmitSigned(w, left, zero, pad);
        case 'u' => EmitUint(w, 10, pad, zero, false, left);
        case 'x' => EmitUint(w, 16, pad, zero, false, left);
        case 'X' => EmitUint(w, 16, pad, zero, true, left);
        case 'p' => EmitPointer(w);
        case _ => Put(LowByte(w));
      }
    }

    method EmitPointer(w: u32)
      requires Valid()
      modifies `pos, `sent, buf
      ensures Valid() && buf[max - 1..] == old(buf[max - 1..])
      ensures sent == old(sent) + ("0x" + Field(false, true, 8, "", Shown(w, 16, false)))
    {
      hide Field, Shown;
      Put('0');
      Put('x');
      EmitUint(w, 16, 8, true, false, false);
    }

    /** The switch of kvformat on the letter of a directive; `taken` counts the arguments fetched. */
    method Convert(left: bool, zero: bool, pad: nat, kind: char, args: seq<Arg>) returns (taken: nat)
      requires Valid() && FitsOne(Conv(left, zero, pad, kind), args)
      modifies `pos, `sent, buf
      ensures Valid() && buf[max - 1..] == old(buf[max - 1..])
      ensures taken == Taken(Conv(left, zero, pad, kind))
      ensures sent == old(sent) + PieceText(Conv(left, zero, pad, kind), args)
    {
      hide Field, WordText;
      taken := 1;
      if TakesWord(Conv(left, zero, pad, kind)) {
        EmitWord(left, zero, pad, kind, args[0].w);
      } else if kind == 's' {
        EmitStr(StringOf(args[0]), pad, left);
      } else {
        Put(if kind == '%' then '%' else '?');
        taken := 0;
      }
    }

    /** kvformat. */
    method Kvformat(fmt: string, args: seq<Arg>)
      requires Valid() && Fits(Pieces(fmt, 0), args)
      modifies `pos, `sent, buf
      ensures Valid() && buf[max - 1..] == old(buf[max - 1..])
      ensures sent == old(sent) + Output(Pieces(fmt, 0), args)
    {
      hide FitsOne, PieceText, Taken, Pieces, Output, Fits;
      EndOfFormat(fmt);
      var i: nat, a: nat := 0, 0;
      while i < |fmt|
        invariant i <= |fmt| && a <= |args| && Valid() && buf[max - 1..] == old(buf[max - 1..])
        invariant Fits(Pieces(fmt, i), args[a..])
        invariant old(sent) + Output(Pieces(fmt, 0), args) == sent + Output(Pieces(fmt, i), args[a..])
      {
        if fmt[i] != '%' {
          PlainPiece(fmt, i);
          OneMore(fmt, i, Plain(fmt[i]), i + 1, args[a..]);
          assert sent + Output(Pieces(fmt, i), args[a..]) == (sent + [fmt[i]]) + Output(Pieces(fmt, i + 1), args[a..]);
          Put(fmt[i]);
          i := i + 1;
        } else {
          var left, zero, pad, e := Directive(fmt, i);
          if e == |fmt| { return; }
          var p := Conv(left, zero, pad, fmt[e]);
          OneMore(fmt, i, p, e + 1, args[a..]);
          var taken := Convert(left, zero, pad, fmt[e], args[a..]);
          assert args[a..][taken..] == args[a + taken..];
          a := a + taken;
          i := e + 1;
        }
      }
    }
  }

  lemma EndOfFormat(fmt: string)
    ensures Pieces(fmt, |fmt|) == [] && forall args :: Output([], args) == ""
  {
  }

  lemma PlainPiece(fmt: string, i: nat)
    requires i < |fmt| && fmt[i] != '%'
    ensures Pieces(fmt, i) == [Plain(fmt[i])] + Pieces(fmt, i + 1)
  {
  }

  lemma ShownLength(v: nat)
    ensures |Shown(v, 10, false)| == |Numeral(v, 10)|
  {
  }

  lemma Unpadded(zero: bool, text: string)
    ensures Field(false, zero, 0, "", text) == text
  {
    assert Times('0', -|text|) == Times(' ', -|text|) == "";
    assert "" + text == text;
  }

  lemma FieldAfter(s: string, left: bool, zero: bool, pad: int, sign: string, t: string)
    ensures var gap := pad - |sign| - |t|;
      s + Field(left, zero, pad, sign, t)
      == if left then s + sign + t + Times(' ', gap)
         else if zero then s + sign + Times('0', gap) + t
         else s + Times(' ', gap) + sign + t
  {
    hide Times;
    var spaces, zeros := Times(' ', pad - |sign| - |t|), Times('0', pad - |sign| - |t|);
    if left {
      assert s + (sign + t + spaces) == s + sign + t + spaces;
    } else if zero {
      assert s + (sign + zeros + t) == s + sign + zeros + t;
    } else {
      assert s + (spaces + sign + t) == s + spaces + sign + t;
    }
  }

  /** FieldAfter without a sign. */
  lemma UnsignedAfter(s: string, left: bool, zero: bool, pad: int, t: string)
    ensures s + Field(left, zero, pad, "", t)
         == if left then s + t + Times(' ', pad - |t|) else s + Times(if zero then '0' else ' ', pad - |t|) + t
  {
    hide Times, Field;
    FieldAfter(s, left, zero, pad, "", t);
    assert s + "" == s;
    assert s + Times(' ', pad - |t|) + "" == s + Times(' ', pad - |t|);
  }

  lemma OneMore(fmt: string, i: nat, p: Piece, next: nat, args: seq<Arg>)
    requires i < next <= |fmt| && Pieces(fmt, i) == [p] + Pieces(fmt, next) && Fits(Pieces(fmt, i), args)
    ensures FitsOne(p, args) && Taken(p) <= |args| && Fits(Pieces(fmt, next), args[Taken(p)..])
    ensures Output(Pieces(fmt, i), args) == PieceText(p, args) + Output(Pieces(fmt, next), args[Taken(p)..])
    ensures p.Plain? ==> PieceText(p, args) == [p.c] && Taken(p) == 0 && args[0..] == args
  {
    hide WordText;
    assert ([p] + Pieces(fmt, next))[1..] == Pieces(fmt, next);
  }

  /** The flags, the width and the place of the letter of the directive at `i`. */
  method Directive(fmt: string, i: nat) returns (left: bool, zero: bool, pad: nat, e: nat)
    requires i < |fmt| && fmt[i] == '%'
    ensures i < e <= |fmt|
    ensures e == |fmt| ==> Pieces(fmt, i) == []
    ensures e < |fmt| ==> Pieces(fmt, i) == [Conv(left, zero, pad, fmt[e])] + Pieces(fmt, e + 1)
  {
    hide Pieces, Decimal;
    e := i + 1;
    left, zero, pad := false, false, 0;
    if e < |fmt| && fmt[e] == '-' { left := true; e := e + 1; }
    if e < |fmt| && fmt[e] == '0' { zero := true; e := e + 1; }
    ghost var b := e;
    assert fmt[b..e] == "";
    NoDigits();
    while e < |fmt| && IsDigit(fmt[e])
      invariant b <= e <= |fmt| && DigitsEnd(fmt, b) == DigitsEnd(fmt, e) && pad == Decimal(fmt[b..e])
    {
      DecimalStep(fmt, b, e);
      pad := pad * 10 + (fmt[e] - '0') as nat;
      e := e + 1;
    }
    PiecesDirective(fmt, i, left, zero, b, e);
  }

  lemma NoDigits()
    ensures Decimal("") == 0
  {
  }

  lemma DecimalStep(fmt: string, b: nat, e: nat)
    requires b <= e < |fmt| && IsDigit(fmt[e])
    ensures Decimal(fmt[b..e + 1]) == Decimal(fmt[b..e]) * 10 + (fmt[e] - '0') as nat
  {
    assert fmt[b..e + 1][..e - b] == fmt[b..e];
  }

  lemma PiecesDirective(fmt: string, i: nat, left: bool, zero: bool, b: nat, e: nat)
    requires i < |fmt| && fmt[i] == '%' && i < b <= e <= |fmt| && e == DigitsEnd(fmt, b)
    requires left == (i + 1 < |fmt| && fmt[i + 1] == '-')
    requires var a := if left then i + 2 else i + 1; zero == (a < |fmt| && fmt[a] == '0') && b == if zero then a + 1 else a
    ensures e == |fmt| ==> Pieces(fmt, i) == []
    ensures e < |fmt| ==> Pieces(fmt, i) == [Conv(left, zero, Decimal(fmt[b..e]), fmt[e])] + Pieces(fmt, e + 1)
  {
    hide Decimal, DigitsEnd, IsDigit, Pieces;
    var a := if left then i + 2 else i + 1;
    PiecesAt(fmt, i, a, b, e);
  }

  /** One directive of Pieces, its flags ending at `a` and `b`. */
  lemma PiecesAt(fmt: string, i: nat, a: nat, b: nat, e: nat)
    requires i < |fmt| && fmt[i] == '%' && a == Behind(fmt, i + 1, '-') && b == Behind(fmt, a, '0') && e == DigitsEnd(fmt, b)
    ensures i < b <= e <= |fmt| && Pieces(fmt, i) ==
      if e == |fmt| then [] else [Conv(a == i + 2, b == a + 1, Decimal(fmt[b..e]), fmt[e])] + Pieces(fmt, e + 1)
  {
    hide Decimal, DigitsEnd, IsDigit, Behind;
  }

  lemma {:induction false} DigitsEndAt(fmt: string, b: nat, e: nat)
    requires b <= e <= |fmt| && (forall i :: b <= i < e ==> '0' <= fmt[i] <= '9')
    requires e < |fmt| ==> !('0' <= fmt[e] <= '9')
    ensures DigitsEnd(fmt, b) == e
    decreases e - b
  {
    if b < e { DigitsEndAt(fmt, b + 1, e); }
  }

  lemma {:induction false} DecimalOfGlyphs(ds: seq<nat>)
    requires Digits(ds, 10) && Digits(ds, 16)
    ensures Decimal(Glyphs(ds, false)) == Value(ds, 10)
    decreases |ds|
  {
    hide Glyph;
    if ds != [] {
      var k := |ds| - 1;
      DecimalOfGlyphs(ds[..k]);
      GlyphIs(ds[k], false);
      assert Glyphs(ds, false)[..k] == Glyphs(ds[..k], false);
    }
  }

  /** The width of a directive as it is written: nothing for none, otherwise its decimal digits. */
  lemma WidthReads(width: nat) returns (t: string)
    ensures Decimal(t) == width && (t == "" <==> width == 0) && (t != "" ==> t[0] != '0')
    ensures forall i :: 0 <= i < |t| ==> '0' <= t[i] <= '9'
    ensures t == if width == 0 then "" else Shown(width, 10, false)
  {
    t := "";
    if width > 0 {
      t := Shown(width, 10, false);
      var ds := Numeral(width, 10);
      WithinSixteen(ds, 10);
      DecimalOfGlyphs(ds);
      ValueOfNumeral(width, 10);
      NoLeadingZero(width, 10);
      ShownLengthIs(width, 10, false);
      hide Shown;
      forall i | 0 <= i < |t| ensures '0' <= t[i] <= '9' && (i == 0 ==> t[i] != '0') { ShownDigits(width, 10, false, i); }
    }
  }

  /** Every directive a caller writes, a percent sign, a minus sign for the left flag, a 0 for the zero flag, the width
      in decimal, a letter, is read with these flags, that width and that letter. */
  lemma DirectiveReads(fmt: string, i: nat, left: bool, zero: bool, width: nat, kind: char)
    requires kind != '-' && !('0' <= kind <= '9')
    requires var t := "%" + (if left then "-" else "") + (if zero then "0" else "")
                      + (if width == 0 then "" else Shown(width, 10, false)) + [kind];
      i + |t| <= |fmt| && fmt[i..i + |t|] == t
    ensures var t := "%" + (if left then "-" else "") + (if zero then "0" else "")
                     + (if width == 0 then "" else Shown(width, 10, false)) + [kind];
      Pieces(fmt, i) == [Conv(left, zero, width, kind)] + Pieces(fmt, i + |t|)
  {
    var digits := WidthReads(width);
    hide Shown, Pieces, Decimal, DigitsEnd, IsDigit, Behind;
    var front := "%" + (if left then "-" else "") + (if zero then "0" else "");
    var b := i + |front|;
    var e := b + |digits|;
    assert fmt[i..e + 1] == front + digits + [kind];
    Written(fmt, i, front, digits, kind);
    FrontOf(left, zero);
    assert fmt[i + 0] == front[0] && (left ==> fmt[i + 1] == front[1]);
    assert zero ==> fmt[i + (|front| - 1)] == front[|front| - 1];
    DigitsEndAt(fmt, b, e);
    FlagsRead(fmt, i, left, zero, b);
    PiecesDirective(fmt, i, left, zero, b, e);
  }

  lemma FrontOf(left: bool, zero: bool)
    ensures var front := "%" + (if left then "-" else "") + (if zero then "0" else "");
      && |front| == 1 + (if left then 1 else 0) + (if zero then 1 else 0) && front[0] == '%'
      && (left ==> front[1] == '-') && (zero ==> front[|front| - 1] == '0')
  {
  }

  /** Where the parts of a directive stand. */
  lemma Written(fmt: string, i: nat, front: string, digits: string, kind: char)
    requires var n := |front| + |digits| + 1; i + n <= |fmt| && fmt[i..i + n] == front + digits + [kind]
    requires forall k :: 0 <= k < |digits| ==> '0' <= digits[k] <= '9'
    ensures var b := i + |front|;
      && (forall k :: 0 <= k < |front| ==> fmt[i + k] == front[k])
      && fmt[b..b + |digits|] == digits && fmt[b + |digits|] == kind
      && forall k :: b <= k < b + |digits| ==> '0' <= fmt[k] <= '9'
  {
    var t, b := front + digits + [kind], i + |front|;
    forall k | 0 <= k < |t| ensures fmt[i + k] == t[k] { assert fmt[i..i + |t|][k] == t[k]; }
    assert fmt[b..b + |digits|] == digits by {
      forall k | 0 <= k < |digits| ensures fmt[b + k] == digits[k] { assert t[|front| + k] == digits[k]; }
    }
    forall k | b <= k < b + |digits| ensures '0' <= fmt[k] <= '9' {
      assert fmt[k] == fmt[b..b + |digits|][k - b] == digits[k - b];
    }
    assert t[|front| + |digits|] == kind;
  }

  /** The flags as they are written decide where the width begins. */
  lemma FlagsRead(fmt: string, i: nat, left: bool, zero: bool, b: nat)
    requires b == i + 1 + (if left then 1 else 0) + (if zero then 1 else 0) && b < |fmt|
    requires (left ==> fmt[i + 1] == '-') && (zero ==> fmt[b - 1] == '0') && fmt[b] != '-' && fmt[b] != '0'
    ensures left == (i + 1 < |fmt| && fmt[i + 1] == '-')
    ensures var a := if left then i + 2 else i + 1; zero == (a < |fmt| && fmt[a] == '0') && b == if zero then a + 1 else a
  {
  }

  /** ksnprintf: the first maxlen - 1 characters of the output and a terminator behind them. */
  method Ksnprintf(buf: array?<char>, maxlen: u32, fmt: string, args: seq<Arg>)
    requires buf != null ==> maxlen <= buf.Length
    requires Fits(Pieces(fmt, 0), args)
    modifies buf
    ensures buf != null && maxlen == 0 ==> buf[..] == old(buf[..])
    ensures buf != null && maxlen > 0 ==>
      var t := Output(Pieces(fmt, 0), args);
      var n := if |t| < maxlen then |t| else maxlen - 1;
      buf[..n] == t[..n] && buf[n] == '\0' && buf[maxlen..] == old(buf[maxlen..])
  {
    hide Output, Pieces, Fits;
    if buf == null || maxlen == 0 { return; }
    var out := new Printer(buf, maxlen);
    out.Kvformat(fmt, args);
    assert "" + Output(Pieces(fmt, 0), args) == Output(Pieces(fmt, 0), args);
    TailOfTail(old(buf[..]), buf[..], maxlen - 1);
    buf[out.pos] := '\0';
  }

  lemma TailOfTail(before: string, after: string, k: nat)
    requires k < |before| == |after| && before[k..] == after[k..]
    ensures before[k + 1..] == after[k + 1..]
  {
    assert before[k..][1..] == after[k..][1..];
  }

  /** The digits not yet taken off. */
  function Rest(rest: nat, base: nat, upper: bool): string
    requires 2 <= base <= 16
  {
    if rest == 0 then "" else Shown(rest, base, upper)
  }

  lemma RestStep(rest: nat, base: nat, upper: bool)
    requires 2 <= base <= 16 && rest > 0
    ensures Rest(rest, base, upper) == Rest(rest / base, base, upper) + [Glyph(rest % base, upper)]
  {
    hide Numeral, Glyphs, Glyph;
    var d := rest % base;
    NumeralStep(rest, base);
    if rest < base {
      GlyphsAppend([], d, upper);
      assert [] + [d] == [d];
      NoGlyphs(upper);
    } else {
      WithinSixteen(Numeral(rest / base, base), base);
      GlyphsAppend(Numeral(rest / base, base), d, upper);
    }
  }

  lemma NumeralStep(n: nat, base: nat)
    requires base >= 2 && n > 0
    ensures n < base ==> Numeral(n, base) == [n % base] && n / base == 0
    ensures n >= base ==> Numeral(n, base) == Numeral(n / base, base) + [n % base] && n / base > 0
  {
    Shrinks(n, base);
  }

  lemma GlyphsAppend(ds: seq<nat>, d: nat, upper: bool)
    requires Digits(ds, 16) && d < 16
    ensures Glyphs(ds + [d], upper) == Glyphs(ds, upper) + [Glyph(d, upper)]
  {
    assert (ds + [d])[..|ds|] == ds;
  }

  lemma NoGlyphs(upper: bool)
    ensures Glyphs([], upper) == ""
  {
  }

  lemma WordBits()
    ensures Pow(2, 32) == TWO32
  {
    EightHexDigits();
    PowOfPow(8);
  }

  lemma {:induction false} PowOfPow(k: nat)
    ensures Pow(2, 4 * k) == Pow(16, k)
  {
    if k > 0 {
      PowOfPow(k - 1);
      assert Pow(2, 4 * k) == 2 * Pow(2, 4 * k - 1);
      assert Pow(2, 4 * k - 2) == 2 * Pow(2, 4 * k - 3);
      assert Pow(2, 4 * k - 3) == 2 * Pow(2, 4 * (k - 1));
    }
  }

  function Backwards(t: string): string {
    if t == "" then "" else [t[|t| - 1]] + Backwards(t[..|t| - 1])
  }

  lemma BackwardsLast(t: string, c: char)
    ensures Backwards(t + [c]) == [c] + Backwards(t)
  {
    assert (t + [c])[..|t|] == t;
  }

  lemma BackwardsNothing(s: string)
    ensures Backwards("") == "" && s + "" == s && Backwards("0") == "0"
  {
    assert "0"[..0] == "";
  }

  lemma {:induction false} BackwardsLength(t: string)
    ensures |Backwards(t)| == |t|
  {
    if t != "" { BackwardsLength(t[..|t| - 1]); }
  }

  /** The digits of `v` in the first `n` places of a fresh buffer of 32, lowest first. */
  method ReversedDigits(v: u32, base: nat, upper: bool) returns (digits: array<char>, n: nat)
    requires 2 <= base <= 16
    ensures fresh(digits) && n == |Shown(v, base, upper)| <= digits.Length
    ensures Backwards(digits[..n]) == Shown(v, base, upper)
  {
    hide Shown, Rest, Pow, Glyph, Numeral, Backwards;
    ghost var text := Shown(v, base, upper);
    digits, n := new char[32], 0;
    BackwardsNothing(text);
    if v == 0 {
      ZeroShown(base, upper);
      digits[0], n := '0', 1;
      assert digits[..n] == "0";
    } else {
      var rest: nat := v;
      WordBits();
      RestIsShown(v, base, upper);
      assert digits[..n] == "";
      while rest > 0
        invariant n <= 32 && rest < Pow(2, 32 - n)
        invariant Rest(rest, base, upper) + Backwards(digits[..n]) == text
        decreases rest
      {
        RestStep(rest, base, upper);
        Shrinks(rest, base);
        HalfBelow(rest, 32 - n);
        ghost var before, g := digits[..n], Glyph(rest % base, upper);
        BackwardsLast(before, g);
        Regrouped(Rest(rest / base, base, upper), [g], Backwards(before));
        digits[n] := Glyph(rest % base, upper);
        assert digits[..n + 1] == before + [g];
        n := n + 1;
        rest := rest / base;
      }
      NoRest(base, upper);
      assert "" + Backwards(digits[..n]) == Backwards(digits[..n]);
    }
    BackwardsLength(digits[..n]);
  }

  lemma ZeroShown(base: nat, upper: bool)
    requires 2 <= base <= 16
    ensures Shown(0, base, upper) == "0"
  {
    assert Glyphs([0], upper) == Glyphs([], upper) + [Glyph(0, upper)];
  }

  lemma RestIsShown(v: nat, base: nat, upper: bool)
    requires 2 <= base <= 16 && v > 0
    ensures Rest(v, base, upper) == Shown(v, base, upper)
  {
  }

  lemma NoRest(base: nat, upper: bool)
    requires 2 <= base <= 16
    ensures Rest(0, base, upper) == ""
  {
  }

  lemma HalfBelow(rest: nat, e: nat)
    requires 0 < rest < Pow(2, e)
    ensures e > 0 && forall q: nat :: 2 * q <= rest ==> q < Pow(2, e - 1)
  {
  }
}
