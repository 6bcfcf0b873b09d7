/** The chunked-body and entity decoders of drivers/net/http.c. */
module Http {
  import opened Arithmetic
  import opened Types
  import opened Numerals

  // ---- the dechunk loop --------------------------------------------------------------------------------

  const CR: u8 := 13
  const LF: u8 := 10

  /** What a character of a size line adds; one that is no hexadecimal digit adds nothing but still shifts. */
  function Hex(c: u8): nat {
    if 48 <= c <= 57 then c - 48 else if 97 <= c <= 102 then c - 87 else if 65 <= c <= 70 then c - 55 else 0
  }

  function HexValues(t: seq<u8>): (ds: seq<nat>)
    ensures |ds| == |t|
  {
    if t == [] then [] else HexValues(t[..|t| - 1]) + [Hex(t[|t| - 1])]
  }

  function LineValue(t: seq<u8>): nat { Value(HexValues(t), 16) }

  /** The end of the size line that starts at `i`. */
  function LineEnd(mem: seq<u8>, total: nat, i: nat): (e: nat)
    requires i <= total <= |mem|
    ensures i <= e <= total
    decreases total - i
  {
    if i < total && mem[i] != CR then LineEnd(mem, total, i + 1) else i
  }

  /** `LeftModel`: a copy would read past the receive buffer or write past the body. */
  datatype Result = Body(data: seq<u8>) | LeftModel

  /** The bytes to copy: cut to what the body still takes, the sum taken in 32 bits. */
  function Capped(size: u32, done: nat, blen: u32): nat
    requires done <= blen
  {
    if (done + size) % TWO32 > blen then blen - done else size
  }

  /** The chunks of the `total` bytes received into `mem`, from `i` on and behind `done`. */
  function Dechunk(mem: seq<u8>, total: nat, i: nat, done: seq<u8>, blen: u32): Result
    requires total <= |mem| && |done| <= blen
    decreases total - i
  {
    if i >= total then Body(done)
    else
      var e := LineEnd(mem, total, i);
      var size := LineValue(mem[i..e]) % TWO32;
      if size == 0 then Body(done)
      else
        var n := Capped(size, |done|, blen);
        if e + 2 + n > |mem| || |done| + n > blen then LeftModel
        else Dechunk(mem, total, e + 2 + n + 2, done + mem[e + 2..e + 2 + n], blen)
  }

  method ReadSize(mem: seq<u8>, total: nat, i: nat) returns (e: nat, size: u32)
    requires i <= total <= |mem|
    ensures e == LineEnd(mem, total, i) && size == LineValue(mem[i..e]) % TWO32
  {
    hide LineValue;
    e, size := i, 0;
    NoLine(mem, i);
    while e < total && mem[e] != CR
      invariant i <= e <= total && LineEnd(mem, total, e) == LineEnd(mem, total, i)
      invariant size == LineValue(mem[i..e]) % TWO32
    {
      LineStep(mem, i, e);
      DigitStep(LineValue(mem[i..e]), 16, Hex(mem[e]), TWO32);
      size := (size * 16 + Hex(mem[e])) % TWO32;
      e := e + 1;
    }
  }

  lemma NoLine(mem: seq<u8>, i: nat)
    requires i <= |mem|
    ensures LineValue(mem[i..i]) == 0
  {
    assert mem[i..i] == [];
  }

  lemma LineStep(mem: seq<u8>, i: nat, e: nat)
    requires i <= e < |mem|
    ensures LineValue(mem[i..e + 1]) == LineValue(mem[i..e]) * 16 + Hex(mem[e])
  {
    assert mem[i..e + 1][..e - i] == mem[i..e];
    ValueAppend(HexValues(mem[i..e]), Hex(mem[e]), 16);
  }

  method CopyInto(body: array<u8>, at: nat, src: seq<u8>)
    requires at + |src| <= body.Length
    modifies body
    ensures body[..at + |src|] == old(body[..at]) + src
  {
    var i := 0;
    while i < |src|
      invariant 0 <= i <= |src| && body[..at + i] == old(body[..at]) + src[..i]
    {
      body[at + i] := src[i];
      i := i + 1;
    }
  }

  lemma DechunkStep(mem: seq<u8>, total: nat, i: nat, done: seq<u8>, blen: u32)
    requires total <= |mem| && |done| <= blen
    ensures i >= total ==> Dechunk(mem, total, i, done, blen) == Body(done)
    ensures i < total ==>
      var e := LineEnd(mem, total, i);
      var size := LineValue(mem[i..e]) % TWO32;
      var n := Capped(size, |done|, blen);
      Dechunk(mem, total, i, done, blen) ==
        if size == 0 then Body(done)
        else if e + 2 + n > |mem| || |done| + n > blen then LeftModel
        else Dechunk(mem, total, e + 2 + n + 2, done + mem[e + 2..e + 2 + n], blen)
  {
    hide LineEnd, LineValue, Capped;
  }

  /** The dechunk loop: the decoded bytes and a terminator behind them. */
  method DechunkBody(mem: seq<u8>, total: nat, start: nat, blen: u32) returns (body: array<u8>, len: nat, outside: bool)
    requires total <= |mem|
    ensures fresh(body) && len < body.Length == blen + 1
    ensures Dechunk(mem, total, start, [], blen) == if outside then LeftModel else Body(body[..len])
    ensures !outside ==> body[len] == 0
  {
    hide Dechunk, LineValue, LineEnd;
    body := new u8[blen + 1];
    len, outside := 0, false;
    var src := start;
    while src < total
      invariant len <= blen && !outside
      invariant Dechunk(mem, total, start, [], blen) == Dechunk(mem, total, src, body[..len], blen)
      decreases total - src
    {
      DechunkStep(mem, total, src, body[..len], blen);
      var e, size := ReadSize(mem, total, src);
      if size == 0 { break; }
      var n := Capped(size, len, blen);
      if e + 2 + n > |mem| || len + n > blen {
        outside := true;
        return;
      }
      CopyInto(body, len, mem[e + 2..e + 2 + n]);
      len := len + n;
      src := e + 2 + n + 2;
    }
    if src >= total { DechunkStep(mem, total, src, body[..len], blen); }
    ghost var data := body[..len];
    body[len] := 0;
    assert body[..len] == data;
  }

  // ---- any chunked encoding (section 7.1 of RFC 9112) --------------------------------------------------

  datatype Chunk = Chunk(line: seq<u8>, data: seq<u8>)

  /** The loop reads `n` from this line. */
  predicate Reads(line: seq<u8>, n: nat) {
    LineValue(line) % TWO32 == n && forall i :: 0 <= i < |line| ==> line[i] != CR
  }

  /** A line of hexadecimal digits alone, in either case and with any leading zeros, is read as its value. */
  lemma ExtensionFreeReads(line: seq<u8>)
    requires LineValue(line) < TWO32
    requires forall i :: 0 <= i < |line| ==> 48 <= line[i] <= 57 || 97 <= line[i] <= 102 || 65 <= line[i] <= 70
    ensures Reads(line, LineValue(line))
  {
  }

  /** Digits 0 to 9 and a to f, in either case, are read as the number they spell. */
  lemma {:induction false} HexReads(line: seq<u8>, ds: seq<nat>)
    requires |line| == |ds| && forall i :: 0 <= i < |ds| ==>
      ds[i] < 16 && if ds[i] < 10 then line[i] == 48 + ds[i] else line[i] == 87 + ds[i] || line[i] == 55 + ds[i]
    ensures HexValues(line) == ds && LineValue(line) == Value(ds, 16)
    decreases |ds|
  {
    hide Hex, Value;
    if ds != [] {
      var k := |ds| - 1;
      HexReads(line[..k], ds[..k]);
      HexDigit(line[k], ds[k]);
      assert ds == ds[..k] + [ds[k]];
    }
  }

  lemma HexDigit(c: u8, d: nat)
    requires d < 16 && if d < 10 then c == 48 + d else c == 87 + d || c == 55 + d
    ensures Hex(c) == d
  {
  }

  /** Digits spelled with small letters. */
  function HexText(ds: seq<nat>): (t: seq<u8>)
    requires Digits(ds, 16)
    ensures |t| == |ds| && forall i :: 0 <= i < |ds| ==> t[i] == if ds[i] < 10 then 48 + ds[i] else 87 + ds[i]
  {
    seq(|ds|, i requires 0 <= i < |ds| => if ds[i] < 10 then 48 + ds[i] else 87 + ds[i])
  }

  lemma HexTextReads(ds: seq<nat>)
    requires Digits(ds, 16)
    ensures LineValue(HexText(ds)) == Value(ds, 16)
    ensures forall i :: 0 <= i < |ds| ==> 48 <= HexText(ds)[i] <= 57 || 97 <= HexText(ds)[i] <= 102
  {
    hide HexText, LineValue, Value;
    HexReads(HexText(ds), ds);
  }

  /** Every size can be spelled, with any number of zeros in front. */
  lemma EverySizeHasALine(n: u32, zeros: nat) returns (line: seq<u8>)
    ensures |line| >= zeros && Reads(line, n) && forall i :: 0 <= i < |line| ==> 48 <= line[i] <= 57 || 97 <= line[i] <= 102
  {
    hide HexText, LineValue, Value, Numeral;
    var ds := seq(zeros, _ => 0) + Numeral(n, 16);
    line := HexText(ds);
    HexTextReads(ds);
    LeadingZeros(zeros, Numeral(n, 16), 16);
    ValueOfNumeral(n, 16);
  }

  predicate ChunkOk(c: Chunk) { c.data != [] && Reads(c.line, |c.data|) }

  function ChunkBytes(c: Chunk): seq<u8> { c.line + [CR, LF] + c.data + [CR, LF] }

  function Chunks(cs: seq<Chunk>): seq<u8> { if cs == [] then [] else ChunkBytes(cs[0]) + Chunks(cs[1..]) }

  function Data(cs: seq<Chunk>): seq<u8> { if cs == [] then [] else cs[0].data + Data(cs[1..]) }

  lemma {:induction false} LineEndAt(mem: seq<u8>, total: nat, i: nat, e: nat)
    requires i <= e < total <= |mem| && mem[e] == 13 && forall k :: i <= k < e ==> mem[k] != 13
    ensures LineEnd(mem, total, i) == e
    decreases e - i
  {
    if i < e { LineEndAt(mem, total, i + 1, e); }
  }

  lemma SizeLine(mem: seq<u8>, total: nat, i: nat, line: seq<u8>)
    requires i + |line| < total <= |mem| && mem[i..i + |line|] == line && mem[i + |line|] == CR
    requires forall k :: 0 <= k < |line| ==> line[k] != CR
    ensures LineEnd(mem, total, i) == i + |line|
  {
    forall k | i <= k < i + |line| ensures mem[k] != CR { assert mem[k] == mem[i..i + |line|][k - i] == line[k - i]; }
    LineEndAt(mem, total, i, i + |line|);
  }

  lemma OneChunk(mem: seq<u8>, total: nat, i: nat, c: Chunk, done: seq<u8>, blen: u32)
    requires ChunkOk(c) && i + |ChunkBytes(c)| <= total <= |mem| < TWO32 && mem[i..i + |ChunkBytes(c)|] == ChunkBytes(c)
    requires |done| + |c.data| <= blen
    ensures Dechunk(mem, total, i, done, blen) == Dechunk(mem, total, i + |ChunkBytes(c)|, done + c.data, blen)
  {
    hide LineValue, LineEnd, Dechunk, ChunkBytes;
    ChunkParts(mem, i, c);
    SizeLine(mem, total, i, c.line);
    DechunkStep(mem, total, i, done, blen);
  }

  lemma LineAndData(b: seq<u8>, line: seq<u8>, data: seq<u8>)
    requires b == line + [CR, LF] + data + [CR, LF]
    ensures var (l, n) := (|line|, |data|);
      && |b| == l + n + 4 && b[..l] == line && b[l] == CR && b[l + 1] == LF && b[l + 2..l + 2 + n] == data
      && b[l + 2 + n] == CR && b[l + 2 + n + 1] == LF
  {
  }

  /** The pieces of an encoded chunk where it stands in memory. */
  lemma ChunkParts(mem: seq<u8>, i: nat, c: Chunk)
    requires i + |ChunkBytes(c)| <= |mem| && mem[i..i + |ChunkBytes(c)|] == ChunkBytes(c)
    ensures var (l, n) := (|c.line|, |c.data|);
      && |ChunkBytes(c)| == l + 2 + n + 2
      && mem[i..i + l] == c.line && mem[i + l] == 13 && mem[i + l + 1] == 10 && mem[i + l + 2..i + l + 2 + n] == c.data
      && mem[i + l + 2 + n] == 13 && mem[i + l + 2 + n + 1] == 10
  {
    var b, l, n := ChunkBytes(c), |c.line|, |c.data|;
    LineAndData(b, c.line, c.data);
    hide ChunkBytes;
    SubSlice(mem, i, i + |b|, 0, l);
    SubSlice(mem, i, i + |b|, l + 2, l + 2 + n);
    assert mem[i + l] == mem[i..i + |b|][l] && mem[i + l + 1] == mem[i..i + |b|][l + 1];
    assert mem[i + l + 2 + n] == mem[i..i + |b|][l + 2 + n] && mem[i + l + 2 + n + 1] == mem[i..i + |b|][l + 2 + n + 1];
  }

  /** A chunk with more data than the body still takes is cut to that. */
  lemma LongChunkIsCut(mem: seq<u8>, total: nat, i: nat, c: Chunk, done: seq<u8>, blen: u32)
    requires ChunkOk(c) && i + |ChunkBytes(c)| <= total <= |mem| < TWO32 && mem[i..i + |ChunkBytes(c)|] == ChunkBytes(c)
    requires |done| <= blen < |done| + |c.data| < TWO32
    ensures var room := blen - |done|;
      Dechunk(mem, total, i, done, blen) == Dechunk(mem, total, i + |c.line| + 2 + room + 2, done + c.data[..room], blen)
  {
    hide LineValue, LineEnd, Dechunk, ChunkBytes;
    ChunkParts(mem, i, c);
    SizeLine(mem, total, i, c.line);
    DechunkStep(mem, total, i, done, blen);
    SubSlice(mem, i + |c.line| + 2, i + |c.line| + 2 + |c.data|, 0, blen - |done|);
  }

  lemma {:induction false} ChunksDecode(mem: seq<u8>, total: nat, i: nat, cs: seq<Chunk>, end: nat, done: seq<u8>, blen: u32)
    requires (forall c :: c in cs ==> ChunkOk(c)) && i <= end <= total <= |mem| < TWO32 && mem[i..end] == Chunks(cs)
    requires |done| + |Data(cs)| <= blen
    ensures Dechunk(mem, total, i, done, blen) == Dechunk(mem, total, end, done + Data(cs), blen)
    decreases |cs|
  {
    hide Dechunk, ChunkOk, ChunkBytes;
    if cs == [] {
      assert done + Data(cs) == done;
    } else {
      var b := ChunkBytes(cs[0]);
      assert mem[i..i + |b|] == mem[i..end][..|b|] == b;
      assert mem[i + |b|..end] == mem[i..end][|b|..] == Chunks(cs[1..]);
      OneChunk(mem, total, i, cs[0], done, blen);
      ChunksDecode(mem, total, i + |b|, cs[1..], end, done + cs[0].data, blen);
      assert done + cs[0].data + Data(cs[1..]) == done + Data(cs);
    }
  }

  /** The loop returns the concatenation of the chunks, whatever follows the line of the last chunk, as long as
      every size line is read right: all those without extensions, and those with one that ExtensionReadsRight admits. */
  lemma DechunkInvertsChunking(mem: seq<u8>, total: nat, start: nat, cs: seq<Chunk>, last: seq<u8>, blen: u32)
    requires (forall c :: c in cs ==> ChunkOk(c)) && start <= total <= |mem| < TWO32 && |Data(cs)| <= blen
    requires Reads(last, 0)
    requires var head := Chunks(cs) + last + [CR, LF]; |head| <= total - start && mem[start..start + |head|] == head
    ensures Dechunk(mem, total, start, [], blen) == Body(Data(cs))
  {
    hide LineValue, LineEnd, Chunks, Data, Dechunk;
    var all, n := mem[start..start + |Chunks(cs) + last + [CR, LF]|], |Chunks(cs)|;
    SubSlice(mem, start, start + |all|, 0, n);
    SubSlice(mem, start, start + |all|, n, n + |last|);
    assert all[..n] == Chunks(cs) && all[n..n + |last|] == last;
    ChunksDecode(mem, total, start, cs, start + n, [], blen);
    assert [] + Data(cs) == Data(cs);
    assert mem[start + n + |last|] == all[n + |last|] == CR;
    SizeLine(mem, total, start + n, last);
    DechunkStep(mem, total, start + n, Data(cs), blen);
  }

  lemma {:induction false} HexValuesConcat(a: seq<u8>, b: seq<u8>)
    ensures HexValues(a + b) == HexValues(a) + HexValues(b)
    decreases |b|
  {
    if b == [] {
      assert a + b == a;
    } else {
      var k := |b| - 1;
      HexValuesConcat(a, b[..k]);
      assert (a + b)[..|a| + k] == a + b[..k];
    }
  }

  /** A chunk extension shifts the size by four bits a character and adds its own digits. The size is read right
      exactly when the difference vanishes in 32 bits; behind eight characters nothing of the size is left, and
      the extension must spell it itself; while nothing overflows, a larger size is read. */
  lemma ExtensionReadsRight(line: seq<u8>, ext: seq<u8>)
    requires LineValue(line) < TWO32
    ensures Pow(16, |ext|) >= 1
    ensures LineValue(line + ext) % TWO32 == LineValue(line)
       <==> (LineValue(line) * (Pow(16, |ext|) - 1) + LineValue(ext)) % TWO32 == 0
    ensures |ext| >= 8 ==> LineValue(line + ext) % TWO32 == LineValue(ext) % TWO32
    ensures ext != [] && 0 < LineValue(line) && LineValue(line + ext) < TWO32 ==> LineValue(line + ext) > LineValue(line)
  {
    hide LineValue, Pow;
    var v, x, p := LineValue(line), LineValue(ext), Pow(16, |ext|);
    ExtendedValue(line, ext);
    Distribute(v, p - 1, 1);
    MulNonNegative(v, p - 1);
    RemainderIs(v * p + x, TWO32, v);
    if |ext| >= 8 {
      EightHexDigits();
      PowAdd(16, 8, |ext| - 8);
      Associate(v, TWO32, Pow(16, |ext| - 8));
      Associate(TWO32, v, Pow(16, |ext| - 8));
      AddMultiple(TWO32, v * Pow(16, |ext| - 8), x);
    }
    if ext != [] {
      PowAtLeast(|ext|);
      Ordered(v, 2, p);
    }
  }

  lemma ExtendedValue(line: seq<u8>, ext: seq<u8>)
    ensures LineValue(line + ext) == LineValue(line) * Pow(16, |ext|) + LineValue(ext)
  {
    HexValuesConcat(line, ext);
    ValueConcat(HexValues(line), HexValues(ext), 16);
  }

  /** The line "5;a" is read as 0x50A, not 5. */
  lemma ExtensionMisread()
    ensures LineValue([53] + [59, 97]) % TWO32 == 0x50A != LineValue([53])
  {
    ExtendedValue([53], [59, 97]);
    DigitLine(53);
    DigitLine(59);
    DigitLine(97);
    ExtendedValue([59], [97]);
    assert [59] + [97] == [59, 97];
    assert Pow(16, 1) == 16 * Pow(16, 0);
    PowAdd(16, 1, 1);
  }

  lemma DigitLine(c: u8)
    ensures LineValue([c]) == Hex(c)
  {
    assert [c][..0] == [];
    assert HexValues([c]) == HexValues([]) + [Hex(c)] == [Hex(c)];
    ValueAppend([], Hex(c), 16);
    assert [] + [Hex(c)] == [Hex(c)];
  }

  lemma {:induction false} PowAtLeast(k: nat)
    requires k > 0
    ensures Pow(16, k) >= 16
  {
    if k > 1 { PowAtLeast(k - 1); } else { assert Pow(16, 0) == 1; }
  }

  // ---- decode_entities -----------------------------------------------------------------------------------

  predicate Starts(s: string, i: nat, t: string) { i + |t| <= |s| && s[i..i + |t|] == t }

  /** The character and the length of what stands at `i`: an entity, or the character itself. */
  function Entity(s: string, i: nat): (r: (char, nat))
    requires i < |s|
    ensures 1 <= r.1 && i + r.1 <= |s|
  {
    if Starts(s, i, "&amp;") then ('&', 5)
    else if Starts(s, i, "&lt;") then ('<', 4)
    else if Starts(s, i, "&gt;") then ('>', 4)
    else if Starts(s, i, "&nbsp;") then (' ', 6)
    else (s[i], 1)
  }

  function Decode(s: string, i: nat): (t: string)
    requires i <= |s|
    ensures |t| <= |s| - i
    decreases |s| - i
  {
    if i == |s| then "" else [Entity(s, i).0] + Decode(s, i + Entity(s, i).1)
  }

  /** What is decoded where: four entities, wherever they stand, and every other character as itself. */
  lemma DecodesOne(s: string, i: nat)
    requires i < |s|
    ensures i + 5 <= |s| && s[i..i + 5] == "&amp;" ==> Decode(s, i) == "&" + Decode(s, i + 5)
    ensures i + 4 <= |s| && s[i..i + 4] == "&lt;" ==> Decode(s, i) == "<" + Decode(s, i + 4)
    ensures i + 4 <= |s| && s[i..i + 4] == "&gt;" ==> Decode(s, i) == ">" + Decode(s, i + 4)
    ensures i + 6 <= |s| && s[i..i + 6] == "&nbsp;" ==> Decode(s, i) == " " + Decode(s, i + 6)
    ensures (!(i + 5 <= |s| && s[i..i + 5] == "&amp;") && !(i + 4 <= |s| && s[i..i + 4] in {"&lt;", "&gt;"})
             && !(i + 6 <= |s| && s[i..i + 6] == "&nbsp;")) ==> Decode(s, i) == [s[i]] + Decode(s, i + 1)
  {
    EntityIs(s, i);
    hide Entity;
  }

  lemma EntityIs(s: string, i: nat)
    requires i < |s|
    ensures Starts(s, i, "&amp;") ==> Entity(s, i) == ('&', 5)
    ensures Starts(s, i, "&lt;") ==> Entity(s, i) == ('<', 4)
    ensures Starts(s, i, "&gt;") ==> Entity(s, i) == ('>', 4)
    ensures Starts(s, i, "&nbsp;") ==> Entity(s, i) == (' ', 6)
    ensures !Starts(s, i, "&amp;") && !Starts(s, i, "&lt;") && !Starts(s, i, "&gt;") && !Starts(s, i, "&nbsp;") ==>
      Entity(s, i) == (s[i], 1)
  {
    forall t: string | |t| > 1 && Starts(s, i, t) ensures t[1] == s[i + 1] { assert s[i..i + |t|][1] == s[i + 1]; }
  }

  function EscapeChar(c: char): string {
    if c == '&' then "&amp;" else if c == '<' then "&lt;" else if c == '>' then "&gt;" else [c]
  }

  function Escape(t: string): string { if t == "" then "" else EscapeChar(t[0]) + Escape(t[1..]) }

  lemma EscapedChar(s: string, i: nat, c: char)
    requires Starts(s, i, EscapeChar(c))
    ensures i < |s| && Entity(s, i) == (c, |EscapeChar(c)|)
  {
    var e := EscapeChar(c);
    assert s[i..i + |e|][0] == s[i];
    if c != '&' && c != '<' && c != '>' {
      assert s[i] == c;
      assert forall t: string {:trigger Starts(s, i, t)} :: t != "" && Starts(s, i, t) ==> t[0] == c by {
        forall t: string | t != "" && Starts(s, i, t) ensures t[0] == c { assert s[i..i + |t|][0] == s[i]; }
      }
    } else {
      assert s[i + 1] == s[i..i + |e|][1];
      if i + 5 <= |s| && c != '&' { assert s[i..i + 5][1] == s[i + 1]; }
      if c == '>' { assert s[i..i + 4][1] == s[i + 1]; }
    }
  }

  /** Decoding undoes escaping, wherever the escaped text stands, and exactly once: a decoded `&` is not read again. */
  lemma {:induction false} DecodeInvertsEscape(s: string, i: nat, t: string)
    requires Starts(s, i, Escape(t))
    ensures i + |Escape(t)| <= |s|
    ensures Decode(s, i) == t + Decode(s, i + |Escape(t)|)
    decreases |t|
  {
    hide Entity, EscapeChar, Decode;
    if t == "" {
      assert t + Decode(s, i) == Decode(s, i);
    } else {
      var e, rest := EscapeChar(t[0]), Escape(t[1..]);
      var end := i + |e| + |rest|;
      assert Escape(t) == e + rest;
      StartsWithBoth(s, i, e, rest);
      EscapedChar(s, i, t[0]);
      DecodeInvertsEscape(s, i + |e|, t[1..]);
      DecodeStep(s, i, t[0], |e|);
      FirstAndRest(t, Decode(s, end));
    }
  }

  lemma FirstAndRest(t: string, u: string)
    requires t != ""
    ensures t + u == [t[0]] + (t[1..] + u)
  {
  }

  lemma DecodeStep(s: string, i: nat, c: char, k: nat)
    requires i < |s| && Entity(s, i) == (c, k)
    ensures i + k <= |s| && Decode(s, i) == [c] + Decode(s, i + k)
  {
  }

  lemma StartsWithBoth(s: string, i: nat, a: string, b: string)
    requires Starts(s, i, a + b)
    ensures Starts(s, i, a) && Starts(s, i + |a|, b)
  {
    SubSlice(s, i, i + |a + b|, 0, |a|);
    SubSlice(s, i, i + |a + b|, |a|, |a + b|);
    assert (a + b)[..|a|] == a && (a + b)[|a|..] == b;
  }

  /** kstrncmp against a constant: it stops at the first difference, at the terminator at the latest. */
  method StartsAt(a: array<char>, ghost n: nat, r: nat, t: string) returns (yes: bool)
    requires r <= n < a.Length && a[n] == '\0' && '\0' !in t
    ensures yes == Starts(a[..n], r, t)
  {
    var k: nat := 0;
    while k < |t|
      invariant k <= |t| && r + k <= n && a[r..r + k] == t[..k]
    {
      if a[r + k] != t[k] {
        StartsNowhere(a[..], n, r, t, k);
        assert a[..][..n] == a[..n];
        return false;
      }
      assert t[k] in t;
      k := k + 1;
    }
    assert t[..k] == t;
    assert a[..n][r..r + |t|] == a[r..r + |t|];
    yes := true;
  }

  lemma StartsNowhere(s: string, n: nat, r: nat, t: string, k: nat)
    requires k < |t| && r + k <= n < |s| && s[r + k] != t[k]
    ensures !Starts(s[..n], r, t)
  {
    if r + |t| <= n { assert s[..n][r..r + |t|][k] == s[r + k]; }
  }

  method ReadEntity(a: array<char>, ghost n: nat, r: nat) returns (c: char, k: nat)
    requires r < n < a.Length && a[n] == '\0'
    ensures (c, k) == Entity(a[..n], r)
  {
    if a[r] == '&' {
      var amp := StartsAt(a, n, r, "&amp;");
      if amp { return '&', 5; }
      var lt := StartsAt(a, n, r, "&lt;");
      if lt { return '<', 4; }
      var gt := StartsAt(a, n, r, "&gt;");
      if gt { return '>', 4; }
      var nbsp := StartsAt(a, n, r, "&nbsp;");
      if nbsp { return ' ', 6; }
    } else {
      NoEntity(a[..n], r);
    }
    return a[r], 1;
  }

  lemma NoEntity(s: string, i: nat)
    requires i < |s| && s[i] != '&'
    ensures Entity(s, i) == (s[i], 1)
  {
    forall t: string | t != "" && Starts(s, i, t) ensures t[0] == s[i] { assert s[i..i + |t|][0] == s[i]; }
  }

  /** Only what stands behind `i` matters. */
  lemma EntityOfTail(s: string, t: string, i: nat)
    requires i < |s| == |t| && s[i..] == t[i..]
    ensures Entity(s, i) == Entity(t, i)
  {
    assert s[i] == s[i..][0] == t[i];
    forall p: string | i + |p| <= |s| ensures Starts(s, i, p) == Starts(t, i, p) {
      assert s[i..i + |p|] == s[i..][..|p|] && t[i..i + |p|] == t[i..][..|p|];
    }
  }

  /** Memory `now` while `before` is being decoded: the reader is at `r`, `w` characters are written, the rest is
      still as it was, and what is written and what is to come make up the result. */
  ghost predicate Decoding(before: string, now: string, n: nat, r: nat, w: nat) {
    && w <= r <= n < |before| == |now| && now[r..] == before[r..]
    && now[..w] + Decode(before[..n], r) == Decode(before[..n], 0)
  }

  lemma DecodingMoves(before: string, now: string, n: nat, r: nat, w: nat)
    requires Decoding(before, now, n, r, w) && r < n
    ensures Entity(now[..n], r) == Entity(before[..n], r)
    ensures var (c, k) := Entity(before[..n], r); Decoding(before, now[w := c], n, r + k, w + 1)
  {
    hide Entity, Decode;
    var s := before[..n];
    var (c, k) := Entity(s, r);
    SameTail(s, before, now, n, r);
    EntityOfTail(s, now[..n], r);
    DecodeStep(s, r, c, k);
    var next := now[w := c];
    assert next[..w + 1] == now[..w] + [c];
    assert now[..w] + ([c] + Decode(s, r + k)) == (now[..w] + [c]) + Decode(s, r + k);
    assert next[r + k..] == now[r + k..] == now[r..][k..] == before[r..][k..] == before[r + k..];
  }

  lemma DecodingEnds(before: string, now: string, n: nat, r: nat, w: nat)
    requires Decoding(before, now, n, r, w) && '\0' !in before[..n]
    ensures r < n ==> now[r] != '\0'
    ensures r == n ==> now[..w] == Decode(before[..n], 0) && now[n + 1..] == before[n + 1..]
  {
    hide Decode;
    if r < n {
      assert now[r] == now[r..][0] == before[r..][0] == before[..n][r] && before[..n][r] in before[..n];
    } else {
      NothingLeft(before[..n]);
      assert now[n + 1..] == now[n..][1..] && before[n + 1..] == before[n..][1..];
    }
  }

  lemma DecodingStarts(before: string, n: nat)
    requires n < |before|
    ensures Decoding(before, before, n, 0, 0)
  {
    assert before[..0] + Decode(before[..n], 0) == Decode(before[..n], 0);
  }

  /** decode_entities on the zero-terminated text in `a`: rewritten in place, the writer never ahead of the reader. */
  method DecodeEntities(a: array<char>, ghost n: nat)
    requires n < a.Length && a[n] == '\0' && '\0' !in a[..n]
    modifies a
    ensures var t := Decode(old(a[..n]), 0); a[..|t|] == t && a[|t|] == '\0'
    ensures a[n + 1..] == old(a[n + 1..])
  {
    hide Entity, Decode, Decoding;
    ghost var before := a[..];
    assert before[..n] == a[..n];
    DecodingStarts(before, n);
    var r: nat, w: nat := 0, 0;
    InBounds(before, a[..], n, r, w);
    while a[r] != '\0'
      invariant w <= r <= n && Decoding(before, a[..], n, r, w)
      decreases n - r
    {
      InBounds(before, a[..], n, r, w);
      DecodingMoves(before, a[..], n, r, w);
      ghost var now := a[..];
      var c, k := ReadEntity(a, n, r);
      a[w] := c;
      assert a[..] == now[w := c];
      w := w + 1;
      r := r + k;
      InBounds(before, a[..], n, r, w);
    }
    DecodingEnds(before, a[..], n, r, w);
    ghost var now := a[..];
    a[w] := '\0';
    assert a[..w] == now[..w] && a[n + 1..] == now[n + 1..];
  }

  lemma InBounds(before: string, now: string, n: nat, r: nat, w: nat)
    requires Decoding(before, now, n, r, w)
    ensures w <= r <= n < |now| == |before| && now[n] == before[n]
  {
    assert now[n] == now[r..][n - r] == before[r..][n - r];
  }

  lemma NothingLeft(s: string)
    ensures Decode(s, |s|) == ""
  {
  }

  lemma SameTail(s: string, before: string, after: string, n: nat, r: nat)
    requires r <= n <= |before| == |after| && s == before[..n] && after[r..] == before[r..]
    ensures s[r..] == after[..n][r..]
  {
    assert after[..n][r..] == after[r..][..n - r];
    assert s[r..] == before[r..][..n - r];
  }
}
