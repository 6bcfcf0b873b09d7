/** The bit reader, the stored blocks and the match copy of apps/deb_installer/deb_installer.c. */
module Inflate {
  import opened Arithmetic
  import opened Types

  // ---- the bits of a byte string, least significant first (section 3.1.1 of RFC 1951) -------------

  /** `b` shifted right `j` times. */
  function Shifted(b: nat, j: nat): nat { if j == 0 then b else Shifted(b, j - 1) / 2 }

  function Bit(src: seq<u8>, p: nat): nat
    requires p < 8 * |src|
  {
    Shifted(src[p / 8], p % 8) % 2
  }

  /** The number whose binary digits are the `n` bits from position `p` on, the first one lowest. */
  function Val(src: seq<u8>, p: nat, n: nat): (v: nat)
    requires p + n <= 8 * |src|
    ensures v < Pow(2, n)
    decreases n
  {
    if n == 0 then 0 else Bit(src, p) + 2 * Val(src, p + 1, n - 1)
  }

  /** Reading a + b bits is reading a and then b. */
  lemma {:induction false} ValSplit(src: seq<u8>, p: nat, a: nat, b: nat)
    requires p + a + b <= 8 * |src|
    ensures Val(src, p, a + b) == Val(src, p, a) + Pow(2, a) * Val(src, p + a, b)
    decreases a
  {
    hide Bit, Shifted;
    if a == 0 {
      assert Pow(2, 0) == 1;
    } else {
      ValSplit(src, p + 1, a - 1, b);
      var rest := Val(src, p + 1, (a - 1) + b);
      assert Val(src, p, a + b) == Bit(src, p) + 2 * rest;
      DoubleProduct(Pow(2, a - 1), Val(src, p + 1 + (a - 1), b));
    }
  }

  lemma DoubleProduct(x: nat, y: nat)
    ensures 2 * x * y == 2 * (x * y)
  {
  }

  lemma ByteShiftsOut(b: nat)
    requires b < 256
    ensures Shifted(b, 8) == 0
  {
    assert Shifted(b, 2) == Shifted(b, 1) / 2 < 64;
    assert Shifted(b, 4) == Shifted(b, 3) / 2 < 16;
    assert Shifted(b, 6) == Shifted(b, 5) / 2 < 4;
    assert Shifted(b, 8) == Shifted(b, 7) / 2;
  }

  lemma {:induction false} TailOfByte(src: seq<u8>, i: nat, j: nat)
    requires i < |src| && j <= 8
    ensures Val(src, 8 * i + j, 8 - j) == Shifted(src[i], j)
    decreases 8 - j
  {
    if j == 8 {
      ByteShiftsOut(src[i]);
    } else {
      TailOfByte(src, i, j + 1);
      BitOfByte(src, i, j);
      hide Bit;
    }
  }

  lemma BitOfByte(src: seq<u8>, i: nat, j: nat)
    requires i < |src| && j < 8
    ensures Bit(src, 8 * i + j) == Shifted(src[i], j) % 2
  {
    assert (8 * i + j) / 8 == i && (8 * i + j) % 8 == j;
  }

  /** Eight bits from a byte boundary are that byte. */
  lemma WholeByte(src: seq<u8>, i: nat)
    requires i < |src|
    ensures Val(src, 8 * i, 8) == src[i]
  {
    TailOfByte(src, i, 0);
  }

  // ---- inf_bits ------------------------------------------------------------------------------------

  class Reader {
    const src: seq<u8>
    const srcLen: nat
    var srcPos: nat
    var bitBuf: u32
    var bitCnt: nat
    var err: bool

    /** The buffered bits are the ones in front of the next byte, fewer than 32 of them. */
    ghost predicate Valid()
      reads this
    {
      && srcPos <= |src| && srcLen <= |src| && bitCnt < 32 && bitCnt <= 8 * srcPos
      && bitBuf == Val(src, 8 * srcPos - bitCnt, bitCnt)
    }

    /** The number of bits already handed out. */
    ghost function BitPos(): nat
      requires Valid()
      reads this
    {
      8 * srcPos - bitCnt
    }

    constructor (src: seq<u8>, srcLen: nat)
      requires srcLen <= |src|
      ensures Valid() && bitCnt == 0 && srcPos == 0 && !err && this.src == src && this.srcLen == srcLen
    {
      this.src, this.srcLen := src, srcLen;
      srcPos, bitBuf, bitCnt, err := 0, 0, 0, false;
    }

    /** Bits that can still be handed out. */
    ghost function Room(): nat
      reads this
    {
      bitCnt + if srcPos < srcLen then 8 * (srcLen - srcPos) else 0
    }

    /** inf_bits: the next `n` bits as a number, or an error when the input ends first. */
    method Bits(n: nat) returns (v: nat)
      requires n <= 24
      requires Valid()
      modifies `srcPos, `bitBuf, `bitCnt, `err
      ensures Valid() && old(srcPos) <= srcPos && err == (old(err) || old(Room()) < n)
      ensures old(Room()) < n ==> v == 0 && BitPos() == old(BitPos()) && Room() == old(Room()) && srcPos >= srcLen
      ensures old(Room()) >= n ==> BitPos() == old(BitPos()) + n <= 8 * |src| && v == Val(src, old(BitPos()), n)
      ensures old(Room()) >= n ==> Room() == old(Room()) - n
      ensures old(Room()) >= n && old(bitCnt) < 8 ==> bitCnt < 8
      ensures n <= old(bitCnt) ==> srcPos == old(srcPos)
    {
      hide Val, Pow;
      while bitCnt < n
        invariant Valid() && BitPos() == old(BitPos()) && old(srcPos) <= srcPos && err == old(err) && Room() == old(Room())
        invariant (bitCnt == old(bitCnt) && srcPos == old(srcPos)) || bitCnt < n + 8
        decreases |src| - srcPos
      {
        if srcPos >= srcLen {
          err := true;
          return 0;
        }
        Load();
      }
      v := Drop(n);
    }

    /** What a stored block does to the buffered bits: they are thrown away. */
    method Align()
      requires Valid()
      modifies `bitBuf, `bitCnt
      ensures Valid() && bitCnt == 0 && BitPos() == 8 * srcPos
    {
      bitBuf, bitCnt := 0, 0;
    }

    /** Moving over whole bytes with no bits buffered. */
    method Advance(n: nat)
      requires Valid() && bitCnt == 0 && srcPos + n <= |src|
      modifies `srcPos
      ensures Valid() && srcPos == old(srcPos) + n
    {
      srcPos := srcPos + n;
    }

    /** One byte more into the buffer: `bit_buf |= src[src_pos++] << bit_cnt`. */
    method Load()
      requires Valid() && srcPos < |src| && bitCnt < 24
      modifies `srcPos, `bitBuf, `bitCnt
      ensures Valid() && BitPos() == old(BitPos()) && srcPos == old(srcPos) + 1
    {
      hide Val, Pow;
      LoadVal(src, srcPos, bitCnt, bitBuf);
      bitBuf := bitBuf + src[srcPos] * Pow(2, bitCnt);
      srcPos := srcPos + 1;
      bitCnt := bitCnt + 8;
    }

    /** The low `n` bits leave the buffer. */
    method Drop(n: nat) returns (v: nat)
      requires Valid() && n <= bitCnt
      modifies `bitBuf, `bitCnt
      ensures Valid() && BitPos() == old(BitPos()) + n && v == Val(src, old(BitPos()), n)
    {
      hide Val, Pow, Shifted, Bit;
      DropVal(src, BitPos(), n, bitCnt - n);
      v := bitBuf % Pow(2, n);
      bitBuf := bitBuf / Pow(2, n);
      bitCnt := bitCnt - n;
    }
  }

  lemma DropVal(src: seq<u8>, p: nat, n: nat, m: nat)
    requires p + n + m <= 8 * |src|
    ensures Pow(2, n) > 0 && Val(src, p, n + m) % Pow(2, n) == Val(src, p, n)
    ensures Val(src, p, n + m) / Pow(2, n) == Val(src, p + n, m)
  {
    ValSplit(src, p, n, m);
    SplitLow(Val(src, p, n), Val(src, p + n, m), Pow(2, n));
  }

  lemma LoadVal(src: seq<u8>, pos: nat, cnt: nat, buf: nat)
    requires pos < |src| && cnt <= 24 && cnt <= 8 * pos && buf == Val(src, 8 * pos - cnt, cnt)
    ensures buf + src[pos] * Pow(2, cnt) == Val(src, 8 * (pos + 1) - (cnt + 8), cnt + 8)
    ensures buf + src[pos] * Pow(2, cnt) < TWO32
  {
    hide Val, Pow, Bit, Shifted;
    var p := 8 * pos - cnt;
    assert p + cnt == 8 * pos && 8 * (pos + 1) - (cnt + 8) == p;
    ValSplit(src, p, cnt, 8);
    WholeByte(src, pos);
    Swapped(Pow(2, cnt), src[pos]);
    LoadFits(buf, cnt, src[pos]);
  }

  lemma Swapped(a: int, b: int)
    ensures a * b == b * a
  {
  }

  lemma LoadFits(buf: nat, cnt: nat, b: u8)
    requires buf < Pow(2, cnt) && cnt <= 24
    ensures buf + b * Pow(2, cnt) < TWO32
  {
    Pow2At24(cnt);
    hide Pow;
    Ordered(Pow(2, cnt), b, 255);
  }

  lemma {:induction false} Pow2At24(cnt: nat)
    requires cnt <= 24
    ensures Pow(2, cnt) <= 0x100_0000
    decreases 24 - cnt
  {
    if cnt < 24 { Pow2At24(cnt + 1); } else { PowAdd(2, 12, 12); }
  }

  lemma SplitLow(low: nat, high: nat, m: nat)
    requires low < m
    ensures (low + m * high) % m == low && (low + m * high) / m == high
  {
    DivisionUnique(low + m * high, m, high, low);
  }

  // ---- gzip_inflate on stored blocks -----------------------------------------------------------------

  /** `Inflated` carries the output; `Failed` is the return value 0. `Huffman`: a fixed-Huffman block was met.
      `Undefined`: the input is cut short where the code reads without looking at its length. */
  datatype Result = Inflated(data: seq<u8>) | Failed | Huffman | Undefined

  /** The blocks from byte `pos` on, behind `done` bytes of output: one header byte per stored block, whose
      lowest bit marks the last block and whose next two tell the type. */
  function Blocks(src: seq<u8>, srcLen: nat, pos: nat, done: seq<u8>, cap: nat): Result
    requires srcLen <= |src|
    decreases |src| - pos
  {
    if pos >= srcLen then Failed
    else
      var kind := src[pos] / 2 % 4;
      if kind == 1 then Huffman
      else if kind != 0 || pos + 5 > srcLen then Failed
      else
        var len := Word16(src[pos + 1], src[pos + 2]);
        if pos + 5 + len > |src| then Undefined
        else if |done| + len > cap then Failed
        else
          var all := done + src[pos + 5..pos + 5 + len];
          if src[pos] % 2 == 1 then Inflated(all) else Blocks(src, srcLen, pos + 5 + len, all, cap)
  }

  /** Behind the zero-terminated text that starts at `i`. */
  function SkipText(gz: seq<u8>, i: nat): (j: nat)
    ensures j > i
    decreases |gz| - i
  {
    if i < |gz| && gz[i] != 0 then SkipText(gz, i + 1) else i + 1
  }

  predicate Flag(flags: u8, bit: nat)
    requires bit > 0
  {
    flags / bit % 2 == 1
  }

  /** Where the compressed data begins: the fixed header, then extra field, name, comment and header checksum. */
  function HeaderEnd(gz: seq<u8>): nat
    requires |gz| >= 18
  {
    var a := if Flag(gz[3], 4) then 12 + Word16(gz[10], gz[11]) else 10;
    var b := if Flag(gz[3], 8) then SkipText(gz, a) else a;
    var c := if Flag(gz[3], 16) then SkipText(gz, b) else b;
    if Flag(gz[3], 2) then c + 2 else c
  }

  function Gunzip(gz: seq<u8>, cap: nat): Result {
    if |gz| < 18 || gz[0] != 0x1F || gz[1] != 0x8B then Failed
    else
      var skip := HeaderEnd(gz);
      if skip + 8 > |gz| then Undefined
      else Blocks(gz[skip..], |gz| - skip - 8, 0, [], cap)
  }

  // ---- the inverse: any gzip file made of stored blocks ------------------------------------------------

  /** A header of section 2.3 of RFC 1952: the fields between the flags and the optional ones, and the
      optional ones in order; texts are given without their terminating zero. */
  datatype Header = Header(flags: u8, fixed: seq<u8>, extra: seq<u8>, name: seq<u8>, comment: seq<u8>, crc: seq<u8>)

  predicate HeaderOk(h: Header) {
    && |h.fixed| == 6 && |h.extra| < 0x10000 && 0 !in h.name && 0 !in h.comment && |h.crc| == 2
  }

  function EncodeHeader(h: Header): seq<u8>
    requires HeaderOk(h)
  {
    [0x1F, 0x8B, 8, h.flags] + h.fixed + (ExtraPart(h) + (NamePart(h) + (CommentPart(h) + CrcPart(h))))
  }

  /** A stored block of section 3.2.4 of RFC 1951; `pad` are the five ignored bits behind its type. */
  datatype Stored = Stored(pad: u8, data: seq<u8>)

  predicate StoredOk(b: Stored) { b.pad < 32 && |b.data| < 0x10000 }

  function EncodeBlock(b: Stored, last: bool): seq<u8>
    requires StoredOk(b)
  {
    var n := |b.data|;
    [b.pad * 8 + (if last then 1 else 0), n % 256, n / 256, 255 - n % 256, 255 - n / 256] + b.data
  }

  function EncodeBlocks(bs: seq<Stored>): seq<u8>
    requires forall b :: b in bs ==> StoredOk(b)
  {
    if bs == [] then [] else EncodeBlock(bs[0], |bs| == 1) + EncodeBlocks(bs[1..])
  }

  function Data(bs: seq<Stored>): seq<u8> {
    if bs == [] then [] else bs[0].data + Data(bs[1..])
  }

  lemma {:induction false} BlocksRoundTrip(src: seq<u8>, srcLen: nat, pos: nat, bs: seq<Stored>, done: seq<u8>, cap: nat)
    requires bs != [] && forall b :: b in bs ==> StoredOk(b)
    requires srcLen <= |src| && pos <= srcLen && src[pos..srcLen] == EncodeBlocks(bs)
    requires |done| + |Data(bs)| <= cap
    ensures Blocks(src, srcLen, pos, done, cap) == Inflated(done + Data(bs))
    decreases |bs|
  {
    hide EncodeBlock, EncodeBlocks, Data, Word16, Blocks, StoredOk;
    EncodeBlocksCons(bs);
    var b := bs[0];
    var next := pos + 5 + |b.data|;
    OneBlock(src, srcLen, pos, b, |bs| == 1, EncodeBlocks(bs[1..]));
    BlocksStored(src, srcLen, pos, done, cap);
    if |bs| > 1 {
      BlocksRoundTrip(src, srcLen, next, bs[1..], done + b.data, cap);
      assert (done + b.data) + Data(bs[1..]) == done + (b.data + Data(bs[1..]));
    }
  }

  lemma EncodeBlocksCons(bs: seq<Stored>)
    requires bs != [] && forall b :: b in bs ==> StoredOk(b)
    ensures EncodeBlocks(bs) == EncodeBlock(bs[0], |bs| == 1) + EncodeBlocks(bs[1..]) && |EncodeBlocks(bs)| >= 5
    ensures Data(bs) == bs[0].data + Data(bs[1..]) && (|bs| == 1 ==> Data(bs) == bs[0].data)
  {
    if |bs| == 1 { assert bs[1..] == []; }
  }

  /** What the decoder sees at the start of an encoded block. */
  lemma OneBlock(src: seq<u8>, srcLen: nat, pos: nat, b: Stored, last: bool, rest: seq<u8>)
    requires StoredOk(b) && srcLen <= |src| && pos <= srcLen && src[pos..srcLen] == EncodeBlock(b, last) + rest
    ensures var n := |b.data|;
      && pos + 5 + n <= srcLen && src[pos] / 2 % 4 == 0 && (src[pos] % 2 == 1 <==> last)
      && Word16(src[pos + 1], src[pos + 2]) == n
      && src[pos + 5..pos + 5 + n] == b.data && src[pos + 5 + n..srcLen] == rest
  {
    var e, n := EncodeBlock(b, last), |b.data|;
    var s := src[pos..srcLen];
    assert s[0] == e[0] && s[1] == e[1] && s[2] == e[2];
    assert s[5..5 + n] == e[5..] == b.data && s[5 + n..] == rest;
    SubSlice(src, pos, srcLen, 5, 5 + n);
    SubSlice(src, pos, srcLen, 5 + n, |s|);
    WordOf(n);
  }

  /** A stored block that is all there. */
  lemma BlocksStored(src: seq<u8>, srcLen: nat, pos: nat, done: seq<u8>, cap: nat)
    requires pos + 5 <= srcLen <= |src| && src[pos] / 2 % 4 == 0
    ensures var len := Word16(src[pos + 1], src[pos + 2]);
      Blocks(src, srcLen, pos, done, cap) ==
        if pos + 5 + len > |src| then Undefined
        else if |done| + len > cap then Failed
        else if src[pos] % 2 == 1 then Inflated(done + src[pos + 5..pos + 5 + len])
        else Blocks(src, srcLen, pos + 5 + len, done + src[pos + 5..pos + 5 + len], cap)
  {
    hide Word16;
  }

  lemma WordOf(n: nat)
    requires n < 0x10000
    ensures n / 256 < 256 && Word16(n % 256, n / 256) == n
  {
  }

  lemma {:induction false} SkipTextOver(gz: seq<u8>, i: nat, t: seq<u8>)
    requires i + |t| < |gz| && gz[i..i + |t|] == t && 0 !in t && gz[i + |t|] == 0
    ensures SkipText(gz, i) == i + |t| + 1
    decreases |t|
  {
    if t != [] {
      assert gz[i] == gz[i..i + |t|][0] == t[0] && t[0] in t;
      assert gz[i + 1..i + 1 + |t[1..]|] == gz[i..i + |t|][1..] == t[1..];
      SkipTextOver(gz, i + 1, t[1..]);
    }
  }

  /** One optional text field: whether present or not, the decoder stands right behind it. */
  lemma TextField(gz: seq<u8>, i: nat, present: bool, t: seq<u8>, part: seq<u8>)
    requires part == (if present then t + [0] else []) && 0 !in t && i + |part| <= |gz| && gz[i..i + |part|] == part
    ensures (if present then SkipText(gz, i) else i) == i + |part|
  {
    if present {
      assert gz[i..i + |t|] == part[..|t|] == t && gz[i + |t|] == part[|t|] == 0;
      SkipTextOver(gz, i, t);
    }
  }

  /** The pieces of a byte string put together from five parts. */
  lemma Pieces(z: seq<u8>, a: seq<u8>, b: seq<u8>, c: seq<u8>, d: seq<u8>, e: seq<u8>)
    requires z == a + (b + (c + (d + e)))
    ensures var (i, j, k) := (|a|, |a| + |b|, |a| + |b| + |c|);
      z[..i] == a && z[i..j] == b && z[j..k] == c && z[k..k + |d|] == d && z[k + |d|..] == e
  {
    var (i, j, k) := (|a|, |a| + |b|, |a| + |b| + |c|);
    assert z[..i] == a;
    assert z[i..j] == b;
    assert z[j..k] == c;
    assert z[k..k + |d|] == d;
    assert z[k + |d|..] == e;
  }

  function ExtraPart(h: Header): seq<u8>
    requires HeaderOk(h)
  {
    if Flag(h.flags, 4) then [|h.extra| % 256, |h.extra| / 256] + h.extra else []
  }

  function NamePart(h: Header): seq<u8> { if Flag(h.flags, 8) then h.name + [0] else [] }

  function CommentPart(h: Header): seq<u8> { if Flag(h.flags, 16) then h.comment + [0] else [] }

  function CrcPart(h: Header): seq<u8> { if Flag(h.flags, 2) then h.crc else [] }

  lemma EncodedParts(h: Header)
    requires HeaderOk(h)
    ensures EncodeHeader(h) ==
      [0x1F, 0x8B, 8, h.flags] + h.fixed + (ExtraPart(h) + (NamePart(h) + (CommentPart(h) + CrcPart(h))))
  {
    hide ExtraPart, NamePart, CommentPart, CrcPart;
  }

  lemma HeaderPieces(h: Header, body: seq<u8>)
    requires HeaderOk(h)
    ensures var (gz, p1, p2, p3, p4) := (EncodeHeader(h) + body, ExtraPart(h), NamePart(h), CommentPart(h), CrcPart(h));
      var (a, b) := (10 + |p1|, 10 + |p1| + |p2|);
      && |EncodeHeader(h)| == b + |p3| + |p4| && |gz| >= b + |p3| + |p4|
      && gz[0] == 0x1F && gz[1] == 0x8B && gz[3] == h.flags
      && gz[10..a] == p1 && gz[a..b] == p2 && gz[b..b + |p3|] == p3
  {
    hide ExtraPart, NamePart, CommentPart, CrcPart, EncodeHeader;
    var gz, p1, p2, p3, p4 := EncodeHeader(h) + body, ExtraPart(h), NamePart(h), CommentPart(h), CrcPart(h);
    var front := [0x1F, 0x8B, 8, h.flags] + h.fixed;
    EncodedParts(h);
    assert front[0] == 0x1F && front[1] == 0x8B && front[3] == h.flags && |front| == 10;
    Reassociated(front, p1, p2, p3, p4, body);
    Pieces(gz, front, p1, p2, p3, p4 + body);
    assert gz[0] == gz[..10][0] && gz[1] == gz[..10][1] && gz[3] == gz[..10][3];
  }

  lemma Reassociated(a: seq<u8>, b: seq<u8>, c: seq<u8>, d: seq<u8>, e: seq<u8>, z: seq<u8>)
    ensures (a + (b + (c + (d + e)))) + z == a + (b + (c + (d + (e + z))))
  {
    assert (d + e) + z == d + (e + z);
    assert (c + (d + e)) + z == c + ((d + e) + z);
    assert (b + (c + (d + e))) + z == b + ((c + (d + e)) + z);
  }

  lemma HeaderRoundTrip(h: Header, body: seq<u8>)
    requires HeaderOk(h) && |EncodeHeader(h) + body| >= 18
    ensures HeaderEnd(EncodeHeader(h) + body) == |EncodeHeader(h)|
  {
    hide EncodeHeader, SkipText, Word16, ExtraPart, Flag, HeaderEnd;
    var gz := EncodeHeader(h) + body;
    var a := 10 + |ExtraPart(h)|;
    var b := a + |NamePart(h)|;
    HeaderPieces(h, body);
    ExtraField(gz, h);
    TextField(gz, a, Flag(h.flags, 8), h.name, NamePart(h));
    TextField(gz, b, Flag(h.flags, 16), h.comment, CommentPart(h));
    FlagBits(h.flags);
    ExtraLength(gz);
    FieldByField(gz, a, b, b + |CommentPart(h)|);
  }

  lemma FlagBits(flags: u8)
    ensures (Flag(flags, 2) <==> flags / 2 % 2 == 1) && (Flag(flags, 4) <==> flags / 4 % 2 == 1)
    ensures (Flag(flags, 8) <==> flags / 8 % 2 == 1) && (Flag(flags, 16) <==> flags / 16 % 2 == 1)
  {
  }

  lemma ExtraLength(gz: seq<u8>)
    requires |gz| >= 12
    ensures Word16(gz[10], gz[11]) == gz[10] as int + 256 * (gz[11] as int)
  {
  }

  /** The end of a header from the ends of its fields: bit 2 of the flags tells of an extra field with its length in
      front, bit 3 of a name, bit 4 of a comment, bit 1 of a header checksum. */
  lemma FieldByField(gz: seq<u8>, a: nat, b: nat, c: nat)
    requires |gz| >= 18 && a == if gz[3] / 4 % 2 == 1 then 12 + gz[10] as int + 256 * (gz[11] as int) else 10
    requires b == if gz[3] / 8 % 2 == 1 then SkipText(gz, a) else a
    requires c == if gz[3] / 16 % 2 == 1 then SkipText(gz, b) else b
    ensures HeaderEnd(gz) == if gz[3] / 2 % 2 == 1 then c + 2 else c
  {
    hide SkipText;
  }

  /** A file without the magic bytes, or shorter than header and trailer, is refused; otherwise the blocks between
      header and trailer decide, if the header ends in front of the trailer. */
  lemma GunzipParts(gz: seq<u8>, cap: nat)
    ensures |gz| < 18 || gz[0] != 0x1F || gz[1] != 0x8B ==> Gunzip(gz, cap) == Failed
    ensures |gz| >= 18 && gz[0] == 0x1F && gz[1] == 0x8B ==>
      Gunzip(gz, cap) ==
        if HeaderEnd(gz) + 8 > |gz| then Undefined
        else Blocks(gz[HeaderEnd(gz)..], |gz| - HeaderEnd(gz) - 8, 0, [], cap)
  {
    hide Blocks, HeaderEnd;
  }

  lemma ExtraField(gz: seq<u8>, h: Header)
    requires HeaderOk(h) && 12 <= |gz| && 10 + |ExtraPart(h)| <= |gz| && gz[10..10 + |ExtraPart(h)|] == ExtraPart(h)
    ensures (if Flag(h.flags, 4) then 12 + Word16(gz[10], gz[11]) else 10) == 10 + |ExtraPart(h)|
  {
    hide Flag, Word16;
    if Flag(h.flags, 4) {
      assert gz[10] == gz[10..10 + |ExtraPart(h)|][0] && gz[11] == gz[10..10 + |ExtraPart(h)|][1];
      WordOf(|h.extra|);
    }
  }

  /** gzip_inflate undoes any gzip encoding by stored blocks: any header fields, any number of blocks whose
      data fits the output, any trailer. */
  lemma GunzipInvertsStored(h: Header, bs: seq<Stored>, trailer: seq<u8>, cap: nat)
    requires HeaderOk(h) && bs != [] && (forall b :: b in bs ==> StoredOk(b)) && |trailer| == 8 && |Data(bs)| <= cap
    ensures Gunzip(EncodeHeader(h) + EncodeBlocks(bs) + trailer, cap) == Inflated(Data(bs))
  {
    hide EncodeHeader, EncodeBlocks, HeaderEnd, Blocks, Data;
    var body := EncodeBlocks(bs) + trailer;
    var gz := EncodeHeader(h) + body;
    assert gz == EncodeHeader(h) + EncodeBlocks(bs) + trailer;
    EncodeBlocksCons(bs);
    HeaderPieces(h, body);
    HeaderRoundTrip(h, body);
    assert gz[HeaderEnd(gz)..] == body;
    assert body[0..|body| - 8] == EncodeBlocks(bs);
    BlocksRoundTrip(body, |body| - 8, 0, bs, [], cap);
    assert [] + Data(bs) == Data(bs);
  }

  // ---- the loop of gzip_inflate --------------------------------------------------------------------

  /** What the C function returns, or that it has left what is modelled here. */
  datatype Status = Done(count: nat) | LeftModel

  /** `n` bytes of `out` and a status are what the decoder result says. */
  ghost predicate Delivers(g: Result, st: Status, out: seq<u8>) {
    match g
    case Inflated(d) => st == Done(|d|) && |d| <= |out| && out[..|d|] == d
    case Failed => st == Done(0)
    case _ => st == LeftModel
  }

  /** The first three bits of a block at a byte boundary. */
  lemma BlockBits(src: seq<u8>, pos: nat)
    requires pos < |src|
    ensures Val(src, 8 * pos, 1) == src[pos] % 2 && Val(src, 8 * pos + 1, 2) == src[pos] / 2 % 4
  {
    hide Val, Bit, Shifted;
    BitOfByte(src, pos, 0);
    BitOfByte(src, pos, 1);
    BitOfByte(src, pos, 2);
    LowShifts(src[pos]);
    ValOneTwo(src, 8 * pos);
    ValOneTwo(src, 8 * pos + 1);
  }

  lemma LowShifts(b: nat)
    ensures Shifted(b, 0) == b && Shifted(b, 1) == b / 2 && Shifted(b, 2) == b / 2 / 2
  {
    assert Shifted(b, 1) == Shifted(b, 0) / 2;
    assert Shifted(b, 2) == Shifted(b, 1) / 2;
  }

  lemma ValOneTwo(src: seq<u8>, p: nat)
    requires p + 2 <= 8 * |src|
    ensures Val(src, p, 1) == Bit(src, p) && Val(src, p, 2) == Bit(src, p) + 2 * Bit(src, p + 1)
  {
    hide Bit;
    assert Val(src, p, 1) == Bit(src, p) + 2 * Val(src, p + 1, 0);
    assert Val(src, p + 1, 1) == Bit(src, p + 1) + 2 * Val(src, p + 2, 0);
  }

  method SkipZeroTerminated(gz: seq<u8>, i: nat) returns (j: nat)
    ensures j == SkipText(gz, i)
  {
    j := i;
    while j < |gz| && gz[j] != 0
      invariant SkipText(gz, j) == SkipText(gz, i)
      decreases |gz| - j
    {
      j := j + 1;
    }
    j := j + 1;
  }

  /** The body of the block loop behind the two reads, for a stored block: the length word, its unread
      complement, and the copy. `pos` is the byte behind the block's header byte. */
  method CopyStored(src: seq<u8>, pos: nat, len: nat, out: array<u8>, at: nat) returns (next: nat, err: bool)
    requires pos + len <= |src| && at <= out.Length
    modifies out
    ensures out[..at] == old(out[..at])
    ensures err <==> at + len > out.Length
    ensures !err ==> next == at + len && out[..next] == old(out[..at]) + src[pos..pos + len]
    ensures next <= out.Length
  {
    next, err := at, false;
    var i: nat := 0;
    while i < len
      invariant i <= len && at <= next <= out.Length && next == (if at + i <= out.Length then at + i else out.Length)
      invariant err <==> at + i > out.Length
      invariant forall k :: 0 <= k < next ==> out[k] == if k < at then old(out[k]) else src[pos + (k - at)]
    {
      if next >= out.Length {
        err := true;
      } else {
        out[next] := src[pos + i];
        next := next + 1;
      }
      i := i + 1;
    }
  }

  /** gzip_inflate: the output is what Gunzip says of the input. */
  method GzipInflate(gz: seq<u8>, out: array<u8>) returns (st: Status)
    modifies out
    ensures match Gunzip(gz, out.Length)
      case Inflated(d) => st == Done(|d|) && |d| <= out.Length && out[..|d|] == d
      case Failed => st == Done(0)
      case _ => st == LeftModel
  {
    if |gz| < 18 || gz[0] != 0x1F || gz[1] != 0x8B { return Done(0); }
    var skip: nat := 10;
    if Flag(gz[3], 4) { skip := skip + 2 + Word16(gz[skip], gz[skip + 1]); }
    if Flag(gz[3], 8) { skip := SkipZeroTerminated(gz, skip); }
    if Flag(gz[3], 16) { skip := SkipZeroTerminated(gz, skip); }
    if Flag(gz[3], 2) { skip := skip + 2; }
    assert skip == HeaderEnd(gz);
    if skip + 8 > |gz| { return LeftModel; }
    st := InflateBlocks(gz[skip..], |gz| - skip - 8, out);
  }

  /** When the output is decided by the first byte of a block. */
  lemma BlocksEnd(src: seq<u8>, srcLen: nat, pos: nat, done: seq<u8>, cap: nat)
    requires srcLen <= |src|
    ensures pos >= srcLen ==> Blocks(src, srcLen, pos, done, cap) == Failed
    ensures pos < srcLen && src[pos] / 2 % 4 == 1 ==> Blocks(src, srcLen, pos, done, cap) == Huffman
    ensures pos < srcLen && src[pos] / 2 % 4 >= 2 ==> Blocks(src, srcLen, pos, done, cap) == Failed
    ensures pos < srcLen && src[pos] / 2 % 4 == 0 && pos + 5 > srcLen ==> Blocks(src, srcLen, pos, done, cap) == Failed
  {
  }

  /** The two reads at the start of a block: whether it is the last, and its type; an error at the end of the input. */
  method BlockHead(c: Reader) returns (final: bool, kind: nat)
    requires c.Valid() && c.bitCnt == 0 && !c.err
    modifies c
    ensures c.Valid() && (c.err <==> old(c.srcPos) >= c.srcLen)
    ensures var p := old(c.srcPos);
      if p >= c.srcLen then c.srcPos == p && !final && kind == 0
      else c.srcPos == p + 1 && final == (c.src[p] % 2 == 1) && kind == c.src[p] / 2 % 4
  {
    hide Val, Bit, Shifted, Pow;
    if c.srcPos < c.srcLen { BlockBits(c.src, c.srcPos); }
    var f := c.Bits(1);
    final := f == 1;
    kind := c.Bits(2);
  }

  method InflateBlocks(src: seq<u8>, srcLen: nat, out: array<u8>) returns (st: Status)
    requires srcLen <= |src|
    modifies out
    ensures Delivers(Blocks(src, srcLen, 0, [], out.Length), st, out[..])
  {
    hide Val, Bit, Shifted, Pow, Word16, Blocks;
    var c := new Reader(src, srcLen);
    var at: nat := 0;
    var final := false;
    ghost var goal := Blocks(src, srcLen, 0, [], out.Length);
    while !final && !c.err
      invariant fresh(c) && c.src == src && c.srcLen == srcLen && c.Valid() && at <= out.Length
      invariant c.err ==> goal == Failed
      invariant !c.err ==> c.bitCnt == 0 && c.srcPos <= |src|
      invariant !c.err && final ==> goal == Inflated(out[..at])
      invariant !c.err && !final ==> goal == Blocks(src, srcLen, c.srcPos, out[..at], out.Length)
      decreases !final && !c.err, |src| - c.srcPos
    {
      ghost var pos := c.srcPos;
      BlocksEnd(src, srcLen, pos, out[..at], out.Length);
      var kind;
      final, kind := BlockHead(c);
      if kind == 0 {
        c.Align();
        if c.srcPos + 4 > srcLen { c.err := true; break; }
        var len := Word16(src[c.srcPos], src[c.srcPos + 1]);
        c.Advance(4);
        BlocksStored(src, srcLen, pos, out[..at], out.Length);
        if c.srcPos + len > |src| { return LeftModel; }
        var next, failed := CopyStored(src, c.srcPos, len, out, at);
        at := next;
        c.Advance(len);
        if failed { c.err := true; }
      } else if kind == 1 {
        return LeftModel;
      } else {
        c.err := true;
      }
    }
    st := if c.err then Done(0) else Done(at);
  }

  // ---- the match copy (section 3.2.3 of RFC 1951) ---------------------------------------------------

  /** Every byte of `s` from `p` on repeats the one `dist` places before it. */
  ghost predicate Repeats(s: seq<u8>, p: nat, dist: nat) {
    0 < dist <= p <= |s| && forall i :: p <= i < |s| ==> s[i] == s[i - dist]
  }

  /** What comes out of a match is fixed by what was there before: also when it overlaps itself. */
  lemma {:induction false} MatchDetermined(s: seq<u8>, t: seq<u8>, p: nat, dist: nat)
    requires |s| == |t| && Repeats(s, p, dist) && Repeats(t, p, dist) && s[..p] == t[..p]
    ensures s == t
    decreases |s| - p
  {
    if p < |s| {
      assert s[p] == s[..p][p - dist] && t[p] == t[..p][p - dist];
      assert s[..p + 1] == s[..p] + [s[p]] && t[..p + 1] == t[..p] + [t[p]];
      MatchDetermined(s, t, p + 1, dist);
    } else {
      assert s == s[..p] && t == t[..p];
    }
  }

  /** A match of distance `dist` is the last `dist` bytes over and over. */
  lemma {:induction false} MatchIsPeriodic(s: seq<u8>, p: nat, dist: nat, i: nat, k: nat)
    requires Repeats(s, p, dist) && p + i + dist * k < |s| && i < dist
    ensures s[p + i + dist * k] == s[p - dist + i]
    decreases k
  {
    if k > 0 {
      assert p + i + dist * k == p + i + dist * (k - 1) + dist;
      MatchIsPeriodic(s, p, dist, i, k - 1);
    }
  }

  /** The copy loop of inflate_block_fixed: byte by byte through inf_out, so that a match may read what it
      has just written; an error when it reaches back before the output or runs over its end. */
  method CopyMatch(out: array<u8>, at: nat, len: nat, dist: nat) returns (next: nat, err: bool)
    requires 0 < dist && at <= out.Length
    modifies out
    ensures out[..at] == old(out[..at])
    ensures err <==> len > 0 && (dist > at || at + len > out.Length)
    ensures len > 0 && dist > at ==> next == at
    ensures dist <= at ==>
      next == (if at + len <= out.Length then at + len else out.Length) && Repeats(out[..next], at, dist)
  {
    next, err := at, false;
    var i: nat := 0;
    while i < len
      invariant i <= len && at <= next <= out.Length && out[..at] == old(out[..at])
      invariant if i > 0 then dist <= at else next == at
      invariant dist <= at ==>
        next == (if at + i <= out.Length then at + i else out.Length) && Repeats(out[..next], at, dist)
      invariant err <==> at + i > out.Length
    {
      if next < dist {
        err := true;
        return;
      }
      if next >= out.Length {
        err := true;
      } else {
        ghost var was := out[..next];
        out[next] := out[next - dist];
        assert out[..next + 1] == was + [was[next - dist]];
        assert out[..at] == was[..at];
        next := next + 1;
      }
      i := i + 1;
    }
  }
}
