/** The Internet checksum `ip_cksum` of drivers/net/net.c against RFC 1071. */
module Checksum {
  import opened Arithmetic
  import opened Types

  const M: nat := 0xFFFF

  /** Sum of the 16-bit words of `d` as a little-endian machine loads them; an odd last byte counts by itself. */
  function SumLE(d: seq<u8>): nat {
    if |d| == 0 then 0 else if |d| == 1 then d[0]
    else (d[0] as int) + 256 * (d[1] as int) + SumLE(d[2..])
  }

  /** The same sum over words in network order; an odd last byte is padded with zero. */
  function SumBE(d: seq<u8>): nat {
    if |d| == 0 then 0 else if |d| == 1 then 256 * (d[0] as int)
    else 256 * (d[0] as int) + (d[1] as int) + SumBE(d[2..])
  }

  /** The one's complement sum: the 16-bit value congruent to n modulo 65535, zero only for zero. */
  function Ones(n: nat): (w: nat)
    ensures w <= M && (w == 0 <==> n == 0)
  {
    if n == 0 then 0 else 1 + (n - 1) % M
  }

  /** What is summed: the words in either byte order, an odd last byte as if a zero byte followed it; and the one's
      complement sum is the same number modulo 65535. */
  lemma WordsSummed(a: u8, b: u8, rest: seq<u8>, n: nat)
    ensures SumBE([a, b] + rest) == 256 * (a as int) + (b as int) + SumBE(rest)
    ensures SumLE([a, b] + rest) == (a as int) + 256 * (b as int) + SumLE(rest)
    ensures SumBE([a]) == SumBE([a, 0]) && SumLE([a]) == SumLE([a, 0]) && SumBE([]) == SumLE([]) == 0
    ensures Ones(n) % 0xFFFF == n % 0xFFFF
  {
    assert ([a, b] + rest)[2..] == rest;
    var padded: seq<u8> := [a, 0];
    assert padded[2..] == [];
    if n > 0 { ModuloShift(n); }
  }

  lemma ModuloShift(n: nat)
    requires n > 0
    ensures (1 + (n - 1) % M) % M == n % M
  {
    var q := (n - 1) / M;
    assert n == 1 + (n - 1) % M + M * q;
    AddMultiple(M, q, 1 + (n - 1) % M);
  }

  /** Adding a multiple of 65535 to a positive number does not change its one's complement sum. */
  lemma OnesCongruent(a: nat, q: nat)
    requires a > 0
    ensures Ones(a + M * q) == Ones(a)
  {
    AddMultiple(M, q, a - 1);
  }

  /** Folding the carries back in keeps the one's complement sum. */
  lemma FoldKeeps(n: nat)
    ensures Ones(n % 0x10000 + n / 0x10000) == Ones(n)
  {
    var q, r := n / 0x10000, n % 0x10000;
    if q + r > 0 {
      assert n == q + r + M * q;
      OnesCongruent(q + r, q);
    }
  }

  lemma OnesSmall(w: nat)
    requires w <= M
    ensures Ones(w) == w
  {
  }

  lemma {:induction false} SumSplit(d: seq<u8>, i: nat)
    requires i <= |d| && i % 2 == 0
    ensures SumLE(d) == SumLE(d[..i]) + SumLE(d[i..])
  {
    if i > 0 {
      SumSplit(d[2..], i - 2);
      assert d[2..][..i - 2] == d[..i][2..] && d[2..][i - 2..] == d[i..];
    }
  }

  /** ip_cksum: the words are summed in 32 bits. Up to 131072 bytes, twice what an IP datagram can hold, nothing
      is lost. */
  method IpCksum(d: seq<u8>) returns (c: u16)
    ensures c == M - Ones(SumLE(d) % TWO32)
    ensures |d| <= 0x2_0000 ==> c == M - Ones(SumLE(d))
  {
    hide SumLE, Ones;
    var sum := SumWords(d);
    SumBound(d);
    var w := FoldCarries(sum);
    c := M - w;
  }

  /** The first loop of ip_cksum and the odd byte behind it. */
  method SumWords(d: seq<u8>) returns (sum: u32)
    ensures sum == SumLE(d) % TWO32
  {
    hide SumLE, Word16;
    sum := 0;
    var i: nat := 0;
    assert d[..0] == [];
    SumNothing();
    while |d| - i > 1
      invariant i <= |d| && i % 2 == 0
      invariant sum == SumLE(d[..i]) % TWO32
    {
      SumStep(d, i);
      var word := Word16(d[i], d[i + 1]);
      AddWrapped(SumLE(d[..i]), word);
      sum := (sum + word) % TWO32;
      i := i + 2;
    }
    SumLast(d, i);
    if i < |d| {
      AddWrapped(SumLE(d[..i]), d[i]);
      sum := (sum + d[i]) % TWO32;
    }
  }

  /** The last loop of ip_cksum. */
  method FoldCarries(sum: u32) returns (w: u32)
    ensures w == Ones(sum) <= M
  {
    hide Ones;
    w := sum;
    while w / 0x10000 != 0
      invariant Ones(w) == Ones(sum)
      decreases w
    {
      FoldKeeps(w);
      w := w % 0x10000 + w / 0x10000;
    }
    OnesSmall(w);
  }

  lemma AddWrapped(x: nat, w: nat)
    ensures (x % TWO32 + w) % TWO32 == (x + w) % TWO32
  {
    AddMultiple(TWO32, x / TWO32, x % TWO32 + w);
  }

  lemma SumNothing()
    ensures SumLE([]) == 0
  {
  }

  lemma SumStep(d: seq<u8>, i: nat)
    requires i + 2 <= |d| && i % 2 == 0
    ensures SumLE(d[..i + 2]) == SumLE(d[..i]) + Word16(d[i], d[i + 1])
  {
    SumSplit(d[..i + 2], i);
    assert d[..i + 2][..i] == d[..i] && d[..i + 2][i..] == [d[i], d[i + 1]];
    assert SumLE([d[i], d[i + 1]]) == (d[i] as int) + 256 * (d[i + 1] as int) + SumLE([d[i], d[i + 1]][2..]);
  }

  lemma SumLast(d: seq<u8>, i: nat)
    requires i <= |d| <= i + 1 && i % 2 == 0
    ensures SumLE(d) == SumLE(d[..i]) + if i < |d| then d[i] as int else 0
  {
    SumSplit(d, i);
    if i < |d| { assert d[i..] == [d[i]]; } else { assert d[i..] == []; }
  }

  lemma {:induction false} SumBound(d: seq<u8>)
    ensures 2 * SumLE(d) <= M * (|d| + 1)
    decreases |d|
  {
    if |d| > 1 { SumBound(d[2..]); }
  }

  /** A sum that wraps in 32 bits still gives the right checksum exactly when it wraps a multiple of 65535 times and
      leaves something. */
  lemma WrappedSumRightIff(n: nat)
    ensures Ones(n % TWO32) == Ones(n) <==> n / TWO32 % M == 0 && (n % TWO32 > 0 || n == 0)
  {
    var q, r := n / TWO32, n % TWO32;
    if r > 0 {
      assert n - 1 == (r - 1 + q) + M * (0x1_0001 * q);
      AddMultiple(M, 0x1_0001 * q, r - 1 + q);
      assert (n - 1) % M == (r - 1 + q) % M;
      ShiftedRemainder(r - 1, q);
    }
  }

  lemma ShiftedRemainder(a: nat, q: nat)
    ensures (a + q) % M == a % M <==> q % M == 0
  {
    if q % M == 0 { AddMultiple(M, q / M, a); }
    if (a + q) % M == a % M { DivisionUnique(q, M, (a + q) / M - a / M, 0); }
  }

  // ---- RFC 1071 ---------------------------------------------------------------------------------

  /** Storing `c` into the zeroed checksum word at `k`, low byte first as the machine stores a word. */
  function WithChecksum(d: seq<u8>, k: nat, c: u16): seq<u8>
    requires k + 1 < |d|
  {
    d[k := c % 256][k + 1 := c / 256]
  }

  lemma SumWithChecksum(d: seq<u8>, k: nat, c: u16)
    requires k + 1 < |d| && k % 2 == 0 && d[k] == 0 && d[k + 1] == 0
    ensures SumLE(WithChecksum(d, k, c)) == SumLE(d) + c
  {
    var e := WithChecksum(d, k, c);
    SumSplit(d, k);
    SumSplit(e, k);
    assert e[..k] == d[..k] && e[k..][2..] == d[k..][2..];
  }

  /** A message whose checksum word was filled in by ip_cksum has checksum zero, wherever the word stands. */
  lemma RecomputingGivesZero(d: seq<u8>, k: nat)
    requires k + 1 < |d| && k % 2 == 0 && d[k] == 0 && d[k + 1] == 0
    ensures M - Ones(SumLE(WithChecksum(d, k, M - Ones(SumLE(d))))) == 0
  {
    var n := SumLE(d);
    SumWithChecksum(d, k, M - Ones(n));
    if n > 0 {
      var q := (n - 1) / M;
      assert n + (M - Ones(n)) == M + M * q;
      OnesCongruent(M, q);
    }
    OnesSmall(M);
  }

  function Swap(w: nat): nat { w % 256 * 256 + w / 256 }

  /** 256 times the machine's sum is the network-order sum, up to multiples of 65535. */
  lemma {:induction false} SumsCongruent(d: seq<u8>) returns (q: nat)
    ensures 256 * SumLE(d) == SumBE(d) + M * q
  {
    if |d| < 2 {
      q := 0;
    } else {
      var r := SumsCongruent(d[2..]);
      q := r + d[1];
    }
  }

  lemma OnesTimes256(n: nat)
    ensures Ones(256 * n) == Swap(Ones(n))
  {
    if n > 0 {
      var w, q := Ones(n), (n - 1) / M;
      assert n == w + M * q;
      assert 256 * n == 256 * w + M * (256 * q);
      OnesCongruent(256 * w, 256 * q);
      var h, l := w / 256, w % 256;
      assert 256 * w == (h + 256 * l) + M * h;
      OnesCongruent(h + 256 * l, h);
      OnesSmall(h + 256 * l);
    }
  }

  /** The machine's one's complement sum is the byte swap of the network-order one (section 2(B) of RFC 1071). */
  lemma SumIsByteOrderIndependent(d: seq<u8>)
    ensures Ones(SumBE(d)) == Swap(Ones(SumLE(d)))
  {
    var q := SumsCongruent(d);
    if SumBE(d) > 0 {
      OnesCongruent(SumBE(d), q);
    } else {
      ZeroSums(d);
    }
    OnesTimes256(SumLE(d));
  }

  lemma {:induction false} ZeroSums(d: seq<u8>)
    requires SumBE(d) == 0
    ensures SumLE(d) == 0
  {
    if |d| >= 2 { ZeroSums(d[2..]); }
  }

  /** The two bytes ip_cksum leaves in memory are those RFC 1071 puts on the wire: the complement of the
      network-order sum, high byte first. */
  lemma WireBytesRight(d: seq<u8>)
    ensures var (c, rfc) := (M - Ones(SumLE(d)), M - Ones(SumBE(d)));
      [c % 256, c / 256] == [rfc / 256, rfc % 256]
  {
    SumIsByteOrderIndependent(d);
    SwapComplement(Ones(SumLE(d)) / 256, Ones(SumLE(d)) % 256);
  }

  lemma SwapComplement(h: nat, l: nat)
    requires h < 256 && l < 256
    ensures var (c, r) := (M - (256 * h + l), M - (256 * l + h));
      c % 256 == 255 - l == r / 256 && c / 256 == 255 - h == r % 256
  {
  }
}
