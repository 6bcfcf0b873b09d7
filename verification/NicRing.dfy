/** The receive ring of drivers/net/ne2000.c: the chip deposits frames page by page, ne2k_recv takes them
    out in order, byte for byte, also across the end of the ring. */
module NicRing {
  import opened Types

  const RX_START: nat := 0x46
  const RX_STOP: nat := 0x80
  const PAGE: nat := 256
  const PAGES: nat := RX_STOP - RX_START
  const MEMORY: nat := RX_STOP * PAGE
  const FRAME_MAX: nat := 1532

  predicate IsPage(p: int) { RX_START <= p < RX_STOP }

  /** `n` pages further round the ring. */
  function Adv(p: nat, n: nat): nat { if p + n < RX_STOP then p + n else p + n - PAGES }

  /** A frame as the chip stores it: an odd status byte, the data, bytes of its own behind them (a check sequence,
      say), and the pages it gives all this, with the four-byte header, from one on. */
  datatype Frame = Frame(status: u8, data: seq<u8>, tail: seq<u8>, pages: nat)

  predicate FrameOk(f: Frame) {
    f.status % 2 == 1 && |f.data| <= FRAME_MAX && 4 + |f.data| + |f.tail| <= PAGE * f.pages
  }

  /** The ring memory read round once, from page `p`. */
  ghost function Lin(m: seq<u8>, p: nat): (l: seq<u8>)
    requires |m| == MEMORY && IsPage(p)
    ensures |l| == PAGES * PAGE
  {
    m[p * PAGE..] + m[RX_START * PAGE..p * PAGE]
  }

  /** At the front of `l`, which starts at page `p`, stands frame `f` under its header. */
  ghost predicate FrameAt(l: seq<u8>, p: nat, f: Frame) {
    && FrameOk(f) && PAGE * f.pages <= |l|
    && l[0] == f.status && l[1] == Adv(p, f.pages) && Word16(l[2], l[3]) == |f.data| + 4
    && l[4..4 + |f.data|] == f.data
  }

  ghost function Used(q: seq<Frame>): nat {
    if q == [] then 0 else q[0].pages + Used(q[1..])
  }

  /** `l`, which starts at page `p`, begins with the frames `q` one behind the other. */
  ghost predicate Frames(l: seq<u8>, p: nat, q: seq<Frame>)
    decreases |q|
  {
    q == [] || (FrameAt(l, p, q[0]) && Frames(l[PAGE * q[0].pages..], Adv(p, q[0].pages), q[1..]))
  }

  lemma FrameSamePrefix(l: seq<u8>, m: seq<u8>, p: nat, f: Frame)
    requires FrameAt(l, p, f) && PAGE * f.pages <= |m| && l[..PAGE * f.pages] == m[..PAGE * f.pages]
    ensures FrameAt(m, p, f)
  {
    var n := PAGE * f.pages;
    forall i | 0 <= i < n ensures l[i] == m[i] { assert l[i] == l[..n][i] == m[..n][i]; }
    assert l[4..4 + |f.data|] == m[4..4 + |f.data|];
  }

  /** Frames depend only on the bytes of their own pages. */
  lemma {:induction false} FramesSamePrefix(l: seq<u8>, m: seq<u8>, p: nat, q: seq<Frame>)
    requires Frames(l, p, q) && PAGE * Used(q) <= |l| && PAGE * Used(q) <= |m|
    requires l[..PAGE * Used(q)] == m[..PAGE * Used(q)]
    ensures Frames(m, p, q)
    decreases |q|
  {
    hide FrameAt, Adv;
    if q != [] {
      var n, u := PAGE * q[0].pages, PAGE * Used(q);
      assert u == n + PAGE * Used(q[1..]);
      assert l[..u][..n] == m[..u][..n] && l[..u][..n] == l[..n] && m[..u][..n] == m[..n];
      assert l[n..][..PAGE * Used(q[1..])] == l[..u][n..] == m[n..][..PAGE * Used(q[1..])];
      FrameSamePrefix(l, m, p, q[0]);
      FramesSamePrefix(l[n..], m[n..], Adv(p, q[0].pages), q[1..]);
    }
  }

  lemma {:induction false} FramesAppend(l: seq<u8>, p: nat, q: seq<Frame>, f: Frame)
    requires Frames(l, p, q) && IsPage(p) && PAGE * Used(q) <= |l| && Used(q) < PAGES
    requires FrameAt(l[PAGE * Used(q)..], Adv(p, Used(q)), f)
    ensures Frames(l, p, q + [f]) && Used(q + [f]) == Used(q) + f.pages
    decreases |q|
  {
    hide FrameAt;
    if q == [] {
      assert l[0..] == l && q + [f] == [f] && [f][1..] == [];
    } else {
      var k := q[0].pages;
      assert l[PAGE * k..][PAGE * Used(q[1..])..] == l[PAGE * Used(q)..];
      assert (q + [f])[1..] == q[1..] + [f];
      FramesAppend(l[PAGE * k..], Adv(p, k), q[1..], f);
    }
  }

  /** Moving the start of the ring forward drops pages at the front and brings them back at the end. */
  lemma LinAdvance(m: seq<u8>, p: nat, n: nat)
    requires |m| == MEMORY && IsPage(p) && n < PAGES
    ensures IsPage(Adv(p, n)) && Lin(m, Adv(p, n)) == Lin(m, p)[PAGE * n..] + Lin(m, p)[..PAGE * n]
  {
    var r, base, l := Adv(p, n), RX_START * PAGE, Lin(m, p);
    if p + n < RX_STOP {
      assert l[PAGE * n..] == m[r * PAGE..] + m[base..p * PAGE];
      assert l[..PAGE * n] == m[p * PAGE..r * PAGE];
      assert m[base..r * PAGE] == m[base..p * PAGE] + m[p * PAGE..r * PAGE];
      Regrouped(m[r * PAGE..], m[base..p * PAGE], m[p * PAGE..r * PAGE]);
    } else {
      assert l[PAGE * n..] == m[r * PAGE..p * PAGE];
      assert l[..PAGE * n] == m[p * PAGE..] + m[base..r * PAGE];
      assert m[r * PAGE..] == m[r * PAGE..p * PAGE] + m[p * PAGE..];
      Regrouped(m[r * PAGE..p * PAGE], m[p * PAGE..], m[base..r * PAGE]);
    }
  }

  /** The `n` ring bytes from address `off` on, as the driver reads them: wrapping at the ring end. */
  lemma WindowIsLin(m: seq<u8>, p: nat, n: nat)
    requires |m| == MEMORY && IsPage(p) && n <= FRAME_MAX
    ensures var off := p * PAGE + 4;
      Lin(m, p)[4..4 + n] ==
        if off + n <= MEMORY then m[off..off + n]
        else m[off..] + m[RX_START * PAGE..RX_START * PAGE + (n - (MEMORY - off))]
  {
    var off := p * PAGE + 4;
    var l := Lin(m, p);
    if off + n <= MEMORY {
      assert l[4..4 + n] == m[p * PAGE..][4..4 + n];
    } else {
      var k := MEMORY - p * PAGE;
      assert l[4..4 + n] == l[4..k] + l[k..4 + n];
      assert l[4..k] == m[off..];
      assert l[k..4 + n] == m[RX_START * PAGE..p * PAGE][..4 + n - k] == m[RX_START * PAGE..RX_START * PAGE + (4 + n - k)];
    }
  }

  /** Taking the first frame out leaves the others, seen from the next page. */
  lemma RecvKeeps(m: seq<u8>, p: nat, q: seq<Frame>)
    requires |m| == MEMORY && IsPage(p) && q != [] && Used(q) < PAGES && Frames(Lin(m, p), p, q)
    ensures var r := Adv(p, q[0].pages);
      IsPage(r) && Used(q[1..]) < PAGES && Frames(Lin(m, r), r, q[1..]) && Adv(r, Used(q[1..])) == Adv(p, Used(q))
  {
    hide FrameAt, Lin;
    var n := q[0].pages;
    LinAdvance(m, p, n);
    var l := Lin(m, p);
    assert Lin(m, Adv(p, n))[..PAGE * Used(q[1..])] == l[PAGE * n..][..PAGE * Used(q[1..])];
    FramesSamePrefix(l[PAGE * n..], Lin(m, Adv(p, n)), Adv(p, n), q[1..]);
  }

  /** The address of ring byte number `r` counted from page `p`. */
  function RingAddr(p: nat, r: nat): nat {
    if p * PAGE + r < MEMORY then p * PAGE + r else p * PAGE + r - PAGES * PAGE
  }

  lemma LinAt(m: seq<u8>, p: nat, r: nat)
    requires |m| == MEMORY && IsPage(p) && r < PAGES * PAGE
    ensures RX_START * PAGE <= RingAddr(p, r) < MEMORY && Lin(m, p)[r] == m[RingAddr(p, r)]
  {
  }

  /** A frame written from page `curr` on, within the free pages, goes behind the frames already there. */
  lemma DepositKeeps(m: seq<u8>, n: seq<u8>, p: nat, curr: nat, q: seq<Frame>, f: Frame)
    requires |m| == |n| == MEMORY && IsPage(p) && Frames(Lin(m, p), p, q) && Used(q) < PAGES && curr == Adv(p, Used(q))
    requires Used(q) + f.pages < PAGES && IsPage(curr)
    requires FrameAt(Lin(n, curr), curr, f)
    requires Lin(n, curr)[PAGE * f.pages..] == Lin(m, curr)[PAGE * f.pages..]
    ensures Frames(Lin(n, p), p, q + [f]) && Used(q + [f]) == Used(q) + f.pages
  {
    hide Lin, Frames, FrameAt;
    var u, k := PAGE * Used(q), PAGE * f.pages;
    LinAdvance(m, p, Used(q));
    LinAdvance(n, p, Used(q));
    var lm, ln := Lin(m, p), Lin(n, p);
    var t := PAGES * PAGE - u;
    assert ln[..u] == Lin(n, curr)[t..] == Lin(n, curr)[k..][t - k..];
    assert lm[..u] == Lin(m, curr)[t..] == Lin(m, curr)[k..][t - k..];
    FramesSamePrefix(lm, ln, p, q);
    var back := ln[u..];
    assert Lin(n, curr)[..|back|] == back;
    assert Lin(n, curr)[..k] == back[..k];
    FrameSamePrefix(Lin(n, curr), back, curr, f);
    FramesAppend(ln, p, q, f);
  }

  /** A header the driver accepts: status bit 0, a length of 4 to 1536, a next page inside the ring. */
  predicate GoodHeader(status: u8, next: u8, len: nat) {
    status % 2 == 1 && 4 <= len <= 1536 && RX_START <= next < RX_STOP
  }

  /** The page before `p` in the ring. */
  function Before(p: nat): u8
    requires IsPage(p)
  {
    if p == RX_START then RX_STOP - 1 else p - 1
  }

  lemma EmptyUsed()
    ensures Used([]) == 0
  {
  }

  lemma NextPage(p: nat, q: seq<Frame>)
    requires q != [] && Used(q) < PAGES && IsPage(p)
    ensures IsPage(Adv(p, q[0].pages))
  {
  }

  lemma QueueNotEmpty(l: seq<u8>, q: seq<Frame>, p: nat)
    requires q != [] && Used(q) < PAGES && IsPage(p) && Frames(l, p, q)
    ensures Adv(p, Used(q)) != p
  {
    assert q[0].pages >= 1;
  }

  lemma HeaderIsLin(m: seq<u8>, p: nat, hdr: seq<u8>)
    requires |m| == MEMORY && IsPage(p) && hdr == m[p * PAGE..p * PAGE + 4]
    ensures Lin(m, p)[0] == hdr[0] && Lin(m, p)[1] == hdr[1] && Lin(m, p)[2] == hdr[2] && Lin(m, p)[3] == hdr[3]
  {
  }

  /** The header bytes at their addresses. */
  lemma HeadOfLin(m: seq<u8>, p: nat)
    requires |m| == MEMORY && IsPage(p)
    ensures 256 * p + 4 <= |m| == 0x8000
    ensures forall i :: 0 <= i < 4 ==> Lin(m, p)[i] == m[256 * p + i]
  {
  }

  /** The bytes behind a header at their addresses: the ring goes on at 0x4600 behind 0x7FFF. */
  lemma DataOfLin(m: seq<u8>, p: nat, d: seq<u8>)
    requires |m| == MEMORY && IsPage(p) && |d| <= FRAME_MAX && d == Lin(m, p)[4..4 + |d|]
    ensures forall i :: 0 <= i < |d| ==>
      && 256 * p + 4 + i < 0x8000 + 0x3A00
      && d[i] == m[if 256 * p + 4 + i < 0x8000 then 256 * p + 4 + i else 256 * p + 4 + i - 0x3A00]
  {
    forall i | 0 <= i < |d|
      ensures 256 * p + 4 + i < 0x8000 + 0x3A00
      ensures d[i] == m[if 256 * p + 4 + i < 0x8000 then 256 * p + 4 + i else 256 * p + 4 + i - 0x3A00]
    {
      LinAt(m, p, 4 + i);
    }
  }

  /** What is fetched under the header at page `p`, told on the ring read round once from there. */
  ghost predicate Fetched(m: seq<u8>, p: nat, seen: u8, max: nat, d: seq<u8>, to: Option<u8>)
    requires |m| == MEMORY && IsPage(p) && IsPage(seen)
  {
    var l := Lin(m, p);
    var n := Word16(l[2], l[3]) - 4;
    if GoodHeader(l[0], l[1], Word16(l[2], l[3])) then
      |d| == (if n > max then max else n) && d == l[4..4 + |d|] && to == Some(Before(l[1]))
    else d == [] && to == Some(Before(seen))
  }

  /** The same at the addresses of the memory. */
  lemma FetchedAt(m: seq<u8>, p: nat, seen: u8, max: nat, d: seq<u8>, to: Option<u8>)
    requires |m| == MEMORY && IsPage(p) && IsPage(seen) && Fetched(m, p, seen, max, d, to)
    ensures var s: nat := 256 * p;
      && s + 4 <= |m| == 0x8000
      && var n := (m[s + 2] as int) + 256 * (m[s + 3] as int);
      if m[s] % 2 == 1 && 4 <= n <= 1536 && 0x46 <= m[s + 1] < 0x80 then
        && |d| == (if n - 4 > max then max as int else n - 4)
        && (forall i :: 0 <= i < |d| ==>
              && s + 4 + i < 0x8000 + 0x3A00
              && d[i] == m[if s + 4 + i < 0x8000 then s + 4 + i else s + 4 + i - 0x3A00])
        && to == Some(if m[s + 1] == 0x46 then 0x7F else m[s + 1] - 1)
      else d == [] && to == Some(if seen == 0x46 then 0x7F else seen - 1)
  {
    hide Lin;
    HeadOfLin(m, p);
    var l := Lin(m, p);
    if GoodHeader(l[0], l[1], Word16(l[2], l[3])) { DataOfLin(m, p, d); }
  }

  lemma FirstFrame(l: seq<u8>, p: nat, q: seq<Frame>)
    requires Frames(l, p, q) && q != [] && IsPage(p) && Used(q) < PAGES
    ensures var f := q[0];
      && |f.data| <= FRAME_MAX && |l| >= 4 + |f.data| && GoodHeader(l[0], l[1], Word16(l[2], l[3]))
      && Word16(l[2], l[3]) == |f.data| + 4 && l[1] == Adv(p, f.pages) && l[4..4 + |f.data|] == f.data
  {
    hide Frames;
    assert FrameAt(l, p, q[0]) && q[0].pages <= Used(q) by { FrontFrame(l, p, q); }
  }

  lemma FrontFrame(l: seq<u8>, p: nat, q: seq<Frame>)
    requires Frames(l, p, q) && q != []
    ensures FrameAt(l, p, q[0]) && q[0].pages <= Used(q)
  {
  }

  lemma FrontOf(s: seq<u8>, a: seq<u8>, b: seq<u8>, c: seq<u8>)
    requires s == a + b + c
    ensures s[..|a| + |b|] == a + b && (a == [] ==> s[..|b|] == b)
  {
  }

  class Nic {
    const mem: array<u8>
    var bnry: u8
    var curr: u8
    ghost var queue: seq<Frame>

    /** The page the driver reads next. */
    function Start(): nat
      reads this
    {
      if bnry + 1 >= RX_STOP then RX_START else bnry + 1
    }

    /** Registers inside the ring. */
    ghost predicate Ready()
      reads this
    {
      mem.Length == MEMORY && IsPage(bnry) && IsPage(curr)
    }

    /** The pages from the read page up to CURR hold exactly the frames not yet taken out. */
    ghost predicate Valid()
      reads this, mem
    {
      && Ready() && Used(queue) < PAGES
      && curr == Adv(Start(), Used(queue)) && Frames(Lin(mem[..], Start()), Start(), queue)
    }

    /** The ring part of ne2k_init. */
    constructor ()
      ensures Valid() && queue == [] && fresh(mem)
      ensures bnry == 0x46 && curr == 0x47 && mem.Length == 0x8000
    {
      mem := new u8[MEMORY];
      bnry, curr := RX_START, RX_START + 1;
      queue := [];
    }

    /** ne_read_mem: remote DMA delivers words, the low byte first. */
    method ReadMem(src: nat, buf: array<u8>, at: nat, len: nat)
      requires src + len <= mem.Length && at + len <= buf.Length && buf != mem
      requires len % 2 == 0 || src + len < mem.Length
      modifies buf
      ensures buf[..] == old(buf[..at]) + mem[src..src + len] + old(buf[at + len..])
    {
      var i: nat := 0;
      while i < len
        invariant i <= len + 1 && (i > len ==> len % 2 == 1) && i % 2 == 0
        invariant forall k :: 0 <= k < buf.Length ==>
          buf[k] == if at <= k < at + i && k < at + len then mem[src + (k - at)] else old(buf[k])
        decreases len + 1 - i
      {
        var low, high := mem[src + i], mem[src + i + 1];
        buf[at + i] := low;
        if i + 1 < len { buf[at + i + 1] := high; }
        i := i + 2;
      }
    }

    /** The data part of ne2k_recv, in two reads when the frame runs over the ring end. */
    method ReadData(start: nat, buf: array<u8>, len: nat)
      requires mem.Length == MEMORY && IsPage(start) && len <= FRAME_MAX && len <= buf.Length && buf != mem
      modifies buf
      ensures buf[..len] == Lin(mem[..], start)[4..4 + len]
    {
      hide Lin;
      WindowIsLin(mem[..], start, len);
      var off := start * PAGE + 4;
      if off + len <= MEMORY {
        ReadFront(off, buf, 0, len);
      } else {
        ReadAround(off, buf, len);
      }
    }

    /** The two reads of a frame that runs over the ring end. */
    method ReadAround(off: nat, buf: array<u8>, len: nat)
      requires mem.Length == MEMORY && off % 2 == 0 && off <= MEMORY < off + len && len <= FRAME_MAX
      requires len <= buf.Length && buf != mem
      modifies buf
      ensures buf[..len] == mem[off..] + mem[RX_START * PAGE..RX_START * PAGE + (len - (MEMORY - off))]
    {
      var first := MEMORY - off;
      ReadFront(off, buf, 0, first);
      assert buf[..first] == mem[off..];
      ReadFront(RX_START * PAGE, buf, first, len - first);
    }

    /** A read that goes on behind the first `at` bytes of the buffer. */
    method ReadFront(src: nat, buf: array<u8>, at: nat, len: nat)
      requires src + len <= mem.Length && at + len <= buf.Length && buf != mem
      requires len % 2 == 0 || src + len < mem.Length
      modifies buf
      ensures buf[..at + len] == old(buf[..at]) + mem[src..src + len]
      ensures at == 0 ==> buf[..len] == mem[src..src + len]
    {
      ReadMem(src, buf, at, len);
      FrontOf(buf[..], old(buf[..at]), mem[src..src + len], old(buf[at + len..]));
    }

    method ReadHeader(start: nat) returns (status: u8, next: u8, len: nat)
      requires mem.Length == MEMORY && IsPage(start)
      ensures var l := Lin(mem[..], start); status == l[0] && next == l[1] && len == Word16(l[2], l[3])
    {
      var hdr := new u8[4];
      ReadMem(start * PAGE, hdr, 0, 4);
      HeaderIsLin(mem[..], start, hdr[..]);
      return hdr[0], hdr[1], Word16(hdr[2], hdr[3]);
    }

    /** The part of ne2k_recv between reading CURR as `seen` and writing BNRY, on any ring contents: the frame under
        the header at the read page, and what BNRY is to become, unless nothing was seen there. */
    method Fetch(seen: u8, buf: array<u8>, max: u16) returns (len: nat, to: Option<u8>)
      requires max <= buf.Length && buf != mem && IsPage(seen) && Ready()
      modifies buf
      ensures len <= max && (seen == Start() ==> len == 0 && to == None)
      ensures seen != Start() ==>
        var l := Lin(mem[..], Start());
        var n := Word16(l[2], l[3]) - 4;
        if GoodHeader(l[0], l[1], Word16(l[2], l[3])) then
          len == (if n > max then max else n) && buf[..len] == l[4..4 + len] && to == Some(Before(l[1]))
        else len == 0 && to == Some(Before(seen))
      ensures seen != Start() ==>
        var s: nat := 256 * if bnry >= 0x7F then 0x46 else bnry + 1;
        && s + 4 <= mem.Length == 0x8000
        && var n := (mem[s + 2] as int) + 256 * (mem[s + 3] as int);
        if mem[s] % 2 == 1 && 4 <= n <= 1536 && 0x46 <= mem[s + 1] < 0x80 then
          && len == (if n - 4 > max then max as int else n - 4)
          && (forall i :: 0 <= i < len ==>
                && s + 4 + i < 0x8000 + 0x3A00
                && buf[i] == mem[if s + 4 + i < 0x8000 then s + 4 + i else s + 4 + i - 0x3A00])
          && to == Some(if mem[s + 1] == 0x46 then 0x7F else mem[s + 1] - 1)
        else len == 0 && to == Some(if seen == 0x46 then 0x7F else seen - 1)
    {
      hide Lin;
      var start := Start();
      if start == seen { return 0, None; }
      len, to := FetchBehind(start, seen, buf, max);
      FetchedAt(mem[..], start, seen, max, buf[..len], to);
    }

    /** The rest of ne2k_recv once something was seen behind `start`. */
    method FetchBehind(start: nat, seen: u8, buf: array<u8>, max: u16) returns (len: nat, to: Option<u8>)
      requires mem.Length == MEMORY && IsPage(start) && max <= buf.Length && buf != mem && IsPage(seen)
      modifies buf
      ensures len <= max && Fetched(mem[..], start, seen, max, buf[..len], to)
    {
      hide Lin;
      var status, next, pktLen := ReadHeader(start);
      if !GoodHeader(status, next, pktLen) {
        return 0, Some(if seen == RX_START then RX_STOP - 1 else seen - 1);
      }
      len := pktLen - 4;
      if len > max { len := max; }
      ReadData(start, buf, len);
      to := Some(if next - 1 < RX_START then RX_STOP - 1 else next - 1);
    }

    /** The write of BNRY at the end of ne2k_recv: the read page is the one behind it. */
    method Release(to: u8)
      requires IsPage(to) && Ready()
      modifies `bnry
      ensures Ready() && bnry == to && forall p: u8 :: IsPage(p) && to == Before(p) ==> Start() == p
    {
      bnry := to;
    }

    /** ne2k_recv with nothing happening meanwhile, on any ring contents: the frame under the header at the read page,
        or a drained ring when that header makes no sense. */
    method Recv(buf: array<u8>, max: u16) returns (len: nat)
      requires max <= buf.Length && buf != mem && Ready()
      modifies `bnry, buf
      ensures Ready() && len <= max
      ensures old(Start()) == curr ==> len == 0 && bnry == old(bnry)
      ensures old(Start()) != curr ==>
        var l := Lin(mem[..], old(Start()));
        var n := Word16(l[2], l[3]) - 4;
        if GoodHeader(l[0], l[1], Word16(l[2], l[3])) then
          len == (if n > max then max else n) && buf[..len] == l[4..4 + len] && Start() == l[1]
        else len == 0 && Start() == curr
    {
      hide Lin;
      var to: Option<u8>;
      len, to := Fetch(curr, buf, max);
      if to.Some? { Release(to.value); }
    }

    /** ne2k_recv on a ring filled by the chip: the oldest frame, byte for byte, cut to `max`. */
    method RecvFrame(buf: array<u8>, max: u16) returns (len: nat)
      requires max <= buf.Length && buf != mem
      requires Valid()
      modifies `bnry, `queue, buf
      ensures old(queue) == [] ==> len == 0 && queue == []
      ensures old(queue) != [] ==>
        var f := old(queue[0]).data;
        len == (if |f| > max then max else |f|) && buf[..len] == f[..len] && queue == old(queue)[1..]
      ensures Valid()
    {
      hide Lin, Frames, Used;
      ghost var l, start := Lin(mem[..], Start()), Start();
      if queue == [] {
        EmptyUsed();
      } else {
        QueueNotEmpty(l, queue, start);
        FirstFrame(l, start, queue);
        RecvKeeps(mem[..], start, queue);
      }
      len := Recv(buf, max);
      if queue != [] {
        SubSlice(l, 4, 4 + |queue[0].data|, 0, len);
        queue := queue[1..];
      }
    }

    /** The oldest frame is fetched, whatever CURR was read as, if it was not the read page itself. */
    method FetchFrame(seen: u8, buf: array<u8>, max: u16) returns (len: nat, to: Option<u8>)
      requires max <= buf.Length && buf != mem && IsPage(seen) && (seen != Start() ==> queue != [])
      requires Valid()
      modifies buf
      ensures seen == Start() ==> len == 0 && to == None
      ensures seen != Start() ==>
        var f := queue[0].data;
        len == (if |f| > max then max else |f|) && buf[..len] == f[..len] && to == Some(AfterFrame())
      ensures Valid()
    {
      hide Lin, Frames, Used;
      ghost var l, start := Lin(mem[..], Start()), Start();
      if seen != start {
        FirstFrame(l, start, queue);
        NextPage(start, queue);
      }
      len, to := Fetch(seen, buf, max);
      if seen != start { SubSlice(l, 4, 4 + |queue[0].data|, 0, len); }
    }

    /** What BNRY is to become when the oldest frame has been fetched. */
    ghost function AfterFrame(): u8
      requires Valid() && queue != []
      reads this, mem
    {
      NextPage(Start(), queue);
      Before(Adv(Start(), queue[0].pages))
    }

    /** The oldest frame leaves the ring when BNRY is written. */
    method ReleaseFrame(to: u8)
      requires Valid() && queue != [] && to == AfterFrame()
      modifies `bnry, `queue
      ensures queue == old(queue)[1..]
      ensures Valid()
    {
      hide Lin, Frames, Used;
      ghost var start := Start();
      NextPage(start, queue);
      RecvKeeps(mem[..], start, queue);
      Release(to);
      queue := queue[1..];
    }

    /** The chip: a frame that fits the free pages is stored behind the others; any other is dropped. */
    method Deposit(f: Frame) returns (stored: bool)
      requires FrameOk(f)
      requires Valid()
      modifies this`curr, this`queue, mem
      ensures stored <==> Used(old(queue)) + f.pages < 58
      ensures queue == if stored then old(queue) + [f] else old(queue)
      ensures Valid()
    {
      hide Lin, Frames, FrameAt, Used;
      var free := if bnry >= curr then bnry - curr else bnry + PAGES - curr;
      if f.pages > free { return false; }
      ghost var m, start, before := mem[..], Start(), queue;
      var next := Adv(curr, f.pages);
      WriteFrame(curr, next, f);
      DepositKeeps(m, mem[..], start, curr, before, f);
      curr := next;
      queue := queue + [f];
      return true;
    }

    /** The chip's store: header at the start of the page, data behind it, wrapping at the ring end. */
    method WriteFrame(page: nat, next: u8, f: Frame)
      requires mem.Length == MEMORY && IsPage(page) && FrameOk(f) && f.pages < PAGES && next == Adv(page, f.pages)
      modifies mem
      ensures FrameAt(Lin(mem[..], page), page, f)
      ensures var k := PAGE * f.pages; Lin(mem[..], page)[k..] == Lin(old(mem[..]), page)[k..]
    {
      hide Lin;
      ghost var m := mem[..];
      var a := page * PAGE;
      mem[a] := f.status;
      mem[a + 1] := next;
      mem[a + 2] := (|f.data| + 4) % 256;
      mem[a + 3] := (|f.data| + 4) / 256;
      ghost var h := mem[..];
      WriteBody(page, f.data + f.tail);
      HeaderWritten(m, h, page, next, f);
      FrameWritten(m, h, mem[..], page, f);
    }

    /** Bytes from the fourth of a page on, wrapping at the ring end. */
    method WriteBody(page: nat, body: seq<u8>)
      requires mem.Length == MEMORY && IsPage(page) && 4 + |body| <= PAGES * PAGE
      modifies mem
      ensures forall r :: 0 <= r < PAGES * PAGE ==>
        mem[RingAddr(page, r)] == if 4 <= r < 4 + |body| then body[r - 4] else old(mem[..])[RingAddr(page, r)]
    {
      var at := page * PAGE + 4;
      var i: nat := 0;
      while i < |body|
        invariant i <= |body| && (i < |body| ==> at == RingAddr(page, 4 + i))
        invariant forall r :: 0 <= r < PAGES * PAGE ==>
          mem[RingAddr(page, r)] == if 4 <= r < 4 + i then body[r - 4] else old(mem[..])[RingAddr(page, r)]
      {
        mem[at] := body[i];
        at := at + 1;
        if at == MEMORY { at := RX_START * PAGE; }
        i := i + 1;
      }
    }
  }

  /** The four header bytes are in place and nothing else of the ring has changed. */
  ghost predicate HeaderAt(m: seq<u8>, h: seq<u8>, page: nat, next: u8, f: Frame)
    requires |m| == |h| == MEMORY && IsPage(page)
  {
    && h[RingAddr(page, 0)] == f.status && h[RingAddr(page, 1)] == next
    && Word16(h[RingAddr(page, 2)], h[RingAddr(page, 3)]) == |f.data| + 4
    && forall r :: 4 <= r < PAGES * PAGE ==> h[RingAddr(page, r)] == m[RingAddr(page, r)]
  }

  lemma HeaderWritten(m: seq<u8>, h: seq<u8>, page: nat, next: u8, f: Frame)
    requires |m| == |h| == MEMORY && IsPage(page) && FrameOk(f)
    requires var a := page * PAGE;
      h == m[a := f.status][a + 1 := next][a + 2 := (|f.data| + 4) % 256][a + 3 := (|f.data| + 4) / 256]
    ensures HeaderAt(m, h, page, next, f)
  {
  }

  lemma FrameWritten(m: seq<u8>, h: seq<u8>, n: seq<u8>, page: nat, f: Frame)
    requires |m| == |h| == |n| == MEMORY && IsPage(page) && FrameOk(f) && f.pages < PAGES
    requires HeaderAt(m, h, page, Adv(page, f.pages), f)
    requires var body := f.data + f.tail; forall r :: 0 <= r < PAGES * PAGE ==>
      n[RingAddr(page, r)] == if 4 <= r < 4 + |body| then body[r - 4] else h[RingAddr(page, r)]
    ensures FrameAt(Lin(n, page), page, f)
    ensures var k := PAGE * f.pages; Lin(n, page)[k..] == Lin(m, page)[k..]
  {
    forall r | 0 <= r < PAGES * PAGE
      ensures Lin(n, page)[r] == n[RingAddr(page, r)] && Lin(m, page)[r] == m[RingAddr(page, r)]
    {
      LinAt(n, page, r);
      LinAt(m, page, r);
    }
    hide Lin, RingAddr;
    var l := Lin(n, page);
    assert l[4..4 + |f.data|] == f.data;
  }

  // ---- every interleaving of the chip and the driver --------------------------------------------

  /** What can happen: the chip receives a frame, or the driver goes on with its reception: it reads CURR, it fetches
      what it saw with room for `max` bytes, it writes BNRY. Frames arrive between any two of these. */
  datatype Event = Arrive(frame: Frame) | Look | Take(max: u16) | Free

  /** How far a reception is: `some` frame seen, or a frame fetched whose pages BNRY still covers. */
  datatype Phase = Idle | Looked(some: bool) | Taken

  /** Frames accepted by the chip and frames taken out by the driver, oldest first; what each reception delivered; the
      frames still in the ring. */
  datatype History =
    History(accepted: seq<Frame>, taken: seq<Frame>, delivered: seq<seq<u8>>, pending: seq<Frame>, phase: Phase)

  function Cut(d: seq<u8>, max: nat): seq<u8> { if |d| > max then d[..max] else d }

  /** An event the reception is not ready for does not happen. */
  ghost function Next(h: History, e: Event): History {
    match e
    case Arrive(f) =>
      if Used(h.pending) + f.pages < PAGES then h.(accepted := h.accepted + [f], pending := h.pending + [f]) else h
    case Look => if h.phase == Idle then h.(phase := Looked(h.pending != [])) else h
    case Take(max) =>
      if h.phase == Looked(false) then h.(delivered := h.delivered + [[]], phase := Idle)
      else if h.phase == Looked(true) && h.pending != [] then
        h.(delivered := h.delivered + [Cut(h.pending[0].data, max)], phase := Taken)
      else h
    case Free =>
      if h.phase == Taken && h.pending != [] then
        h.(taken := h.taken + [h.pending[0]], pending := h.pending[1..], phase := Idle)
      else h
  }

  ghost function Run(h: History, es: seq<Event>): History
    decreases |es|
  {
    if es == [] then h else Run(Next(h, es[0]), es[1..])
  }

  /** Frames that arrive go behind those pending and do nothing else. */
  lemma {:induction false} Arrivals(h: History, es: seq<Event>)
    requires forall e :: e in es ==> e.Arrive?
    ensures var r := Run(h, es);
      r.delivered == h.delivered && r.taken == h.taken && r.phase == h.phase && h.pending <= r.pending
    decreases |es|
  {
    if es != [] {
      assert es[0] in es;
      Arrivals(Next(h, es[0]), es[1..]);
    }
  }

  lemma {:induction false} RunConcat(h: History, es: seq<Event>, fs: seq<Event>)
    ensures Run(h, es + fs) == Run(Run(h, es), fs)
    decreases |es|
  {
    hide Next;
    if es == [] {
      assert es + fs == fs;
    } else {
      HeadAndTail(es, fs);
      RunConcat(Next(h, es[0]), es[1..], fs);
    }
  }

  /** A reception of an idle driver delivers the frame that was the oldest one when it began, cut to its room, and
      takes exactly that frame out, whatever arrives meanwhile. */
  lemma ReceptionDelivers(h: History, us: seq<Event>, vs: seq<Event>, max: u16)
    requires h.phase == Idle && h.pending != [] && forall e :: e in us + vs ==> e.Arrive?
    ensures var (r, d) := (Run(h, [Look] + (us + ([Take(max)] + (vs + [Free])))), h.pending[0].data);
      && r.delivered == h.delivered + [if |d| > max then d[..max] else d]
      && r.taken == h.taken + [h.pending[0]] && r.phase == Idle && h.pending[1..] <= r.pending
  {
    hide Run;
    forall e | e in us || e in vs ensures e.Arrive? { assert e in us + vs; }
    var looked := Next(h, Look);
    RunConcat(h, [Look], us + ([Take(max)] + (vs + [Free])));
    RunConcat(looked, us, [Take(max)] + (vs + [Free]));
    Arrivals(looked, us);
    var seen := Run(looked, us);
    RunConcat(seen, [Take(max)], vs + [Free]);
    var got := Next(seen, Take(max));
    RunConcat(got, vs, [Free]);
    Arrivals(got, vs);
    OneEvent(h, Look);
    OneEvent(seen, Take(max));
    OneEvent(Run(got, vs), Free);
  }

  lemma OneEvent(h: History, e: Event)
    ensures Run(h, [e]) == Next(h, e)
  {
    assert [e][1..] == [];
  }

  /** The queue of Next is first in, first out: frames taken followed by those pending are the accepted ones. */
  lemma {:induction false} RingIsFifo(h: History, es: seq<Event>)
    requires h.accepted == h.taken + h.pending
    ensures var r := Run(h, es); r.accepted == r.taken + r.pending
    decreases |es|
  {
    if es != [] {
      var n := Next(h, es[0]);
      if es[0].Free? && h.pending != [] { assert h.pending == [h.pending[0]] + h.pending[1..]; }
      RingIsFifo(n, es[1..]);
    }
  }

  function Bytes(fs: seq<Frame>): seq<seq<u8>> { if fs == [] then [] else [fs[0].data] + Bytes(fs[1..]) }

  function NonEmpty(delivered: seq<seq<u8>>): seq<seq<u8>> {
    if delivered == [] then [] else (if delivered[0] == [] then [] else [delivered[0]]) + NonEmpty(delivered[1..])
  }

  lemma {:induction false} BytesAppend(fs: seq<Frame>, f: Frame)
    ensures Bytes(fs + [f]) == Bytes(fs) + [f.data]
  {
    if fs == [] { assert [f][1..] == []; } else { BytesAppend(fs[1..], f); assert (fs + [f])[1..] == fs[1..] + [f]; }
  }

  lemma {:induction false} NonEmptyAppend(delivered: seq<seq<u8>>, r: seq<u8>)
    ensures NonEmpty(delivered + [r]) == NonEmpty(delivered) + if r == [] then [] else [r]
  {
    if delivered == [] {
      assert [r][1..] == [];
    } else {
      NonEmptyAppend(delivered[1..], r);
      HeadAndTail(delivered, [r]);
      Regrouped(if delivered[0] == [] then [] else [delivered[0]], NonEmpty(delivered[1..]), if r == [] then [] else [r]);
    }
  }

  /** The frame fetched whose pages are not free yet. */
  ghost function Held(h: History): seq<Frame> { if h.phase == Taken && h.pending != [] then [h.pending[0]] else [] }

  /** A frame seen stays there until it is taken out. */
  ghost predicate Sees(h: History) { h.phase == Looked(true) || h.phase == Taken ==> h.pending != [] }

  /** With room for any frame in every reception, and no empty frames, the receptions that deliver something deliver
      exactly the frames taken, and the one held, uncut. */
  lemma {:induction false} FullReads(h: History, es: seq<Event>)
    requires NonEmpty(h.delivered) == Bytes(h.taken + Held(h)) && Sees(h)
    requires forall f :: f in h.pending ==> 0 < |f.data| <= FRAME_MAX
    requires forall e :: e in es ==> (e.Arrive? ==> 0 < |e.frame.data| <= FRAME_MAX) && (e.Take? ==> e.max >= FRAME_MAX)
    ensures var r := Run(h, es); NonEmpty(r.delivered) == Bytes(r.taken + Held(r))
    decreases |es|
  {
    hide NonEmpty, Bytes;
    if es != [] {
      assert es[0] in es;
      if h.pending != [] { assert h.pending[0] in h.pending; }
      FullStep(h, es[0]);
      FullReads(Next(h, es[0]), es[1..]);
    }
  }

  lemma FullStep(h: History, e: Event)
    requires NonEmpty(h.delivered) == Bytes(h.taken + Held(h)) && Sees(h)
    requires h.pending != [] ==> 0 < |h.pending[0].data| <= FRAME_MAX
    requires e.Take? ==> e.max >= FRAME_MAX
    ensures var n := Next(h, e); NonEmpty(n.delivered) == Bytes(n.taken + Held(n)) && Sees(n)
  {
    hide NonEmpty, Bytes;
    if e.Take? && h.phase == Looked(false) {
      NonEmptyAppend(h.delivered, []);
    } else if e.Take? && h.phase == Looked(true) {
      NonEmptyAppend(h.delivered, h.pending[0].data);
      BytesAppend(h.taken, h.pending[0]);
      assert h.taken + [] == h.taken;
    } else if e.Free? {
      assert h.taken + [] == h.taken && (h.pending != [] ==> (h.taken + [h.pending[0]]) + [] == h.taken + [h.pending[0]]);
    }
  }

  lemma {:induction false} RunAppend(h: History, es: seq<Event>, e: Event)
    ensures Run(h, es + [e]) == Next(Run(h, es), e)
    decreases |es|
  {
    hide Next;
    if es == [] {
      assert es + [e] == [e] && [e][1..] == [];
    } else {
      assert (es + [e])[1..] == es[1..] + [e];
      RunAppend(Next(h, es[0]), es[1..], e);
    }
  }

  /** How far the real driver is, with the value of CURR it has read or the value it is to write to BNRY. */
  datatype Driver = Waiting | Saw(curr: u8) | Got(to: u8)

  /** The driver is as far as the history says, and holds what it needs to go on. */
  ghost predicate InPhase(nic: Nic, d: Driver, phase: Phase)
    requires nic.Valid()
    reads nic, nic.mem
  {
    match d
    case Waiting => phase == Idle
    case Saw(curr) => IsPage(curr) && phase == Looked(curr != nic.Start()) && (curr != nic.Start() ==> nic.queue != [])
    case Got(to) => phase == Taken && nic.queue != [] && to == nic.AfterFrame()
  }

  /** One event on the real ring. */
  method Happen(nic: Nic, buf: array<u8>, d: Driver, e: Event, ghost h: History) returns (now: Driver, got: seq<seq<u8>>)
    requires buf != nic.mem && buf.Length == 0xFFFF && (e.Arrive? ==> FrameOk(e.frame))
    requires nic.Valid() && nic.queue == h.pending && InPhase(nic, d, h.phase)
    modifies nic, nic.mem, buf
    ensures nic.Valid() && nic.queue == Next(h, e).pending && InPhase(nic, now, Next(h, e).phase)
    ensures Next(h, e).delivered == h.delivered + got
  {
    hide Lin, Frames, Used;
    now, got := d, [];
    match e {
      case Arrive(f) =>
        var stored := nic.Deposit(f);
      case Look =>
        if d == Waiting {
          LookTells(nic);
          now := Saw(nic.curr);
        }
      case Take(max) =>
        if d.Saw? {
          var len, to := nic.FetchFrame(d.curr, buf, max);
          got := [buf[..len]];
          if to.Some? {
            assert h.pending[0].data[..len] == Cut(h.pending[0].data, max);
            now := Got(to.value);
          } else {
            now := Waiting;
          }
        }
      case Free =>
        if d.Got? {
          nic.ReleaseFrame(d.to);
          now := Waiting;
        }
    }
  }

  /** CURR differs from the read page exactly when a frame is in the ring. */
  lemma LookTells(nic: Nic)
    requires nic.Valid()
    ensures nic.curr != nic.Start() <==> nic.queue != []
  {
    hide Lin, Frames;
    if nic.queue != [] { QueueNotEmpty(Lin(nic.mem[..], nic.Start()), nic.queue, nic.Start()); }
  }

  ghost function Empty(): History { History([], [], [], [], Idle) }

  /** Any interleaving on the real ring, frames arriving also in the middle of a reception, with any room for each:
      what each reception delivers is the oldest pending frame, byte for byte, cut to that room, or nothing; and the
      frames taken, followed by those still in the ring, are the frames the chip accepted, in order. */
  method Interleave(es: seq<Event>) returns (delivered: seq<seq<u8>>, nic: Nic)
    requires forall e :: e in es && e.Arrive? ==>
      && e.frame.status % 2 == 1 && |e.frame.data| <= 1532
      && 4 + |e.frame.data| + |e.frame.tail| <= 256 * e.frame.pages
    ensures var h := Run(Empty(), es);
      delivered == h.delivered && nic.queue == h.pending && h.accepted == h.taken + nic.queue
    ensures nic.Valid()
  {
    hide Next, InPhase;
    nic := new Nic();
    delivered := [];
    var d, buf := Waiting, new u8[0xFFFF];
    var i: nat := 0;
    assert es[..0] == [];
    StartsIdle(nic);
    while i < |es|
      invariant i <= |es| && nic.Valid() && buf != nic.mem && fresh(nic) && fresh(nic.mem) && fresh(buf)
      invariant var h := Run(Empty(), es[..i]);
        delivered == h.delivered && nic.queue == h.pending && InPhase(nic, d, h.phase)
    {
      assert es[..i + 1] == es[..i] + [es[i]];
      RunAppend(Empty(), es[..i], es[i]);
      assert es[i] in es;
      var got: seq<seq<u8>>;
      d, got := Happen(nic, buf, d, es[i], Run(Empty(), es[..i]));
      delivered := delivered + got;
      i := i + 1;
    }
    assert es[..i] == es;
    RingIsFifo(Empty(), es);
  }

  lemma StartsIdle(nic: Nic)
    requires nic.Valid()
    ensures InPhase(nic, Waiting, Idle)
  {
  }
}
