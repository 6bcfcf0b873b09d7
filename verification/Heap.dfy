/** The allocator of mm/kmalloc.c over physical memory: headers are records in the same cells as the
    payload bytes, linked by address, and updated in place. */
module Heap {
  import opened Types
  import opened HeapLayout

  const HEAP_START: nat := 0x200000
  const HEAP_SIZE: nat := 8 * 1024 * 1024
  const MAGIC_FREE: nat := 0xFEE1DEAD
  const MAGIC_USED: nat := 0xC0FFEE00

  /** One address of physical memory. The 16 bytes of a header are a record in the first of its cells. */
  datatype Cell = Byte(value: u8) | Header(magic: nat, size: nat, next: nat, prev: nat)

  /** The first address of the heap, `(base + 0xFFF) & ~0xFFF` in 32 bits. */
  function InitBase(base: u32): nat {
    ((if base < HEAP_START then HEAP_START else base) + 0xFFF) % TWO32 / 0x1000 * 0x1000
  }

  lemma PageMultiple(q: nat)
    ensures q * 0x1000 % 8 == 0
  {
    var m := q * 0x200;
    assert q * 0x1000 == 8 * m;
  }

  /** The heap starts page-aligned at or above the base, less than a page away; in the last page below 4 GB the
      rounding wraps and the heap's address becomes NULL. */
  lemma InitBaseAligned(base: u32)
    ensures InitBase(base) % 0x1000 == 0 && InitBase(base) % 8 == 0
    ensures base <= TWO32 - 0x1000 ==>
      base <= InitBase(base) && 0x20_0000 <= InitBase(base)
      && (InitBase(base) < base + 0x1000 || InitBase(base) == 0x20_0000)
    ensures base > TWO32 - 0x1000 <==> InitBase(base) == 0
  {
    PageMultiple(((if base < HEAP_START then HEAP_START else base) + 0xFFF) % TWO32 / 0x1000);
  }

  function InitSize(size: u32): nat { if size < 0x10000 then HEAP_SIZE else size }

  ghost function NextAddr(bs: seq<Block>, i: nat): nat
    requires i < |bs|
  {
    if i + 1 < |bs| then bs[i + 1].addr else 0
  }

  ghost function PrevAddr(bs: seq<Block>, i: nat): nat
    requires i < |bs|
  {
    if i > 0 then bs[i - 1].addr else 0
  }

  ghost function HeaderOf(bs: seq<Block>, i: nat): Cell
    requires i < |bs|
  {
    Header(if bs[i].free then MAGIC_FREE else MAGIC_USED, bs[i].size, NextAddr(bs, i), PrevAddr(bs, i))
  }

  /** Addresses no call may disturb: those outside the heap and those inside a live payload. */
  ghost predicate Held(live: set<(nat, nat)>, lo: nat, hi: nat, a: nat) {
    a < lo || hi <= a || exists p :: p in live && p.0 <= a < p.0 + p.1
  }

  lemma HeldAvoidsBlock(bs: seq<Block>, lo: nat, hi: nat, i: nat, a: nat)
    requires Tiles(bs, lo, hi) && i < |bs| && Held(Live(bs), lo, hi, a)
    ensures a < bs[i].addr || bs[i].Payload() <= a
    ensures bs[i].free ==> a < bs[i].addr || bs[i].End() <= a
  {
    InRange(bs, lo, hi, i);
    if lo <= a < hi {
      var p :| p in Live(bs) && p.0 <= a < p.0 + p.1;
      var j := LiveAt(bs, p);
      if j < i { Ordered(bs, lo, hi, j, i); } else if i < j { Ordered(bs, lo, hi, i, j); }
    }
  }

  lemma HeldAvoidsAll(bs: seq<Block>, lo: nat, hi: nat, i: nat)
    requires Tiles(bs, lo, hi) && i < |bs|
    ensures forall a: nat :: Held(Live(bs), lo, hi, a) ==> a < bs[i].addr || bs[i].Payload() <= a
    ensures bs[i].free ==> forall a: nat :: Held(Live(bs), lo, hi, a) ==> a < bs[i].addr || bs[i].End() <= a
  {
    forall a: nat | Held(Live(bs), lo, hi, a)
      ensures a < bs[i].addr || bs[i].Payload() <= a
      ensures bs[i].free ==> a < bs[i].addr || bs[i].End() <= a
    {
      HeldAvoidsBlock(bs, lo, hi, i, a);
    }
  }

  /** Every block's header cell says what the list says, links included. */
  ghost predicate Linked(m: seq<Cell>, bs: seq<Block>) {
    forall i :: 0 <= i < |bs| ==> bs[i].addr < |m| && m[bs[i].addr] == HeaderOf(bs, i)
  }

  /** No cell carries a USED tag unless it is the header of a live block. */
  ghost predicate NoStrayTags(m: seq<Cell>, bs: seq<Block>) {
    forall a :: 0 <= a < |m| && m[a].Header? && m[a].magic == MAGIC_USED ==> Find(bs, a + HDR) < |bs|
  }

  ghost predicate LiveBytes(m: seq<Cell>, live: set<(nat, nat)>) {
    forall p, a :: p in live && p.0 <= a < p.0 + p.1 && a < |m| ==> m[a].Byte?
  }

  /** Memory `m` holds the block list `bs` over [lo, hi), headers, links and payload bytes. */
  ghost predicate Holds(m: seq<Cell>, bs: seq<Block>, lo: nat, hi: nat) {
    && 0 < lo < hi <= |m| <= TWO32
    && Tiles(bs, lo, hi) && Aligned(bs)
    && Linked(m, bs) && NoStrayTags(m, bs) && LiveBytes(m, Live(bs))
  }

  /** Two memories agree on everything a call may not disturb. */
  ghost predicate SameHeld(m: seq<Cell>, n: seq<Cell>, live: set<(nat, nat)>, lo: nat, hi: nat) {
    |m| == |n| && forall a :: 0 <= a < |m| && Held(live, lo, hi, a) ==> m[a] == n[a]
  }

  // ---- the in-place header updates, and that each keeps memory and list in step --------------

  ghost predicate CanSplit(m: seq<Cell>, bs: seq<Block>, lo: nat, hi: nat, i: nat, n: nat) {
    Holds(m, bs, lo, hi) && i < |bs| && Fits(bs[i], n) && Splits(bs[i], n) && n % 8 == 0
  }

  /** Block `i` and its successor are where the list says, apart from each other. */
  lemma BlockInMemory(m: seq<Cell>, bs: seq<Block>, lo: nat, hi: nat, i: nat)
    requires Holds(m, bs, lo, hi) && i < |bs|
    ensures lo <= bs[i].addr && bs[i].End() <= hi && m[bs[i].addr] == HeaderOf(bs, i)
    ensures i + 1 < |bs| ==> bs[i + 1].addr == bs[i].End() < hi && m[bs[i + 1].addr] == HeaderOf(bs, i + 1)
    ensures i > 0 ==> bs[i - 1].End() == bs[i].addr && lo <= bs[i - 1].addr && m[bs[i - 1].addr] == HeaderOf(bs, i - 1)
  {
    InRange(bs, lo, hi, i);
    if i + 1 < |bs| { InRange(bs, lo, hi, i + 1); }
    if i > 0 { InRange(bs, lo, hi, i - 1); }
  }

  /** Memory `n` is `m` after the split of block `i`: cell by cell. */
  ghost predicate SplitCells(m: seq<Cell>, n: seq<Cell>, bs: seq<Block>, i: nat, size: nat)
    requires i < |bs| && bs[i].size >= size + HDR
  {
    var b := bs[i].addr;
    var nb := b + HDR + size;
    var next := NextAddr(bs, i);
    && |n| == |m| && nb < |m| && next < |m| && b < |m|
    && n[b] == Header(MAGIC_FREE, size, nb, PrevAddr(bs, i))
    && n[nb] == Header(MAGIC_FREE, bs[i].size - size - HDR, next, b)
    && (next != 0 ==> m[next].Header? && n[next] == m[next].(prev := nb))
    && forall a :: 0 <= a < |m| && a != b && a != nb && (next == 0 || a != next) ==> n[a] == m[a]
  }

  /** `cs` is `bs` with block `i` cut in two. */
  ghost predicate IsSplit(bs: seq<Block>, cs: seq<Block>, i: nat, size: nat) {
    && i < |bs| && |cs| == |bs| + 1 && bs[i].size >= size + HDR
    && (forall j :: 0 <= j < i ==> cs[j] == bs[j])
    && (forall j :: i + 1 < j < |cs| ==> cs[j] == bs[j - 1])
    && cs[i] == Block(bs[i].addr, size, true)
    && cs[i + 1] == Block(bs[i].addr + HDR + size, bs[i].size - size - HDR, true)
  }

  lemma SplitLinkedApart(m: seq<Cell>, n: seq<Cell>, bs: seq<Block>, cs: seq<Block>, i: nat, size: nat, j: nat)
    requires IsSplit(bs, cs, i, size) && SplitCells(m, n, bs, i, size) && j < |cs| && (j < i || i + 2 < j)
    requires cs[j].addr != bs[i].addr && cs[j].addr != cs[i + 1].addr
    requires NextAddr(bs, i) == 0 || cs[j].addr != NextAddr(bs, i)
    requires var k := if j < i then j else j - 1; bs[k].addr < |m| && m[bs[k].addr] == HeaderOf(bs, k)
    ensures cs[j].addr < |n| && n[cs[j].addr] == HeaderOf(cs, j)
  {
    if j > 0 { assert cs[j - 1].addr == bs[if j - 1 < i then j - 1 else j - 2].addr; }
    if j + 1 < |cs| { assert cs[j + 1].addr == bs[if j + 1 <= i then j + 1 else j].addr; }
  }

  lemma SplitLinkedNext(m: seq<Cell>, n: seq<Cell>, bs: seq<Block>, cs: seq<Block>, i: nat, size: nat)
    requires IsSplit(bs, cs, i, size) && SplitCells(m, n, bs, i, size) && i + 2 < |cs|
    requires 0 < bs[i + 1].addr < |m| && m[bs[i + 1].addr] == HeaderOf(bs, i + 1)
    ensures cs[i + 2].addr < |n| && n[cs[i + 2].addr] == HeaderOf(cs, i + 2)
  {
    assert cs[i + 2] == bs[i + 1];
    if i + 3 < |cs| { assert cs[i + 3] == bs[i + 2]; }
  }

  lemma SplitLinkedHere(m: seq<Cell>, n: seq<Cell>, bs: seq<Block>, cs: seq<Block>, i: nat, size: nat)
    requires IsSplit(bs, cs, i, size) && SplitCells(m, n, bs, i, size) && bs[i].free
    ensures cs[i].addr < |n| && n[cs[i].addr] == HeaderOf(cs, i)
    ensures cs[i + 1].addr < |n| && n[cs[i + 1].addr] == HeaderOf(cs, i + 1)
  {
    if i + 1 < |bs| { assert cs[i + 2] == bs[i + 1]; }
    if i > 0 { assert cs[i - 1] == bs[i - 1]; }
  }

  lemma SplitLinkedAt(m: seq<Cell>, n: seq<Cell>, bs: seq<Block>, cs: seq<Block>, lo: nat, hi: nat, i: nat, size: nat,
    j: nat)
    requires Linked(m, bs) && IsSplit(bs, cs, i, size) && SplitCells(m, n, bs, i, size)
    requires Tiles(cs, lo, hi) && 0 < lo && bs[i].free && j < |cs|
    ensures cs[j].addr < |n| && n[cs[j].addr] == HeaderOf(cs, j)
  {
    hide HeaderOf;
    assert j != i && j != i + 1 ==> bs[if j < i then j else j - 1].addr < |m|;
    if i + 2 < |cs| { assert cs[i + 2] == bs[i + 1]; InRange(cs, lo, hi, i + 2); }
    if j == i || j == i + 1 {
      SplitLinkedHere(m, n, bs, cs, i, size);
    } else if j == i + 2 {
      SplitLinkedNext(m, n, bs, cs, i, size);
    } else {
      if j < i {
        Ordered(cs, lo, hi, j, i);
        Ordered(cs, lo, hi, j, i + 1);
        if i + 2 < |cs| { Ordered(cs, lo, hi, j, i + 2); }
      } else {
        Ordered(cs, lo, hi, i, j);
        Ordered(cs, lo, hi, i + 1, j);
        Ordered(cs, lo, hi, i + 2, j);
      }
      SplitLinkedApart(m, n, bs, cs, i, size, j);
    }
  }

  lemma SplitLinked(m: seq<Cell>, n: seq<Cell>, bs: seq<Block>, cs: seq<Block>, lo: nat, hi: nat, i: nat, size: nat)
    requires Linked(m, bs) && IsSplit(bs, cs, i, size) && SplitCells(m, n, bs, i, size)
    requires Tiles(cs, lo, hi) && 0 < lo && bs[i].free
    ensures Linked(n, cs)
  {
    forall j | 0 <= j < |cs| ensures cs[j].addr < |n| && n[cs[j].addr] == HeaderOf(cs, j) {
      SplitLinkedAt(m, n, bs, cs, lo, hi, i, size, j);
    }
  }

  lemma SplitSameHeld(m: seq<Cell>, n: seq<Cell>, bs: seq<Block>, lo: nat, hi: nat, i: nat, size: nat)
    requires Tiles(bs, lo, hi) && i < |bs| && Fits(bs[i], size) && Splits(bs[i], size)
    requires SplitCells(m, n, bs, i, size)
    ensures SameHeld(m, n, Live(bs), lo, hi)
  {
    HeldAvoidsAll(bs, lo, hi, i);
    if i + 1 < |bs| { HeldAvoidsAll(bs, lo, hi, i + 1); }
  }

  lemma SplitNoStray(m: seq<Cell>, n: seq<Cell>, bs: seq<Block>, cs: seq<Block>, i: nat, size: nat)
    requires i < |bs| && bs[i].size >= size + HDR && NoStrayTags(m, bs)
    requires SplitCells(m, n, bs, i, size) && Live(cs) == Live(bs)
    ensures NoStrayTags(n, cs)
  {
    FindFollowsLive(bs, cs, 0);
  }

  lemma SplitHolds(m: seq<Cell>, n: seq<Cell>, bs: seq<Block>, lo: nat, hi: nat, i: nat, size: nat)
    requires CanSplit(m, bs, lo, hi, i, size) && SplitCells(m, n, bs, i, size)
    ensures Holds(n, Split(bs, i, size), lo, hi) && Live(Split(bs, i, size)) == Live(bs)
    ensures SameHeld(m, n, Live(bs), lo, hi)
  {
    SplitKeepsTiling(bs, lo, hi, i, size);
    SplitKeepsLive(bs, i, size);
    SplitSameHeld(m, n, bs, lo, hi, i, size);
    SplitNoStray(m, n, bs, Split(bs, i, size), i, size);
    LiveBytesKept(m, n, Live(bs), lo, hi);
    SplitLinked(m, n, bs, Split(bs, i, size), lo, hi, i, size);
  }

  lemma LiveBytesKept(m: seq<Cell>, n: seq<Cell>, live: set<(nat, nat)>, lo: nat, hi: nat)
    requires LiveBytes(m, live) && SameHeld(m, n, live, lo, hi)
    ensures LiveBytes(n, live)
  {
    forall p, a | p in live && p.0 <= a < p.0 + p.1 && a < |n| ensures n[a].Byte? {
      assert Held(live, lo, hi, a);
    }
  }

  /** Memory `n` is `m` with only the tag of block `i` changed, and the payload refilled when it becomes used. */
  ghost predicate TagCells(m: seq<Cell>, n: seq<Cell>, b: Block) {
    && |n| == |m| && b.End() <= |m| && m[b.addr].Header?
    && n[b.addr] == m[b.addr].(magic := if b.free then MAGIC_USED else MAGIC_FREE)
    && (b.free ==> forall a :: b.Payload() <= a < b.End() ==> n[a] == Byte(0))
    && forall a :: 0 <= a < |m| && a != b.addr && !(b.free && b.Payload() <= a < b.End()) ==> n[a] == m[a]
  }

  ghost function Flip(bs: seq<Block>, i: nat): seq<Block>
    requires i < |bs|
  {
    bs[i := bs[i].(free := !bs[i].free)]
  }

  lemma FlipKeepsTiling(bs: seq<Block>, lo: nat, hi: nat, i: nat)
    requires Tiles(bs, lo, hi) && Aligned(bs) && i < |bs|
    ensures Tiles(Flip(bs, i), lo, hi) && Aligned(Flip(bs, i))
  {
  }

  lemma FlipHeader(bs: seq<Block>, i: nat, j: nat)
    requires i < |bs| && j < |bs|
    ensures Flip(bs, i)[j].addr == bs[j].addr
    ensures j != i ==> HeaderOf(Flip(bs, i), j) == HeaderOf(bs, j)
    ensures HeaderOf(Flip(bs, i), i) ==
      Header(if bs[i].free then MAGIC_USED else MAGIC_FREE, bs[i].size, NextAddr(bs, i), PrevAddr(bs, i))
  {
  }

  lemma TagLinkedAt(m: seq<Cell>, n: seq<Cell>, bs: seq<Block>, lo: nat, hi: nat, i: nat, j: nat)
    requires Tiles(bs, lo, hi) && Linked(m, bs) && i < |bs| && TagCells(m, n, bs[i]) && j < |bs|
    ensures bs[j].addr < |n|
    ensures j != i ==> n[bs[j].addr] == HeaderOf(bs, j)
    ensures j == i ==> n[bs[j].addr] == Header(
      if bs[i].free then MAGIC_USED else MAGIC_FREE, bs[i].size, NextAddr(bs, i), PrevAddr(bs, i))
  {
    assert m[bs[j].addr] == HeaderOf(bs, j);
    if j < i { Ordered(bs, lo, hi, j, i); } else if i < j { Ordered(bs, lo, hi, i, j); }
  }

  lemma TagLinked(m: seq<Cell>, n: seq<Cell>, bs: seq<Block>, lo: nat, hi: nat, i: nat)
    requires Tiles(bs, lo, hi) && Linked(m, bs) && i < |bs| && TagCells(m, n, bs[i])
    ensures Linked(n, Flip(bs, i))
  {
    var cs := Flip(bs, i);
    forall j | 0 <= j < |cs| ensures cs[j].addr < |n| && n[cs[j].addr] == HeaderOf(cs, j) {
      TagLinkedAt(m, n, bs, lo, hi, i, j);
      FlipHeader(bs, i, j);
    }
  }

  lemma TagSameHeld(m: seq<Cell>, n: seq<Cell>, bs: seq<Block>, lo: nat, hi: nat, i: nat)
    requires Tiles(bs, lo, hi) && i < |bs| && TagCells(m, n, bs[i])
    ensures SameHeld(m, n, Live(bs), lo, hi)
  {
    HeldAvoidsAll(bs, lo, hi, i);
  }

  lemma TakeNoStray(m: seq<Cell>, n: seq<Cell>, bs: seq<Block>, i: nat)
    requires i < |bs| && bs[i].free && NoStrayTags(m, bs) && TagCells(m, n, bs[i])
    ensures NoStrayTags(n, Flip(bs, i))
  {
    var cs := Flip(bs, i);
    MarkUsedAddsLive(bs, i);
    FindFollowsLive(bs, cs, 0);
    FindIsLive(cs, bs[i].Payload());
    assert (bs[i].Payload(), bs[i].size) in Live(cs);
  }

  lemma TakeLiveBytes(m: seq<Cell>, n: seq<Cell>, live: set<(nat, nat)>, b: Block, lo: nat, hi: nat)
    requires LiveBytes(m, live) && SameHeld(m, n, live, lo, hi) && TagCells(m, n, b) && b.free
    ensures LiveBytes(n, live + {(b.Payload(), b.size)})
  {
    LiveBytesKept(m, n, live, lo, hi);
  }

  lemma TakeHolds(m: seq<Cell>, n: seq<Cell>, bs: seq<Block>, lo: nat, hi: nat, i: nat)
    requires Holds(m, bs, lo, hi) && i < |bs| && bs[i].free && TagCells(m, n, bs[i])
    ensures Holds(n, Flip(bs, i), lo, hi) && Live(Flip(bs, i)) == Live(bs) + {(bs[i].Payload(), bs[i].size)}
    ensures SameHeld(m, n, Live(bs), lo, hi)
  {
    FlipKeepsTiling(bs, lo, hi, i);
    TagLinked(m, n, bs, lo, hi, i);
    TakeNoStray(m, n, bs, i);
    MarkUsedAddsLive(bs, i);
    TagSameHeld(m, n, bs, lo, hi, i);
    TakeLiveBytes(m, n, Live(bs), bs[i], lo, hi);
  }

  lemma DropNoStray(m: seq<Cell>, n: seq<Cell>, bs: seq<Block>, lo: nat, hi: nat, i: nat)
    requires Tiles(bs, lo, hi) && i < |bs| && !bs[i].free && NoStrayTags(m, bs) && TagCells(m, n, bs[i])
    ensures NoStrayTags(n, Flip(bs, i))
  {
    MarkFreeDropsLive(bs, lo, hi, i);
    FindFollowsLive(bs, Flip(bs, i), bs[i].Payload());
  }

  lemma HeldShrinks(m: seq<Cell>, n: seq<Cell>, live: set<(nat, nat)>, less: set<(nat, nat)>, lo: nat, hi: nat)
    requires SameHeld(m, n, live, lo, hi) && less <= live
    ensures SameHeld(m, n, less, lo, hi)
  {
    forall a: nat | Held(less, lo, hi, a) ensures Held(live, lo, hi, a) {
      if lo <= a < hi {
        var p :| p in less && p.0 <= a < p.0 + p.1;
        assert p in live;
      }
    }
  }

  lemma LiveBytesShrink(n: seq<Cell>, live: set<(nat, nat)>, less: set<(nat, nat)>)
    requires LiveBytes(n, live) && less <= live
    ensures LiveBytes(n, less)
  {
  }

  lemma DropHolds(m: seq<Cell>, n: seq<Cell>, bs: seq<Block>, lo: nat, hi: nat, i: nat)
    requires Holds(m, bs, lo, hi) && i < |bs| && !bs[i].free && TagCells(m, n, bs[i])
    ensures Holds(n, Flip(bs, i), lo, hi) && Live(Flip(bs, i)) == Live(bs) - {(bs[i].Payload(), bs[i].size)}
    ensures SameHeld(m, n, Live(bs), lo, hi)
  {
    FlipKeepsTiling(bs, lo, hi, i);
    TagLinked(m, n, bs, lo, hi, i);
    DropNoStray(m, n, bs, lo, hi, i);
    MarkFreeDropsLive(bs, lo, hi, i);
    TagSameHeld(m, n, bs, lo, hi, i);
    LiveBytesKept(m, n, Live(bs), lo, hi);
    LiveBytesShrink(n, Live(bs), Live(Flip(bs, i)));
  }

  /** Memory `n` is `m` after block `i` absorbed block i + 1. */
  ghost predicate JoinCells(m: seq<Cell>, n: seq<Cell>, bs: seq<Block>, i: nat)
    requires i + 1 < |bs|
  {
    var b := bs[i].addr;
    var next := NextAddr(bs, i + 1);
    && |n| == |m| && b < |m| && next < |m|
    && n[b] == Header(MAGIC_FREE, bs[i].size + HDR + bs[i + 1].size, next, PrevAddr(bs, i))
    && (next != 0 ==> m[next].Header? && n[next] == m[next].(prev := b))
    && forall a :: 0 <= a < |m| && a != b && (next == 0 || a != next) ==> n[a] == m[a]
  }

  /** `cs` is `bs` with blocks `i` and i + 1 made one. */
  ghost predicate IsJoin(bs: seq<Block>, cs: seq<Block>, i: nat) {
    && i + 1 < |bs| && |cs| == |bs| - 1 && bs[i].free
    && (forall j :: 0 <= j < i ==> cs[j] == bs[j])
    && (forall j :: i < j < |cs| ==> cs[j] == bs[j + 1])
    && cs[i] == bs[i].(size := bs[i].size + HDR + bs[i + 1].size)
  }

  lemma JoinLinkedApart(m: seq<Cell>, n: seq<Cell>, bs: seq<Block>, cs: seq<Block>, i: nat, j: nat)
    requires IsJoin(bs, cs, i) && JoinCells(m, n, bs, i) && j < |cs| && j != i && j != i + 1
    requires cs[j].addr != bs[i].addr && (NextAddr(bs, i + 1) == 0 || cs[j].addr != NextAddr(bs, i + 1))
    requires var k := if j < i then j else j + 1; bs[k].addr < |m| && m[bs[k].addr] == HeaderOf(bs, k)
    ensures cs[j].addr < |n| && n[cs[j].addr] == HeaderOf(cs, j)
  {
    if j > 0 { assert cs[j - 1].addr == bs[if j - 1 <= i then j - 1 else j].addr; }
    if j + 1 < |cs| { assert cs[j + 1].addr == bs[if j + 1 <= i then j + 1 else j + 2].addr; }
  }

  lemma JoinLinkedNext(m: seq<Cell>, n: seq<Cell>, bs: seq<Block>, cs: seq<Block>, i: nat)
    requires IsJoin(bs, cs, i) && JoinCells(m, n, bs, i) && i + 1 < |cs|
    requires 0 < bs[i + 2].addr < |m| && m[bs[i + 2].addr] == HeaderOf(bs, i + 2)
    ensures cs[i + 1].addr < |n| && n[cs[i + 1].addr] == HeaderOf(cs, i + 1)
  {
    assert cs[i + 1] == bs[i + 2];
    if i + 2 < |cs| { assert cs[i + 2] == bs[i + 3]; }
  }

  lemma JoinLinkedHere(m: seq<Cell>, n: seq<Cell>, bs: seq<Block>, cs: seq<Block>, lo: nat, hi: nat, i: nat)
    requires IsJoin(bs, cs, i) && JoinCells(m, n, bs, i)
    ensures cs[i].addr < |n| && n[cs[i].addr] == HeaderOf(cs, i)
  {
    if i + 1 < |cs| { assert cs[i + 1] == bs[i + 2]; }
    if i > 0 { assert cs[i - 1] == bs[i - 1]; }
  }

  lemma JoinLinkedAt(m: seq<Cell>, n: seq<Cell>, bs: seq<Block>, cs: seq<Block>, lo: nat, hi: nat, i: nat, j: nat)
    requires Linked(m, bs) && IsJoin(bs, cs, i) && JoinCells(m, n, bs, i)
    requires Tiles(cs, lo, hi) && 0 < lo && j < |cs|
    ensures cs[j].addr < |n| && n[cs[j].addr] == HeaderOf(cs, j)
  {
    hide HeaderOf;
    assert j != i ==> bs[if j < i then j else j + 1].addr < |m|;
    if i + 1 < |cs| { assert cs[i + 1] == bs[i + 2]; InRange(cs, lo, hi, i + 1); }
    if j == i {
      JoinLinkedHere(m, n, bs, cs, lo, hi, i);
    } else if j == i + 1 {
      JoinLinkedNext(m, n, bs, cs, i);
    } else {
      if j < i { Ordered(cs, lo, hi, j, i); } else { Ordered(cs, lo, hi, i, j); Ordered(cs, lo, hi, i + 1, j); }
      if j < i && i + 1 < |cs| { Ordered(cs, lo, hi, j, i + 1); }
      JoinLinkedApart(m, n, bs, cs, i, j);
    }
  }

  lemma JoinNoStray(m: seq<Cell>, n: seq<Cell>, bs: seq<Block>, cs: seq<Block>, i: nat)
    requires i + 1 < |bs| && NoStrayTags(m, bs) && JoinCells(m, n, bs, i) && Live(cs) == Live(bs)
    ensures NoStrayTags(n, cs)
  {
    FindFollowsLive(bs, cs, 0);
  }

  lemma JoinSameHeld(m: seq<Cell>, n: seq<Cell>, bs: seq<Block>, lo: nat, hi: nat, i: nat)
    requires Tiles(bs, lo, hi) && i + 1 < |bs| && JoinCells(m, n, bs, i)
    ensures SameHeld(m, n, Live(bs), lo, hi)
  {
    HeldAvoidsAll(bs, lo, hi, i);
    if i + 2 < |bs| { HeldAvoidsAll(bs, lo, hi, i + 2); }
  }

  lemma JoinLinked(m: seq<Cell>, n: seq<Cell>, bs: seq<Block>, cs: seq<Block>, lo: nat, hi: nat, i: nat)
    requires Linked(m, bs) && IsJoin(bs, cs, i) && JoinCells(m, n, bs, i) && Tiles(cs, lo, hi) && 0 < lo
    ensures Linked(n, cs)
  {
    forall j | 0 <= j < |cs| ensures cs[j].addr < |n| && n[cs[j].addr] == HeaderOf(cs, j) {
      JoinLinkedAt(m, n, bs, cs, lo, hi, i, j);
    }
  }

  lemma JoinHolds(m: seq<Cell>, n: seq<Cell>, bs: seq<Block>, lo: nat, hi: nat, i: nat)
    requires Holds(m, bs, lo, hi) && i + 1 < |bs| && bs[i].free && bs[i + 1].free && JoinCells(m, n, bs, i)
    ensures Holds(n, Join(bs, i), lo, hi) && Live(Join(bs, i)) == Live(bs)
    ensures SameHeld(m, n, Live(bs), lo, hi)
  {
    var cs := Join(bs, i);
    JoinKeepsTiling(bs, lo, hi, i);
    JoinKeepsLive(bs, i);
    JoinSameHeld(m, n, bs, lo, hi, i);
    JoinNoStray(m, n, bs, cs, i);
    LiveBytesKept(m, n, Live(bs), lo, hi);
    JoinLinked(m, n, bs, cs, lo, hi, i);
  }

  /** Memory `n` is `m` except for bytes inside the payload of `b`. */
  ghost predicate PayloadCells(m: seq<Cell>, n: seq<Cell>, b: Block) {
    && |n| == |m|
    && (forall a :: 0 <= a < |m| && !(b.Payload() <= a < b.End()) ==> n[a] == m[a])
    && forall a :: b.Payload() <= a < b.End() && a < |n| ==> n[a].Byte?
  }

  lemma PayloadWriteLinked(m: seq<Cell>, n: seq<Cell>, bs: seq<Block>, lo: nat, hi: nat, i: nat)
    requires Tiles(bs, lo, hi) && Linked(m, bs) && i < |bs| && PayloadCells(m, n, bs[i])
    ensures Linked(n, bs)
  {
    forall j | 0 <= j < |bs| ensures bs[j].addr < |n| && n[bs[j].addr] == HeaderOf(bs, j) {
      assert m[bs[j].addr] == HeaderOf(bs, j);
      if j < i { Ordered(bs, lo, hi, j, i); } else if i < j { Ordered(bs, lo, hi, i, j); }
    }
  }

  lemma PayloadWriteBytes(m: seq<Cell>, n: seq<Cell>, bs: seq<Block>, i: nat)
    requires NoStrayTags(m, bs) && LiveBytes(m, Live(bs)) && i < |bs| && PayloadCells(m, n, bs[i])
    ensures NoStrayTags(n, bs) && LiveBytes(n, Live(bs))
  {
  }

  /** Bytes written inside one live payload leave the list as it is. */
  lemma PayloadWriteHolds(m: seq<Cell>, n: seq<Cell>, bs: seq<Block>, lo: nat, hi: nat, i: nat)
    requires Holds(m, bs, lo, hi) && i < |bs| && PayloadCells(m, n, bs[i])
    ensures Holds(n, bs, lo, hi)
  {
    PayloadWriteLinked(m, n, bs, lo, hi, i);
    PayloadWriteBytes(m, n, bs, i);
  }

  lemma BlocksApart(bs: seq<Block>, lo: nat, hi: nat, i: nat, j: nat)
    requires Tiles(bs, lo, hi) && i < |bs| && j < |bs| && i != j
    ensures bs[i].End() <= hi && bs[j].End() <= hi && (bs[i].End() <= bs[j].addr || bs[j].End() <= bs[i].addr)
  {
    if i < j { Ordered(bs, lo, hi, i, j); } else { Ordered(bs, lo, hi, j, i); }
    InRange(bs, lo, hi, i);
    InRange(bs, lo, hi, j);
  }

  /** Memory after `n` cells were copied from `src` to `dst`. */
  ghost function Copied(m: seq<Cell>, src: nat, dst: nat, n: nat): seq<Cell>
    requires src + n <= |m| && dst + n <= |m|
  {
    m[..dst] + m[src..src + n] + m[dst + n..]
  }

  lemma CopyHolds(m: seq<Cell>, bs: seq<Block>, lo: nat, hi: nat, i: nat, j: nat)
    requires Holds(m, bs, lo, hi) && Coalesced(bs)
    requires i < |bs| && j < |bs| && !bs[i].free && !bs[j].free && bs[i].size <= bs[j].size && i != j
    ensures bs[i].End() <= |m| && bs[j].End() <= |m| && (bs[i].End() <= bs[j].addr || bs[j].End() <= bs[i].addr)
    ensures var n := Copied(m, bs[i].Payload(), bs[j].Payload(), bs[i].size);
      Holds(n, bs, lo, hi) && SameHeld(m, n, Live(bs) - {(bs[j].Payload(), bs[j].size)}, lo, hi)
  {
    BlocksApart(bs, lo, hi, i, j);
    var n := Copied(m, bs[i].Payload(), bs[j].Payload(), bs[i].size);
    hide Tiles, Aligned, Coalesced, Linked, NoStrayTags, LiveBytes, Live;
    CopyIsPayloadWrite(m, bs, i, j);
    hide PayloadCells, Copied;
    PayloadWriteHolds(m, n, bs, lo, hi, j);
    PayloadWriteSameHeld(m, n, bs, lo, hi, j);
  }

  /** The block at `p` holds the old bytes of the block at `ptr`, then zeros to its end. */
  ghost predicate Regrown(m: seq<Cell>, n: seq<Cell>, bs: seq<Block>, cs: seq<Block>, ptr: nat, p: nat) {
    var i, j := Find(bs, ptr), Find(cs, p);
    && i < |bs| && j < |cs| && bs[i].size <= cs[j].size
    && bs[i].End() <= |m| && cs[j].End() <= |n|
    && n[p..p + bs[i].size] == m[ptr..bs[i].End()]
    && forall a :: p + bs[i].size <= a < cs[j].End() ==> n[a] == Byte(0)
  }

  /** The block allocated for `size` is smaller than the block at `ptr`. */
  ghost predicate Cramped(bs: seq<Block>, ptr: nat, size: u32) {
    var i, k := Find(bs, ptr), FirstFit(bs, Round8(size), 0);
    i < |bs| && k < |AllocStep(bs, size)| && AllocStep(bs, size)[k].size < bs[i].size
  }

  /** That cannot be for a larger size that does not wrap. */
  lemma NeverCramped(bs: seq<Block>, ptr: nat, size: u32)
    requires Find(bs, ptr) < |bs| && bs[Find(bs, ptr)].size < size <= TWO32 - 8 && FirstFit(bs, Round8(size), 0) < |bs|
    ensures !Cramped(bs, ptr, size)
  {
    BlockHoldsRequest(bs, size, FirstFit(bs, Round8(size), 0));
  }

  /** The window of `now` cells at `dst` is what copying `was` cells from `src` to it leaves there. */
  ghost predicate Moved(m: seq<Cell>, n: seq<Cell>, src: nat, dst: nat, was: nat, now: nat) {
    && src + was <= |m| == |n| && was <= now && dst + now <= |m|
    && n[dst..dst + now] == Copied(m, src, dst, was)[dst..dst + now]
  }

  lemma CopiedWindow(m: seq<Cell>, n: seq<Cell>, src: nat, dst: nat, was: nat, now: nat)
    requires Moved(m, n, src, dst, was, now)
    ensures n[dst..dst + was] == m[src..src + was]
    ensures forall a :: dst + was <= a < dst + now ==> n[a] == m[a]
  {
    var c := Copied(m, src, dst, was);
    CopiedCells(m, src, dst, was);
    hide Copied;
    SubSlice(n, dst, dst + now, 0, was);
    SubSlice(c, dst, dst + now, 0, was);
    forall a | dst + was <= a < dst + now ensures n[a] == m[a] {
      assert n[a] == n[dst..dst + now][a - dst] == c[dst..dst + now][a - dst] == c[a];
    }
  }

  lemma CopiedCells(m: seq<Cell>, src: nat, dst: nat, n: nat)
    requires src + n <= |m| && dst + n <= |m|
    ensures var c := Copied(m, src, dst, n);
      |c| == |m| && c[dst..dst + n] == m[src..src + n] && forall a :: dst + n <= a < |m| ==> c[a] == m[a]
  {
  }

  lemma FoundPayloadKept(m: seq<Cell>, n: seq<Cell>, bs: seq<Block>, lo: nat, hi: nat, ptr: nat)
    requires Tiles(bs, lo, hi) && hi <= |m| && SameHeld(m, n, Live(bs), lo, hi) && Find(bs, ptr) < |bs|
    ensures var b := bs[Find(bs, ptr)]; b.End() <= |m| == |n| && b.Payload() == ptr && m[ptr..b.End()] == n[ptr..b.End()]
  {
    var i := Find(bs, ptr);
    InRange(bs, lo, hi, i);
    FindIsLive(bs, ptr);
    SameHeldPayload(m, n, Live(bs), lo, hi, (ptr, bs[i].size));
  }

  lemma RegrownBytes(m0: seq<Cell>, m1: seq<Cell>, m2: seq<Cell>, bs: seq<Block>, cs: seq<Block>, ds: seq<Block>,
                     lo: nat, hi: nat, ptr: nat, p: nat)
    requires Find(bs, ptr) < |bs| && Find(cs, p) < |cs| && Find(ds, p) < |ds|
    requires bs[Find(bs, ptr)].size <= cs[Find(cs, p)].size == ds[Find(ds, p)].size
    requires Tiles(bs, lo, hi) && hi <= |m0| && SameHeld(m0, m1, Live(bs), lo, hi)
    requires forall a :: p <= a < cs[Find(cs, p)].End() && a < |m1| ==> m1[a] == Byte(0)
    requires Moved(m1, m2, ptr, p, bs[Find(bs, ptr)].size, cs[Find(cs, p)].size)
    ensures Regrown(m0, m2, bs, ds, ptr, p)
  {
    hide Tiles, SameHeld, Live, Moved, Find;
    FoundPayloadKept(m0, m1, bs, lo, hi, ptr);
    MovedFits(m1, m2, ptr, p, bs[Find(bs, ptr)].size, cs[Find(cs, p)].size);
    CopiedWindow(m1, m2, ptr, p, bs[Find(bs, ptr)].size, cs[Find(cs, p)].size);
  }

  lemma MovedFits(m: seq<Cell>, n: seq<Cell>, src: nat, dst: nat, was: nat, now: nat)
    requires Moved(m, n, src, dst, was, now)
    ensures src + was <= |m| == |n| && was <= now && dst + now <= |m|
  {
  }

  lemma RegrownHeld(m0: seq<Cell>, m1: seq<Cell>, m2: seq<Cell>, bs: seq<Block>, cs: seq<Block>, ds: seq<Block>,
                    lo: nat, hi: nat, k: nat, size: u32)
    requires Tiles(bs, lo, hi) && size != 0 && k == FirstFit(bs, Round8(size), 0) < |bs|
    requires cs == AllocStep(bs, size) && k < |cs|
    requires SameHeld(m0, m1, Live(bs), lo, hi)
    requires SameHeld(m1, m2, Live(ds) - {(bs[k].Payload(), cs[k].size)}, lo, hi)
    ensures SameHeld(m0, m2, Live(ds) * Live(bs), lo, hi)
  {
    var q := (bs[k].Payload(), cs[k].size);
    if q in Live(bs) { NotLiveAtFree(bs, lo, hi, k, q); }
    HeldShrinks(m0, m1, Live(bs), Live(ds) * Live(bs), lo, hi);
    HeldShrinks(m1, m2, Live(ds) - {q}, Live(ds) * Live(bs), lo, hi);
    SameHeldTrans(m0, m1, m2, Live(ds) * Live(bs), lo, hi);
  }

  /** Copying all of block `i` to the front of block `j` is a payload write. */
  lemma CopyIsPayloadWrite(m: seq<Cell>, bs: seq<Block>, i: nat, j: nat)
    requires i < |bs| && j < |bs| && !bs[i].free && !bs[j].free && bs[i].size <= bs[j].size
    requires bs[i].End() <= |m| && bs[j].End() <= |m| && LiveBytes(m, Live(bs))
    ensures PayloadCells(m, Copied(m, bs[i].Payload(), bs[j].Payload(), bs[i].size), bs[j])
  {
    PayloadIsBytes(m, bs, i);
    PayloadIsBytes(m, bs, j);
    hide LiveBytes, Live;
  }

  lemma SameHeldTrans(m: seq<Cell>, n: seq<Cell>, o: seq<Cell>, live: set<(nat, nat)>, lo: nat, hi: nat)
    requires SameHeld(m, n, live, lo, hi) && SameHeld(n, o, live, lo, hi)
    ensures SameHeld(m, o, live, lo, hi)
  {
  }

  /** A live payload reads the same in two memories that agree on what is held. */
  lemma SameHeldPayload(m: seq<Cell>, n: seq<Cell>, live: set<(nat, nat)>, lo: nat, hi: nat, p: (nat, nat))
    requires SameHeld(m, n, live, lo, hi) && p in live && p.0 + p.1 <= |m|
    ensures m[p.0..p.0 + p.1] == n[p.0..p.0 + p.1]
  {
    forall a | p.0 <= a < p.0 + p.1 ensures m[a] == n[a] { assert Held(live, lo, hi, a); }
  }

  /** Writing inside one live payload leaves every other live payload as it was. */
  lemma PayloadWriteSameHeld(m: seq<Cell>, n: seq<Cell>, bs: seq<Block>, lo: nat, hi: nat, i: nat)
    requires WellFormed(bs, lo, hi) && i < |bs| && !bs[i].free && PayloadCells(m, n, bs[i])
    ensures SameHeld(m, n, Live(bs) - {(bs[i].Payload(), bs[i].size)}, lo, hi)
  {
    var p := (bs[i].Payload(), bs[i].size);
    assert p in Live(bs);
    InRange(bs, lo, hi, i);
    forall a | 0 <= a < |m| && Held(Live(bs) - {p}, lo, hi, a) ensures m[a] == n[a] {
      if lo <= a < hi {
        var q :| q in Live(bs) - {p} && q.0 <= a < q.0 + q.1;
        LivePayloadsDisjoint(bs, lo, hi, p, q);
      }
    }
  }

  lemma PayloadIsBytes(m: seq<Cell>, bs: seq<Block>, i: nat)
    requires LiveBytes(m, Live(bs)) && i < |bs| && !bs[i].free
    ensures forall a :: bs[i].Payload() <= a < bs[i].End() && a < |m| ==> m[a].Byte?
  {
    assert (bs[i].Payload(), bs[i].size) in Live(bs);
  }

  lemma LiveHasTag(m: seq<Cell>, bs: seq<Block>, i: nat)
    requires Linked(m, bs) && i < |bs| && !bs[i].free
    ensures bs[i].addr < |m| && m[bs[i].addr].Header? && m[bs[i].addr].magic == MAGIC_USED
  {
    assert m[bs[i].addr] == HeaderOf(bs, i);
  }

  /** The tag test of kfree recognises exactly the headers of live blocks; payload bytes are no headers here. */
  lemma {:induction false} TagMeansLive(m: seq<Cell>, bs: seq<Block>, b: nat)
    requires Linked(m, bs) && NoStrayTags(m, bs) && b < |m|
    ensures Find(bs, b + HDR) < |bs| <==> m[b].Header? && m[b].magic == 0xC0FF_EE00
  {
    if Find(bs, b + HDR) < |bs| { LiveHasTag(m, bs, Find(bs, b + HDR)); }
  }

  class Heap {
    const mem: array<Cell>
    var head: nat
    var used: nat
    ghost var lo: nat
    ghost var hi: nat
    ghost var blocks: seq<Block>

    /** The invariant while a call is under way (neighbours may still be unmerged). */
    ghost predicate Core()
      reads this, mem
    {
      head == lo && Holds(mem[..], blocks, lo, hi)
    }

    /** The invariant between calls. */
    ghost predicate Valid()
      reads this, mem
    {
      Core() && Coalesced(blocks) && used == SumOf(blocks, false)
    }

    /** The state before kmem_init: the statics are zero and memory holds no header. */
    constructor (ram: array<Cell>)
      requires ram.Length <= TWO32
      ensures mem == ram && head == 0 && used == 0
    {
      mem := ram;
      head, used := 0, 0;
      lo, hi, blocks := 0, 0, [];
    }

    /** kmem_init_at, called once: one free block over the whole size asked for, or over 8 MB for less than 64 KB. */
    method InitAt(base: u32, size: u32)
      requires head == 0 && used == 0 && mem.Length <= TWO32
      requires InitBase(base) + (if size < 0x1_0000 then 0x80_0000 else size) <= mem.Length
      requires forall a :: 0 <= a < mem.Length ==> !mem[a].Header?
      modifies this, mem
      ensures head == InitBase(base) && used == 0
      ensures head != 0 ==> Valid() && lo == head && hi == lo + if size < 0x1_0000 then 0x80_0000 else size
      ensures head != 0 ==> blocks == [Block(lo, hi - lo - 16, true)] == Initial(lo, hi)
      ensures head != 0 ==> mem[head] == Header(0xFEE1_DEAD, hi - lo - 16, 0, 0)
    {
      InitBaseAligned(base);
      var b := InitBase(base);
      var s := InitSize(size);
      head := b;
      mem[b] := Header(MAGIC_FREE, s - HDR, 0, 0);
      lo, hi := b, b + s;
      blocks := [Block(b, s - HDR, true)];
      SumOne(blocks[0], false);
    }

    method KmemUsed() returns (n: nat)
      requires Valid()
      ensures n == SumOf(blocks, false)
      ensures n + SumOf(blocks, true) + 16 * |blocks| == hi - lo
    {
      n := used;
      Conservation(blocks, lo, hi);
    }

    /** The search loop of kmalloc: the header of the first free block of at least `n` bytes, or NULL. */
    method FindFree(n: nat) returns (b: nat)
      requires Core()
      ensures var k := FirstFit(blocks, n, 0); b == if k < |blocks| then blocks[k].addr else 0
    {
      b := head;
      ghost var i := 0;
      while b != 0
        invariant i <= |blocks| && b == (if i < |blocks| then blocks[i].addr else 0)
        invariant FirstFit(blocks, n, 0) == FirstFit(blocks, n, i)
        decreases |blocks| - i
      {
        InRange(blocks, lo, hi, i);
        if mem[b].magic == MAGIC_FREE && mem[b].size >= n {
          return;
        }
        b := mem[b].next;
        i := i + 1;
        if i < |blocks| { InRange(blocks, lo, hi, i); }
      }
      if i < |blocks| { InRange(blocks, lo, hi, i); }
    }

    /** The header writes of the split in kmalloc: the remainder gets its own header and is linked in. */
    method WriteSplit(b: nat, n: nat)
      requires b < mem.Length && mem[b].Header? && b + HDR + n < mem.Length && mem[b].size >= n + HDR
      requires var next := mem[b].next; next != 0 ==> b + HDR + n < next < mem.Length && mem[next].Header?
      modifies mem
      ensures mem[b] == old(mem[b].(size := n, next := b + HDR + n))
      ensures mem[b + HDR + n] == old(Header(MAGIC_FREE, mem[b].size - n - HDR, mem[b].next, b))
      ensures var next := old(mem[b].next); next != 0 ==> mem[next] == old(mem[next]).(prev := b + HDR + n)
      ensures var next := old(mem[b].next);
        forall a :: 0 <= a < mem.Length && a != b && a != b + HDR + n && (next == 0 || a != next) ==> mem[a] == old(mem[a])
    {
      var nb := b + HDR + n;
      mem[nb] := Header(MAGIC_FREE, mem[b].size - n - HDR, mem[b].next, b);
      if mem[b].next != 0 {
        mem[mem[b].next] := mem[mem[b].next].(prev := nb);
      }
      mem[b] := mem[b].(next := nb);
      mem[b] := mem[b].(size := n);
    }

    method SplitBlock(b: nat, n: nat, ghost i: nat)
      requires Core() && CanSplit(mem[..], blocks, lo, hi, i, n) && blocks[i].addr == b
      modifies `blocks, mem
      ensures Core() && blocks == Split(old(blocks), i, n) && Live(blocks) == old(Live(blocks))
      ensures SameHeld(old(mem[..]), mem[..], Live(blocks), lo, hi)
    {
      hide Tiles, Aligned, Linked, NoStrayTags, LiveBytes, Held, Live;
      ghost var m, bs := mem[..], blocks;
      BlockInMemory(m, bs, lo, hi, i);
      WriteSplit(b, n);
      SplitHolds(m, mem[..], bs, lo, hi, i, n);
      blocks := Split(bs, i, n);
    }

    /** Tag, accounting and zeroing at the end of kmalloc's search. */
    method TakeBlock(b: nat, ghost i: nat)
      requires Core() && i < |blocks| && blocks[i].free && blocks[i].addr == b
      modifies `blocks, `used, mem
      ensures Core() && blocks == Flip(old(blocks), i) && used == old(used) + old(blocks[i].size)
      ensures SameHeld(old(mem[..]), mem[..], old(Live(blocks)), lo, hi)
      ensures forall a :: b + HDR <= a < old(blocks[i].End()) && a < mem.Length ==> mem[a] == Byte(0)
    {
      hide Tiles, Aligned, Linked, NoStrayTags, LiveBytes, Held, Live, SameHeld, Flip;
      ghost var m, bs := mem[..], blocks;
      BlockInMemory(m, bs, lo, hi, i);
      used := used + mem[b].size;
      TagAndZero(b);
      assert TagCells(m, mem[..], bs[i]);
      TakeHolds(m, mem[..], bs, lo, hi, i);
      blocks := Flip(bs, i);
    }

    method TagAndZero(b: nat)
      requires b < mem.Length && mem[b].Header? && b + HDR + mem[b].size <= mem.Length
      modifies mem
      ensures mem[b] == old(mem[b]).(magic := MAGIC_USED)
      ensures forall a :: b + HDR <= a < b + HDR + old(mem[b]).size ==> mem[a] == Byte(0)
      ensures var size := old(mem[b]).size;
        forall a :: 0 <= a < mem.Length && a != b && !(b + HDR <= a < b + HDR + size) ==> mem[a] == old(mem[a])
    {
      mem[b] := mem[b].(magic := MAGIC_USED);
      var p := b + HDR;
      var k := 0;
      while k < mem[b].size
        invariant mem[b] == old(mem[b]).(magic := MAGIC_USED) && 0 <= k <= mem[b].size
        invariant forall a :: p <= a < p + k ==> mem[a] == Byte(0)
        invariant forall a :: 0 <= a < mem.Length && a != b && !(p <= a < p + k) ==> mem[a] == old(mem[a])
      {
        mem[p + k] := Byte(0);
        k := k + 1;
      }
    }

    /** Splitting and tagging of the block the search found. */
    method ClaimBlock(b: nat, n: nat, ghost k: nat)
      requires Core() && k < |blocks| && blocks[k].addr == b && Fits(blocks[k], n) && n % 8 == 0
      modifies `blocks, `used, mem
      ensures Core() && blocks == Carve(old(blocks), k, n) && used == old(used) + blocks[k].size
      ensures k < |blocks| && !blocks[k].free && blocks[k].size >= n && blocks[k].addr == b
      ensures SameHeld(old(mem[..]), mem[..], old(Live(blocks)), lo, hi)
      ensures forall a :: blocks[k].Payload() <= a < blocks[k].End() && a < mem.Length ==> mem[a] == Byte(0)
    {
      hide Tiles, Aligned, Linked, NoStrayTags, LiveBytes, Held, Live;
      BlockInMemory(mem[..], blocks, lo, hi, k);
      if mem[b].size > n + HDR + SLACK {
        SplitBlock(b, n, k);
      }
      TakeBlock(b, k);
    }

    /** kmalloc. `p` is NULL exactly for a zero request or when no free block is large enough. */
    method Kmalloc(size: u32) returns (p: nat)
      requires Valid()
      modifies `blocks, `used, mem
      ensures Valid() && blocks == AllocStep(old(blocks), size)
      ensures var k := FirstFit(old(blocks), Round8(size), 0);
        p == if size == 0 || k == |old(blocks)| then 0 else old(blocks)[k].Payload()
      ensures p == 0 ==> mem[..] == old(mem[..]) && blocks == old(blocks)
      ensures p != 0 ==> var k := FirstFit(old(blocks), Round8(size), 0);
        k < |blocks| && Find(blocks, p) == k && blocks[k].size >= Round8(size)
        && forall a :: p <= a < blocks[k].End() && a < mem.Length ==> mem[a] == Byte(0)
      ensures p != 0 ==> var (k, n) := (FirstFit(old(blocks), Round8(size), 0), Round8(size));
        k < |blocks| && Live(blocks) == old(Live(blocks)) + {(p, blocks[k].size)}
        && blocks[k].size == if old(blocks)[k].size > n + 24 then n else old(blocks)[k].size
      ensures forall q, a :: q in old(Live(blocks)) && q.0 <= a < q.0 + q.1 && a < mem.Length ==> mem[a] == old(mem[a])
      ensures SameHeld(old(mem[..]), mem[..], old(Live(blocks)), lo, hi)
    {
      hide Linked, NoStrayTags, LiveBytes, Held, Live, Aligned, Coalesced, Carve, SameHeld;
      ghost var m, live := mem[..], Live(blocks);
      AllocAddsLive(blocks, size);
      NothingMoved(m, live, lo, hi);
      if size == 0 { return 0; }
      var n := Round8(size);
      ghost var k := FirstFit(blocks, n, 0);
      if k < |blocks| { InRange(blocks, lo, hi, k); }
      var b := FindFree(n);
      if b == 0 { return 0; }
      CarveKeepsLayout(blocks, lo, hi, k, n);
      CarveSum(blocks, k, n);
      ClaimBlock(b, n, k);
      FindUnique(blocks, lo, hi, k);
      LiveKeepsBytes(m, mem[..], live, lo, hi);
      return b + HDR;
    }

    /** The header writes of one merge in kfree: `b` absorbs its successor. */
    method WriteJoin(b: nat)
      requires b < mem.Length && mem[b].Header? && b != mem[b].next < mem.Length && mem[mem[b].next].Header?
      requires var next := mem[mem[b].next].next;
        next != 0 ==> b != next < mem.Length && mem[next].Header? && next != mem[b].next
      modifies mem
      ensures mem[b] == old(mem[b].(size := mem[b].size + HDR + mem[mem[b].next].size, next := mem[mem[b].next].next))
      ensures var next := old(mem[mem[b].next].next); next != 0 ==> mem[next] == old(mem[next]).(prev := b)
      ensures var next := old(mem[mem[b].next].next);
        forall a :: 0 <= a < mem.Length && a != b && (next == 0 || a != next) ==> mem[a] == old(mem[a])
    {
      var c := mem[b].next;
      mem[b] := mem[b].(size := mem[b].size + HDR + mem[c].size);
      mem[b] := mem[b].(next := mem[c].next);
      if mem[b].next != 0 {
        mem[mem[b].next] := mem[mem[b].next].(prev := b);
      }
    }

    method JoinBlocks(b: nat, ghost i: nat)
      requires Core() && i + 1 < |blocks| && blocks[i].free && blocks[i + 1].free && blocks[i].addr == b
      modifies `blocks, mem
      ensures Core() && blocks == Join(old(blocks), i) && Live(blocks) == old(Live(blocks))
      ensures SameHeld(old(mem[..]), mem[..], Live(blocks), lo, hi)
    {
      hide Tiles, Aligned, Linked, NoStrayTags, LiveBytes, Held, Live;
      ghost var m, bs := mem[..], blocks;
      BlockInMemory(m, bs, lo, hi, i);
      BlockInMemory(m, bs, lo, hi, i + 1);
      WriteJoin(b);
      assert JoinCells(m, mem[..], bs, i);
      JoinHolds(m, mem[..], bs, lo, hi, i);
      blocks := Join(bs, i);
    }

    method DropBlock(b: nat, ghost i: nat)
      requires Core() && i < |blocks| && !blocks[i].free && blocks[i].addr == b && used >= blocks[i].size
      modifies `blocks, `used, mem
      ensures Core() && blocks == Flip(old(blocks), i) && used == old(used) - old(blocks[i].size)
      ensures SameHeld(old(mem[..]), mem[..], old(Live(blocks)), lo, hi)
    {
      hide Tiles, Aligned, Linked, NoStrayTags, LiveBytes, Held, Live, SameHeld, Flip;
      ghost var m, bs := mem[..], blocks;
      BlockInMemory(m, bs, lo, hi, i);
      mem[b] := mem[b].(magic := MAGIC_FREE);
      assert TagCells(m, mem[..], bs[i]);
      used := used - mem[b].size;
      DropHolds(m, mem[..], bs, lo, hi, i);
      blocks := Flip(bs, i);
    }

    method JoinWithNext(b: nat, ghost i: nat)
      requires Core() && i < |blocks| && blocks[i].free && blocks[i].addr == b
      modifies `blocks, mem
      ensures Core() && blocks == JoinNext(old(blocks), i) && Live(blocks) == old(Live(blocks))
      ensures SameHeld(old(mem[..]), mem[..], Live(blocks), lo, hi)
      ensures i < |blocks| && blocks[i].free && blocks[i].addr == b
    {
      hide Tiles, Aligned, NoStrayTags, LiveBytes, Held, Live;
      BlockInMemory(mem[..], blocks, lo, hi, i);
      if mem[b].next != 0 && mem[mem[b].next].magic == MAGIC_FREE {
        JoinBlocks(b, i);
      }
    }

    method JoinWithPrev(b: nat, ghost i: nat)
      requires Core() && i < |blocks| && blocks[i].free && blocks[i].addr == b
      modifies `blocks, mem
      ensures Core() && blocks == JoinPrev(old(blocks), i) && Live(blocks) == old(Live(blocks))
      ensures SameHeld(old(mem[..]), mem[..], Live(blocks), lo, hi)
    {
      hide Tiles, Aligned, NoStrayTags, LiveBytes, Held, Live;
      BlockInMemory(mem[..], blocks, lo, hi, i);
      if mem[b].prev != 0 && mem[mem[b].prev].magic == MAGIC_FREE {
        JoinBlocks(mem[b].prev, i - 1);
      }
    }

    /** Tag, accounting and both merges of kfree. */
    method ReleaseBlock(b: nat, ghost i: nat)
      requires Core() && i < |blocks| && !blocks[i].free && blocks[i].addr == b && used >= blocks[i].size
      modifies `blocks, `used, mem
      ensures Core() && blocks == Release(old(blocks), i) && used == old(used) - old(blocks[i].size)
      ensures Live(blocks) == old(Live(blocks)) - {old((blocks[i].Payload(), blocks[i].size))}
      ensures SameHeld(old(mem[..]), mem[..], Live(blocks), lo, hi)
    {
      hide Aligned, Linked, NoStrayTags, LiveBytes, Held, Live, JoinNext, JoinPrev;
      ghost var m, bs := mem[..], blocks;
      MarkFreeDropsLive(bs, lo, hi, i);
      DropBlock(b, i);
      HeldShrinks(m, mem[..], Live(bs), Live(blocks), lo, hi);
      JoinWithNext(b, i);
      JoinWithPrev(b, i);
    }

    /** kfree: exactly a live payload pointer has an effect; NULL, foreign and already freed pointers have none, a
        cell being a byte or a whole header, so that no payload spells one. */
    method Kfree(ptr: nat)
      requires Valid() && (ptr == 0 || HDR <= ptr < mem.Length + HDR)
      modifies `blocks, `used, mem
      ensures Valid() && blocks == FreeStep(old(blocks), ptr)
      ensures old(Find(blocks, ptr) == |blocks|) ==> mem[..] == old(mem[..]) && used == old(used)
      ensures Live(blocks) == set q | q in old(Live(blocks)) && q.0 != ptr
      ensures forall q, a :: q in Live(blocks) && q.0 <= a < q.0 + q.1 && a < mem.Length ==> mem[a] == old(mem[a])
      ensures SameHeld(old(mem[..]), mem[..], Live(blocks), lo, hi)
    {
      hide Tiles, Aligned, Coalesced, Linked, NoStrayTags, LiveBytes, Held, Live, Release, SumOf, SameHeld;
      ghost var m := mem[..];
      FreeStepKeeps(blocks, lo, hi, ptr);
      NothingMoved(m, Live(blocks), lo, hi);
      if ptr == 0 { return; }
      var b := ptr - HDR;
      TagMeansLive(mem[..], blocks, b);
      ghost var i := Find(blocks, ptr);
      if !mem[b].Header? || mem[b].magic != MAGIC_USED {
        return;
      }
      ReleaseKeepsLayout(blocks, lo, hi, i);
      ReleaseSum(blocks, i);
      ReleaseBlock(b, i);
      LiveKeepsBytes(m, mem[..], Live(blocks), lo, hi);
    }

    /** A client writing one byte inside a live payload. */
    method Store(ptr: nat, k: nat, value: u8)
      requires Valid() && Find(blocks, ptr) < |blocks| && k < blocks[Find(blocks, ptr)].size
      modifies mem
      ensures Valid() && ptr + k < mem.Length && mem[..] == old(mem[..])[ptr + k := Byte(value)]
    {
      hide Aligned, Coalesced, Linked, NoStrayTags, LiveBytes, Held, SumOf;
      ghost var m, i := mem[..], Find(blocks, ptr);
      InRange(blocks, lo, hi, i);
      PayloadIsBytes(m, blocks, i);
      mem[ptr + k] := Byte(value);
      PayloadWriteHolds(m, mem[..], blocks, lo, hi, i);
    }

    /** The copy loop of krealloc. */
    method CopyBytes(src: nat, dst: nat, n: nat)
      requires src + n <= mem.Length && dst + n <= mem.Length && (src + n <= dst || dst + n <= src)
      modifies mem
      ensures mem[..] == Copied(old(mem[..]), src, dst, n)
    {
      var k := 0;
      while k < n
        invariant 0 <= k <= n
        invariant forall a :: 0 <= a < mem.Length ==>
          mem[a] == old(if dst <= a < dst + k then mem[src + (a - dst)] else mem[a])
      {
        mem[dst + k] := mem[src + k];
        k := k + 1;
      }
      CopiedCellByCell(old(mem[..]), mem[..], src, dst, n);
    }

    /** The copy of krealloc, from block `i` into block `j`. */
    method CopyPayload(ptr: nat, p: nat, n: nat, ghost i: nat, ghost j: nat)
      requires i < |blocks| && j < |blocks| && i == Find(blocks, ptr) && j == Find(blocks, p) && ptr != p
      requires n == blocks[i].size <= blocks[j].size
      requires Valid()
      modifies mem
      ensures ptr + n <= mem.Length && p + blocks[j].size <= mem.Length
      ensures mem[..] == Copied(old(mem[..]), ptr, p, n)
      ensures Valid()
      ensures SameHeld(old(mem[..]), mem[..], Live(blocks) - {(p, blocks[j].size)}, lo, hi)
    {
      hide Holds, WellFormed, Coalesced, SumOf, Find, SameHeld, Live;
      ghost var m0, bs := mem[..], blocks;
      CopyHolds(m0, bs, lo, hi, i, j);
      CopyBytes(ptr, p, n);
    }

    /** The copy and the free of krealloc. */
    method MoveBlock(ptr: nat, p: nat, n: nat, ghost i: nat, ghost j: nat, ghost size: nat)
      requires i < |blocks| && j < |blocks| && i == Find(blocks, ptr) && j == Find(blocks, p) && ptr != p
      requires n == blocks[i].size <= size == blocks[j].size
      requires Valid()
      modifies `blocks, `used, mem
      ensures Moved(old(mem[..]), mem[..], ptr, p, n, size)
      ensures Find(blocks, p) < |blocks| && blocks[Find(blocks, p)].size == size
      ensures SameHeld(old(mem[..]), mem[..], Live(blocks) - {(p, size)}, lo, hi)
      ensures Valid() && blocks == FreeStep(old(blocks), ptr)
    {
      hide Aligned, Coalesced, Linked, NoStrayTags, LiveBytes, Held, SumOf, FreeStep, Find, Live, SameHeld;
      ghost var m0, bs := mem[..], blocks;
      ghost var q := (p, size);
      BlocksApart(bs, lo, hi, i, j);
      FreeStepKeeps(bs, lo, hi, ptr);
      CopyPayload(ptr, p, n, i, j);
      ghost var m1 := mem[..];
      Kfree(ptr);
      FoundAfterFree(bs, blocks, lo, hi, ptr, p);
      SameHeldPayload(m1, mem[..], Live(blocks), lo, hi, q);
      HeldShrinks(m0, m1, Live(bs) - {q}, Live(blocks) - {q}, lo, hi);
      HeldShrinks(m1, mem[..], Live(blocks), Live(blocks) - {q}, lo, hi);
      SameHeldTrans(m0, m1, mem[..], Live(blocks) - {q}, lo, hi);
    }

    /** The growing branch of krealloc: allocate, copy, free. `outside`: the size wrapped when it was rounded, and the
        new block is too small for the old bytes. */
    method Regrow(ptr: nat, size: u32) returns (p: nat, outside: bool)
      requires Find(blocks, ptr) < |blocks| && blocks[Find(blocks, ptr)].size < size
      requires Valid()
      modifies `blocks, `used, mem
      ensures Valid() && blocks == if outside then AllocStep(old(blocks), size) else ResizeStep(old(blocks), ptr, size)
      ensures var k := FirstFit(old(blocks), Round8(size), 0);
        p == if k == |old(blocks)| then 0 else old(blocks)[k].Payload()
      ensures outside <==> p != 0 && Cramped(old(blocks), ptr, size)
      ensures p != ptr && (p == 0 ==> mem[..] == old(mem[..]))
      ensures p != 0 && !outside ==> Regrown(old(mem[..]), mem[..], old(blocks), blocks, ptr, p)
      ensures p != 0 && size <= TWO32 - 8 ==> Find(blocks, p) < |blocks| && blocks[Find(blocks, p)].size >= size
      ensures SameHeld(old(mem[..]), mem[..], Live(blocks) * old(Live(blocks)), lo, hi)
    {
      hide Tiles, Aligned, Coalesced, Linked, NoStrayTags, LiveBytes, Held, SumOf, Live,
           Find, FirstFit, SameHeld, Carve, Regrown, AllocStep, FreeStep, Moved, Cramped, ResizeStep;
      ghost var m0, bs := mem[..], blocks;
      GrowingSteps(bs, ptr, size);
      ghost var k := FirstFit(bs, Round8(size), 0);
      AllocKeepsFound(bs, lo, hi, size, ptr);
      RoundingCoversRequest(size);
      p := Kmalloc(size);
      outside := false;
      HeldShrinks(m0, mem[..], Live(bs), Live(blocks) * Live(bs), lo, hi);
      if p == 0 { return; }
      ghost var m1, cs, i := mem[..], blocks, Find(blocks, ptr);
      BlockInMemory(m1, cs, lo, hi, i);
      BlockInMemory(m1, cs, lo, hi, k);
      if mem[ptr - HDR].size > mem[p - HDR].size { return p, true; }
      MoveBlock(ptr, p, mem[ptr - HDR].size, i, k, cs[k].size);
      RegrownBytes(m0, m1, mem[..], bs, cs, blocks, lo, hi, ptr, p);
      RegrownHeld(m0, m1, mem[..], bs, cs, blocks, lo, hi, k, size);
    }

    /** krealloc on NULL or a live pointer. A grown block holds the old bytes followed by zeros. `outside`: the copy
        would leave the new block, which can only be for sizes above 2^32 - 8. */
    method Krealloc(ptr: nat, size: u32) returns (p: nat, outside: bool)
      requires ptr == 0 || Find(blocks, ptr) < |blocks|
      requires Valid()
      modifies `blocks, `used, mem
      ensures Valid()
      ensures blocks == if ptr == 0 || outside then AllocStep(old(blocks), size) else ResizeStep(old(blocks), ptr, size)
      ensures var k := FirstFit(old(blocks), Round8(size), 0);
        p == if ptr != 0 && old(blocks[Find(blocks, ptr)].size) >= size then ptr
             else if size == 0 || k == |old(blocks)| then 0
             else old(blocks)[k].Payload()
      ensures outside <==> ptr != 0 && p != 0 && p != ptr && Cramped(old(blocks), ptr, size)
      ensures outside ==> size > TWO32 - 8
      ensures p == 0 || p == ptr ==> mem[..] == old(mem[..])
      ensures p != 0 && ptr != 0 && p != ptr && !outside ==> Regrown(old(mem[..]), mem[..], old(blocks), blocks, ptr, p)
      ensures p != 0 && ptr != 0 && p != ptr && !outside ==>
        var s := old(blocks[Find(blocks, ptr)].size);
        && ptr + s <= mem.Length && p + s <= mem.Length && mem[p..p + s] == old(mem[..])[ptr..ptr + s]
        && Find(blocks, p) < |blocks| && Live(blocks) ==
             (set q | q in old(Live(blocks)) && q.0 != ptr) + {(p, blocks[Find(blocks, p)].size)}
        && forall a :: p + s <= a < p + blocks[Find(blocks, p)].size && a < mem.Length ==> mem[a] == Byte(0)
      ensures p != 0 && size <= TWO32 - 8 ==> Find(blocks, p) < |blocks| && blocks[Find(blocks, p)].size >= size
      ensures SameHeld(old(mem[..]), mem[..],
        if ptr == 0 then old(Live(blocks)) else Live(blocks) * old(Live(blocks)), lo, hi)
    {
      hide Tiles, Aligned, Coalesced, Linked, NoStrayTags, LiveBytes, Held, SumOf, Live, AllocStep, ResizeStep, Find,
           FirstFit, Regrown, SameHeld, Cramped;
      RoundingCoversRequest(size);
      if ptr == 0 {
        p := Kmalloc(size);
        return p, false;
      }
      ghost var m, bs := mem[..], blocks;
      p, outside := Resize(ptr, size);
      if p != 0 && p != ptr && !outside {
        GrownIs(m, mem[..], bs, blocks, lo, hi, ptr, p, size);
      }
    }

    /** krealloc on a live pointer. */
    method Resize(ptr: nat, size: u32) returns (p: nat, outside: bool)
      requires Find(blocks, ptr) < |blocks|
      requires Valid()
      modifies `blocks, `used, mem
      ensures Valid()
      ensures blocks == if outside then AllocStep(old(blocks), size) else ResizeStep(old(blocks), ptr, size)
      ensures var k := FirstFit(old(blocks), Round8(size), 0);
        p == if old(blocks[Find(blocks, ptr)].size) >= size then ptr
             else if k == |old(blocks)| then 0 else old(blocks)[k].Payload()
      ensures p != ptr ==> old(blocks[Find(blocks, ptr)].size) < size
      ensures outside <==> p != 0 && p != ptr && Cramped(old(blocks), ptr, size)
      ensures outside ==> size > TWO32 - 8
      ensures p == 0 || p == ptr ==> mem[..] == old(mem[..])
      ensures p != 0 && p != ptr && !outside ==> Regrown(old(mem[..]), mem[..], old(blocks), blocks, ptr, p)
      ensures p != 0 && size <= TWO32 - 8 ==> Find(blocks, p) < |blocks| && blocks[Find(blocks, p)].size >= size
      ensures SameHeld(old(mem[..]), mem[..], Live(blocks) * old(Live(blocks)), lo, hi)
    {
      hide Tiles, Aligned, Coalesced, Linked, NoStrayTags, LiveBytes, Held, SumOf, Live, AllocStep, FreeStep, Find, FirstFit,
           Regrown, SameHeld, Cramped;
      outside := false;
      NothingMoved(mem[..], Live(blocks) * Live(blocks), lo, hi);
      ghost var bs, i := blocks, Find(blocks, ptr);
      BlockInMemory(mem[..], bs, lo, hi, i);
      if mem[ptr - HDR].size >= size {
        return ptr, false;
      }
      if size <= TWO32 - 8 && FirstFit(bs, Round8(size), 0) < |bs| { NeverCramped(bs, ptr, size); }
      p, outside := Regrow(ptr, size);
    }

    /** A whole run of calls and client writes on the real heap is the run of the block list, and a live block that
        no operation of the run names stays live with every byte it holds. */
    method Perform(ops: seq<Op>)
      requires AllLegal(blocks, ops, mem.Length)
      requires Valid()
      modifies `blocks, `used, mem
      ensures Valid() && blocks == Run(old(blocks), ops)
      ensures forall p :: p in old(Live(blocks)) && (forall op :: op in ops ==> op.Alloc? || op.ptr != p.0) ==>
        p in Live(blocks) && p.0 + p.1 <= mem.Length && mem[p.0..p.0 + p.1] == old(mem[..])[p.0..p.0 + p.1]
    {
      hide Core, Coalesced, SumOf, Find, Step, Valid, Live, Kept, Names, AllLegal, Legal, Run;
      var i := 0;
      assert ops[0..] == ops;
      LiveKeptNow();
      while i < |ops|
        invariant 0 <= i <= |ops| && Valid()
        invariant AllLegal(blocks, ops[i..], mem.Length) && Run(blocks, ops[i..]) == Run(old(blocks), ops)
        invariant forall p :: p in old(Live(blocks)) && Unnamed(ops, p.0) ==>
          p in Live(blocks) && Kept(old(mem[..]), mem[..], p)
      {
        NextOp(blocks, ops, i, mem.Length);
        ghost var m, live := mem[..], Live(blocks);
        Do(ops[i]);
        forall p | p in old(Live(blocks)) && Unnamed(ops, p.0) ensures p in Live(blocks) && Kept(old(mem[..]), mem[..], p) {
          assert ops[i] in ops;
          KeptTrans(old(mem[..]), m, mem[..], p);
        }
        i := i + 1;
      }
      NoOps(blocks, ops);
      KeptBytes(old(mem[..]), mem[..], old(Live(blocks)), ops);
    }

    lemma LiveKeptNow()
      requires Valid()
      ensures forall p :: p in Live(blocks) ==> Kept(mem[..], mem[..], p)
    {
      LiveStartsKept(mem[..], blocks, lo, hi);
    }

    /** One operation: what it does to the block list, and that the blocks it does not name keep their bytes. */
    method Do(op: Op)
      requires Legal(blocks, op, mem.Length)
      requires Valid()
      modifies `blocks, `used, mem
      ensures Valid() && blocks == Step(old(blocks), op)
      ensures forall p :: p in old(Live(blocks)) && !Names(op, p.0) ==> p in Live(blocks) && Kept(old(mem[..]), mem[..], p)
    {
      hide AllocStep, FreeStep, ResizeStep, Coalesced, SumOf, Find, SameHeld, FirstFit, Tiles,
           Linked, NoStrayTags, LiveBytes, Live, Kept, Names, Step;
      ghost var m, bs, kept := mem[..], blocks, Live(blocks);
      StepCases(bs, op);
      match op {
        case Alloc(n) => var p := Kmalloc(n);
        case Free(p) => Kfree(p);
        case Resize(p, n) => var q, outside := Krealloc(p, n);
        case Write(p, k, v) =>
          Store(p, k, v);
          StoreSameHeld(m, bs, lo, hi, p, k, v);
      }
      forall p | p in Live(bs) && !Names(op, p.0) ensures p in Live(blocks) && Kept(m, mem[..], p) {
        UnnamedStaysLive(bs, lo, hi, op, p);
        UnnamedKept(m, mem[..], bs, blocks, lo, hi, op, p);
      }
    }
  }

  lemma CopiedCellByCell(m: seq<Cell>, now: seq<Cell>, src: nat, dst: nat, n: nat)
    requires src + n <= |m| && dst + n <= |m| == |now|
    requires forall a {:trigger now[a]} :: 0 <= a < |m| ==> now[a] == if dst <= a < dst + n then m[src + (a - dst)] else m[a]
    ensures now == Copied(m, src, dst, n)
  {
    var c := Copied(m, src, dst, n);
    forall a | 0 <= a < |m| ensures c[a] == if dst <= a < dst + n then m[src + (a - dst)] else m[a] {
      if a < dst { assert c[a] == m[..dst][a]; }
      if dst <= a < dst + n { assert c[a] == m[src..src + n][a - dst] == m[src + (a - dst)]; }
      if dst + n <= a { assert c[a] == m[dst + n..][a - (dst + n)]; }
    }
    assert |c| == |now|;
    assert forall a :: 0 <= a < |m| ==> now[a] == c[a];
  }

  lemma GrowingSteps(bs: seq<Block>, ptr: nat, size: u32)
    requires Find(bs, ptr) < |bs| && bs[Find(bs, ptr)].size < size
    ensures var (k, cs) := (FirstFit(bs, Round8(size), 0), AllocStep(bs, size));
      && (ResizeStep(bs, ptr, size) == if k == |bs| then bs else FreeStep(cs, ptr))
      && (Cramped(bs, ptr, size) <==> k < |cs| && cs[k].size < bs[Find(bs, ptr)].size)
  {
    hide FirstFit, AllocStep, FreeStep, Find;
  }

  /** What a regrown block means in bytes and in the live set. */
  lemma GrownIs(m: seq<Cell>, n: seq<Cell>, bs: seq<Block>, cs: seq<Block>, lo: nat, hi: nat, ptr: nat, p: nat, size: u32)
    requires WellFormed(bs, lo, hi) && Find(bs, ptr) < |bs| && bs[Find(bs, ptr)].size < size
    requires var k := FirstFit(bs, Round8(size), 0); k < |bs| && p == bs[k].Payload()
    requires cs == ResizeStep(bs, ptr, size) && Regrown(m, n, bs, cs, ptr, p)
    ensures var s := bs[Find(bs, ptr)].size;
      && ptr + s <= |m| && p + s <= |n| && n[p..p + s] == m[ptr..ptr + s]
      && Find(cs, p) < |cs| && Live(cs) == (set q | q in Live(bs) && q.0 != ptr) + {(p, cs[Find(cs, p)].size)}
      && forall a :: p + s <= a < p + cs[Find(cs, p)].size && a < |n| ==> n[a] == Byte(0)
  {
    hide WellFormed, Live, FirstFit, ResizeStep, Find;
    ResizeLive(bs, lo, hi, ptr, size);
  }

  lemma NothingMoved(m: seq<Cell>, live: set<(nat, nat)>, lo: nat, hi: nat)
    ensures SameHeld(m, m, live, lo, hi)
  {
  }

  /** Memory that is the same where it is held has the same bytes in live payloads. */
  lemma LiveKeepsBytes(m: seq<Cell>, n: seq<Cell>, live: set<(nat, nat)>, lo: nat, hi: nat)
    requires SameHeld(m, n, live, lo, hi)
    ensures |m| == |n| && forall q, a :: q in live && q.0 <= a < q.0 + q.1 && a < |m| ==> n[a] == m[a]
  {
    forall q, a | q in live && q.0 <= a < q.0 + q.1 && a < |m| ensures n[a] == m[a] {
      assert Held(live, lo, hi, a);
    }
  }

  /** The payload `p` holds the same bytes in both memories. */
  ghost predicate Kept(m: seq<Cell>, n: seq<Cell>, p: (nat, nat)) {
    p.0 + p.1 <= |m| == |n| && m[p.0..p.0 + p.1] == n[p.0..p.0 + p.1]
  }

  lemma KeptBytes(m: seq<Cell>, n: seq<Cell>, live: set<(nat, nat)>, ops: seq<Op>)
    requires forall p :: p in live && Unnamed(ops, p.0) ==> Kept(m, n, p)
    ensures forall p :: p in live && (forall op :: op in ops ==> op.Alloc? || op.ptr != p.0) ==>
      Unnamed(ops, p.0) && p.0 + p.1 <= |m| == |n| && n[p.0..p.0 + p.1] == m[p.0..p.0 + p.1]
  {
    forall p | p in live && (forall op :: op in ops ==> op.Alloc? || op.ptr != p.0)
      ensures Unnamed(ops, p.0) && Kept(m, n, p)
    {
      assert Unnamed(ops, p.0);
    }
  }

  lemma KeptTrans(m: seq<Cell>, n: seq<Cell>, o: seq<Cell>, p: (nat, nat))
    requires Kept(m, n, p) && Kept(n, o, p)
    ensures Kept(m, o, p)
  {
  }

  ghost predicate Unnamed(ops: seq<Op>, ptr: nat) { forall op :: op in ops ==> !Names(op, ptr) }

  /** The memory an operation must leave alone, as its method states it. */
  ghost function Spared(op: Op, was: set<(nat, nat)>, now: set<(nat, nat)>, size: nat): set<(nat, nat)> {
    match op
    case Alloc(_) => was
    case Free(_) => now
    case Resize(_, _) => now * was
    case Write(p, _, _) => was - {(p, size)}
  }

  lemma StepCases(bs: seq<Block>, op: Op)
    ensures Step(bs, op) == match op
      case Alloc(n) => AllocStep(bs, n)
      case Free(p) => FreeStep(bs, p)
      case Resize(p, n) => ResizeStep(bs, p, n)
      case Write(_, _, _) => bs
  {
  }

  lemma StoreSameHeld(m: seq<Cell>, bs: seq<Block>, lo: nat, hi: nat, ptr: nat, k: nat, v: u8)
    requires Holds(m, bs, lo, hi) && Coalesced(bs)
    requires Find(bs, ptr) < |bs| && k < bs[Find(bs, ptr)].size && ptr + k < |m|
    ensures SameHeld(m, m[ptr + k := Byte(v)], Live(bs) - {(ptr, bs[Find(bs, ptr)].size)}, lo, hi)
  {
    hide Live, Find, Tiles, Aligned, Linked, NoStrayTags, LiveBytes, Coalesced, SameHeld, PayloadCells;
    var i := Find(bs, ptr);
    PayloadIsBytes(m, bs, i);
    ByteInPayload(m, bs[i], ptr + k, v);
    PayloadWriteSameHeld(m, m[ptr + k := Byte(v)], bs, lo, hi, i);
  }

  lemma ByteInPayload(m: seq<Cell>, b: Block, a: nat, v: u8)
    requires b.Payload() <= a < b.End() && a < |m| && forall x :: b.Payload() <= x < b.End() && x < |m| ==> m[x].Byte?
    ensures PayloadCells(m, m[a := Byte(v)], b)
  {
  }

  lemma LiveStartsKept(m: seq<Cell>, bs: seq<Block>, lo: nat, hi: nat)
    requires Tiles(bs, lo, hi) && hi <= |m|
    ensures forall p :: p in Live(bs) ==> Kept(m, m, p)
  {
    forall p | p in Live(bs) ensures Kept(m, m, p) {
      var i := LiveAt(bs, p);
      InRange(bs, lo, hi, i);
    }
  }

  lemma UnnamedKept(m: seq<Cell>, n: seq<Cell>, bs: seq<Block>, cs: seq<Block>, lo: nat, hi: nat, op: Op, p: (nat, nat))
    requires hi <= |m| && WellFormed(bs, lo, hi) && p in Live(bs) && p in Live(cs) && !Names(op, p.0)
    requires op.Write? ==> Find(bs, op.ptr) < |bs|
    requires SameHeld(m, n, Spared(op, Live(bs), Live(cs), if op.Write? then bs[Find(bs, op.ptr)].size else 0), lo, hi)
    ensures Kept(m, n, p)
  {
    var i := LiveAt(bs, p);
    InRange(bs, lo, hi, i);
    hide Live, SameHeld, Find, WellFormed;
    SameHeldPayload(m, n, Spared(op, Live(bs), Live(cs), if op.Write? then bs[Find(bs, op.ptr)].size else 0), lo, hi, p);
  }

  lemma NoOps(bs: seq<Block>, ops: seq<Op>)
    ensures Run(bs, ops[|ops|..]) == bs
  {
  }

  /** Every call the code takes is legal: any request, NULL and any pointer with memory for a header in front of it to free,
      live pointers and sizes up to 2^32 - 8 to resize, bytes of a live payload to write. */
  lemma LegalCalls(bs: seq<Block>, p: nat, n: u32, k: nat, v: u8, limit: nat)
    ensures Legal(bs, Alloc(n), limit) && (p == 0 || 16 <= p < limit + 16 ==> Legal(bs, Free(p), limit))
    ensures p != 0 && Find(bs, p) < |bs| && n <= 0xFFFF_FFF8 ==> Legal(bs, Resize(p, n), limit)
    ensures Find(bs, p) < |bs| && k < bs[Find(bs, p)].size ==> Legal(bs, Write(p, k, v), limit)
  {
  }

  /** What the code expects of its callers: pointers whose header would lie in memory, live ones to resize and to
      write through, writes inside the block, and sizes for which rounding does not wrap. */
  ghost predicate Legal(bs: seq<Block>, op: Op, limit: nat) {
    match op
    case Alloc(_) => true
    case Free(p) => p == 0 || HDR <= p < limit + HDR
    case Resize(p, n) => p != 0 && n <= TWO32 - 8 && Find(bs, p) < |bs|
    case Write(p, k, _) => Find(bs, p) < |bs| && k < bs[Find(bs, p)].size
  }

  ghost predicate AllLegal(bs: seq<Block>, ops: seq<Op>, limit: nat)
    decreases |ops|
  {
    ops == [] || (Legal(bs, ops[0], limit) && AllLegal(Step(bs, ops[0]), ops[1..], limit))
  }

  lemma NextOp(bs: seq<Block>, ops: seq<Op>, i: nat, limit: nat)
    requires i < |ops| && AllLegal(bs, ops[i..], limit)
    ensures Legal(bs, ops[i], limit) && AllLegal(Step(bs, ops[i]), ops[i + 1..], limit)
    ensures Run(bs, ops[i..]) == Run(Step(bs, ops[i]), ops[i + 1..])
  {
    assert ops[i..][1..] == ops[i + 1..];
  }
}
