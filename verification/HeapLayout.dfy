/** The block list of mm/kmalloc.c as a value: what tiling, first fit, splitting and coalescing mean,
    and what every run of allocations and releases keeps. */
module HeapLayout {
  import opened Types

  const HDR: nat := 16
  const SLACK: nat := 8

  /** A block: `addr` is the address of its 16-byte header, `size` the payload bytes behind it. */
  datatype Block = Block(addr: nat, size: nat, free: bool) {
    function End(): nat { addr + HDR + size }
    function Payload(): nat { addr + HDR }
  }

  /** The blocks lie end to end and cover [lo, hi) exactly. */
  ghost predicate Tiles(bs: seq<Block>, lo: nat, hi: nat) {
    && |bs| > 0
    && bs[0].addr == lo
    && (forall i, j :: 0 <= i < j < |bs| && j == i + 1 ==> bs[j].addr == bs[i].End())
    && bs[|bs| - 1].End() == hi
  }

  ghost predicate Aligned(bs: seq<Block>) {
    forall i :: 0 <= i < |bs| ==> bs[i].addr % 8 == 0
  }

  ghost predicate Coalesced(bs: seq<Block>) {
    forall i, j :: 0 <= i < j < |bs| && j == i + 1 ==> !(bs[i].free && bs[j].free)
  }

  ghost predicate WellFormed(bs: seq<Block>, lo: nat, hi: nat) {
    Tiles(bs, lo, hi) && Aligned(bs) && Coalesced(bs)
  }

  /** The live blocks, as (payload address, payload size) pairs. */
  ghost function Live(bs: seq<Block>): set<(nat, nat)> {
    set i | 0 <= i < |bs| && !bs[i].free :: (bs[i].Payload(), bs[i].size)
  }

  /** The rounding of a request in 32-bit arithmetic, `(size + 7) & ~7u`. */
  function Round8(size: u32): (n: u32)
    ensures n % 8 == 0
  {
    var n := (size + 7) % TWO32;
    n - n % 8
  }

  /** Rounding keeps a request satisfiable exactly up to 2^32 - 8; above that it wraps to zero, so
      the block handed out for such a request is smaller than the request. */
  lemma RoundingCoversRequest(size: u32)
    ensures Round8(size) >= size <==> size <= TWO32 - 8
    ensures size <= TWO32 - 8 ==> Round8(size) < size + 8
    ensures size > TWO32 - 8 ==> Round8(size) == 0
  {
    if size > TWO32 - 8 {
      assert (size + 7) % TWO32 == size + 7 - TWO32;
    } else {
      assert (size + 7) % TWO32 == size + 7;
    }
  }

  ghost predicate Fits(b: Block, n: nat) { b.free && b.size >= n }

  /** Index of the first free block of at least `n` bytes at or after `i`; |bs| when there is none. */
  ghost function FirstFit(bs: seq<Block>, n: nat, i: nat): (k: nat)
    requires i <= |bs|
    ensures i <= k <= |bs|
    ensures k < |bs| ==> Fits(bs[k], n)
    ensures forall j :: i <= j < k ==> !Fits(bs[j], n)
    decreases |bs| - i
  {
    if i == |bs| || Fits(bs[i], n) then i else FirstFit(bs, n, i + 1)
  }

  ghost predicate Splits(b: Block, n: nat) { b.size > n + HDR + SLACK }

  /** Cuts the free block `i` into one of `n` bytes and a free remainder. */
  ghost function Split(bs: seq<Block>, i: nat, n: nat): seq<Block>
    requires i < |bs| && Fits(bs[i], n) && Splits(bs[i], n)
  {
    var b := bs[i];
    bs[..i] + [Block(b.addr, n, true), Block(b.addr + HDR + n, b.size - n - HDR, true)] + bs[i + 1..]
  }

  /** Takes `n` bytes out of the free block `i`, splitting off the rest when it is worth a block. */
  ghost function Carve(bs: seq<Block>, i: nat, n: nat): seq<Block>
    requires i < |bs| && Fits(bs[i], n)
  {
    var cs := if Splits(bs[i], n) then Split(bs, i, n) else bs;
    cs[i := cs[i].(free := false)]
  }

  /** Absorbs block i + 1 into block i. */
  ghost function Join(bs: seq<Block>, i: nat): seq<Block>
    requires i + 1 < |bs|
  {
    bs[..i] + [bs[i].(size := bs[i].size + HDR + bs[i + 1].size)] + bs[i + 2..]
  }

  ghost function JoinNext(bs: seq<Block>, i: nat): seq<Block>
    requires i < |bs|
  {
    if i + 1 < |bs| && bs[i + 1].free then Join(bs, i) else bs
  }

  ghost function JoinPrev(bs: seq<Block>, i: nat): seq<Block>
    requires i < |bs|
  {
    if i > 0 && bs[i - 1].free then Join(bs, i - 1) else bs
  }

  /** Frees block `i` and merges it with free neighbours on both sides. */
  ghost function Release(bs: seq<Block>, i: nat): seq<Block>
    requires i < |bs|
  {
    JoinPrev(JoinNext(bs[i := bs[i].(free := true)], i), i)
  }

  // ---- order and disjointness -------------------------------------------------------------

  lemma {:induction false} Ordered(bs: seq<Block>, lo: nat, hi: nat, i: nat, j: nat)
    requires Tiles(bs, lo, hi) && i < j < |bs|
    ensures lo <= bs[i].addr && bs[i].End() <= bs[j].addr && bs[j].End() <= hi
    decreases j - i
  {
    if j == i + 1 {
      InRange(bs, lo, hi, i);
      InRange(bs, lo, hi, j);
    } else {
      Ordered(bs, lo, hi, i + 1, j);
      InRange(bs, lo, hi, i);
    }
  }

  lemma {:induction false} InRange(bs: seq<Block>, lo: nat, hi: nat, i: nat)
    requires Tiles(bs, lo, hi) && i < |bs|
    ensures lo <= bs[i].addr && bs[i].End() <= hi
  {
    StartsAbove(bs, lo, hi, i);
    EndsBelow(bs, lo, hi, i);
  }

  lemma {:induction false} StartsAbove(bs: seq<Block>, lo: nat, hi: nat, i: nat)
    requires Tiles(bs, lo, hi) && i < |bs|
    ensures lo <= bs[i].addr
  {
    if i > 0 {
      StartsAbove(bs, lo, hi, i - 1);
    }
  }

  lemma {:induction false} EndsBelow(bs: seq<Block>, lo: nat, hi: nat, i: nat)
    requires Tiles(bs, lo, hi) && i < |bs|
    ensures bs[i].End() <= hi
    decreases |bs| - i
  {
    if i < |bs| - 1 {
      EndsBelow(bs, lo, hi, i + 1);
    }
  }

  lemma LiveAt(bs: seq<Block>, p: (nat, nat)) returns (i: nat)
    requires p in Live(bs)
    ensures i < |bs| && !bs[i].free && p == (bs[i].Payload(), bs[i].size)
  {
    i :| 0 <= i < |bs| && !bs[i].free && p == (bs[i].Payload(), bs[i].size);
  }

  /** Two live payloads never overlap, and each stays inside the heap, 8-aligned. */
  lemma LivePayloadsDisjoint(bs: seq<Block>, lo: nat, hi: nat, p: (nat, nat), q: (nat, nat))
    requires WellFormed(bs, lo, hi)
    requires p in Live(bs) && q in Live(bs) && p != q
    ensures p.0 + p.1 <= q.0 || q.0 + q.1 <= p.0
    ensures lo + HDR <= p.0 && p.0 + p.1 <= hi && p.0 % 8 == 0
  {
    var i := LiveAt(bs, p);
    var j := LiveAt(bs, q);
    InRange(bs, lo, hi, i);
    if i < j { Ordered(bs, lo, hi, i, j); } else if j < i { Ordered(bs, lo, hi, j, i); }
  }

  // ---- every operation keeps the layout ---------------------------------------------------

  lemma SplitKeepsTiling(bs: seq<Block>, lo: nat, hi: nat, i: nat, n: nat)
    requires Tiles(bs, lo, hi) && Aligned(bs) && i < |bs| && Fits(bs[i], n) && Splits(bs[i], n) && n % 8 == 0
    ensures var cs := Split(bs, i, n);
      Tiles(cs, lo, hi) && Aligned(cs) && |cs| == |bs| + 1
      && (forall j :: 0 <= j < i ==> cs[j] == bs[j]) && (forall j :: i + 2 <= j < |cs| ==> cs[j] == bs[j - 1])
  {
    SplitAt(bs, i, n);
    var cs := Split(bs, i, n);
    hide Split, Tiles, Aligned;
    SplitTiles(bs, cs, lo, hi, i);
    SplitAligned(bs, cs, i, n);
  }

  /** Two blocks in the place of one, starting and ending where it did. */
  lemma SplitTiles(bs: seq<Block>, cs: seq<Block>, lo: nat, hi: nat, i: nat)
    requires Tiles(bs, lo, hi) && i < |bs| && |cs| == |bs| + 1
    requires forall j :: 0 <= j < i ==> cs[j] == bs[j]
    requires forall j :: i + 2 <= j < |cs| ==> cs[j] == bs[j - 1]
    requires cs[i].addr == bs[i].addr && cs[i].End() == cs[i + 1].addr && cs[i + 1].End() == bs[i].End()
    ensures Tiles(cs, lo, hi)
  {
    forall j, k | 0 <= j < k < |cs| && k == j + 1 ensures cs[k].addr == cs[j].End() {
      if k < i { assert cs[j] == bs[j] && cs[k] == bs[k]; }
      if k == i { assert cs[j] == bs[i - 1]; }
      if j == i + 1 { assert cs[k] == bs[i + 1]; }
      if j > i + 1 { assert cs[j] == bs[j - 1] && cs[k] == bs[k - 1]; }
    }
  }

  lemma SplitAligned(bs: seq<Block>, cs: seq<Block>, i: nat, n: nat)
    requires Aligned(bs) && i < |bs| && |cs| == |bs| + 1 && n % 8 == 0
    requires forall j :: 0 <= j < i ==> cs[j] == bs[j]
    requires forall j :: i + 2 <= j < |cs| ==> cs[j] == bs[j - 1]
    requires cs[i].addr == bs[i].addr && cs[i + 1].addr == bs[i].addr + HDR + n
    ensures Aligned(cs)
  {
    assert (bs[i].addr + HDR + n) % 8 == 0;
    forall j | 0 <= j < |cs| ensures cs[j].addr % 8 == 0 {
      if j > i + 1 { assert cs[j] == bs[j - 1]; }
    }
  }

  lemma SplitAt(bs: seq<Block>, i: nat, n: nat)
    requires i < |bs| && Fits(bs[i], n) && Splits(bs[i], n)
    ensures var cs := Split(bs, i, n);
      && |cs| == |bs| + 1 && (forall j :: 0 <= j < i ==> cs[j] == bs[j])
      && (forall j :: i + 2 <= j < |cs| ==> cs[j] == bs[j - 1])
      && cs[i] == Block(bs[i].addr, n, true) && cs[i + 1] == Block(bs[i].addr + HDR + n, bs[i].size - n - HDR, true)
  {
  }

  /** Blocks that differ in a tag only lie the same way. */
  lemma RetagKeepsTiling(bs: seq<Block>, lo: nat, hi: nat, i: nat, free: bool)
    requires Tiles(bs, lo, hi) && Aligned(bs) && i < |bs|
    ensures var cs := bs[i := bs[i].(free := free)]; Tiles(cs, lo, hi) && Aligned(cs)
  {
  }

  /** Two neighbours of a carved list are not both free. */
  lemma CarveCoalesced(bs: seq<Block>, i: nat, n: nat)
    requires Coalesced(bs) && i < |bs| && Fits(bs[i], n)
    ensures Coalesced(Carve(bs, i, n))
  {
    var cs := Carve(bs, i, n);
    var extra := if Splits(bs[i], n) then 1 else 0;
    assert |cs| == |bs| + extra;
    forall j, k | 0 <= j < k < |cs| && k == j + 1 ensures !(cs[j].free && cs[k].free) {
      if k < i { assert cs[j] == bs[j] && cs[k] == bs[k]; }
      if j > i + extra { assert cs[j] == bs[j - extra] && cs[k] == bs[k - extra]; }
      if extra == 1 && j == i + 1 { assert cs[k] == bs[i + 1]; }
    }
  }

  lemma CarveKeepsLayout(bs: seq<Block>, lo: nat, hi: nat, i: nat, n: nat)
    requires WellFormed(bs, lo, hi) && i < |bs| && Fits(bs[i], n) && n % 8 == 0
    ensures WellFormed(Carve(bs, i, n), lo, hi)
  {
    hide Tiles, Aligned, Coalesced, Split;
    CarveCoalesced(bs, i, n);
    if Splits(bs[i], n) {
      SplitKeepsTiling(bs, lo, hi, i, n);
      RetagKeepsTiling(Split(bs, i, n), lo, hi, i, false);
    } else {
      RetagKeepsTiling(bs, lo, hi, i, false);
    }
  }

  lemma JoinKeepsTiling(bs: seq<Block>, lo: nat, hi: nat, i: nat)
    requires Tiles(bs, lo, hi) && Aligned(bs) && i + 1 < |bs|
    ensures Tiles(Join(bs, i), lo, hi) && Aligned(Join(bs, i))
    ensures |Join(bs, i)| == |bs| - 1 && Join(bs, i)[i].free == bs[i].free
    ensures forall j :: 0 <= j < i ==> Join(bs, i)[j] == bs[j]
    ensures forall j :: i < j < |bs| - 1 ==> Join(bs, i)[j] == bs[j + 1]
  {
    var cs := Join(bs, i);
    assert bs[i + 1].addr == bs[i].End();
    assert forall j :: 0 <= j < i ==> cs[j] == bs[j];
    assert forall j :: i < j < |cs| ==> cs[j] == bs[j + 1];
  }

  /** The only neighbours that may both be free are those of block `i`. */
  ghost predicate CoalescedExcept(bs: seq<Block>, i: int) {
    forall j, k :: 0 <= j < k < |bs| && k == j + 1 && j != i && k != i ==> !(bs[j].free && bs[k].free)
  }

  lemma JoinNextKeeps(bs: seq<Block>, lo: nat, hi: nat, i: nat)
    requires Tiles(bs, lo, hi) && Aligned(bs) && CoalescedExcept(bs, i) && i < |bs| && bs[i].free
    requires i + 2 < |bs| ==> !(bs[i + 1].free && bs[i + 2].free)
    ensures var cs := JoinNext(bs, i);
      Tiles(cs, lo, hi) && Aligned(cs) && CoalescedExcept(cs, i) && i < |cs| && cs[i].free
      && cs[..i] == bs[..i] && (i + 1 < |cs| ==> !cs[i + 1].free)
  {
    hide Tiles, Aligned;
    if i + 1 < |bs| && bs[i + 1].free {
      JoinKeepsTiling(bs, lo, hi, i);
      hide Join;
      JoinNextCoalesced(bs, Join(bs, i), i);
    }
  }

  lemma JoinNextCoalesced(bs: seq<Block>, cs: seq<Block>, i: nat)
    requires CoalescedExcept(bs, i) && i + 1 < |bs| && |cs| == |bs| - 1 && bs[i + 1].free
    requires forall j :: 0 <= j < i ==> cs[j] == bs[j]
    requires forall j :: i < j < |bs| - 1 ==> cs[j] == bs[j + 1]
    requires i + 2 < |bs| ==> !(bs[i + 1].free && bs[i + 2].free)
    ensures CoalescedExcept(cs, i) && cs[..i] == bs[..i] && (i + 1 < |cs| ==> !cs[i + 1].free)
  {
    forall j, k | 0 <= j < k < |cs| && k == j + 1 && j != i && k != i ensures !(cs[j].free && cs[k].free) {
      if k < i { assert cs[j] == bs[j] && cs[k] == bs[k]; } else { assert cs[j] == bs[j + 1] && cs[k] == bs[k + 1]; }
    }
  }

  lemma JoinPrevKeeps(bs: seq<Block>, lo: nat, hi: nat, i: nat)
    requires Tiles(bs, lo, hi) && Aligned(bs) && CoalescedExcept(bs, i) && i < |bs| && bs[i].free
    requires i + 1 < |bs| ==> !bs[i + 1].free
    requires i > 1 ==> !(bs[i - 2].free && bs[i - 1].free)
    ensures WellFormed(JoinPrev(bs, i), lo, hi)
  {
    if i > 0 && bs[i - 1].free {
      JoinKeepsTiling(bs, lo, hi, i - 1);
      hide Tiles, Aligned;
      JoinPrevCoalesced(bs, i);
    }
  }

  lemma JoinPrevCoalesced(bs: seq<Block>, i: nat)
    requires CoalescedExcept(bs, i) && 0 < i < |bs| && bs[i - 1].free
    requires i + 1 < |bs| ==> !bs[i + 1].free
    requires i > 1 ==> !(bs[i - 2].free && bs[i - 1].free)
    ensures Coalesced(Join(bs, i - 1))
  {
    var cs := Join(bs, i - 1);
    forall j, k | 0 <= j < k < |cs| && k == j + 1 ensures !(cs[j].free && cs[k].free) {
      if k < i - 1 { assert cs[j] == bs[j] && cs[k] == bs[k]; }
      if k == i - 1 { assert cs[j] == bs[i - 2]; }
      if j == i - 1 { assert cs[k] == bs[i + 1]; }
      if j > i - 1 { assert cs[j] == bs[j + 1] && cs[k] == bs[k + 1]; }
    }
  }

  lemma ReleaseKeepsLayout(bs: seq<Block>, lo: nat, hi: nat, i: nat)
    requires WellFormed(bs, lo, hi) && i < |bs| && !bs[i].free
    ensures WellFormed(Release(bs, i), lo, hi)
  {
    var b1 := bs[i := bs[i].(free := true)];
    JoinNextKeeps(b1, lo, hi, i);
    var b2 := JoinNext(b1, i);
    if i > 1 {
      assert b2[..i][i - 1] == bs[i - 1] && b2[..i][i - 2] == bs[i - 2];
    }
    JoinPrevKeeps(b2, lo, hi, i);
  }

  // ---- what an operation does to the live set ---------------------------------------------

  lemma JoinKeepsLive(bs: seq<Block>, i: nat)
    requires i + 1 < |bs| && bs[i].free && bs[i + 1].free
    ensures Live(Join(bs, i)) == Live(bs)
  {
    var cs := Join(bs, i);
    forall p ensures p in Live(bs) <==> p in Live(cs) {
      if p in Live(bs) {
        var j := LiveAt(bs, p);
        assert cs[if j < i then j else j - 1] == bs[j];
      }
      if p in Live(cs) {
        var j := LiveAt(cs, p);
        assert cs[j] == bs[if j < i then j else j + 1];
      }
    }
  }

  lemma SplitKeepsLive(bs: seq<Block>, i: nat, n: nat)
    requires i < |bs| && Fits(bs[i], n) && Splits(bs[i], n)
    ensures Live(Split(bs, i, n)) == Live(bs)
  {
    var cs := Split(bs, i, n);
    forall p ensures p in Live(bs) <==> p in Live(cs) {
      if p in Live(bs) {
        var j := LiveAt(bs, p);
        assert cs[if j < i then j else j + 1] == bs[j];
      }
      if p in Live(cs) {
        var j := LiveAt(cs, p);
        assert cs[j] == bs[if j < i then j else j - 1];
      }
    }
  }

  lemma MarkUsedAddsLive(bs: seq<Block>, i: nat)
    requires i < |bs| && bs[i].free
    ensures Live(bs[i := bs[i].(free := false)]) == Live(bs) + {(bs[i].Payload(), bs[i].size)}
  {
    var cs := bs[i := bs[i].(free := false)];
    forall p ensures p in Live(bs) + {(bs[i].Payload(), bs[i].size)} <==> p in Live(cs) {
      if p in Live(bs) { var j := LiveAt(bs, p); assert cs[j] == bs[j]; }
      if p == (bs[i].Payload(), bs[i].size) { assert cs[i].Payload() == bs[i].Payload(); }
      if p in Live(cs) { var j := LiveAt(cs, p); if j != i { assert bs[j] == cs[j]; } }
    }
  }

  /** An allocation adds exactly one payload, of the rounded size or with a remainder too small to split. */
  lemma CarveAddsLive(bs: seq<Block>, i: nat, n: nat)
    requires i < |bs| && Fits(bs[i], n)
    ensures var c := Carve(bs, i, n)[i];
      !c.free && c.size == (if bs[i].size > n + 24 then n else bs[i].size)
      && Live(Carve(bs, i, n)) == Live(bs) + {(bs[i].Payload(), c.size)}
  {
    if Splits(bs[i], n) {
      SplitKeepsLive(bs, i, n);
      MarkUsedAddsLive(Split(bs, i, n), i);
    } else {
      MarkUsedAddsLive(bs, i);
    }
  }

  lemma LiveAddressesDiffer(bs: seq<Block>, lo: nat, hi: nat, i: nat, j: nat)
    requires Tiles(bs, lo, hi) && i < |bs| && j < |bs| && i != j
    ensures bs[i].addr != bs[j].addr
  {
    if i < j { Ordered(bs, lo, hi, i, j); } else { Ordered(bs, lo, hi, j, i); }
  }

  lemma MarkFreeDropsLive(bs: seq<Block>, lo: nat, hi: nat, i: nat)
    requires Tiles(bs, lo, hi) && i < |bs| && !bs[i].free
    ensures Live(bs[i := bs[i].(free := true)]) == Live(bs) - {(bs[i].Payload(), bs[i].size)}
  {
    var gone := (bs[i].Payload(), bs[i].size);
    var b1 := bs[i := bs[i].(free := true)];
    forall p ensures p in Live(bs) - {gone} <==> p in Live(b1) {
      if p in Live(bs) && p != gone { var j := LiveAt(bs, p); assert b1[j] == bs[j]; }
      if p in Live(b1) {
        var j := LiveAt(b1, p);
        assert b1[j] == bs[j];
        LiveAddressesDiffer(bs, lo, hi, i, j);
      }
    }
  }

  lemma JoinBothKeepsLive(bs: seq<Block>, i: nat)
    requires i < |bs| && bs[i].free
    ensures Live(JoinPrev(JoinNext(bs, i), i)) == Live(bs)
  {
    if i + 1 < |bs| && bs[i + 1].free { JoinKeepsLive(bs, i); }
    var b2 := JoinNext(bs, i);
    if i > 0 && b2[i - 1].free { JoinKeepsLive(b2, i - 1); }
  }

  /** A release removes exactly the released payload. */
  lemma ReleaseDropsLive(bs: seq<Block>, lo: nat, hi: nat, i: nat)
    requires Tiles(bs, lo, hi) && i < |bs| && !bs[i].free
    ensures Live(Release(bs, i)) == Live(bs) - {(bs[i].Payload(), bs[i].size)}
  {
    MarkFreeDropsLive(bs, lo, hi, i);
    JoinBothKeepsLive(bs[i := bs[i].(free := true)], i);
  }

  // ---- the live set determines the block list ---------------------------------------------

  /** The tail of a well-formed list behind its first block is well-formed itself. */
  lemma TailWellFormed(bs: seq<Block>, lo: nat, hi: nat)
    requires WellFormed(bs, lo, hi) && |bs| > 1
    ensures WellFormed(bs[1..], bs[0].End(), hi)
    ensures Live(bs[1..]) == if bs[0].free then Live(bs) else Live(bs) - {(bs[0].Payload(), bs[0].size)}
  {
    var ts := bs[1..];
    assert forall i :: 0 <= i < |ts| ==> ts[i] == bs[i + 1];
    var rest := if bs[0].free then Live(bs) else Live(bs) - {(bs[0].Payload(), bs[0].size)};
    forall p ensures p in rest <==> p in Live(ts) {
      if p in rest { var j := LiveAt(bs, p); assert ts[j - 1] == bs[j]; }
      if p in Live(ts) { var j := LiveAt(ts, p); assert ts[j] == bs[j + 1]; Ordered(bs, lo, hi, 0, j + 1); }
    }
  }

  /** If a block list opens with a block that is live, any other list with the same live set does too. */
  lemma SameLiveFirst(bs: seq<Block>, cs: seq<Block>, lo: nat, hi: nat)
    requires WellFormed(bs, lo, hi) && WellFormed(cs, lo, hi) && Live(bs) == Live(cs) && !bs[0].free
    ensures cs[0] == bs[0]
  {
    assert (bs[0].Payload(), bs[0].size) in Live(bs);
    var j := LiveAt(cs, (bs[0].Payload(), bs[0].size));
    if j > 0 { Ordered(cs, lo, hi, 0, j); }
  }

  /** A leading free block cannot end before the other list's leading free block does. */
  lemma SameFreeFirst(bs: seq<Block>, cs: seq<Block>, lo: nat, hi: nat)
    requires WellFormed(bs, lo, hi) && WellFormed(cs, lo, hi) && Live(bs) == Live(cs) && bs[0].free && cs[0].free
    ensures cs[0].size <= bs[0].size
  {
    if |bs| == 1 {
      InRange(cs, lo, hi, 0);
    } else {
      assert bs[1].addr == bs[0].End() && !bs[1].free;
      assert (bs[1].Payload(), bs[1].size) in Live(bs);
      var j := LiveAt(cs, (bs[1].Payload(), bs[1].size));
      Ordered(cs, lo, hi, 0, j);
    }
  }

  /** Within one address range the set of live payloads fixes the whole block list: addresses, sizes,
      tags and the free gaps between them. No history of calls can leave anything else behind. */
  lemma {:induction false} LiveSetDeterminesHeap(bs: seq<Block>, cs: seq<Block>, lo: nat, hi: nat)
    requires WellFormed(bs, lo, hi) && WellFormed(cs, lo, hi)
    requires Live(bs) == Live(cs)
    ensures bs == cs
    decreases |bs|
  {
    if !bs[0].free {
      SameLiveFirst(bs, cs, lo, hi);
    } else if !cs[0].free {
      SameLiveFirst(cs, bs, lo, hi);
    } else {
      SameFreeFirst(bs, cs, lo, hi);
      SameFreeFirst(cs, bs, lo, hi);
    }
    assert bs[0] == cs[0];
    if |bs| > 1 && |cs| > 1 {
      TailWellFormed(bs, lo, hi);
      TailWellFormed(cs, lo, hi);
      LiveSetDeterminesHeap(bs[1..], cs[1..], bs[0].End(), hi);
      assert bs == [bs[0]] + bs[1..] && cs == [cs[0]] + cs[1..];
    } else if |bs| > 1 {
      Ordered(bs, lo, hi, 0, 1);
    } else if |cs| > 1 {
      Ordered(cs, lo, hi, 0, 1);
    }
  }

  // ---- accounting -------------------------------------------------------------------------

  ghost function SumOf(bs: seq<Block>, free: bool): nat {
    if bs == [] then 0 else (if bs[0].free == free then bs[0].size else 0) + SumOf(bs[1..], free)
  }

  lemma {:induction false} SumAppend(a: seq<Block>, b: seq<Block>, free: bool)
    ensures SumOf(a + b, free) == SumOf(a, free) + SumOf(b, free)
  {
    if a == [] {
      assert a + b == b;
    } else {
      SumAppend(a[1..], b, free);
      assert (a + b)[1..] == a[1..] + b;
    }
  }

  lemma InThree(bs: seq<Block>, i: nat, j: nat)
    requires i <= j <= |bs|
    ensures bs == bs[..i] + bs[i..j] + bs[j..]
  {
  }

  lemma SumReplace(bs: seq<Block>, i: nat, k: nat, mid: seq<Block>, free: bool)
    requires i + k <= |bs|
    ensures SumOf(bs[..i] + mid + bs[i + k..], free) + SumOf(bs[i..i + k], free) == SumOf(bs, free) + SumOf(mid, free)
  {
    hide SumOf;
    var a, was, z := bs[..i], bs[i..i + k], bs[i + k..];
    InThree(bs, i, i + k);
    SumAppend(a + mid, z, free);
    SumAppend(a, mid, free);
    SumAppend(a + was, z, free);
    SumAppend(a, was, free);
  }

  lemma SumOne(b: Block, free: bool)
    ensures SumOf([b], free) == if b.free == free then b.size else 0
  {
    assert [b][1..] == [];
  }

  lemma SumTwo(b: Block, c: Block, free: bool)
    ensures SumOf([b, c], free) == (if b.free == free then b.size else 0) + if c.free == free then c.size else 0
  {
    assert [b, c][1..] == [c];
    SumOne(c, free);
  }

  /** Used bytes, free bytes and headers together always account for the whole range. */
  lemma {:induction false} Conservation(bs: seq<Block>, lo: nat, hi: nat)
    requires WellFormed(bs, lo, hi)
    ensures SumOf(bs, false) + SumOf(bs, true) + 16 * |bs| == hi - lo
    decreases |bs|
  {
    if |bs| > 1 {
      TailWellFormed(bs, lo, hi);
      Conservation(bs[1..], bs[0].End(), hi);
    } else {
      SumOne(bs[0], true);
      SumOne(bs[0], false);
      assert bs == [bs[0]];
    }
  }

  lemma SumUpdate(bs: seq<Block>, i: nat, b: Block, free: bool)
    requires i < |bs|
    ensures SumOf(bs[i := b], free) + SumOf([bs[i]], free) == SumOf(bs, free) + SumOf([b], free)
  {
    SumReplace(bs, i, 1, [b], free);
    assert bs[i..i + 1] == [bs[i]] && bs[i := b] == bs[..i] + [b] + bs[i + 1..];
  }

  lemma SplitKeepsSum(bs: seq<Block>, i: nat, n: nat)
    requires i < |bs| && Fits(bs[i], n) && Splits(bs[i], n)
    ensures SumOf(Split(bs, i, n), false) == SumOf(bs, false)
  {
    var cs := Split(bs, i, n);
    SumReplace(bs, i, 1, [cs[i], cs[i + 1]], false);
    assert bs[i..i + 1] == [bs[i]];
    SumOne(bs[i], false);
    SumTwo(cs[i], cs[i + 1], false);
  }

  lemma MarkUsedSum(bs: seq<Block>, i: nat)
    requires i < |bs| && bs[i].free
    ensures SumOf(bs[i := bs[i].(free := false)], false) == SumOf(bs, false) + bs[i].size
  {
    SumUpdate(bs, i, bs[i].(free := false), false);
    SumOne(bs[i], false);
    SumOne(bs[i].(free := false), false);
  }

  lemma CarveSum(bs: seq<Block>, i: nat, n: nat)
    requires i < |bs| && Fits(bs[i], n)
    ensures SumOf(Carve(bs, i, n), false) == SumOf(bs, false) + Carve(bs, i, n)[i].size
  {
    if Splits(bs[i], n) {
      SplitKeepsSum(bs, i, n);
      MarkUsedSum(Split(bs, i, n), i);
    } else {
      MarkUsedSum(bs, i);
    }
  }

  lemma MarkFreeSum(bs: seq<Block>, i: nat)
    requires i < |bs| && !bs[i].free
    ensures SumOf(bs[i := bs[i].(free := true)], false) == SumOf(bs, false) - bs[i].size
  {
    SumUpdate(bs, i, bs[i].(free := true), false);
    SumOne(bs[i], false);
    SumOne(bs[i].(free := true), false);
  }

  lemma JoinSum(bs: seq<Block>, i: nat)
    requires i + 1 < |bs| && bs[i].free && bs[i + 1].free
    ensures SumOf(Join(bs, i), false) == SumOf(bs, false)
  {
    var cs := Join(bs, i);
    SumReplace(bs, i, 2, [cs[i]], false);
    assert bs[i..i + 2] == [bs[i], bs[i + 1]];
    SumTwo(bs[i], bs[i + 1], false);
    SumOne(cs[i], false);
  }

  lemma ReleaseSum(bs: seq<Block>, i: nat)
    requires i < |bs| && !bs[i].free
    ensures SumOf(Release(bs, i), false) == SumOf(bs, false) - bs[i].size
  {
    var b1 := bs[i := bs[i].(free := true)];
    MarkFreeSum(bs, i);
    if i + 1 < |b1| && b1[i + 1].free { JoinSum(b1, i); }
    var b2 := JoinNext(b1, i);
    if i > 0 && b2[i - 1].free { JoinSum(b2, i - 1); }
  }

  // ---- runs -------------------------------------------------------------------------------

  /** A call on the allocator, or a client's write into a block it owns; `Resize` is krealloc on a non-null pointer. */
  datatype Op = Alloc(size: u32) | Free(ptr: nat) | Resize(ptr: nat, size: u32) | Write(ptr: nat, k: nat, value: u8)

  /** Index of the live block whose payload starts at `ptr`; |bs| when there is none. */
  ghost function Find(bs: seq<Block>, ptr: nat): (k: nat)
    ensures k <= |bs|
    ensures k < |bs| ==> !bs[k].free && bs[k].Payload() == ptr
    ensures k == |bs| ==> forall j :: 0 <= j < |bs| ==> bs[j].free || bs[j].Payload() != ptr
  {
    if bs == [] then 0
    else if !bs[0].free && bs[0].Payload() == ptr then 0
    else 1 + Find(bs[1..], ptr)
  }

  lemma FindIsLive(bs: seq<Block>, ptr: nat)
    ensures Find(bs, ptr) < |bs| <==> exists p :: p in Live(bs) && p.0 == ptr
    ensures Find(bs, ptr) < |bs| ==> (ptr, bs[Find(bs, ptr)].size) in Live(bs)
  {
    var k := Find(bs, ptr);
    if k < |bs| { assert (bs[k].Payload(), bs[k].size) in Live(bs); }
    if p :| p in Live(bs) && p.0 == ptr { var j := LiveAt(bs, p); }
  }

  /** Pointers found in one list are found in another whose live set keeps them. */
  lemma FindFollowsLive(bs: seq<Block>, cs: seq<Block>, gone: nat)
    requires forall p :: p in Live(bs) && p.0 != gone ==> p in Live(cs)
    ensures forall ptr :: ptr != gone && Find(bs, ptr) < |bs| ==> Find(cs, ptr) < |cs|
  {
    forall ptr | ptr != gone && Find(bs, ptr) < |bs| ensures Find(cs, ptr) < |cs| {
      FindIsLive(bs, ptr);
      FindIsLive(cs, ptr);
    }
  }

  lemma FindUnique(bs: seq<Block>, lo: nat, hi: nat, i: nat)
    requires Tiles(bs, lo, hi) && i < |bs| && !bs[i].free
    ensures Find(bs, bs[i].Payload()) == i
  {
    var k := Find(bs, bs[i].Payload());
    if k != i { LiveAddressesDiffer(bs, lo, hi, i, k); }
  }

  ghost function AllocStep(bs: seq<Block>, size: u32): seq<Block> {
    var k := FirstFit(bs, Round8(size), 0);
    if size == 0 || k == |bs| then bs else Carve(bs, k, Round8(size))
  }

  ghost function FreeStep(bs: seq<Block>, ptr: nat): seq<Block> {
    var k := Find(bs, ptr);
    if k == |bs| then bs else Release(bs, k)
  }

  /** krealloc: nothing when the block is large enough or no other block is; otherwise allocate, then free. */
  ghost function ResizeStep(bs: seq<Block>, ptr: nat, size: u32): seq<Block> {
    var k := Find(bs, ptr);
    if k == |bs| || bs[k].size >= size || FirstFit(bs, Round8(size), 0) == |bs| then bs
    else FreeStep(AllocStep(bs, size), ptr)
  }

  ghost function Step(bs: seq<Block>, op: Op): seq<Block> {
    match op
    case Alloc(n) => AllocStep(bs, n)
    case Free(p) => FreeStep(bs, p)
    case Resize(p, n) => ResizeStep(bs, p, n)
    case Write(_, _, _) => bs
  }

  ghost function Run(bs: seq<Block>, ops: seq<Op>): seq<Block>
    decreases |ops|
  {
    if ops == [] then bs else Run(Step(bs, ops[0]), ops[1..])
  }

  ghost function Initial(lo: nat, hi: nat): seq<Block>
    requires lo + HDR <= hi
  {
    [Block(lo, hi - lo - HDR, true)]
  }

  lemma AllocStepKeeps(bs: seq<Block>, lo: nat, hi: nat, size: u32)
    requires WellFormed(bs, lo, hi)
    ensures WellFormed(AllocStep(bs, size), lo, hi)
  {
    var n := Round8(size);
    var k := FirstFit(bs, n, 0);
    if size != 0 && k < |bs| { CarveKeepsLayout(bs, lo, hi, k, n); }
  }

  /** An allocation leaves a live block live, at its size, and hands out another address. */
  lemma AllocKeepsFound(bs: seq<Block>, lo: nat, hi: nat, size: u32, ptr: nat)
    requires WellFormed(bs, lo, hi) && Find(bs, ptr) < |bs|
    ensures var cs := AllocStep(bs, size); Find(cs, ptr) < |cs| && cs[Find(cs, ptr)].size == bs[Find(bs, ptr)].size
    ensures var k := FirstFit(bs, Round8(size), 0); k < |bs| ==> bs[k].Payload() != ptr
    ensures Live(bs) <= Live(AllocStep(bs, size))
  {
    var k := FirstFit(bs, Round8(size), 0);
    var i := Find(bs, ptr);
    if k < |bs| {
      LiveAddressesDiffer(bs, lo, hi, i, k);
      CarveAddsLive(bs, k, Round8(size));
    }
    AllocStepKeeps(bs, lo, hi, size);
    FoundSize(bs, AllocStep(bs, size), lo, hi, ptr);
  }

  lemma FoundSize(bs: seq<Block>, cs: seq<Block>, lo: nat, hi: nat, ptr: nat)
    requires Find(bs, ptr) < |bs| && Live(bs) <= Live(cs) && Tiles(cs, lo, hi)
    ensures Find(cs, ptr) < |cs| && cs[Find(cs, ptr)].size == bs[Find(bs, ptr)].size
  {
    FindIsLive(bs, ptr);
    var j := LiveAt(cs, (ptr, bs[Find(bs, ptr)].size));
    FindUnique(cs, lo, hi, j);
  }

  lemma FreeStepKeeps(bs: seq<Block>, lo: nat, hi: nat, ptr: nat)
    requires WellFormed(bs, lo, hi)
    ensures WellFormed(FreeStep(bs, ptr), lo, hi)
    ensures Live(FreeStep(bs, ptr)) == set p | p in Live(bs) && p.0 != ptr
  {
    var k := Find(bs, ptr);
    if k < |bs| {
      ReleaseKeepsLayout(bs, lo, hi, k);
      ReleaseDropsLive(bs, lo, hi, k);
      forall p | p in Live(bs) && p.0 == ptr ensures p == (bs[k].Payload(), bs[k].size) {
        var j := LiveAt(bs, p);
        if j < k { Ordered(bs, lo, hi, j, k); } else if k < j { Ordered(bs, lo, hi, k, j); }
      }
    } else {
      forall p | p in Live(bs) ensures p.0 != ptr { var j := LiveAt(bs, p); }
    }
  }

  /** Freeing one pointer leaves every other live block found, at its size. */
  lemma FoundAfterFree(bs: seq<Block>, cs: seq<Block>, lo: nat, hi: nat, ptr: nat, p: nat)
    requires Tiles(cs, lo, hi) && Live(cs) == set q | q in Live(bs) && q.0 != ptr
    requires p != ptr && Find(bs, p) < |bs|
    ensures Find(cs, p) < |cs| && cs[Find(cs, p)].size == bs[Find(bs, p)].size
    ensures (p, bs[Find(bs, p)].size) in Live(cs)
  {
    FindIsLive(bs, p);
    var j := LiveAt(cs, (p, bs[Find(bs, p)].size));
    FindUnique(cs, lo, hi, j);
  }

  /** Every state any run reaches tiles the heap exactly, with 8-aligned headers and no two free neighbours. */
  lemma {:induction false} EveryRunKeepsLayout(bs: seq<Block>, lo: nat, hi: nat, ops: seq<Op>)
    requires WellFormed(bs, lo, hi)
    ensures WellFormed(Run(bs, ops), lo, hi)
    decreases |ops|
  {
    if ops != [] {
      match ops[0] {
        case Alloc(n) => AllocStepKeeps(bs, lo, hi, n);
        case Free(p) => FreeStepKeeps(bs, lo, hi, p);
        case Resize(p, n) => AllocStepKeeps(bs, lo, hi, n); FreeStepKeeps(AllocStep(bs, n), lo, hi, p);
        case Write(_, _, _) =>
      }
      EveryRunKeepsLayout(Step(bs, ops[0]), lo, hi, ops[1..]);
    }
  }

  /** The operation is about the block at `ptr`. */
  predicate Names(op: Op, ptr: nat) { !op.Alloc? && op.ptr == ptr }

  /** An operation on other blocks leaves a live block live, where it is and as large as it is. */
  lemma UnnamedStaysLive(bs: seq<Block>, lo: nat, hi: nat, op: Op, p: (nat, nat))
    requires WellFormed(bs, lo, hi) && p in Live(bs) && !Names(op, p.0)
    ensures p in Live(Step(bs, op))
  {
    hide WellFormed, Live, AllocStep, FreeStep;
    match op {
      case Alloc(n) => AllocKeepsLive(bs, n);
      case Free(q) => FreeStepKeeps(bs, lo, hi, q);
      case Resize(q, n) =>
        AllocStepKeeps(bs, lo, hi, n);
        AllocKeepsLive(bs, n);
        FreeStepKeeps(AllocStep(bs, n), lo, hi, q);
      case Write(_, _, _) =>
    }
  }

  lemma AllocKeepsLive(bs: seq<Block>, size: u32)
    ensures Live(bs) <= Live(AllocStep(bs, size))
  {
    var k := FirstFit(bs, Round8(size), 0);
    if size != 0 && k < |bs| { CarveAddsLive(bs, k, Round8(size)); }
  }

  /** An allocation that finds a block adds one live payload: as large as the request rounded, or the whole block
      where the rest is not worth a header. */
  lemma AllocAddsLive(bs: seq<Block>, size: u32)
    ensures var (k, cs, n) := (FirstFit(bs, Round8(size), 0), AllocStep(bs, size), Round8(size));
      size != 0 && k < |bs| ==>
        && k < |cs| && cs[k].size == (if bs[k].size > n + 24 then n else bs[k].size)
        && Live(cs) == Live(bs) + {(bs[k].Payload(), cs[k].size)}
  {
    var k := FirstFit(bs, Round8(size), 0);
    if size != 0 && k < |bs| { CarveAddsLive(bs, k, Round8(size)); }
  }

  /** A block that grows into another one: the new payload takes the place of the old. */
  lemma ResizeLive(bs: seq<Block>, lo: nat, hi: nat, ptr: nat, size: u32)
    requires WellFormed(bs, lo, hi) && Find(bs, ptr) < |bs| && bs[Find(bs, ptr)].size < size
    requires FirstFit(bs, Round8(size), 0) < |bs|
    ensures var (p, cs) := (bs[FirstFit(bs, Round8(size), 0)].Payload(), ResizeStep(bs, ptr, size));
      Find(cs, p) < |cs| && Live(cs) == (set q | q in Live(bs) && q.0 != ptr) + {(p, cs[Find(cs, p)].size)}
  {
    hide WellFormed, Live, AllocStep, FreeStep, FirstFit, Find;
    var p, k := bs[FirstFit(bs, Round8(size), 0)].Payload(), FirstFit(bs, Round8(size), 0);
    AllocStepKeeps(bs, lo, hi, size);
    AllocKeepsFound(bs, lo, hi, size, ptr);
    AllocAddsLive(bs, size);
    FreeStepKeeps(AllocStep(bs, size), lo, hi, ptr);
    SizeOfLive(ResizeStep(bs, ptr, size), lo, hi, (p, AllocStep(bs, size)[k].size));
  }

  lemma SizeOfLive(bs: seq<Block>, lo: nat, hi: nat, p: (nat, nat))
    requires WellFormed(bs, lo, hi) && p in Live(bs)
    ensures Find(bs, p.0) < |bs| && bs[Find(bs, p.0)].size == p.1
  {
    var i := LiveAt(bs, p);
    FindUnique(bs, lo, hi, i);
  }

  ghost function Frees(ptrs: seq<nat>): seq<Op> {
    seq(|ptrs|, i requires 0 <= i < |ptrs| => Free(ptrs[i]))
  }

  lemma RunFrees(bs: seq<Block>, ptrs: seq<nat>)
    ensures Run(bs, Frees(ptrs)) == if ptrs == [] then bs else Run(FreeStep(bs, ptrs[0]), Frees(ptrs[1..]))
  {
    if ptrs != [] { assert Frees(ptrs)[1..] == Frees(ptrs[1..]); }
  }

  lemma {:induction false} FreesDropLive(bs: seq<Block>, lo: nat, hi: nat, ptrs: seq<nat>)
    requires WellFormed(bs, lo, hi)
    ensures WellFormed(Run(bs, Frees(ptrs)), lo, hi)
    ensures Live(Run(bs, Frees(ptrs))) == set p | p in Live(bs) && p.0 !in ptrs
    decreases |ptrs|
  {
    hide WellFormed, Live, FreeStep, Run;
    RunFrees(bs, ptrs);
    if ptrs != [] {
      FreeStepKeeps(bs, lo, hi, ptrs[0]);
      FreesDropLive(FreeStep(bs, ptrs[0]), lo, hi, ptrs[1..]);
      assert forall x :: x in ptrs <==> x == ptrs[0] || x in ptrs[1..];
    }
  }

  /** Whatever a run left behind, freeing all live blocks in any order gives back the one initial free
      block; repeated pointers and pointers to no block among the freed ones make no difference. */
  lemma FreeingAllRestoresHeap(lo: nat, hi: nat, ops: seq<Op>, ptrs: seq<nat>)
    requires lo + HDR <= hi && lo % 8 == 0
    requires forall p :: p in Live(Run(Initial(lo, hi), ops)) ==> p.0 in ptrs
    ensures Run(Run(Initial(lo, hi), ops), Frees(ptrs)) == Initial(lo, hi)
  {
    var bs := Run(Initial(lo, hi), ops);
    EveryRunKeepsLayout(Initial(lo, hi), lo, hi, ops);
    FreesDropLive(bs, lo, hi, ptrs);
    LiveSetDeterminesHeap(Run(bs, Frees(ptrs)), Initial(lo, hi), lo, hi);
  }

  lemma NotLiveAtFree(bs: seq<Block>, lo: nat, hi: nat, k: nat, p: (nat, nat))
    requires Tiles(bs, lo, hi) && k < |bs| && bs[k].free && p in Live(bs)
    ensures p.0 != bs[k].Payload()
  {
    var j := LiveAt(bs, p);
    LiveAddressesDiffer(bs, lo, hi, j, k);
  }

  lemma DropAdded(live: set<(nat, nat)>, q: (nat, nat))
    requires forall p :: p in live ==> p.0 != q.0
    ensures (set p | p in live + {q} && p.0 != q.0) == live
  {
  }

  lemma FreeAfterAllocLive(bs: seq<Block>, lo: nat, hi: nat, size: u32, k: nat)
    requires WellFormed(bs, lo, hi) && size != 0 && k == FirstFit(bs, Round8(size), 0) < |bs|
    ensures Live(FreeStep(AllocStep(bs, size), bs[k].Payload())) == Live(bs)
  {
    var cs := AllocStep(bs, size);
    AllocStepKeeps(bs, lo, hi, size);
    CarveAddsLive(bs, k, Round8(size));
    FreeStepKeeps(cs, lo, hi, bs[k].Payload());
    forall p | p in Live(bs) ensures p.0 != bs[k].Payload() { NotLiveAtFree(bs, lo, hi, k, p); }
    DropAdded(Live(bs), (bs[k].Payload(), cs[k].size));
  }

  /** Freeing what was just allocated undoes the allocation completely. */
  lemma FreeUndoesAlloc(bs: seq<Block>, lo: nat, hi: nat, size: u32, k: nat)
    requires WellFormed(bs, lo, hi) && size != 0 && k == FirstFit(bs, Round8(size), 0) < |bs|
    ensures FreeStep(AllocStep(bs, size), bs[k].Payload()) == bs
  {
    AllocStepKeeps(bs, lo, hi, size);
    FreeStepKeeps(AllocStep(bs, size), lo, hi, bs[k].Payload());
    FreeAfterAllocLive(bs, lo, hi, size, k);
    LiveSetDeterminesHeap(FreeStep(AllocStep(bs, size), bs[k].Payload()), bs, lo, hi);
  }

  /** An allocation fails exactly when no free block holds the rounded request. */
  lemma AllocFailsOnlyWhenFull(bs: seq<Block>, size: u32)
    requires size != 0
    ensures FirstFit(bs, Round8(size), 0) == |bs|
       <==> forall i :: 0 <= i < |bs| ==> !(bs[i].free && bs[i].size >= Round8(size))
  {
    assert forall i :: 0 <= i < |bs| ==> (Fits(bs[i], Round8(size)) <==> bs[i].free && bs[i].size >= Round8(size));
  }

  /** On a heap nothing was taken from, a request succeeds exactly when its rounding leaves room for one header. */
  lemma FirstRequest(lo: nat, hi: nat, size: u32)
    requires lo + HDR <= hi && size != 0
    ensures FirstFit(Initial(lo, hi), Round8(size), 0) < |Initial(lo, hi)| <==> Round8(size) <= hi - lo - 16
    ensures AllocStep(Initial(lo, hi), size) != Initial(lo, hi) <==> Round8(size) <= hi - lo - 16
  {
    var bs := Initial(lo, hi);
    if FirstFit(bs, Round8(size), 0) == 0 {
      CarveAddsLive(bs, 0, Round8(size));
      assert !AllocStep(bs, size)[0].free;
    }
  }

  /** The block handed out holds the request exactly for requests up to 2^32 - 8. */
  lemma BlockHoldsRequest(bs: seq<Block>, size: u32, k: nat)
    requires size != 0 && k == FirstFit(bs, Round8(size), 0) < |bs|
    ensures k < |AllocStep(bs, size)|
    ensures AllocStep(bs, size)[k].size >= size <==> size <= TWO32 - 8
  {
    CarveAddsLive(bs, k, Round8(size));
    RoundingCoversRequest(size);
  }
}
