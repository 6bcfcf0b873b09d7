/** The capacities the growth loop of vfs_write goes through, and when it ends. */
module Growth {
  import opened Arithmetic
  import opened Types

  const MAX_DATA: nat := 1024 * 1024

  function Doubled(cap: nat): nat { if 2 * cap > MAX_DATA then MAX_DATA else 2 * cap }

  /** The capacity after `k` granted rounds of the growth loop. */
  ghost function CapAfter(cap: nat, k: nat): nat {
    if k == 0 then cap else Doubled(CapAfter(cap, k - 1))
  }

  lemma CapSteps(cap: nat, k: nat)
    ensures CapAfter(cap, 0) == cap && CapAfter(cap, k + 1) == Doubled(CapAfter(cap, k))
  {
  }

  lemma {:induction false} CapBounds(cap: nat, k: nat)
    requires cap <= MAX_DATA
    ensures CapAfter(cap, k) <= MAX_DATA && (cap == 0 <==> CapAfter(cap, k) == 0)
    ensures 0 < cap ==> CapAfter(cap, k) == MAX_DATA || CapAfter(cap, k) >= cap + k
  {
    if k > 0 { CapBounds(cap, k - 1); }
  }

  /** From the first buffer of 4096 bytes on the capacity doubles each round, and is a megabyte after eight. */
  lemma {:induction false} CapDoubles(k: nat)
    ensures CapAfter(4096, k) == if k >= 8 then 0x10_0000 else 4096 * Pow(2, k)
  {
    CapSteps(4096, 0);
    if k > 0 {
      CapSteps(4096, k - 1);
      CapDoubles(k - 1);
      Powers();
    }
  }

  lemma Powers()
    ensures Pow(2, 0) == 1 && Pow(2, 1) == 2 && Pow(2, 2) == 4 && Pow(2, 3) == 8 && Pow(2, 4) == 16 && Pow(2, 5) == 32
    ensures Pow(2, 6) == 64 && Pow(2, 7) == 128 && Pow(2, 8) == 256
  {
    assert Pow(2, 4) == 2 * Pow(2, 3);
  }

  lemma {:induction false} CapShift(cap: nat, j: nat)
    ensures CapAfter(cap, j + 1) == CapAfter(Doubled(cap), j)
  {
    CapSteps(cap, j);
    if j > 0 { CapShift(cap, j - 1); }
  }

  /** Some request of the allocator, number `asked` or a later one, is refused. */
  ghost predicate Refuses(asked: nat, grants: nat -> bool) { exists t :: asked <= t && !grants(t) }

  /** The loop of vfs_write ends: there will be room, the node is a directory, or some request to come is refused. */
  ghost predicate GrowthEnds(cap: nat, need: nat, asked: nat, grants: nat -> bool) {
    need <= MAX_DATA || cap == 0 || Refuses(asked, grants)
  }

  /** The round before number `j` is granted, and it is needed. */
  ghost predicate Passes(cap: nat, need: nat, asked: nat, grants: nat -> bool, j: nat) {
    CapAfter(cap, j) < need && grants(asked + j)
  }

  /** After `rounds` granted rounds, and not before, the loop finds room or a request that is not granted. */
  ghost predicate StopsAfter(cap: nat, need: nat, asked: nat, grants: nat -> bool, rounds: nat) {
    && (forall j :: 0 <= j < rounds ==> Passes(cap, need, asked, grants, j))
    && (CapAfter(cap, rounds) >= need || cap == 0 || !grants(asked + rounds))
  }

  ghost function FirstRefused(asked: nat, grants: nat -> bool): (t: nat)
    requires Refuses(asked, grants)
    ensures asked <= t && !grants(t) && forall j :: asked <= j < t ==> grants(j)
  {
    var bound :| asked <= bound && !grants(bound);
    FirstRefusedBelow(asked, bound, grants)
  }

  ghost function FirstRefusedBelow(asked: nat, bound: nat, grants: nat -> bool): (t: nat)
    requires asked <= bound && !grants(bound)
    ensures asked <= t <= bound && !grants(t) && forall j :: asked <= j < t ==> grants(j)
    decreases bound - asked
  {
    if !grants(asked) then asked else FirstRefusedBelow(asked + 1, bound, grants)
  }

  lemma StopsHere(cap: nat, need: nat, asked: nat, grants: nat -> bool, rounds: nat)
    requires forall j :: 0 <= j < rounds ==> Passes(cap, need, asked, grants, j)
    ensures (CapAfter(cap, rounds) >= need || cap == 0 || !grants(asked + rounds))
       <==> StopsAfter(cap, need, asked, grants, rounds)
    ensures Passes(cap, need, asked, grants, rounds) <==> CapAfter(cap, rounds) < need && grants(asked + rounds)
  {
  }

  /** A bound on the rounds to come. */
  ghost function GrowthLeft(cap: nat, need: nat, asked: nat, grants: nat -> bool): nat
    requires GrowthEnds(cap, need, asked, grants)
  {
    if need <= MAX_DATA then (if cap < MAX_DATA then MAX_DATA - cap else 0)
    else if cap == 0 then 0
    else FirstRefused(asked, grants) - asked
  }

  /** A granted round leaves fewer to come. */
  lemma GrowthShrinks(cap: nat, need: nat, asked: nat, grants: nat -> bool)
    requires GrowthEnds(cap, need, asked, grants) && cap < need && 0 < cap <= MAX_DATA && grants(asked)
    ensures GrowthEnds(Doubled(cap), need, asked + 1, grants)
    ensures GrowthLeft(Doubled(cap), need, asked + 1, grants) < GrowthLeft(cap, need, asked, grants)
  {
    if need > MAX_DATA {
      var t := FirstRefused(asked, grants);
      assert asked + 1 <= t && !grants(t);
      var u := FirstRefused(asked + 1, grants);
    }
  }

  lemma {:induction false} GrowthStops(cap: nat, need: nat, asked: nat, grants: nat -> bool) returns (r: nat)
    requires 0 < cap <= MAX_DATA && GrowthEnds(cap, need, asked, grants)
    ensures StopsAfter(cap, need, asked, grants, r)
    decreases GrowthLeft(cap, need, asked, grants)
  {
    hide GrowthEnds, GrowthLeft, CapAfter;
    CapSteps(cap, 0);
    r := 0;
    if cap < need && grants(asked) {
      GrowthShrinks(cap, need, asked, grants);
      var k := GrowthStops(Doubled(cap), need, asked + 1, grants);
      r := k + 1;
      StopsEarlier(cap, need, asked, grants, k);
    }
  }

  /** A loop that runs one round and then stops after `k` more stops after k + 1. */
  lemma StopsEarlier(cap: nat, need: nat, asked: nat, grants: nat -> bool, k: nat)
    requires 0 < cap < need && grants(asked) && StopsAfter(Doubled(cap), need, asked + 1, grants, k)
    ensures StopsAfter(cap, need, asked, grants, k + 1)
  {
    hide CapAfter;
    CapSteps(cap, 0);
    CapShift(cap, k);
    assert asked + 1 + k == asked + (k + 1);
    forall j | 0 <= j < k + 1 ensures Passes(cap, need, asked, grants, j) {
      if j > 0 {
        CapShift(cap, j - 1);
        assert Passes(Doubled(cap), need, asked + 1, grants, j - 1);
        assert asked + 1 + (j - 1) == asked + j;
      }
    }
  }

  /** The end of a write as the loop's test computes it. */
  function Need(pos: u32, len: u32): u32 { (pos + len) % TWO32 }

  /** The loop of vfs_write, whose test adds in 32 bits, ends exactly when the wrapped sum is at most MAX_DATA or
      some request to come is refused; with every request granted, only the sum counts. */
  lemma GrowthEndsIff(cap: nat, pos: u32, len: u32, asked: nat, grants: nat -> bool)
    requires 0 < cap <= MAX_DATA
    ensures (exists r: nat :: StopsAfter(cap, Need(pos, len), asked, grants, r))
       <==> (pos + len) % 0x1_0000_0000 <= 0x10_0000 || exists t :: asked <= t && !grants(t)
  {
    hide CapAfter, GrowthLeft;
    var need := Need(pos, len);
    if need <= MAX_DATA || Refuses(asked, grants) {
      var r := GrowthStops(cap, need, asked, grants);
    }
    if r: nat :| StopsAfter(cap, need, asked, grants, r) {
      CapBounds(cap, r);
      if need > MAX_DATA { assert asked <= asked + r && !grants(asked + r); }
    }
  }

  /** When the loop has found room although position and length reach past the buffer, their sum has wrapped:
      exactly then the copy behind the loop leaves the buffer. */
  lemma PastBuffer(cap: nat, pos: u32, len: u32)
    requires cap <= MAX_DATA && Need(pos, len) <= cap
    ensures pos + len > cap <==> pos + len >= TWO32
  {
  }
}
