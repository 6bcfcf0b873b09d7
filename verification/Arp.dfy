/** The ARP cache of drivers/net/net.c: sixteen entries, the oldest replaced when all are taken. */
module Arp {
  import opened Types

  const ARP_CACHE: nat := 16

  datatype Slot = Slot(ip: u32, mac: seq<u8>, ts: u32, valid: bool)

  /** Used slots come first, and no two of them are for the same address. */
  ghost predicate Compact(s: seq<Slot>) {
    && (forall i, j :: 0 <= i < j < |s| && s[j].valid ==> s[i].valid)
    && (forall i, j :: 0 <= i < j < |s| && s[j].valid ==> s[i].ip != s[j].ip)
  }

  /** The slot arp_resolve answers from: the first valid one of that address; |s| when there is none. */
  function Lookup(s: seq<Slot>, ip: u32): (k: nat)
    ensures k <= |s| && (k < |s| ==> s[k].valid && s[k].ip == ip)
    ensures forall i :: 0 <= i < k ==> !(s[i].valid && s[i].ip == ip)
  {
    if s == [] || (s[0].valid && s[0].ip == ip) then 0 else 1 + Lookup(s[1..], ip)
  }

  class Cache {
    const slots: array<Slot>

    ghost predicate Valid()
      reads slots
    {
      slots.Length == ARP_CACHE && Compact(slots[..])
    }

    constructor ()
      ensures Valid() && slots.Length == 16 && forall i :: 0 <= i < 16 ==> !slots[i].valid
    {
      slots := new Slot[ARP_CACHE](_ => Slot(0, [], 0, false));
    }

    /** The lookup of arp_resolve. */
    method Resolve(ip: u32) returns (r: Option<seq<u8>>)
      requires Valid()
      ensures var k := Lookup(slots[..], ip); r == if k < ARP_CACHE then Some(slots[k].mac) else None
    {
      var i: nat := 0;
      while i < ARP_CACHE
        invariant i <= ARP_CACHE && forall j :: 0 <= j < i ==> !(slots[j].valid && slots[j].ip == ip)
      {
        if slots[i].valid && slots[i].ip == ip { return Some(slots[i].mac); }
        i := i + 1;
      }
      return None;
    }

    /** arp_cache_put at time `now`. The address answers with its new hardware address from now on; of the
        others none changes, except that a full cache gives up its oldest entry. */
    method Put(ip: u32, mac: seq<u8>, now: u32) returns (k: nat)
      requires Valid()
      modifies slots
      ensures Valid() && k < ARP_CACHE
      ensures slots[..] == old(slots[..])[k := Slot(ip, mac, now, true)]
      ensures old(slots[k].valid && slots[k].ip != ip) ==>
        forall i :: 0 <= i < ARP_CACHE ==> old(slots[i].valid && slots[i].ip != ip && slots[k].ts <= slots[i].ts)
    {
      var oldest: nat := 0;
      var i: nat := 0;
      while i < ARP_CACHE
        invariant i <= ARP_CACHE && oldest < ARP_CACHE && (i == 0 ==> oldest == 0) && (i > 0 ==> oldest < i)
        invariant forall j :: 0 <= j < i ==> slots[j].valid && slots[j].ip != ip && slots[oldest].ts <= slots[j].ts
      {
        if !slots[i].valid || slots[i].ip == ip {
          oldest := i;
          break;
        }
        if slots[i].ts < slots[oldest].ts { oldest := i; }
        i := i + 1;
      }
      slots[oldest] := Slot(ip, mac, now, true);
      k := oldest;
    }
  }

  /** After a put the address is found with its new hardware address, and every other address that was not
      in the replaced slot is found as before. */
  lemma PutThenLookup(s: seq<Slot>, k: nat, ip: u32, mac: seq<u8>, now: u32, other: u32)
    requires Compact(s) && k < |s| && Compact(s[k := Slot(ip, mac, now, true)])
    ensures var t := s[k := Slot(ip, mac, now, true)];
      && Lookup(t, ip) == k
      && (other != ip && !(s[k].valid && s[k].ip == other) ==> Lookup(t, other) == Lookup(s, other))
  {
    var t := s[k := Slot(ip, mac, now, true)];
    var l := Lookup(t, ip);
    assert t[k].valid && t[k].ip == ip;
    assert l <= k;
    if other != ip && !(s[k].valid && s[k].ip == other) {
      var a, b := Lookup(s, other), Lookup(t, other);
      if a < |s| { assert a != k && t[a] == s[a]; }
      if b < |t| { assert b != k && t[b] == s[b]; }
    }
  }
}
