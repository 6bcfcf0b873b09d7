/** The ar parser of apps/deb_installer/deb_installer.c, and that it undoes any ar writer. */
module Ar {
  import opened Fields
  import opened Types

  datatype Member = Member(name: seq<u8>, offset: u32, size: u32)

  /** What ar_parse finds: members, no ar file at all, or a header offset past 32 bits, where it leaves the model. */
  datatype Listing = Members(ms: seq<Member>) | NotAr | Beyond(ms: seq<Member>)

  const MAGIC: seq<u8> := [33, 60, 97, 114, 99, 104, 62, 10]

  predicate EndsName(c: u8) { c == 0 || c == 47 || c == 32 }

  function NameRun(s: seq<u8>, i: nat, n: nat): (t: seq<u8>)
    requires i + n <= |s|
    ensures |t| <= n
    decreases n
  {
    if n == 0 || EndsName(s[i]) then [] else [s[i]] + NameRun(s, i + 1, n - 1)
  }

  /** The 16-byte name field up to a slash, space or zero; the member record keeps 15 bytes of it. */
  function ArName(s: seq<u8>, i: nat): seq<u8>
    requires i + 16 <= |s|
  {
    var t := NameRun(s, i, 16);
    if |t| > 15 then t[..15] else t
  }

  /** A size rounded up to an even number, in 32-bit arithmetic. */
  function Even(size: u32): (e: u32) { var n := (size + 1) % TWO32; n - n % 2 }

  predicate HasHeader(s: seq<u8>, off: nat) { off + 60 <= |s| && s[off + 58] == 96 && s[off + 59] == 10 }

  function ArMember(s: seq<u8>, off: u32): Member
    requires HasHeader(s, off) && |s| < TWO32
  {
    Member(ArName(s, off), off + 60, Number(s, off + 48, off + 58, 10) % TWO32)
  }

  function Next(m: Member): u32 { (m.offset + Even(m.size)) % TWO32 }

  function Front(ms: seq<Member>, l: Listing): Listing {
    match l
    case Members(rest) => Members(ms + rest)
    case Beyond(rest) => Beyond(ms + rest)
    case NotAr => NotAr
  }

  /** The members from `off` on, `room` of them at most. */
  function ArFrom(s: seq<u8>, off: u32, room: nat): Listing
    requires |s| < TWO32
    decreases room
  {
    if (off + 60) % TWO32 > |s| || room == 0 then Members([])
    else if off + 60 >= TWO32 then Beyond([])
    else if !HasHeader(s, off) then Members([])
    else Front([ArMember(s, off)], ArFrom(s, Next(ArMember(s, off)), room - 1))
  }

  function ArListing(s: seq<u8>, max: nat): Listing
    requires |s| < TWO32
  {
    if |s| < 8 || s[..8] != MAGIC then NotAr else ArFrom(s, 8, max)
  }

  lemma NameRunStep(s: seq<u8>, i: nat, n: nat)
    requires 0 < n && i + n <= |s| && !EndsName(s[i])
    ensures NameRun(s, i, n) == [s[i]] + NameRun(s, i + 1, n - 1)
  {
  }

  lemma NameRunEnds(s: seq<u8>, i: nat, n: nat)
    requires i + n <= |s| && (n == 0 || EndsName(s[i]))
    ensures NameRun(s, i, n) == []
  {
  }

  method ReadRun(s: seq<u8>, i: nat, n: nat) returns (t: seq<u8>)
    requires i + n <= |s|
    ensures t == NameRun(s, i, n)
  {
    hide EndsName, NameRun;
    t := [];
    assert [] + NameRun(s, i, n) == NameRun(s, i, n);
    while |t| < n && !EndsName(s[i + |t|])
      invariant |t| <= n && t + NameRun(s, i + |t|, n - |t|) == NameRun(s, i, n)
      decreases n - |t|
    {
      NameRunStep(s, i + |t|, n - |t|);
      Regrouped(t, [s[i + |t|]], NameRun(s, i + |t| + 1, n - |t| - 1));
      t := t + [s[i + |t|]];
    }
    NameRunEnds(s, i + |t|, n - |t|);
    assert t + [] == t;
  }

  method ReadName(s: seq<u8>, i: nat) returns (name: seq<u8>)
    requires i + 16 <= |s|
    ensures name == ArName(s, i)
  {
    hide NameRun;
    var nm := ReadRun(s, i, 16);
    name := if |nm| > 15 then nm[..15] else nm;
  }

  method ReadMember(s: seq<u8>, off: u32) returns (m: Member)
    requires |s| < TWO32 && HasHeader(s, off)
    ensures m == ArMember(s, off)
  {
    hide ArName, Number;
    var name := ReadName(s, off);
    var size := ReadNumber(s, off + 48, off + 58, 10);
    m := Member(name, off + 60, size);
  }

  /** ar_parse: -1 for a file that is not an ar archive, else the number of records written to `members`. */
  method ArParse(s: seq<u8>, members: array<Member>, max: nat) returns (count: int, outside: bool)
    requires |s| < TWO32 && max <= members.Length
    modifies members
    ensures -1 <= count <= max
    ensures count == -1 <==> |s| < 8 || s[..8] != [33, 60, 97, 114, 99, 104, 62, 10]
    ensures count == -1 <==> ArListing(s, max) == NotAr
    ensures count >= 0 ==> ArListing(s, max) == if outside then Beyond(members[..count]) else Members(members[..count])
    ensures forall i :: (if count > 0 then count else 0) <= i < members.Length ==> members[i] == old(members[i])
  {
    outside := false;
    if |s| < 8 || s[..8] != MAGIC { return -1, false; }
    count, outside := FillMembers(s, members, max);
  }

  method FillMembers(s: seq<u8>, members: array<Member>, max: nat) returns (count: nat, outside: bool)
    requires |s| < TWO32 && max <= members.Length
    modifies members
    ensures count <= max
    ensures ArFrom(s, 8, max) == if outside then Beyond(members[..count]) else Members(members[..count])
    ensures forall i :: count <= i < members.Length ==> members[i] == old(members[i])
  {
    hide HasHeader, ArMember, Next, ArFrom, Front;
    var off: u32 := 8;
    count, outside := 0, false;
    FrontNothing(ArFrom(s, 8, max));
    while (off + 60) % TWO32 <= |s| && count < max
      invariant count <= max && ArFrom(s, 8, max) == Front(members[..count], ArFrom(s, off, max - count))
      invariant forall i :: count <= i < members.Length ==> members[i] == old(members[i])
      decreases max - count
    {
      ArUnfold(s, off, max - count);
      FrontEmpty(members[..count]);
      if off + 60 >= TWO32 {
        outside := true;
        return;
      }
      if !HasHeader(s, off) { return; }
      var m := ReadMember(s, off);
      FrontOne(members[..count], m, ArFrom(s, Next(m), max - count - 1));
      ghost var before := members[..count];
      members[count] := m;
      assert members[..count + 1] == before + [m];
      count := count + 1;
      off := Next(m);
    }
    ArUnfold(s, off, max - count);
    FrontEmpty(members[..count]);
  }

  lemma ArUnfold(s: seq<u8>, off: u32, room: nat)
    requires |s| < TWO32
    ensures (off + 60) % TWO32 > |s| || room == 0 ==> ArFrom(s, off, room) == Members([])
    ensures (off + 60) % TWO32 <= |s| && room > 0 ==>
      ArFrom(s, off, room) == if off + 60 >= TWO32 then Beyond([])
                              else if !HasHeader(s, off) then Members([])
                              else Front([ArMember(s, off)], ArFrom(s, Next(ArMember(s, off)), room - 1))
  {
  }

  lemma FrontNothing(l: Listing)
    ensures Front([], l) == l
  {
  }

  lemma FrontEmpty(ms: seq<Member>)
    ensures Front(ms, Members([])) == Members(ms) && Front(ms, Beyond([])) == Beyond(ms)
  {
  }

  lemma FrontOne(ms: seq<Member>, m: Member, l: Listing)
    ensures Front(ms, Front([m], l)) == Front(ms + [m], l)
  {
    if !l.NotAr? { assert ms + ([m] + l.ms) == (ms + [m]) + l.ms; }
  }

  // ---- any ar writer -------------------------------------------------------------------------------------

  predicate NameBytes(t: seq<u8>) { forall i :: 0 <= i < |t| ==> !EndsName(t[i]) }

  /** A 16-byte field holding a name, ended by a slash, space or zero byte unless it is full. */
  predicate NameField(f: seq<u8>, t: seq<u8>) {
    |f| == 16 && |t| <= 16 && NameBytes(t) && f[..|t|] == t && (|t| < 16 ==> EndsName(f[|t|]))
  }

  lemma {:induction false} NameRunIs(s: seq<u8>, i: nat, n: nat, t: seq<u8>)
    requires i + n <= |s| && |t| <= n && s[i..i + |t|] == t && NameBytes(t) && (|t| < n ==> EndsName(s[i + |t|]))
    ensures NameRun(s, i, n) == t
    decreases n
  {
    if t != [] {
      assert s[i] == s[i..i + |t|][0] == t[0];
      SubSlice(s, i, i + |t|, 1, |t|);
      NameRunIs(s, i + 1, n - 1, t[1..]);
    }
  }

  /** The name comes out whole exactly when it has at most 15 bytes. */
  lemma NameRecovered(s: seq<u8>, i: nat, name: seq<u8>)
    requires i + 16 <= |s| && NameField(s[i..i + 16], name)
    ensures ArName(s, i) == name <==> |name| <= 15
  {
    hide NameRun, NameBytes, EndsName;
    SubSlice(s, i, i + 16, 0, |name|);
    if |name| < 16 { assert s[i + |name|] == s[i..i + 16][|name|]; }
    NameRunIs(s, i, 16, name);
    if |name| == 16 { assert |name[..15]| == 15; }
  }

  /** A name ends before a slash, a space or a zero byte, and 15 bytes of it are kept. */
  lemma ArNameIs(s: seq<u8>, i: nat, t: seq<u8>)
    requires i + 16 <= |s| && |t| <= 16 && s[i..i + |t|] == t && forall k :: 0 <= k < |t| ==> t[k] !in {0, 47, 32}
    requires |t| < 16 ==> s[i + |t|] in {0, 47, 32}
    ensures ArName(s, i) == if |t| > 15 then t[..15] else t
  {
    NameRunIs(s, i, 16, t);
  }

  /** A header stands where its two closing bytes do; its size field is the ten bytes from 48 on, in decimal, the
      content lies behind it, and the next header behind that, at an even distance. */
  lemma MemberFields(s: seq<u8>, off: u32)
    requires |s| < TWO32
    ensures HasHeader(s, off) <==> off + 60 <= |s| && s[off + 58] == 0x60 && s[off + 59] == 0x0A
    ensures HasHeader(s, off) ==> var m := ArMember(s, off);
      && m.name == ArName(s, off) && m.offset == off + 60 && m.size == Number(s, off + 48, off + 58, 10) % 0x1_0000_0000
      && Next(m) == (m.offset + (m.size + 1) % 0x1_0000_0000 / 2 * 2) % 0x1_0000_0000
  {
    hide ArName, Number;
  }

  datatype ArFile = ArFile(head: seq<u8>, name: seq<u8>, digits: seq<u8>, content: seq<u8>, pad: seq<u8>)

  predicate ArOk(f: ArFile) {
    && |f.head| == 60 && f.head[58] == 96 && f.head[59] == 10
    && NameField(f.head[0..16], f.name) && |f.name| <= 15
    && NumberField(f.head[48..58], f.digits, 10) && TextValue(f.digits, 10) == |f.content|
    && |f.pad| == |f.content| % 2
  }

  function ArBytes(f: ArFile): seq<u8> { f.head + f.content + f.pad }

  function ArArchive(fs: seq<ArFile>): seq<u8> {
    if fs == [] then [] else ArBytes(fs[0]) + ArArchive(fs[1..])
  }

  /** One record per file, in order, up to the room there is. */
  ghost predicate Lists(ms: seq<Member>, fs: seq<ArFile>, off: nat, room: nat)
    decreases |fs|
  {
    if fs == [] || room == 0 then ms == []
    else
      && ms != [] && ms[0].name == fs[0].name && ms[0].offset == off + 60 && ms[0].size == |fs[0].content|
      && Lists(ms[1..], fs[1..], off + |ArBytes(fs[0])|, room - 1)
  }

  lemma OneMember(s: seq<u8>, off: nat, f: ArFile)
    requires ArOk(f) && off + |ArBytes(f)| <= |s| && |s| + 60 < TWO32 && s[off..off + |ArBytes(f)|] == ArBytes(f)
    ensures HasHeader(s, off) && ArMember(s, off) == Member(f.name, off + 60, |f.content|)
    ensures Next(ArMember(s, off)) == off + |ArBytes(f)|
  {
    hide ArName, Number, NumberField, TextValue, NameField, ArMember, Next;
    var b := ArBytes(f);
    assert |b| == 60 + |f.content| + |f.pad|;
    forall i | 0 <= i < 60 ensures s[off + i] == f.head[i] { assert s[off + i] == s[off..off + |b|][i] == b[i]; }
    assert s[off..off + 16] == f.head[0..16];
    assert s[off + 48..off + 58] == f.head[48..58];
    NameRecovered(s, off, f.name);
    NumberOfField(s, off + 48, off + 58, f.digits, 10);
    MemberIs(s, off, f.name, |f.content|);
    NextMember(off, f.name, |f.content|);
  }

  lemma MemberIs(s: seq<u8>, off: u32, name: seq<u8>, size: u32)
    requires HasHeader(s, off) && |s| < TWO32 && ArName(s, off) == name && Number(s, off + 48, off + 58, 10) == size
    ensures ArMember(s, off) == Member(name, off + 60, size)
  {
    hide ArName, Number;
  }

  lemma NextMember(off: nat, name: seq<u8>, size: nat)
    requires off + 60 + size + size % 2 < TWO32
    ensures Next(Member(name, off + 60, size)) == off + 60 + size + size % 2
  {
  }

  lemma FirstMember(s: seq<u8>, off: nat, end: nat, fs: seq<ArFile>)
    requires fs != [] && off <= end <= |s| && s[off..end] == ArArchive(fs)
    ensures var next := off + |ArBytes(fs[0])|;
      next <= end && s[off..next] == ArBytes(fs[0]) && s[next..end] == ArArchive(fs[1..])
  {
    var b, rest := ArBytes(fs[0]), ArArchive(fs[1..]);
    assert s[off..end] == b + rest;
    hide ArArchive, ArBytes;
    assert s[off..off + |b|] == s[off..end][..|b|];
    assert s[off + |b|..end] == s[off..end][|b|..];
  }

  lemma {:induction false} MembersRoundTrip(s: seq<u8>, off: nat, fs: seq<ArFile>, end: nat, room: nat)
    requires (forall f :: f in fs ==> ArOk(f)) && |s| + 60 < TWO32
    requires off <= end <= |s| && s[off..end] == ArArchive(fs) && !HasHeader(s, end)
    ensures ArFrom(s, off, room).Members? && Lists(ArFrom(s, off, room).ms, fs, off, room)
    decreases |fs|
  {
    hide ArOk, ArBytes, ArMember, HasHeader, Next;
    if fs != [] && room > 0 {
      var f := fs[0];
      FirstMember(s, off, end, fs);
      OneMember(s, off, f);
      HeaderInside(s, off);
      var next := off + |ArBytes(f)|;
      MembersRoundTrip(s, next, fs[1..], end, room - 1);
      var rest := ArFrom(s, next, room - 1).ms;
      assert ([ArMember(s, off)] + rest)[1..] == rest;
    }
  }

  lemma HeaderInside(s: seq<u8>, off: nat)
    ensures HasHeader(s, off) ==> off + 60 <= |s|
  {
  }

  /** ar_parse undoes any ar writer: it lists the first `max` files with names, sizes and places, whatever
      follows the last file, as long as that is not a further header. */
  lemma ArRoundTrip(fs: seq<ArFile>, trailer: seq<u8>, max: nat)
    requires (forall f :: f in fs ==> ArOk(f)) && |MAGIC + ArArchive(fs) + trailer| + 60 < TWO32 && !HasHeader(trailer, 0)
    ensures var s := MAGIC + ArArchive(fs) + trailer;
      var l := ArListing(s, max);
      && l.Members? && Lists(l.ms, fs, 8, max) && |l.ms| == (if |fs| < max then |fs| else max)
      && forall i :: 0 <= i < |l.ms| ==>
        var m, f := l.ms[i], fs[i];
        && m.name == f.name && m.size == |f.content| && m.offset + m.size <= |s|
        && s[m.offset..m.offset + m.size] == f.content
  {
    hide ArOk, ArArchive, ArFrom, Lists;
    var s := MAGIC + ArArchive(fs) + trailer;
    var end := 8 + |ArArchive(fs)|;
    assert s[..8] == MAGIC;
    assert s[8..end] == ArArchive(fs);
    assert s[end..] == trailer;
    MembersRoundTrip(s, 8, fs, end, max);
    var ms := ArListing(s, max).ms;
    ListedLength(ms, fs, 8, max);
    forall i | 0 <= i < |ms|
      ensures var m, f := ms[i], fs[i];
        && m.name == f.name && m.size == |f.content| && m.offset + m.size <= |s|
        && s[m.offset..m.offset + m.size] == f.content
    {
      ListedContents(s, ms, fs, 8, end, max, i);
    }
  }

  lemma {:induction false} ListedLength(ms: seq<Member>, fs: seq<ArFile>, off: nat, room: nat)
    requires Lists(ms, fs, off, room)
    ensures |ms| == if |fs| < room then |fs| else room
    decreases |fs|
  {
    if fs != [] && room > 0 { ListedLength(ms[1..], fs[1..], off + |ArBytes(fs[0])|, room - 1); }
  }

  /** The content of a file stands where its record says. */
  lemma {:induction false} ListedContents(s: seq<u8>, ms: seq<Member>, fs: seq<ArFile>, off: nat, end: nat,
                                             room: nat, i: nat)
    requires Lists(ms, fs, off, room) && off <= end <= |s| && s[off..end] == ArArchive(fs)
    requires (forall f :: f in fs ==> ArOk(f)) && i < |ms| && i < |fs|
    ensures var (m, f) := (ms[i], fs[i]);
      && m.name == f.name && m.size == |f.content| && m.offset + m.size <= |s|
      && s[m.offset..m.offset + m.size] == f.content
    decreases |fs|
  {
    hide ArArchive;
    FirstMember(s, off, end, fs);
    var f, next := fs[0], off + |ArBytes(fs[0])|;
    assert f in fs && |f.head| == 60;
    if i > 0 {
      ListedContents(s, ms[1..], fs[1..], next, end, room - 1, i - 1);
    } else {
      SubSlice(s, off, next, 60, 60 + |f.content|);
      assert ArBytes(f)[60..60 + |f.content|] == f.content;
    }
  }
}
