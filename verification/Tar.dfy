/** The tar walk of apps/deb_installer/deb_installer.c: when it ends, and that it undoes any ustar writer. */
module Tar {
  import opened Fields
  import opened Types

  datatype Entry = Entry(path: seq<u8>, size: u32, kind: u8, data: nat)

  /** How a walk ends: at the end of the archive, by the caller's wish, or by leaving what is modelled: a name
      without a terminator or too long for the path buffer, or a header test that wraps past 32 bits. `Running`: it
      has not ended yet. */
  datatype End = Finished | Refused | LeftModel | Running

  datatype Walk = Walk(entries: seq<Entry>, end: End)

  /** The path of the header at `off`; nothing if it would leave the archive or the 512-byte buffer. */
  function TarPath(tar: seq<u8>, off: nat): Option<seq<u8>>
    requires off + 512 <= |tar|
  {
    if tar[off + 345] == 0 then Some(Text(tar, off, 99))
    else
      var name := Text(tar, off, |tar| - off);
      var path := Text(tar, off + 345, 154) + [47] + name;
      if off + |name| == |tar| || |path| > 511 then None
      else Some(if |path| > 510 then path[..510] else path)
  }

  /** The path in the bytes of the header: without a prefix the name, up to 99 bytes; otherwise up to 154 bytes of prefix, a
      slash, and the bytes from the name on up to the next zero byte, 510 of it all. */
  lemma PathBytes(tar: seq<u8>, off: nat)
    requires off + 512 <= |tar|
    ensures tar[off + 345] == 0 ==> TarPath(tar, off) == Some(Text(tar, off, 99))
    ensures tar[off + 345] != 0 ==>
      var name := Text(tar, off, |tar| - off);
      var path := Text(tar, off + 345, 154) + [47] + name;
      && (TarPath(tar, off) == None <==> off + |name| == |tar| || |path| > 511)
      && (TarPath(tar, off).Some? ==> TarPath(tar, off).value == if |path| > 510 then path[..510] else path)
  {
  }

  /** A size rounded up to 512-byte blocks, in 32-bit arithmetic. */
  function Padded(size: u32): (p: u32) { (size + 511) % TWO32 / 512 * 512 }

  function TarEntry(tar: seq<u8>, off: nat, path: seq<u8>): Entry
    requires off + 512 <= |tar|
  {
    Entry(path, Number(tar, off + 124, off + 136, 8) % TWO32, if tar[off + 156] == 0 then 48 else tar[off + 156], off + 512)
  }

  /** What one turn of the loop does: the walk halts, after the callback's last call if there was one, or the
      offset moves on, in 32 bits. */
  datatype Turn = Halt(calls: seq<Entry>, end: End) | Go(entry: Entry, off: u32)

  function NextOffset(off: u32, size: u32): u32 { (off + 512 + Padded(size)) % TWO32 }

  function TarStep(tar: seq<u8>, off: u32, accepts: Entry -> bool): Turn {
    if (off + 512) % TWO32 > |tar| then Halt([], Finished)
    else if off + 512 > |tar| then Halt([], LeftModel)
    else if tar[off] == 0 then Halt([], Finished)
    else
      match TarPath(tar, off)
      case None => Halt([], LeftModel)
      case Some(path) =>
        var e := TarEntry(tar, off, path);
        if !accepts(e) then Halt([e], Refused) else Go(e, NextOffset(off, e.size))
  }

  /** The first `n` turns from the header at `off` on. */
  function TarRun(tar: seq<u8>, off: u32, accepts: Entry -> bool, n: nat): Walk
    decreases n
  {
    if n == 0 then Walk([], Running)
    else
      match TarStep(tar, off, accepts)
      case Halt(calls, end) => Walk(calls, end)
      case Go(e, next) => After([e], TarRun(tar, next, accepts, n - 1))
  }

  /** The walk has not ended within `n` turns. */
  ghost predicate RunsFor(tar: seq<u8>, off: u32, accepts: Entry -> bool, n: nat) {
    TarRun(tar, off, accepts, n).end == Running
  }

  /** The header visited in turn number `k`; nothing when the walk ended before. */
  function Visited(tar: seq<u8>, off: u32, accepts: Entry -> bool, k: nat): Option<u32>
    decreases k
  {
    if k == 0 then Some(off)
    else
      match TarStep(tar, off, accepts)
      case Halt(_, _) => None
      case Go(_, next) => Visited(tar, next, accepts, k - 1)
  }

  function After(calls: seq<Entry>, w: Walk): Walk { Walk(calls + w.entries, w.end) }

  lemma StepNeverRuns(tar: seq<u8>, off: u32, accepts: Entry -> bool)
    ensures var t := TarStep(tar, off, accepts);
      (t.Halt? ==> t.end != Running) && (t.Go? ==> off + 512 <= |tar| && t.off == NextOffset(off, t.entry.size))
  {
  }

  lemma {:induction false} RunningIffVisited(tar: seq<u8>, off: u32, accepts: Entry -> bool, n: nat)
    ensures TarRun(tar, off, accepts, n).end == Running <==> Visited(tar, off, accepts, n).Some?
    decreases n
  {
    hide TarStep;
    if n > 0 {
      StepNeverRuns(tar, off, accepts);
      match TarStep(tar, off, accepts) {
        case Halt(_, _) =>
        case Go(_, next) => RunningIffVisited(tar, next, accepts, n - 1);
      }
    }
  }

  /** Visiting j and then k headers more is visiting j + k. */
  lemma {:induction false} VisitedAdd(tar: seq<u8>, off: u32, accepts: Entry -> bool, j: nat, k: nat)
    requires Visited(tar, off, accepts, j).Some?
    ensures Visited(tar, off, accepts, j + k) == Visited(tar, Visited(tar, off, accepts, j).value, accepts, k)
    decreases j
  {
    hide TarStep;
    if j > 0 {
      VisitedAdd(tar, TarStep(tar, off, accepts).off, accepts, j - 1, k);
    }
  }

  lemma {:induction false} VisitedPrefix(tar: seq<u8>, off: u32, accepts: Entry -> bool, j: nat, k: nat)
    requires j <= k && Visited(tar, off, accepts, k).Some?
    ensures Visited(tar, off, accepts, j).Some?
    ensures j < k ==> Visited(tar, off, accepts, j).value + 512 <= |tar|
    decreases k
  {
    hide TarStep;
    StepNeverRuns(tar, off, accepts);
    if j > 0 { VisitedPrefix(tar, TarStep(tar, off, accepts).off, accepts, j - 1, k - 1); }
  }

  /** Turn `k` visits the header of the earlier turn `j` again. */
  ghost predicate Returns(tar: seq<u8>, off: u32, accepts: Entry -> bool, j: nat, k: nat) {
    j < k && Visited(tar, off, accepts, k).Some? && Visited(tar, off, accepts, j) == Visited(tar, off, accepts, k)
  }

  lemma {:induction false} ReturningGoesOn(tar: seq<u8>, off: u32, accepts: Entry -> bool, j: nat, k: nat, n: nat)
    requires Returns(tar, off, accepts, j, k)
    ensures Visited(tar, off, accepts, n).Some?
    decreases n
  {
    hide Visited;
    if n <= k {
      VisitedPrefix(tar, off, accepts, n, k);
    } else {
      VisitedPrefix(tar, off, accepts, j, k);
      VisitedAdd(tar, off, accepts, k, n - k);
      VisitedAdd(tar, off, accepts, j, n - k);
      ReturningGoesOn(tar, off, accepts, j, k, j + (n - k));
    }
  }

  /** Among more numbers below m than there are, two are equal. */
  lemma {:induction false} Pigeonhole(s: seq<nat>, m: nat) returns (i: nat, j: nat)
    requires |s| > m && forall x :: x in s ==> x < m
    ensures i < j < |s| && s[i] == s[j]
    decreases m
  {
    var last := |s| - 1;
    if k :| 0 <= k < last && s[k] == s[last] {
      return k, last;
    }
    var t := seq(last, x requires 0 <= x < last => if s[x] == m - 1 then s[last] else s[x]);
    assert s[last] in s;
    forall x | x in t ensures x < m - 1 {
      var y :| 0 <= y < last && t[y] == x;
      assert s[y] in s && s[last] < m;
    }
    i, j := Pigeonhole(t, m - 1);
  }

  /** A walk that is still running after more turns than the archive has bytes has returned to a header. */
  lemma LongRunReturns(tar: seq<u8>, off: u32, accepts: Entry -> bool) returns (j: nat, k: nat)
    requires Visited(tar, off, accepts, |tar| + 1).Some?
    ensures Returns(tar, off, accepts, j, k)
  {
    hide Visited;
    forall i | 0 <= i <= |tar| ensures Visited(tar, off, accepts, i).Some? && Visited(tar, off, accepts, i).value < |tar| {
      VisitedPrefix(tar, off, accepts, i, |tar| + 1);
    }
    var s := seq(|tar| + 1, i requires 0 <= i < |tar| + 1 => Visited(tar, off, accepts, i).value);
    j, k := Pigeonhole(s, |tar|);
    assert Visited(tar, off, accepts, j) == Some(s[j]) && Visited(tar, off, accepts, k) == Some(s[k]);
  }

  /** tar_walk never ends exactly when a header it has visited comes back; the sizes in the headers alone, in
      32-bit arithmetic, decide that, the callback having accepted them. */
  lemma NeverEndsIffHeaderReturns(tar: seq<u8>, off: u32, accepts: Entry -> bool)
    ensures (forall n: nat :: RunsFor(tar, off, accepts, n))
       <==> exists j: nat, k: nat :: Returns(tar, off, accepts, j, k)
  {
    hide TarRun, Visited, Returns;
    if j: nat, k: nat :| Returns(tar, off, accepts, j, k) {
      forall n: nat ensures RunsFor(tar, off, accepts, n) {
        ReturningGoesOn(tar, off, accepts, j, k, n);
        RunningIffVisited(tar, off, accepts, n);
      }
    } else {
      assert !RunsFor(tar, off, accepts, |tar| + 1) by { NeverWithoutReturn(tar, off, accepts); }
    }
  }

  lemma NeverWithoutReturn(tar: seq<u8>, off: u32, accepts: Entry -> bool)
    requires !exists j: nat, k: nat :: Returns(tar, off, accepts, j, k)
    ensures !RunsFor(tar, off, accepts, |tar| + 1)
  {
    hide TarRun, Visited, Returns;
    if RunsFor(tar, off, accepts, |tar| + 1) {
      RunningIffVisited(tar, off, accepts, |tar| + 1);
      var j, k := LongRunReturns(tar, off, accepts);
      assert false;
    }
  }

  /** It ends within as many turns as the archive has bytes, or never. */
  lemma EndsSoonOrNever(tar: seq<u8>, off: u32, accepts: Entry -> bool, n: nat)
    requires RunsFor(tar, off, accepts, |tar| + 1)
    ensures RunsFor(tar, off, accepts, n)
  {
    hide TarRun, Visited, Returns;
    RunningIffVisited(tar, off, accepts, |tar| + 1);
    var j, k := LongRunReturns(tar, off, accepts);
    ReturningGoesOn(tar, off, accepts, j, k, n);
    RunningIffVisited(tar, off, accepts, n);
  }

  /** No header the walk visits has a size that carries the offset past 32 bits. */
  ghost predicate NoCarry(tar: seq<u8>, off: u32, accepts: Entry -> bool) {
    forall k: nat :: Visited(tar, off, accepts, k).Some? ==> StepsForward(tar, Visited(tar, off, accepts, k).value, accepts)
  }

  predicate StepsForward(tar: seq<u8>, off: u32, accepts: Entry -> bool) {
    var t := TarStep(tar, off, accepts);
    t.Go? ==> off + 512 + Padded(t.entry.size) < TWO32
  }

  lemma {:induction false} OffsetsRise(tar: seq<u8>, off: u32, accepts: Entry -> bool, k: nat)
    requires NoCarry(tar, off, accepts) && Visited(tar, off, accepts, k).Some?
    ensures Visited(tar, off, accepts, k).value >= off + 512 * k
  {
    hide TarStep, Visited, Padded;
    if k == 0 {
      VisitedStart(tar, off, accepts);
    } else {
      VisitedPrefix(tar, off, accepts, k - 1, k);
      OffsetsRise(tar, off, accepts, k - 1);
      VisitedAdd(tar, off, accepts, k - 1, 1);
      var o := Visited(tar, off, accepts, k - 1).value;
      StepNeverRuns(tar, o, accepts);
      VisitedStart(tar, o, accepts);
      assert StepsForward(tar, o, accepts);
    }
  }

  lemma VisitedStart(tar: seq<u8>, off: u32, accepts: Entry -> bool)
    ensures Visited(tar, off, accepts, 0) == Some(off)
    ensures Visited(tar, off, accepts, 1) == match TarStep(tar, off, accepts)
      case Halt(_, _) => None
      case Go(_, next) => Some(next)
  {
    hide TarStep;
    if TarStep(tar, off, accepts).Go? {
      assert Visited(tar, TarStep(tar, off, accepts).off, accepts, 0) == Some(TarStep(tar, off, accepts).off);
    }
  }

  /** Sizes that never carry the offset past 32 bits make the walk end. */
  lemma EndsWithoutCarry(tar: seq<u8>, off: u32, accepts: Entry -> bool)
    requires NoCarry(tar, off, accepts)
    ensures !RunsFor(tar, off, accepts, |tar| + 1)
  {
    hide TarRun, Visited, NoCarry;
    RunningIffVisited(tar, off, accepts, |tar| + 1);
    if Visited(tar, off, accepts, |tar| + 1).Some? {
      VisitedPrefix(tar, off, accepts, |tar|, |tar| + 1);
      OffsetsRise(tar, off, accepts, |tar|);
      assert false;
    }
  }

  /** A header returns to itself at once exactly for these sizes. */
  lemma StandsStillIff(tar: seq<u8>, off: u32, accepts: Entry -> bool)
    requires TarStep(tar, off, accepts).Go?
    ensures var t := TarStep(tar, off, accepts); t.off == off <==> 0xFFFF_FC01 <= t.entry.size <= 0xFFFF_FE00
  {
    hide TarStep;
    StepNeverRuns(tar, off, accepts);
    var p := Padded(TarStep(tar, off, accepts).entry.size);
    assert p <= 0xFFFF_FE00;
    assert (off + 512 + p) % TWO32 == off <==> p == 0xFFFF_FE00;
  }

  method ReadPath(tar: seq<u8>, off: nat) returns (path: Option<seq<u8>>)
    requires off + 512 <= |tar|
    ensures path == TarPath(tar, off)
  {
    hide Text;
    if tar[off + 345] != 0 {
      var prefix := ReadText(tar, off + 345, 154);
      var name := ReadText(tar, off, |tar| - off);
      if off + |name| == |tar| || |prefix + [47] + name| > 511 { return None; }
      var p := prefix + [47] + name;
      path := Some(if |p| > 510 then p[..510] else p);
    } else {
      var name := ReadText(tar, off, 99);
      path := Some(name);
    }
  }

  /** tar_walk, called when it ends; `accepts` is the callback, and the entries are its calls in order. */
  method TarWalk(tar: seq<u8>, accepts: Entry -> bool) returns (w: Walk)
    requires |tar| < TWO32 && !RunsFor(tar, 0, accepts, |tar| + 1)
    ensures w == TarRun(tar, 0, accepts, |tar| + 1)
  {
    hide TarStep, TarRun, After;
    var off: u32 := 0;
    var calls: seq<Entry> := [];
    ghost var n: nat := |tar| + 1;
    ghost var goal := TarRun(tar, 0, accepts, n);
    AfterNothing(goal);
    while true
      invariant goal == After(calls, TarRun(tar, off, accepts, n)) && goal.end != Running
      decreases n
    {
      RunUnfolds(tar, off, accepts, n, calls);
      var t := ReadHeader(tar, off, accepts);
      if t.Halt? { return Walk(calls + t.calls, t.end); }
      calls := calls + [t.entry];
      off := t.off;
      n := n - 1;
    }
  }

  /** One turn of tar_walk's loop. */
  method ReadHeader(tar: seq<u8>, off: u32, accepts: Entry -> bool) returns (t: Turn)
    requires |tar| < TWO32
    ensures t == TarStep(tar, off, accepts)
  {
    hide TarPath, TarEntry;
    if (off + 512) % TWO32 > |tar| { return Halt([], Finished); }
    if off + 512 > |tar| { return Halt([], LeftModel); }
    if tar[off] == 0 { return Halt([], Finished); }
    var path := ReadPath(tar, off);
    if path == None { return Halt([], LeftModel); }
    var e := ReadEntry(tar, off, path.value);
    if !accepts(e) { return Halt([e], Refused); }
    t := Go(e, NextOffset(off, e.size));
  }

  method ReadEntry(tar: seq<u8>, off: nat, path: seq<u8>) returns (e: Entry)
    requires off + 512 <= |tar|
    ensures e == TarEntry(tar, off, path)
  {
    var size := ReadNumber(tar, off + 124, off + 136, 8);
    e := Entry(path, size, if tar[off + 156] == 0 then 48 else tar[off + 156], off + 512);
  }

  lemma AfterNothing(w: Walk)
    ensures After([], w) == w
  {
  }

  lemma RunUnfolds(tar: seq<u8>, off: u32, accepts: Entry -> bool, n: nat, calls: seq<Entry>)
    requires After(calls, TarRun(tar, off, accepts, n)).end != Running
    ensures n > 0
    ensures match TarStep(tar, off, accepts)
      case Halt(last, end) => After(calls, TarRun(tar, off, accepts, n)) == Walk(calls + last, end)
      case Go(e, next) => After(calls, TarRun(tar, off, accepts, n)) == After(calls + [e], TarRun(tar, next, accepts, n - 1))
  {
    hide TarStep;
    if TarStep(tar, off, accepts).Go? {
      var e, rest := TarStep(tar, off, accepts).entry, TarRun(tar, TarStep(tar, off, accepts).off, accepts, n - 1);
      assert calls + ([e] + rest.entries) == (calls + [e]) + rest.entries;
    }
  }

  // ---- any tar writer ------------------------------------------------------------------------------------

  function FullName(prefix: seq<u8>, name: seq<u8>): seq<u8> { if prefix == [] then name else prefix + [47] + name }

  /** Prefix and name come out as they are meant: with room for a terminator, or with a full name field and a zero
      byte behind it; or both fields are full, everything around their border is a slash, and the byte that is cut
      off the prefix is made up by one that the name runs on into. */
  predicate PathKept(tar: seq<u8>, off: nat, prefix: seq<u8>, name: seq<u8>)
    requires off + 512 <= |tar|
  {
    if prefix == [] then |name| <= 99
    else if |prefix| <= 154 then |name| <= 99 || tar[off + 100] == 0
    else |name| >= 100 && AllSlashes(name) && prefix[154] == 47 && tar[off + 100] == 47 && tar[off + 101] == 0
  }

  predicate AllSlashes(t: seq<u8>) { forall i :: 0 <= i < |t| ==> t[i] == 47 }

  /** The path comes out whole exactly then; other full fields, which the ustar format allows, come out cut or run
      into the next field. */
  lemma PathRecovered(tar: seq<u8>, off: nat, prefix: seq<u8>, name: seq<u8>)
    requires off + 512 <= |tar| && TextField(tar[off..off + 100], name) && TextField(tar[off + 345..off + 500], prefix)
    ensures TarPath(tar, off) == Some(if prefix == [] then name else prefix + [47] + name) <==>
      if prefix == [] then |name| <= 99
      else if |prefix| <= 154 then |name| <= 99 || tar[off + 100] == 0
      else |name| >= 100 && (forall i :: 0 <= i < |name| ==> name[i] == 47)
           && prefix[154] == 47 && tar[off + 100] == 47 && tar[off + 101] == 0
    ensures TarPath(tar, off) == Some(FullName(prefix, name)) <==> PathKept(tar, off, prefix, name)
  {
    hide Text;
    assert tar[off + 345] == tar[off + 345..off + 500][0];
    if prefix == [] {
      TextOfField(tar, off, 100, 99, name);
    } else if |prefix| == 155 && |name| == 100 {
      BothFull(tar, off, prefix, name);
    } else {
      assert tar[off + 345] == prefix[0] && prefix[0] in prefix;
      TextOfField(tar, off + 345, 155, 154, prefix);
      TextOfField(tar, off, 100, |tar| - off, name);
      if |name| == 100 && tar[off + 100] != 0 { FullNameRunsOn(tar, off, name); }
      var first, run := Text(tar, off + 345, 154), Text(tar, off, |tar| - off);
      var full := FullName(prefix, name);
      assert |full| == |prefix| + 1 + |name| <= 255;
      if PathKept(tar, off, prefix, name) {
        assert first == prefix && run == name && TarPath(tar, off) == Some(full);
      } else {
        assert |first| + 1 + |run| != |full|;
      }
    }
  }

  lemma BothFull(tar: seq<u8>, off: nat, prefix: seq<u8>, name: seq<u8>)
    requires off + 512 <= |tar| && |name| == 100 && |prefix| == 155
    requires TextField(tar[off..off + 100], name) && TextField(tar[off + 345..off + 500], prefix)
    ensures TarPath(tar, off) == Some(FullName(prefix, name)) <==> PathKept(tar, off, prefix, name)
  {
    hide Text;
    var run := Text(tar, off, |tar| - off);
    assert tar[off + 345] == tar[off + 345..off + 500][0] == prefix[0] && prefix[0] in prefix;
    TextCut(tar, off + 345, 155, 154, prefix);
    var path, full := prefix[..154] + [47] + run, FullName(prefix, name);
    assert |path| == 155 + |run| && |full| == 256;
    if PathKept(tar, off, prefix, name) {
      RunOfSlashes(tar, off, name);
      assert path == full;
    }
    if TarPath(tar, off) == Some(full) {
      assert path == full && |run| == 101;
      assert prefix[154] == full[154] == path[154] == 47;
      RunsOneOn(tar, off, name);
      forall i | 0 <= i <= 100 ensures run[i] == full[155 + i] { assert run[i] == path[155 + i]; }
      assert run[0] == 47 && forall i :: 0 < i <= 100 ==> run[i] == name[i - 1];
      SlashesAllAlong(run, name);
    }
  }

  /** A text that repeats itself one place on, and starts with a slash, is all slashes. */
  lemma SlashesAllAlong(run: seq<u8>, name: seq<u8>)
    requires |run| == |name| + 1 && run[0] == 47 && run[..|name|] == name
    requires forall i :: 0 < i < |run| ==> run[i] == name[i - 1]
    ensures AllSlashes(name) && AllSlashes(run)
  {
    var i := 0;
    while i < |name|
      invariant 0 <= i <= |name| && run[i] == 47 && forall j :: 0 <= j < i ==> name[j] == 47
    {
      assert name[i] == run[..|name|][i];
      i := i + 1;
    }
  }

  /** The name's bytes are those of the archive, and none is zero. */
  lemma NameBytes(tar: seq<u8>, off: nat, name: seq<u8>)
    requires off + 512 <= |tar| && |name| == 100 && TextField(tar[off..off + 100], name)
    ensures forall j :: 0 <= j < 100 ==> tar[off + j] == name[j] != 0
  {
    forall j | 0 <= j < 100 ensures tar[off + j] == name[j] != 0 {
      assert tar[off + j] == tar[off..off + 100][..100][j] == name[j] && name[j] in name;
    }
  }

  lemma RunOfSlashes(tar: seq<u8>, off: nat, name: seq<u8>)
    requires off + 512 <= |tar| && |name| == 100 && TextField(tar[off..off + 100], name)
    requires AllSlashes(name) && tar[off + 100] == 47 && tar[off + 101] == 0
    ensures Text(tar, off, |tar| - off) == name + [47]
  {
    NameBytes(tar, off, name);
    assert tar[off..off + 101] == name + [47];
    TextIs(tar, off, |tar| - off, name + [47]);
  }

  /** A run of 101 bytes is the name and one byte more, with a zero byte behind. */
  lemma RunsOneOn(tar: seq<u8>, off: nat, name: seq<u8>)
    requires off + 512 <= |tar| && |name| == 100 && TextField(tar[off..off + 100], name)
    requires |Text(tar, off, |tar| - off)| == 101
    ensures var run := Text(tar, off, |tar| - off); run[..100] == name && run[100] == tar[off + 100] && tar[off + 101] == 0
  {
    NameBytes(tar, off, name);
    TextBytes(tar, off, |tar| - off);
  }

  lemma FullNameRunsOn(tar: seq<u8>, off: nat, name: seq<u8>)
    requires off + 512 <= |tar| && |name| == 100 && TextField(tar[off..off + 100], name) && tar[off + 100] != 0
    ensures |Text(tar, off, |tar| - off)| > 100
  {
    NameBytes(tar, off, name);
    TextAtLeast(tar, off, |tar| - off, 101);
  }

  /** A file in an archive: the header's bytes, what it says, the content and its padding. */
  datatype TarFile = TarFile(head: seq<u8>, prefix: seq<u8>, name: seq<u8>, digits: seq<u8>, content: seq<u8>, pad: seq<u8>)

  predicate TarOk(f: TarFile) {
    && |f.head| == 512 && f.name != []
    && TextField(f.head[0..100], f.name) && TextField(f.head[345..500], f.prefix) && PathKept(f.head, 0, f.prefix, f.name)
    && NumberField(f.head[124..136], f.digits, 8) && TextValue(f.digits, 8) == |f.content|
    && |f.pad| < 512 && (|f.content| + |f.pad|) % 512 == 0
  }

  function TarBytes(f: TarFile): seq<u8> { f.head + f.content + f.pad }

  function TarArchive(fs: seq<TarFile>): seq<u8> {
    if fs == [] then [] else TarBytes(fs[0]) + TarArchive(fs[1..])
  }

  function FileEntry(f: TarFile, off: nat): Entry
    requires |f.head| == 512 && |f.content| < TWO32
  {
    Entry(FullName(f.prefix, f.name), |f.content|, if f.head[156] == 0 then 48 else f.head[156], off + 512)
  }

  /** One call per file, in order, with the place of its content. */
  ghost predicate Describes(es: seq<Entry>, fs: seq<TarFile>, off: nat)
    decreases |fs|
  {
    if fs == [] then es == []
    else
      && es != [] && |fs[0].head| == 512 && |fs[0].content| < TWO32 && es[0] == FileEntry(fs[0], off)
      && Describes(es[1..], fs[1..], off + |TarBytes(fs[0])|)
  }

  lemma PaddedSize(f: TarFile)
    requires TarOk(f) && |f.content| + 1024 < TWO32
    ensures Padded(|f.content|) == |f.content| + |f.pad|
  {
    hide TextField, NumberField, TextValue, PathKept;
    RoundedUp(|f.content|, |f.pad|);
  }

  lemma RoundedUp(n: nat, p: nat)
    requires p < 512 && (n + p) % 512 == 0 && n + 1024 < TWO32
    ensures Padded(n) == n + p
  {
    var q := (n + p) / 512;
    assert n + p == 512 * q;
    assert (n + 511) / 512 == q;
  }

  /** What the walk makes of one header. */
  lemma OneFile(tar: seq<u8>, off: nat, f: TarFile)
    requires TarOk(f) && off + |TarBytes(f)| <= |tar| && |tar| + 1024 < TWO32 && tar[off..off + |TarBytes(f)|] == TarBytes(f)
    ensures tar[off] != 0 && TarPath(tar, off) == Some(FullName(f.prefix, f.name))
    ensures TarEntry(tar, off, FullName(f.prefix, f.name)) == FileEntry(f, off)
  {
    hide TarPath, Number, NumberField, TextValue;
    var b := TarBytes(f);
    forall i | 0 <= i < 512 ensures tar[off + i] == f.head[i] { assert tar[off + i] == tar[off..off + |b|][i] == b[i]; }
    assert tar[off..off + 100] == f.head[0..100];
    assert tar[off + 345..off + 500] == f.head[345..500];
    assert tar[off + 124..off + 136] == f.head[124..136];
    PathRecovered(tar, off, f.prefix, f.name);
    NumberOfField(tar, off + 124, off + 136, f.digits, 8);
    assert f.head[0] == f.head[0..100][..|f.name|][0] == f.name[0] && f.name[0] in f.name;
  }

  /** tar_walk undoes any ustar writer: every file is reported in order with its path, size, kind and place. */
  lemma {:induction false} TarRoundTrip(tar: seq<u8>, off: nat, fs: seq<TarFile>, end: nat, accepts: Entry -> bool, n: nat)
    requires (forall f :: f in fs ==> TarOk(f)) && (forall e :: accepts(e)) && |tar| + 1024 < TWO32 && n > |fs|
    requires off <= end <= |tar| && tar[off..end] == TarArchive(fs) && (end + 512 > |tar| || tar[end] == 0)
    ensures var w := TarRun(tar, off, accepts, n); w.end == Finished && Describes(w.entries, fs, off)
    decreases |fs|
  {
    hide TarOk, TarBytes, FileEntry, TarStep, TarRun, Describes;
    if fs == [] {
      EndOfArchive(tar, off, end, accepts, n);
    } else {
      var f := fs[0];
      FirstFile(tar, off, end, fs);
      StepOverFile(tar, off, f, accepts);
      TarRoundTrip(tar, off + |TarBytes(f)|, fs[1..], end, accepts, n - 1);
      RunGoes(tar, off, accepts, n);
      DescribesCons(TarRun(tar, off + |TarBytes(f)|, accepts, n - 1).entries, fs, off);
    }
  }

  lemma EndOfArchive(tar: seq<u8>, off: nat, end: nat, accepts: Entry -> bool, n: nat)
    requires n > 0 && off == end <= |tar| && |tar| + 1024 < TWO32 && (end + 512 > |tar| || tar[end] == 0)
    ensures TarRun(tar, off, accepts, n) == Walk([], Finished) && Describes([], [], off)
  {
  }

  lemma RunGoes(tar: seq<u8>, off: u32, accepts: Entry -> bool, n: nat)
    requires n > 0 && TarStep(tar, off, accepts).Go?
    ensures var t := TarStep(tar, off, accepts);
      TarRun(tar, off, accepts, n) == After([t.entry], TarRun(tar, t.off, accepts, n - 1))
  {
    hide TarStep;
  }

  lemma DescribesCons(es: seq<Entry>, fs: seq<TarFile>, off: nat)
    requires fs != [] && |fs[0].head| == 512 && |fs[0].content| < TWO32 && Describes(es, fs[1..], off + |TarBytes(fs[0])|)
    ensures Describes([FileEntry(fs[0], off)] + es, fs, off)
  {
    hide TarBytes, FileEntry;
    assert ([FileEntry(fs[0], off)] + es)[1..] == es;
  }

  /** One turn over a file's header moves to the next file. */
  lemma StepOverFile(tar: seq<u8>, off: nat, f: TarFile, accepts: Entry -> bool)
    requires TarOk(f) && off + |TarBytes(f)| <= |tar| && |tar| + 1024 < TWO32 && tar[off..off + |TarBytes(f)|] == TarBytes(f)
    requires forall e :: accepts(e)
    ensures |f.head| == 512 && |f.content| < TWO32
    ensures TarStep(tar, off, accepts) == Go(FileEntry(f, off), off + |TarBytes(f)|)
  {
    hide TarOk, TarBytes, TarPath, TarEntry, FileEntry, Padded;
    OneFile(tar, off, f);
    FileLength(f, off);
    PaddedSize(f);
  }

  lemma FileLength(f: TarFile, off: nat)
    requires TarOk(f)
    ensures |f.head| == 512 && |TarBytes(f)| == 512 + |f.content| + |f.pad|
    ensures |f.content| < TWO32 ==> FileEntry(f, off).size == |f.content|
  {
  }

  lemma FirstFile(tar: seq<u8>, off: nat, end: nat, fs: seq<TarFile>)
    requires fs != [] && off <= end <= |tar| && tar[off..end] == TarArchive(fs)
    ensures var next := off + |TarBytes(fs[0])|;
      next <= end && tar[off..next] == TarBytes(fs[0]) && tar[next..end] == TarArchive(fs[1..])
  {
    var b, rest := TarBytes(fs[0]), TarArchive(fs[1..]);
    assert tar[off..end] == b + rest;
    hide TarArchive, TarBytes;
    assert tar[off..off + |b|] == tar[off..end][..|b|];
    assert tar[off + |b|..end] == tar[off..end][|b|..];
  }

  lemma {:induction false} FilesTakeRoom(fs: seq<TarFile>)
    requires forall f :: f in fs ==> TarOk(f)
    ensures |fs| <= |TarArchive(fs)|
  {
    hide TarOk, TarBytes;
    if fs != [] {
      FileLength(fs[0], 0);
      FilesTakeRoom(fs[1..]);
    }
  }

  /** What the calls described say: path, size and kind of each file, and its content at the place given. */
  lemma {:induction false} DescribedContents(tar: seq<u8>, es: seq<Entry>, fs: seq<TarFile>, off: nat, end: nat, i: nat)
    requires Describes(es, fs, off) && off <= end <= |tar| && tar[off..end] == TarArchive(fs)
    requires i < |fs| == |es|
    ensures var (e, f) := (es[i], fs[i]);
      && e.path == (if f.prefix == [] then f.name else f.prefix + [47] + f.name)
      && |f.head| == 512 && e.kind == (if f.head[156] == 0 then 48 else f.head[156])
      && e.size == |f.content| && e.data + e.size <= |tar| && tar[e.data..e.data + e.size] == f.content
    decreases |fs|
  {
    hide TarArchive;
    FirstFile(tar, off, end, fs);
    var f, next := fs[0], off + |TarBytes(fs[0])|;
    if i > 0 {
      DescribedContents(tar, es[1..], fs[1..], next, end, i - 1);
    } else {
      SubSlice(tar, off, next, 512, 512 + |f.content|);
      assert TarBytes(f)[512..512 + |f.content|] == f.content;
    }
  }

  /** A turn that goes on, in the bytes of its header: the size field is the twelve bytes from 124 on, in octal, the
      kind the byte at 156, the content lies behind the header, and the next header behind its last block of 512. */
  lemma HeaderFields(tar: seq<u8>, off: u32, accepts: Entry -> bool)
    requires TarStep(tar, off, accepts).Go?
    ensures var t := TarStep(tar, off, accepts);
      && off + 512 <= |tar| && tar[off] != 0 && accepts(t.entry)
      && t.entry.size == Number(tar, off + 124, off + 136, 8) % 0x1_0000_0000
      && t.entry.kind == (if tar[off + 156] == 0 then 48 else tar[off + 156]) && t.entry.data == off + 512
      && t.off == (off + 512 + (t.entry.size + 511) % 0x1_0000_0000 / 512 * 512) % 0x1_0000_0000
  {
    hide TarPath, Number;
  }

  /** The walk is finished at a header that starts with a zero byte or does not fit in any more. */
  lemma FinishesAt(tar: seq<u8>, off: u32, accepts: Entry -> bool)
    ensures TarStep(tar, off, accepts) == Halt([], Finished) <==>
      (off + 512) % 0x1_0000_0000 > |tar| || (off + 512 <= |tar| && tar[off] == 0)
  {
    hide TarPath, TarEntry, NextOffset;
  }

  /** A call that is refused is the last one and makes the walk fail; nothing else does. */
  lemma {:induction false} RefusedIsLast(tar: seq<u8>, off: u32, accepts: Entry -> bool, n: nat)
    ensures var w := TarRun(tar, off, accepts, n);
      && (forall i :: 0 <= i < |w.entries| - 1 ==> accepts(w.entries[i]))
      && (w.end == Refused <==> w.entries != [] && !accepts(w.entries[|w.entries| - 1]))
    decreases n
  {
    hide TarPath, TarEntry, NextOffset;
    if n > 0 {
      match TarStep(tar, off, accepts) {
        case Halt(_, _) =>
        case Go(e, next) => RefusedIsLast(tar, next, accepts, n - 1);
      }
    }
  }

  /** The same for the whole walk over an archive, ended by a zero byte or by less than a header. */
  lemma TarInvertsWriter(fs: seq<TarFile>, trailer: seq<u8>, accepts: Entry -> bool)
    requires (forall f :: f in fs ==> TarOk(f)) && (forall e :: accepts(e)) && |TarArchive(fs) + trailer| + 1024 < TWO32
    requires |trailer| < 512 || trailer[0] == 0
    ensures var tar := TarArchive(fs) + trailer;
      var w := TarRun(tar, 0, accepts, |tar| + 1);
      && w.end == Finished && Describes(w.entries, fs, 0) && |w.entries| == |fs|
      && forall i :: 0 <= i < |fs| ==>
        var e, f := w.entries[i], fs[i];
        && e.path == (if f.prefix == [] then f.name else f.prefix + [47] + f.name)
        && |f.head| == 512 && e.kind == (if f.head[156] == 0 then 48 else f.head[156])
        && e.size == |f.content| && e.data + e.size <= |tar| && tar[e.data..e.data + e.size] == f.content
  {
    hide TarArchive, TarOk, Describes, TarRun;
    var tar := TarArchive(fs) + trailer;
    FilesTakeRoom(fs);
    assert tar[0..|TarArchive(fs)|] == TarArchive(fs);
    TarRoundTrip(tar, 0, fs, |TarArchive(fs)|, accepts, |tar| + 1);
    var es := TarRun(tar, 0, accepts, |tar| + 1).entries;
    DescribesLength(es, fs, 0);
    forall i | 0 <= i < |fs|
      ensures var e, f := es[i], fs[i];
        && e.path == (if f.prefix == [] then f.name else f.prefix + [47] + f.name)
        && |f.head| == 512 && e.kind == (if f.head[156] == 0 then 48 else f.head[156])
        && e.size == |f.content| && e.data + e.size <= |tar| && tar[e.data..e.data + e.size] == f.content
    {
      DescribedContents(tar, es, fs, 0, |TarArchive(fs)|, i);
    }
  }

  lemma {:induction false} DescribesLength(es: seq<Entry>, fs: seq<TarFile>, off: nat)
    requires Describes(es, fs, off)
    ensures |es| == |fs|
    decreases |fs|
  {
    if fs != [] { DescribesLength(es[1..], fs[1..], off + |TarBytes(fs[0])|); }
  }
}
