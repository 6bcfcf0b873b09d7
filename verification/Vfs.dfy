/** The in-memory file store of fs/vfs.c: a table of nodes whose buffers grow by doubling, behaving as a
    plain map from paths to byte strings. */
module Vfs {
  import opened Growth
  import opened Types
  import Lines

  const MAX_FILES: nat := 256
  const MAX_PATH: nat := 256
  const FIRST_CAP: nat := 4096

  /** vfs_node_t. Slots are never reused: unlinking only clears `used`. */
  datatype Node = Node(path: string, data: array?<u8>, size: nat, cap: nat, used: bool, isDir: bool)

  /** What a path leads to. */
  datatype Obj = Directory | Regular(bytes: seq<u8>)

  function Zeros(n: nat): (z: seq<u8>)
    ensures |z| == n && forall i :: 0 <= i < n ==> z[i] == 0
  {
    seq(n, _ => 0)
  }

  /** Writing `d` at `pos`: zeros up to `pos` where the file is shorter, then `d` over what is there. */
  function Overwritten(was: seq<u8>, pos: nat, d: seq<u8>): seq<u8> {
    var base := if |was| < pos then was + Zeros(pos - |was|) else was;
    base[..pos] + d + if pos + |d| < |base| then base[pos + |d|..] else []
  }

  /** The first used node of that path; |nodes| when there is none. */
  ghost function FindNode(nodes: seq<Node>, path: string): (k: nat)
    ensures k <= |nodes| && (k < |nodes| ==> nodes[k].used && nodes[k].path == path)
    ensures forall i :: 0 <= i < k ==> !(nodes[i].used && nodes[i].path == path)
  {
    if nodes == [] || (nodes[0].used && nodes[0].path == path) then 0 else 1 + FindNode(nodes[1..], path)
  }

  ghost predicate DistinctPaths(nodes: seq<Node>) {
    forall i, j :: 0 <= i < j < |nodes| && nodes[i].used && nodes[j].used ==> nodes[i].path != nodes[j].path
  }

  ghost predicate DistinctBuffers(nodes: seq<Node>) {
    forall i, j :: 0 <= i < j < |nodes| && nodes[i].used && nodes[j].used && nodes[i].data != null
      ==> nodes[i].data != nodes[j].data
  }

  /** A regular file holds its bytes in front of a buffer that is zero behind them; a directory holds none,
      and neither does a file whose first buffer could not be had. */
  ghost predicate NodeOk(n: Node)
    reads if n.data == null then {} else {n.data}
  {
    n.used ==>
      if n.data == null then n.size == 0 && n.cap == (if n.isDir then 0 else FIRST_CAP)
      else && !n.isDir && n.data.Length == n.cap && n.size <= n.cap && FIRST_CAP <= n.cap <= MAX_DATA
           && forall i :: n.size <= i < n.cap ==> n.data[i] == 0
  }

  ghost function Content(n: Node): seq<u8>
    reads if n.data == null then {} else {n.data}
  {
    if n.data == null || n.size > n.data.Length then [] else n.data[..n.size]
  }

  ghost function ObjOf(n: Node): Obj
    reads if n.data == null then {} else {n.data}
  {
    if n.isDir then Directory else Regular(Content(n))
  }

  /** Every node stays in its slot, as the same kind of node, under its path, and keeps having a buffer. */
  ghost predicate Kept(a: seq<Node>, b: seq<Node>) {
    && |a| <= |b|
    && forall i :: 0 <= i < |a| ==>
      && a[i].path == b[i].path && a[i].used == b[i].used && a[i].isDir == b[i].isDir
      && (a[i].data != null ==> b[i].data != null)
  }

  /** Two tables list the same paths, in the same slots, as the same kind of node. */
  ghost predicate SameNames(a: seq<Node>, b: seq<Node>) {
    && |a| == |b|
    && forall i :: 0 <= i < |a| ==> a[i].path == b[i].path && a[i].used == b[i].used && a[i].isDir == b[i].isDir
  }

  lemma SameNamesFind(a: seq<Node>, b: seq<Node>, path: string)
    requires SameNames(a, b)
    ensures FindNode(a, path) == FindNode(b, path)
  {
  }

  lemma FoundIsUnique(nodes: seq<Node>, k: nat)
    requires DistinctPaths(nodes) && k < |nodes| && nodes[k].used
    ensures FindNode(nodes, nodes[k].path) == k
  {
  }

  ghost function Buffers(nodes: seq<Node>): set<array<u8>> {
    set i | 0 <= i < |nodes| && nodes[i].data != null :: nodes[i].data as array<u8>
  }

  lemma InBuffers(nodes: seq<Node>, k: nat)
    requires k < |nodes|
    ensures nodes[k].data == null || nodes[k].data in Buffers(nodes)
  {
  }

  /** What stands in a buffer: the file's bytes up to its size, zeros behind. */
  lemma BufferSlices(n: Node, pos: nat, k: nat)
    requires n.used && NodeOk(n) && n.data != null
    ensures n.size <= n.cap == n.data.Length && |Content(n)| == n.size
    ensures pos + k <= n.size ==> n.data[pos..pos + k] == Content(n)[pos..pos + k]
    ensures n.size <= pos && pos + k <= n.cap ==> n.data[pos..pos + k] == Zeros(k)
  {
    if pos + k <= n.size { assert n.data[..n.size][pos..pos + k] == n.data[pos..pos + k]; }
  }

  /** How many bytes vfs_read copies: the bytes left, counted in 32 bits, or fewer when fewer are asked for. */
  function Readable(size: nat, pos: u32, len: u32): (k: u32) {
    var avail := (size - pos) % TWO32;
    if len > avail then avail else len
  }

  /** Behind the end of a file the count of bytes left has wrapped. */
  lemma ReadableIs(size: nat, pos: u32, len: u32)
    requires size <= MAX_DATA
    ensures pos <= size ==> Readable(size, pos, len) == if len < size - pos then len else size - pos
    ensures pos > size ==> Readable(size, pos, len) == if len < size - pos + TWO32 then len else size - pos + TWO32
  {
  }

  lemma BufferByte(n: Node, i: nat)
    requires n.used && NodeOk(n) && i < n.size
    ensures n.data != null && n.data.Length == n.cap >= n.size && |Content(n)| == n.size && n.data[i] == Content(n)[i]
  {
  }

  lemma WithoutBuffer(n: Node)
    requires n.used && NodeOk(n)
    ensures |Content(n)| == n.size && (n.data == null ==> n.size == 0 && Content(n) == [])
    ensures Zeros(0) == []
  {
  }

  class File {
    const node: nat
    var pos: u32

    constructor (node: nat, pos: u32)
      ensures this.node == node && this.pos == pos
    {
      this.node, this.pos := node, pos;
    }
  }

  class Store {
    var nodes: seq<Node>
    var asked: nat
    const grants: nat -> bool

    ghost predicate Valid()
      reads `nodes, Buffers(nodes)
    {
      && |nodes| <= MAX_FILES && DistinctPaths(nodes) && DistinctBuffers(nodes)
      && forall i :: 0 <= i < |nodes| ==> NodeOk(nodes[i])
    }

    /** What stands under a path; None for an unknown one. */
    ghost function At(path: string): Option<Obj>
      reads `nodes, Buffers(nodes)
    {
      var k := FindNode(nodes, path);
      if k < |nodes| then Some(ObjOf(nodes[k])) else None
    }

    /** An empty node table; request number t to the allocator is granted when `grants(t)`. */
    constructor (grants: nat -> bool)
      ensures Valid() && nodes == [] && this.grants == grants
    {
      this.grants := grants;
      nodes, asked := [], 0;
    }

    /** kmalloc as this file uses it: nothing for zero bytes, otherwise NULL or a fresh zeroed block. */
    method Kmalloc(n: nat) returns (a: array?<u8>)
      modifies `asked
      ensures a == null || (fresh(a) && a.Length == n && forall i :: 0 <= i < n ==> a[i] == 0)
      ensures a != null <==> n > 0 && grants(old(asked))
      ensures asked == old(asked) + if n > 0 then 1 else 0
    {
      a := null;
      if n == 0 { return; }
      var granted := grants(asked);
      asked := asked + 1;
      if granted { a := new u8[n](_ => 0); }
    }

    /** find_node. */
    method Find(path: string) returns (k: nat)
      requires Valid()
      ensures k == FindNode(nodes, path) && Valid()
    {
      k := 0;
      while k < |nodes| && !(nodes[k].used && nodes[k].path == path)
        invariant k <= |nodes| && forall i :: 0 <= i < k ==> !(nodes[i].used && nodes[i].path == path)
      {
        k := k + 1;
      }
    }

    /** The node alloc_node makes: empty, a file with its first buffer if there is memory for it. */
    method NewNode(path: string, isDir: bool) returns (n: Node)
      modifies `asked
      ensures n.path == path && n.used && n.isDir == isDir && NodeOk(n) && (n.data == null || fresh(n.data))
      ensures (n.data != null || isDir || Refuses(0, grants)) && n.cap == if isDir then 0 else 4096
      ensures ObjOf(n) == if isDir then Directory else Regular([])
    {
      n := Node(path, null, 0, 0, true, isDir);
      if !isDir {
        var data := Kmalloc(FIRST_CAP);
        assert data == null ==> 0 <= old(asked) && !grants(old(asked));
        n := n.(cap := FIRST_CAP, data := data);
      }
    }

    /** alloc_node, called for a path no used node has: the path leads to an empty node now, unless the table is full. */
    method AllocNode(path: string, isDir: bool) returns (ok: bool)
      requires FindNode(nodes, path) == |nodes|
      requires Valid()
      modifies `nodes, `asked
      ensures Valid() && (ok <==> |old(nodes)| < 256) && Kept(old(nodes), nodes)
      ensures |nodes| == |old(nodes)| + (if ok then 1 else 0) && (!ok ==> nodes == old(nodes))
      ensures ok ==> FindNode(nodes, path) == |old(nodes)| && NewBuffered(old(nodes))
      ensures At(path) == if ok then Some(if isDir then Directory else Regular([])) else None
      ensures forall p :: p != path ==> At(p) == old(At(p))
      ensures fresh(Buffers(nodes) - old(Buffers(nodes)))
    {
      hide DistinctBuffers, DistinctPaths, NodeOk, ObjOf, FindNode, Refuses, Content;
      if |nodes| >= MAX_FILES { return false; }
      var n := NewNode(path, isDir);
      nodes := nodes + [n];
      Appended(old(nodes), n);
      FindAfterAlloc(old(nodes), nodes, path);
      return true;
    }

    /** With memory granted the node behind the table has a buffer if it is a file's. */
    ghost predicate NewBuffered(was: seq<Node>)
      reads `nodes
    {
      |nodes| > |was| && nodes[|was|].data == null ==> nodes[|was|].isDir || Refuses(0, grants)
    }

    /** One round of the growth loop of vfs_write: a larger block, the old bytes copied, the old block freed. */
    method GrowOnce(k: nat, newcap: nat) returns (ok: bool)
      requires k < |nodes| && nodes[k].used && nodes[k].cap <= newcap <= MAX_DATA && (newcap == 0 <==> nodes[k].isDir)
      requires Valid()
      modifies `nodes, `asked
      ensures Valid() && (ok <==> newcap > 0 && grants(old(asked))) && asked == old(asked) + if newcap > 0 then 1 else 0
      ensures |nodes| == |old(nodes)|
      ensures nodes == if ok then old(nodes)[k := old(nodes)[k].(data := nodes[k].data, cap := newcap)] else old(nodes)
      ensures ok ==> fresh(nodes[k].data) && nodes[k].data != null
      ensures Content(nodes[k]) == old(Content(nodes[k]))
    {
      var nb := Kmalloc(newcap);
      if nb == null { return false; }
      if nodes[k].data != null { CopyBytes(nodes[k].data, nb, nodes[k].size); }
      nodes := nodes[k := nodes[k].(data := nb, cap := newcap)];
      return true;
    }

    /** The growth loop of vfs_write for node `k`, called when it ends. It runs `rounds` rounds, each granted, and
        stops when there is room or a request is refused. */
    method Grow(k: nat, need: nat) returns (ok: bool, ghost rounds: nat)
      requires k < |nodes| && nodes[k].used && GrowthEnds(nodes[k].cap, need, asked, grants)
      requires Valid()
      modifies `nodes, `asked
      ensures Valid() && |nodes| == |old(nodes)|
      ensures OnlyGrown(old(nodes), nodes, k) && Content(nodes[k]) == old(Content(nodes[k]))
      ensures nodes[k].data == old(nodes[k].data) || fresh(nodes[k].data)
      ensures StopsAfter(old(nodes[k].cap), need, old(asked), grants, rounds)
      ensures nodes[k].cap == CapAfter(old(nodes[k].cap), rounds)
      ensures ok <==> need <= nodes[k].cap
      ensures nodes[k].isDir ==> nodes == old(nodes)
      ensures rounds > 0 ==> nodes[k].data != null
    {
      hide Valid, Content, CapAfter, GrowthEnds, GrowthLeft, Refuses, Passes, OnlyGrown, StopsAfter, Buffers;
      rounds := 0;
      ghost var c0, a0 := nodes[k].cap, asked;
      CapSteps(c0, 0);
      NodeCap(k);
      GrownNothing(nodes, k);
      while need > nodes[k].cap
        invariant Valid() && |nodes| == |old(nodes)| && OnlyGrown(old(nodes), nodes, k)
        invariant Content(nodes[k]) == old(Content(nodes[k]))
        invariant nodes[k].data == old(nodes[k].data) || fresh(nodes[k].data)
        invariant nodes[k].cap == CapAfter(c0, rounds) && asked == a0 + rounds
        invariant forall j :: 0 <= j < rounds ==> Passes(c0, need, a0, grants, j)
        invariant nodes[k].isDir ==> nodes == old(nodes)
        invariant rounds > 0 ==> nodes[k].data != null
        invariant GrowthEnds(nodes[k].cap, need, asked, grants)
        invariant nodes[k].used && nodes[k].cap <= MAX_DATA && (nodes[k].cap == 0 <==> nodes[k].isDir)
        decreases GrowthLeft(nodes[k].cap, need, asked, grants)
      {
        CapSteps(c0, rounds);
        StopsHere(c0, need, a0, grants, rounds);
        if grants(asked) && nodes[k].cap > 0 { GrowthShrinks(nodes[k].cap, need, asked, grants); }
        var newcap := nodes[k].cap * 2;
        if newcap > MAX_DATA { newcap := MAX_DATA; }
        ghost var before := nodes;
        ok := GrowOnce(k, newcap);
        if !ok { return; }
        GrownAgain(old(nodes), before, nodes, k);
        rounds := rounds + 1;
      }
      StopsHere(c0, need, a0, grants, rounds);
      ok := true;
    }

    lemma Paths()
      requires Valid()
      ensures DistinctPaths(nodes)
    {
    }

    lemma NodeCap(k: nat)
      requires k < |nodes| && nodes[k].used
      requires Valid()
      ensures nodes[k].size <= nodes[k].cap <= MAX_DATA && (nodes[k].cap == 0 <==> nodes[k].isDir)
      ensures Size(Some(ObjOf(nodes[k]))) == nodes[k].size && NodeOk(nodes[k])
    {
      assert NodeOk(nodes[k]);
    }

    method CopyBytes(src: array<u8>, dst: array<u8>, n: nat)
      requires n <= src.Length && n <= dst.Length && src != dst
      modifies dst
      ensures dst[..n] == src[..n] && dst[n..] == old(dst[n..])
    {
      var i: nat := 0;
      while i < n
        invariant i <= n && dst[..i] == src[..i] && dst[i..] == old(dst[i..])
      {
        assert dst[i..][1..] == dst[i + 1..];
        dst[i] := src[i];
        i := i + 1;
      }
    }

    /** The two assignments at the end of vfs_write: bytes in place, size raised when the file grew. */
    method Place(k: nat, pos: nat, d: seq<u8>)
      requires k < |nodes| && nodes[k].used && nodes[k].data != null && pos + |d| <= nodes[k].cap
      requires Valid()
      modifies `nodes, nodes[k].data
      ensures Valid() && |nodes| == |old(nodes)| && nodes == old(nodes)[k := old(nodes)[k].(size := nodes[k].size)]
      ensures Content(nodes[k]) == Overwritten(old(Content(nodes[k])), pos, d)
      ensures forall i :: 0 <= i < |nodes| && i != k && nodes[i].used ==> Content(nodes[i]) == old(Content(nodes[i]))
    {
      hide DistinctPaths, Overwritten;
      ghost var before, was := nodes[k].data[..], nodes[k];
      CopyTo(nodes[k].data, pos, d);
      PlacedBytes(before, nodes[k].data[..], was.size, pos, d);
      if pos + |d| > nodes[k].size { nodes := nodes[k := nodes[k].(size := pos + |d|)]; }
      SamePaths(old(nodes), nodes, k);
    }

    method CopyTo(a: array<u8>, pos: nat, d: seq<u8>)
      requires pos + |d| <= a.Length
      modifies a
      ensures a[..] == old(a[..pos]) + d + old(a[pos + |d|..])
    {
      var i: nat := 0;
      while i < |d|
        invariant i <= |d|
        invariant forall j :: 0 <= j < a.Length ==> a[j] == if pos <= j < pos + i then d[j - pos] else old(a[j])
      {
        a[pos + i] := d[i];
        i := i + 1;
      }
    }

    /** vfs_write seen through the paths, called when its loop ends: the written file's bytes are overwritten from
        the position on, no other path changes, and a failed write changes none. `outside`: the copy would leave the
        buffer, because the sum of position and length wraps or because there is no buffer. */
    method Write(f: File, d: seq<u8>) returns (written: nat, outside: bool)
      requires f.node < |nodes| && nodes[f.node].used && |d| < TWO32
      requires d == [] || GrowthEnds(nodes[f.node].cap, Need(f.pos, |d|), asked, grants)
      requires Valid()
      modifies `nodes, `asked, f`pos, nodes[f.node].data
      ensures Valid() && f.pos == old(f.pos) + written && (written == 0 || written == |d|)
      ensures outside ==> written == 0 && d != []
      ensures outside ==> (old(f.pos) + |d| >= TWO32 || old(nodes[f.node].data == null && !nodes[f.node].isDir))
      ensures var path := old(nodes[f.node].path);
        && (forall p :: p != path || written == 0 ==> At(p) == old(At(p)))
        && (written != 0 ==> At(path) == Some(Regular(Overwritten(old(Content(nodes[f.node])), old(f.pos), d))))
      ensures Kept(old(nodes), nodes) && |nodes| == |old(nodes)| && fresh(Buffers(nodes) - old(Buffers(nodes)))
      ensures old(nodes[f.node].isDir) ==> written == 0
      ensures old(nodes[f.node].data) != null && old(f.pos) + |d| <= 0x10_0000 && (forall t :: old(asked) <= t ==> grants(t))
        ==> written == |d|
    {
      hide Overwritten, NodeOk, DistinctBuffers, Content, CapAfter;
      ghost var was := nodes;
      written, outside := WriteNode(f, d);
      forall p ensures FindNode(nodes, p) == FindNode(was, p) { SameNamesFind(nodes, was, p); }
      FoundIsUnique(nodes, f.node);
    }

    /** vfs_write on a node. On success the file is overwritten from the position on; on failure contents, size and
        position stay; no other file changes. */
    method WriteNode(f: File, d: seq<u8>) returns (written: nat, outside: bool)
      requires f.node < |nodes| && nodes[f.node].used && |d| < TWO32
      requires d == [] || GrowthEnds(nodes[f.node].cap, Need(f.pos, |d|), asked, grants)
      requires Valid()
      modifies `nodes, `asked, f`pos, nodes[f.node].data
      ensures Valid() && |nodes| == |old(nodes)|
      ensures written == 0 || written == |d|
      ensures outside ==> written == 0 && d != []
      ensures outside ==> (old(f.pos) + |d| >= TWO32 || old(nodes[f.node].data == null && !nodes[f.node].isDir))
      ensures old(nodes[f.node].isDir) ==> written == 0
      ensures f.pos == old(f.pos) + written
      ensures var was := old(Content(nodes[f.node]));
        Content(nodes[f.node]) == if written == 0 then was else Overwritten(was, old(f.pos), d)
      ensures forall i :: 0 <= i < |nodes| && i != f.node && nodes[i].used ==> Content(nodes[i]) == old(Content(nodes[i]))
      ensures SameNames(nodes, old(nodes)) && Kept(old(nodes), nodes) && fresh(Buffers(nodes) - old(Buffers(nodes)))
      ensures old(nodes[f.node].data) != null && old(f.pos) + |d| <= 0x10_0000 && (forall t :: old(asked) <= t ==> grants(t))
        ==> written == |d|
    {
      hide Overwritten, DistinctPaths, DistinctBuffers, CapAfter, Passes, GrowthEnds, Content;
      if |d| == 0 { return 0, false; }
      NodeCap(f.node);
      var need := Need(f.pos, |d|);
      var ok, rounds := Grow(f.node, need);
      if !ok { return 0, false; }
      if nodes[f.node].data == null || f.pos + |d| > nodes[f.node].cap {
        PastBuffer(nodes[f.node].cap, f.pos, |d|);
        return 0, true;
      }
      Place(f.node, f.pos, d);
      f.pos := f.pos + |d|;
      return |d|, false;
    }

    /** vfs_read. Inside the file: the bytes from the position on, at most `len`. Behind its end the number of bytes
        left wraps, and zeros from the rest of the buffer are returned; `outside`: the copy would leave the buffer. */
    method Read(f: File, len: u32) returns (out: seq<u8>, outside: bool)
      requires f.node < |nodes| && nodes[f.node].used
      requires Valid()
      modifies f`pos
      ensures var n := nodes[f.node];
        var k := Readable(n.size, old(f.pos), len);
        && (outside <==> k > 0 && (n.data == null || old(f.pos) + k > n.cap))
        && |out| == (if outside then 0 else k) && f.pos == old(f.pos) + |out|
      ensures var c := Content(nodes[f.node]);
        && (old(f.pos) <= |c| ==> !outside && out == c[old(f.pos)..if len < |c| - old(f.pos) then old(f.pos) + len else |c|])
        && (old(f.pos) > |c| && !outside ==> out == Zeros(len))
    {
      hide Valid, NodeOk, Content, Zeros, Readable;
      var n := nodes[f.node];
      NodeCap(f.node);
      WithoutBuffer(n);
      var k := Readable(n.size, f.pos, len);
      ReadableIs(n.size, f.pos, len);
      if n.data != null { BufferSlices(n, f.pos, k); }
      out, outside := [], false;
      if k == 0 { return; }
      if n.data == null || f.pos + k > n.cap { return [], true; }
      out := n.data[f.pos..f.pos + k];
      f.pos := f.pos + k;
    }

    /** vfs_readline on the bytes of a node: one line from the position on, none at or behind the end of the file. */
    method ReadLine(f: File, max: u32) returns (line: seq<u8>)
      requires f.node < |nodes| && nodes[f.node].used
      requires Valid()
      modifies f`pos
      ensures line == LineAt(Content(nodes[f.node]), old(f.pos), max) && f.pos == old(f.pos) + |line|
    {
      hide Valid, NodeOk, Content, Lines.LineEnd, LineAt;
      var n := nodes[f.node];
      NodeCap(f.node);
      WithoutBuffer(n);
      line := [];
      assert (f as object) != (n.data as object?);
      ghost var c, start := Content(n), f.pos;
      NoLine(c, start, max);
      if max == 0 || f.pos >= n.size { return; }
      ghost var text := Text(c);
      while |line| < max - 1 && f.pos < n.size
        invariant start <= f.pos <= n.size && line == c[start..f.pos] && |line| <= max - 1 && Content(n) == c
        invariant Lines.LineEnd(text, start, max - 1) == Lines.LineEnd(text, f.pos, max - 1 - |line|)
        decreases n.size - f.pos
      {
        BufferByte(n, f.pos);
        var b := n.data[f.pos];
        OneMore(c, start, f.pos, max - 1 - |line|);
        f.pos := f.pos + 1;
        line := line + [b];
        if b == '\n' as int { break; }
      }
      if |line| == max - 1 || f.pos == n.size { NoMore(text, f.pos, max - 1 - |line|); }
      TheLine(c, start, max);
    }

    /** The first half of vfs_open: the node of that path, created empty when asked for. */
    method FindOrCreate(path: string, create: bool) returns (k: nat)
      requires Valid()
      modifies `nodes, `asked
      ensures Valid()
      ensures k == FindNode(nodes, path)
      ensures Kept(old(nodes), nodes)
      ensures NewNodes(old(nodes), old(At(path)), At(path))
      ensures forall p :: p != path ==> At(p) == old(At(p))
      ensures At(path) == Opened(old(At(path)), |old(nodes)| < MAX_FILES, create, false)
      ensures fresh(Buffers(nodes) - old(Buffers(nodes)))
    {
      hide DistinctPaths, DistinctBuffers, NodeOk, FindNode, Content, Refuses;
      k := Find(path);
      if k == |nodes| && create {
        var ok := AllocNode(path, false);
      }
    }

    /** At most one node is new: the one behind the table, when a path has come to exist; with memory granted a
        file's node has a buffer. */
    ghost predicate NewNodes(was: seq<Node>, before: Option<Obj>, after: Option<Obj>)
      reads `nodes
    {
      && |nodes| == |was| + (if before == None && after != None then 1 else 0)
      && NewBuffered(was)
    }

    /** vfs_open. `None` stands for NULL, answered when there is no node or no memory for the handle. A created file
        is empty, a truncated one becomes empty, and every other path stays as it is. */
    method Open(path: string, create: bool, append: bool, truncate: bool) returns (r: Option<File>)
      requires Valid()
      modifies this, Buffers(nodes)
      ensures Valid() && Kept(old(nodes), nodes) && NewNodes(old(nodes), old(At(path)), At(path))
      ensures forall p :: p != path ==> At(p) == old(At(p))
      ensures At(path) == Opened(old(At(path)), |old(nodes)| < MAX_FILES, create, truncate)
      ensures r == None ==> At(path) == None || Refuses(0, grants)
      ensures r.Some? ==> fresh(r.value) && r.value.node == FindNode(nodes, path) < |nodes|
      ensures r.Some? ==> r.value.pos == match At(path)
        case Some(Regular(bytes)) => if append then |bytes| else 0
        case _ => 0
      ensures match old(At(path))
        case None => At(path) == if create && |old(nodes)| < 256 then Some(Regular([])) else None
        case Some(Directory) => At(path) == Some(Directory)
        case Some(Regular(bytes)) => At(path) == Some(Regular(if truncate then [] else bytes))
      ensures fresh(Buffers(nodes) - old(Buffers(nodes)))
    {
      hide DistinctPaths, DistinctBuffers, NodeOk, FindNode, Content, Kept, Refuses;
      r := None;
      var k := Prepare(path, create, truncate);
      if k == |nodes| { return; }
      NodeCap(k);
      r := NewHandle(k, if append then nodes[k].size else 0);
      assert Valid();
    }

    /** The node vfs_open hands out, truncated when asked for. */
    method Prepare(path: string, create: bool, truncate: bool) returns (k: nat)
      requires Valid()
      modifies `nodes, `asked, Buffers(nodes)
      ensures Valid() && Kept(old(nodes), nodes) && NewNodes(old(nodes), old(At(path)), At(path))
      ensures k == FindNode(nodes, path) && (k < |nodes| ==> nodes[k].used)
      ensures forall p :: p != path ==> At(p) == old(At(p))
      ensures At(path) == Opened(old(At(path)), |old(nodes)| < MAX_FILES, create, truncate)
      ensures fresh(Buffers(nodes) - old(Buffers(nodes)))
    {
      hide DistinctPaths, DistinctBuffers, NodeOk, FindNode, Content, Buffers;
      k := FindOrCreate(path, create);
      if k < |nodes| && truncate {
        InBuffers(nodes, k);
        Truncate(k);
      }
    }

    /** The allocation of the handle in vfs_open. */
    method NewHandle(k: nat, pos: u32) returns (r: Option<File>)
      modifies `asked
      ensures r == None ==> Refuses(0, grants)
      ensures r.Some? ==> fresh(r.value) && r.value.node == k && r.value.pos == pos
    {
      var granted := grants(asked);
      asked := asked + 1;
      if !granted { return None; }
      var f := new File(k, pos);
      r := Some(f);
    }

    method ZeroFront(a: array<u8>, n: nat)
      requires n <= a.Length
      modifies a
      ensures forall j :: 0 <= j < a.Length ==> a[j] == if j < n then 0 else old(a[j])
    {
      var i: nat := 0;
      while i < n
        invariant i <= n && forall j :: 0 <= j < a.Length ==> a[j] == if j < i then 0 else old(a[j])
      {
        a[i] := 0;
        i := i + 1;
      }
    }

    method Shrink(k: nat)
      requires k < |nodes| && nodes[k].used
      requires Valid()
      modifies `nodes, nodes[k].data
      ensures Valid() && SameNames(nodes, old(nodes)) && Kept(old(nodes), nodes) && nodes[k].size == 0
      ensures Buffers(nodes) == old(Buffers(nodes))
      ensures forall i :: 0 <= i < |nodes| && i != k ==> nodes[i] == old(nodes)[i]
      ensures forall i :: 0 <= i < |nodes| && i != k && nodes[i].used ==> Content(nodes[i]) == old(Content(nodes[i]))
    {
      hide DistinctPaths;
      if nodes[k].data != null { ZeroFront(nodes[k].data, nodes[k].size); }
      nodes := nodes[k := nodes[k].(size := 0)];
      SamePaths(old(nodes), nodes, k);
    }

    /** The truncating branch of vfs_open: the old bytes are zeroed before the size drops. */
    method Truncate(k: nat)
      requires k < |nodes| && nodes[k].used
      requires Valid()
      modifies `nodes, nodes[k].data
      ensures Valid() && |nodes| == |old(nodes)| && Kept(old(nodes), nodes) && Buffers(nodes) == old(Buffers(nodes))
      ensures forall p :: FindNode(nodes, p) == old(FindNode(nodes, p))
      ensures forall p :: p != nodes[k].path ==> At(p) == old(At(p))
      ensures At(nodes[k].path) == Some(if nodes[k].isDir then Directory else Regular([]))
    {
      hide NodeOk, DistinctBuffers, Buffers;
      Shrink(k);
      forall p ensures FindNode(nodes, p) == old(FindNode(nodes, p)) { SameNamesFind(nodes, old(nodes), p); }
      FoundIsUnique(nodes, k);
    }

    /** vfs_unlink: the path is gone, every other path stays as it is. */
    method Unlink(path: string) returns (r: int)
      requires Valid()
      modifies `nodes
      ensures Valid() && r == if old(At(path)) != None then 0 else -1
      ensures At(path) == None && forall p :: p != path ==> At(p) == old(At(p))
      ensures var k := old(FindNode(nodes, path));
        nodes == if k < |old(nodes)| then old(nodes)[k := old(nodes)[k].(used := false)] else old(nodes)
    {
      hide FindNode, Content;
      var k := Find(path);
      if k == |nodes| { return -1; }
      nodes := nodes[k := nodes[k].(used := false)];
      forall p | p != path ensures FindNode(nodes, p) == FindNode(old(nodes), p) {
        FindAfterUnlink(old(nodes), k, p);
      }
      return 0;
    }

    /** vfs_mkdir: 0 when the path exists afterwards, as it was or as a new directory; no other path changes. */
    method Mkdir(path: string) returns (r: int)
      requires Valid()
      modifies `nodes, `asked
      ensures Valid() && Kept(old(nodes), nodes) && NewNodes(old(nodes), old(At(path)), At(path))
      ensures (r == 0 <==> At(path) != None) && -1 <= r <= 0
      ensures At(path) == if old(At(path)) == None && |old(nodes)| < 256 then Some(Directory) else old(At(path))
      ensures forall p :: p != path ==> At(p) == old(At(p))
      ensures fresh(Buffers(nodes) - old(Buffers(nodes)))
    {
      hide DistinctPaths, DistinctBuffers, NodeOk, FindNode;
      var k := Find(path);
      if k < |nodes| { return 0; }
      var ok := AllocNode(path, true);
      if !ok { return -1; }
      return 0;
    }

    /** One round of vfs_mkdir_p; a full table is not reported. */
    method EnsureDir(path: string)
      requires Valid()
      modifies `nodes, `asked
      ensures Valid() && |nodes| >= |old(nodes)|
      ensures At(path) == if old(At(path)) == None && |old(nodes)| < MAX_FILES then Some(Directory) else old(At(path))
      ensures At(path) == None ==> |nodes| == MAX_FILES
      ensures forall p :: p != path ==> At(p) == old(At(p))
    {
      hide DistinctPaths, DistinctBuffers, NodeOk, FindNode;
      var k := Find(path);
      if k == |nodes| {
        var ok := AllocNode(path, true);
      }
    }

    /** vfs_mkdir_p: unless the table is full, each such prefix exists afterwards; what existed stays as it was, and
        nothing but directories under those prefixes appears. The result says nothing about a full table. */
    method MkdirP(path: string) returns (r: int)
      requires Valid()
      modifies `nodes, `asked
      ensures Valid() && (r == -1 <==> |path| >= 256) && (r == -1 ==> nodes == old(nodes)) && -1 <= r <= 0
      ensures r == 0 && |nodes| < 256 ==>
        forall i: nat :: 0 < i <= |path| && (i == |path| || path[i] == '/') ==> At(path[..i]) != None
      ensures forall p :: At(p) != old(At(p)) ==>
        && old(At(p)) == None && At(p) == Some(Directory)
        && 0 < |p| <= |path| && path[..|p|] == p && (|p| == |path| || path[|p|] == '/')
    {
      hide Valid, At;
      if |path| >= MAX_PATH { return -1; }
      var i: nat := 1;
      while i <= |path|
        invariant 1 <= i <= |path| + 1 && Valid() && |nodes| >= |old(nodes)|
        invariant |nodes| < MAX_FILES ==> forall j :: 0 < j < i && CutAt(path, j) ==> At(path[..j]) != None
        invariant forall p :: At(p) == old(At(p)) || (old(At(p)) == None && At(p) == Some(Directory) && CutPrefix(path, p))
      {
        if i == |path| || path[i] == '/' { EnsureDir(path[..i]); }
        i := i + 1;
      }
      return 0;
    }
  }

  /** What vfs_open makes of what stands under its path: a file created when there is a slot, truncated when asked. */
  function Opened(was: Option<Obj>, slot: bool, create: bool, truncate: bool): Option<Obj> {
    match was
    case None => if create && slot then Some(Regular([])) else None
    case Some(Directory) => was
    case Some(Regular(_)) => if truncate then Some(Regular([])) else was
  }

  /** Bytes as the characters they stand for. */
  function Text(c: seq<u8>): (t: string)
    ensures |t| == |c| && forall i :: 0 <= i < |c| ==> t[i] == c[i] as char
  {
    seq(|c|, i requires 0 <= i < |c| => c[i] as char)
  }

  /** One more byte of a line: the last one if it is a newline. */
  lemma OneMore(c: seq<u8>, start: nat, pos: nat, room: nat)
    requires start <= pos < |c| && room > 0
    ensures c[start..pos] + [c[pos]] == c[start..pos + 1]
    ensures Lines.LineEnd(Text(c), pos, room)
      == if c[pos] == '\n' as int then pos + 1 else Lines.LineEnd(Text(c), pos + 1, room - 1)
  {
  }

  lemma NoMore(text: string, pos: nat, room: nat)
    requires pos <= |text| && (room == 0 || pos == |text|)
    ensures Lines.LineEnd(text, pos, room) == pos
  {
  }

  lemma NoLine(c: seq<u8>, pos: nat, max: nat)
    ensures max == 0 || pos >= |c| ==> LineAt(c, pos, max) == []
  {
  }

  lemma TheLine(c: seq<u8>, pos: nat, max: nat)
    requires max > 0 && pos < |c|
    ensures LineAt(c, pos, max) == c[pos..Lines.LineEnd(Text(c), pos, max - 1)]
  {
  }

  /** The line that starts at `pos`, as far as `max` characters with a terminator hold it. */
  function LineAt(c: seq<u8>, pos: nat, max: nat): seq<u8> {
    if max == 0 || pos >= |c| then [] else c[pos..Lines.LineEnd(Text(c), pos, max - 1)]
  }

  function Size(o: Option<Obj>): nat { if o.Some? && o.value.Regular? then |o.value.bytes| else 0 }

  /** vfs_mkdir_p creates a directory for every prefix of `path` that ends before a slash or at its end. */
  predicate CutAt(path: string, i: nat) { 0 < i <= |path| && (i == |path| || path[i] == '/') }

  predicate CutPrefix(path: string, p: string) { CutAt(path, |p|) && path[..|p|] == p }

  lemma FindAfterUnlink(nodes: seq<Node>, k: nat, p: string)
    requires k < |nodes| && nodes[k].path != p
    ensures FindNode(nodes[k := nodes[k].(used := false)], p) == FindNode(nodes, p)
  {
    var after := nodes[k := nodes[k].(used := false)];
    var i, j := FindNode(nodes, p), FindNode(after, p);
    if i < |nodes| { assert after[i] == nodes[i]; }
    if j < |after| { assert after[j] == nodes[j]; }
  }

  lemma Appended(was: seq<Node>, n: Node)
    ensures DistinctPaths(was) && FindNode(was, n.path) == |was| ==> DistinctPaths(was + [n])
    ensures DistinctBuffers(was) && (n.data == null || n.data !in Buffers(was)) ==> DistinctBuffers(was + [n])
    ensures Buffers(was + [n]) == Buffers(was) + if n.data == null then {} else {n.data}
  {
    var now := was + [n];
    forall i | 0 <= i < |now| && now[i].data != null
      ensures now[i].data in Buffers(was) + if n.data == null then {} else {n.data}
    {
      if i < |was| { InBuffers(was, i); }
    }
    forall i | 0 <= i < |was| && was[i].data != null ensures was[i].data in Buffers(now) {
      assert now[i] == was[i];
      InBuffers(now, i);
    }
    InBuffers(now, |was|);
  }

  /** A node appended for a new path is found under it; other paths are found as before or not at all. */
  lemma FindAfterAlloc(was: seq<Node>, now: seq<Node>, path: string)
    requires FindNode(was, path) == |was| && |now| == |was| + 1 && now[..|was|] == was
    requires now[|was|].used && now[|was|].path == path
    ensures FindNode(now, path) == |was|
    ensures forall p :: p != path ==> FindNode(now, p) == if FindNode(was, p) == |was| then |now| else FindNode(was, p)
  {
    hide FindNode;
    assert forall i :: 0 <= i < |was| ==> now[i] == was[i];
    forall p | p != path ensures FindNode(now, p) == if FindNode(was, p) == |was| then |now| else FindNode(was, p) {
      var i, j := FindNode(was, p), FindNode(now, p);
      if i < |was| { assert now[i] == was[i]; }
      if j < |was| { assert now[j] == was[j]; }
    }
  }

  // ---- growth ------------------------------------------------------------------------------------

  /** Only block and capacity of node `k` differ. */
  ghost predicate OnlyGrown(a: seq<Node>, b: seq<Node>, k: nat) {
    && |a| == |b| && k < |a| && b[k].(data := a[k].data, cap := a[k].cap) == a[k]
    && forall i :: 0 <= i < |a| && i != k ==> b[i] == a[i]
  }

  /** A buffer that is zero behind its file holds, after the copy, the overwritten file and zeros behind it. */
  lemma PlacedBytes(before: seq<u8>, after: seq<u8>, size: nat, pos: nat, d: seq<u8>)
    requires size <= |before| && pos + |d| <= |before| && after == before[..pos] + d + before[pos + |d|..]
    requires forall i :: size <= i < |before| ==> before[i] == 0
    ensures var now := if pos + |d| > size then pos + |d| else size;
      after[..now] == Overwritten(before[..size], pos, d) && forall i :: now <= i < |after| ==> after[i] == 0
  {
    var now := if pos + |d| > size then pos + |d| else size;
    var file := Overwritten(before[..size], pos, d);
    forall i | 0 <= i < now ensures |file| == now && after[..now][i] == file[i] {
      OverwrittenAt(before[..size], pos, d, i);
    }
    OverwrittenAt(before[..size], pos, d, 0);
  }

  lemma SamePaths(a: seq<Node>, b: seq<Node>, k: nat)
    requires DistinctPaths(a) && k < |a| == |b| && b == a[k := a[k].(size := b[k].size)]
    ensures DistinctPaths(b)
  {
  }

  lemma GrownNothing(a: seq<Node>, k: nat)
    requires k < |a|
    ensures OnlyGrown(a, a, k)
  {
  }

  lemma GrownAgain(a: seq<Node>, b: seq<Node>, c: seq<Node>, k: nat)
    requires k < |b| == |c| && OnlyGrown(a, b, k) && c == b[k := b[k].(data := c[k].data, cap := c[k].cap)]
    ensures OnlyGrown(a, c, k) && c[k].used == b[k].used && c[k].isDir == b[k].isDir
  {
  }

  // ---- what Overwritten means ----------------------------------------------------------------------

  /** Byte by byte: the written range holds `d`, a gap before it holds zeros, all else stays. */
  lemma OverwrittenAt(was: seq<u8>, pos: nat, d: seq<u8>, i: nat)
    ensures var now := Overwritten(was, pos, d);
      && |now| == (if |was| > pos + |d| then |was| else pos + |d|)
      && (i < |now| ==> now[i] == if pos <= i < pos + |d| then d[i - pos] else if i < |was| then was[i] else 0)
  {
  }

  /** Two writes one behind the other are one write of both pieces. */
  lemma ConsecutiveWrites(was: seq<u8>, pos: nat, d: seq<u8>, e: seq<u8>)
    ensures Overwritten(Overwritten(was, pos, d), pos + |d|, e) == Overwritten(was, pos, d + e)
  {
    var l, r := Overwritten(Overwritten(was, pos, d), pos + |d|, e), Overwritten(was, pos, d + e);
    forall i: nat ensures |l| == |r| && (i < |l| ==> l[i] == r[i]) {
      OverwrittenAt(was, pos, d, i);
      OverwrittenAt(Overwritten(was, pos, d), pos + |d|, e, i);
      OverwrittenAt(was, pos, d + e, i);
    }
  }

  /** Reading back what was written returns it. */
  lemma ReadBackWritten(was: seq<u8>, pos: nat, d: seq<u8>)
    ensures var now := Overwritten(was, pos, d); pos + |d| <= |now| && now[pos..pos + |d|] == d
  {
    OverwrittenAt(was, pos, d, 0);
  }
}
