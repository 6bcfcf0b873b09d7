/** Whole runs of the file store of fs/vfs.c: whatever is called in whatever order, it behaves as a map from paths to
    bytes with handles into it. */
module Files {
  import opened Types
  import opened Growth
  import opened Vfs

  /** An open file as a caller sees it. `linked`: the node it was opened on has not been unlinked since. */
  datatype Handle = Handle(path: string, pos: nat, open: bool, linked: bool)

  /** What every path leads to, the number of nodes made so far, and the handles given out, in order. */
  datatype World = World(objs: map<string, Obj>, made: nat, handles: seq<Handle>)

  /** A call; handles are numbered in the order they were given out. */
  datatype Op =
    | Open(path: string, create: bool, append: bool, truncate: bool)
    | Close(h: nat)
    | Seek(h: nat, to: u32)
    | Write(h: nat, data: seq<u8>)
    | Read(h: nat, len: u32)
    | ReadLine(h: nat, max: u32)
    | Exists(path: string)
    | Unlink(path: string)
    | Mkdir(path: string)

  /** What a call answers; `Stop` where the model does not follow the code. */
  datatype Answer = GotHandle | Null | Done | Code(r: int) | Bytes(bytes: seq<u8>) | Stop

  function Empty(): World { World(map[], 0, []) }

  function Standing(w: World, path: string): Option<Obj> {
    if path in w.objs then Some(w.objs[path]) else None
  }

  function Put(w: World, path: string, o: Obj): World {
    w.(objs := w.objs[path := o], made := w.made + if path in w.objs then 0 else 1)
  }

  predicate Usable(w: World, h: nat) { h < |w.handles| && w.handles[h].open && w.handles[h].linked }

  /** What stands under the path of a handle. */
  function Target(w: World, h: nat): Option<Obj>
    requires h < |w.handles|
  {
    Standing(w, w.handles[h].path)
  }

  function BytesOf(o: Option<Obj>): seq<u8> { if o.Some? && o.value.Regular? then o.value.bytes else [] }

  function MoveTo(w: World, h: nat, pos: nat): World
    requires h < |w.handles|
  {
    w.(handles := w.handles[h := w.handles[h].(pos := pos)])
  }

  function Unlinked(hs: seq<Handle>, path: string): (r: seq<Handle>)
    ensures |r| == |hs|
    ensures forall i :: 0 <= i < |hs| ==> r[i] == hs[i].(linked := hs[i].linked && hs[i].path != path)
  {
    seq(|hs|, i requires 0 <= i < |hs| => hs[i].(linked := hs[i].linked && hs[i].path != path))
  }

  /** What vfs_open leaves before the handle is made. */
  function Entered(w: World, path: string, create: bool, truncate: bool): World {
    var o := Opened(Standing(w, path), w.made < MAX_FILES, create, truncate);
    if o == None then w else Put(w, path, o.value)
  }

  /** What a write leaves before the position moves. */
  function Written(w: World, h: nat, data: seq<u8>): World
    requires h < |w.handles|
  {
    Put(w, w.handles[h].path, Regular(Overwritten(BytesOf(Target(w, h)), w.handles[h].pos, data)))
  }

  /** The world after a call that got this answer. */
  function After(w: World, op: Op, a: Answer): World {
    match op
    case Open(path, create, append, truncate) =>
      var v := Entered(w, path, create, truncate);
      var pos := if append then Size(Standing(v, path)) else 0;
      if a == GotHandle then v.(handles := v.handles + [Handle(path, pos, true, true)]) else v
    case Close(h) => if h < |w.handles| then w.(handles := w.handles[h := w.handles[h].(open := false)]) else w
    case Seek(h, to) => if h < |w.handles| then MoveTo(w, h, to) else w
    case Write(h, data) =>
      if h < |w.handles| && a != Code(0) then MoveTo(Written(w, h, data), h, w.handles[h].pos + |data|) else w
    case Read(h, _) => if h < |w.handles| && a.Bytes? then MoveTo(w, h, w.handles[h].pos + |a.bytes|) else w
    case ReadLine(h, _) => if h < |w.handles| && a.Bytes? then MoveTo(w, h, w.handles[h].pos + |a.bytes|) else w
    case Exists(_) => w
    case Unlink(path) => World(w.objs - {path}, w.made, Unlinked(w.handles, path))
    case Mkdir(path) => if path !in w.objs && w.made < MAX_FILES then Put(w, path, Directory) else w
  }

  /** The answers a call may get. With every request for memory granted there is exactly one. */
  predicate Right(w: World, op: Op, a: Answer, granted: bool) {
    match op
    case Open(path, create, _, truncate) =>
      if Standing(Entered(w, path, create, truncate), path) == None then a == Null
      else a == GotHandle || (a == Null && !granted)
    case Close(h) => a == Done && h < |w.handles| && w.handles[h].open
    case Seek(h, _) => a == Done && h < |w.handles| && w.handles[h].open
    case Write(h, data) =>
      Usable(w, h) &&
      if data == [] || Target(w, h) == Some(Directory) then a == Code(0)
      else w.handles[h].pos + |data| <= MAX_DATA && (a == Code(|data|) || (a == Code(0) && !granted))
    case Read(h, len) =>
      Usable(w, h) &&
      var c, pos := BytesOf(Target(w, h)), w.handles[h].pos;
      if pos <= |c| then a == Bytes(c[pos..if len < |c| - pos then pos + len else |c|]) else a == Bytes(Zeros(len))
    case ReadLine(h, max) => Usable(w, h) && a == Bytes(LineAt(BytesOf(Target(w, h)), w.handles[h].pos, max))
    case Exists(path) => a == Code(if path in w.objs then 1 else 0)
    case Unlink(path) => a == Code(if path in w.objs then 0 else -1)
    case Mkdir(path) => a == Code(if path in w.objs || w.made < MAX_FILES then 0 else -1)
  }

  /** The calls at which a run stops: on a handle that is closed, or whose node is gone; a write that reaches past the
      largest file, or to a node left without a buffer; a read that starts behind the end of the file. */
  predicate Outside(w: World, op: Op, granted: bool) {
    match op
    case Close(h) => !(h < |w.handles| && w.handles[h].open)
    case Seek(h, _) => !(h < |w.handles| && w.handles[h].open)
    case ReadLine(h, _) => !Usable(w, h)
    case Write(h, data) =>
      !Usable(w, h)
      || (data != [] && w.handles[h].pos + |data| >= TWO32)
      || (data != [] && Target(w, h) != Some(Directory) && (w.handles[h].pos + |data| > MAX_DATA || !granted))
    case Read(h, len) => !Usable(w, h) || w.handles[h].pos > |BytesOf(Target(w, h))|
    case _ => false
  }

  // ---- the store and the world ------------------------------------------------------------------

  /** Handle by handle: closed, or open on the node that had its path, and that node is used exactly while linked. */
  ghost predicate LinkedTo(nodes: seq<Node>, files: seq<Option<File>>, hs: seq<Handle>) {
    && |files| == |hs|
    && forall h :: 0 <= h < |hs| ==>
      && files[h].Some? == hs[h].open
      && (hs[h].open ==> var k := files[h].value.node;
        k < |nodes| && nodes[k].path == hs[h].path && nodes[k].used == hs[h].linked)
  }

  ghost predicate Distinct(files: seq<Option<File>>) {
    forall i, j :: 0 <= i < j < |files| && files[i].Some? && files[j].Some? ==> files[i] != files[j]
  }

  ghost function Objects(files: seq<Option<File>>): set<File> {
    set h | 0 <= h < |files| && files[h].Some? :: files[h].value
  }

  ghost predicate Positions(files: seq<Option<File>>, hs: seq<Handle>)
    reads Objects(files)
  {
    |files| == |hs| && forall h :: 0 <= h < |hs| && files[h].Some? ==> files[h].value.pos == hs[h].pos
  }

  /** With memory granted every regular file has a buffer. */
  ghost predicate Buffered(nodes: seq<Node>, grants: nat -> bool) {
    !Refuses(0, grants) ==> forall i :: 0 <= i < |nodes| && !nodes[i].isDir ==> nodes[i].data != null
  }

  ghost predicate Agree(s: Store, objs: map<string, Obj>, made: nat)
    reads s, Buffers(s.nodes)
  {
    |s.nodes| == made && forall p :: s.At(p) == if p in objs then Some(objs[p]) else None
  }

  ghost predicate Tied(s: Store, files: seq<Option<File>>, w: World)
    reads s, Buffers(s.nodes), Objects(files)
  {
    && s.Valid() && Buffered(s.nodes, s.grants) && Agree(s, w.objs, w.made)
    && LinkedTo(s.nodes, files, w.handles) && Distinct(files) && Positions(files, w.handles)
  }

  lemma KeptLinked(a: seq<Node>, b: seq<Node>, files: seq<Option<File>>, hs: seq<Handle>)
    requires Kept(a, b) && LinkedTo(a, files, hs)
    ensures LinkedTo(b, files, hs)
  {
  }

  lemma KeptBuffered(a: seq<Node>, b: seq<Node>, grants: nat -> bool)
    requires Kept(a, b) && Buffered(a, grants) && |b| <= |a| + 1
    requires |b| > |a| && b[|a|].data == null ==> b[|a|].isDir || Refuses(0, grants)
    ensures Buffered(b, grants)
  {
  }

  /** A usable handle's node is what its path leads to. */
  lemma Reached(s: Store, files: seq<Option<File>>, w: World, h: nat)
    requires Tied(s, files, w)
    ensures |files| == |w.handles| && s.Valid() && (h < |files| ==> (files[h].Some? <==> w.handles[h].open))
    ensures h < |files| && files[h].Some? ==> var f := files[h].value;
      && f.node < |s.nodes| && f.pos == w.handles[h].pos && f in Objects(files) && s.nodes[f.node].path == w.handles[h].path
      && (s.nodes[f.node].used <==> w.handles[h].linked)
      && (w.handles[h].linked ==>
        Target(w, h) == Some(ObjOf(s.nodes[f.node])) && BytesOf(Target(w, h)) == Content(s.nodes[f.node]))
  {
    hide NodeOk, DistinctBuffers, Buffers, Content;
    if h < |files| && files[h].Some? && w.handles[h].linked {
      if s.nodes[files[h].value.node].isDir { NoBytes(s.nodes[files[h].value.node]); }
      FoundIsUnique(s.nodes, files[h].value.node); }
  }

  lemma NoBytes(n: Node)
    requires n.used && NodeOk(n) && n.isDir
    ensures Content(n) == []
  {
  }

  /** Handles and buffers are different things. */
  lemma Apart(s: Store, f: File)
    ensures forall b: array<u8> :: b in Buffers(s.nodes) ==> (b as object) != (f as object)
  {
  }

  lemma StaysPut(w: World, h: nat)
    requires h < |w.handles|
    ensures MoveTo(w, h, w.handles[h].pos) == w
  {
  }

  lemma HasBuffer(s: Store, k: nat)
    requires k < |s.nodes| && !s.nodes[k].isDir && Buffered(s.nodes, s.grants) && !Refuses(0, s.grants)
    ensures s.nodes[k].data != null && forall t: nat :: s.grants(t)
  {
  }

  /** The positions agree but for one handle's. */
  ghost predicate PositionsBut(files: seq<Option<File>>, hs: seq<Handle>, h: nat)
    reads Objects(files)
  {
    |files| == |hs| && forall i :: 0 <= i < |hs| && i != h && files[i].Some? ==> files[i].value.pos == hs[i].pos
  }

  /** After a step that changes nothing but the position of one handle. */
  lemma Moved(s: Store, files: seq<Option<File>>, w: World, h: nat)
    requires h < |files| && files[h].Some? && PositionsBut(files, w.handles, h) && Distinct(files)
    requires s.Valid() && Buffered(s.nodes, s.grants) && Agree(s, w.objs, w.made) && LinkedTo(s.nodes, files, w.handles)
    ensures Tied(s, files, MoveTo(w, h, files[h].value.pos))
  {
    hide Agree, Store.Valid, Buffers, Buffered;
  }

  /** A call on the store proper, or on one of its handles. */
  method Perform(s: Store, files: seq<Option<File>>, ghost w: World, op: Op) returns (a: Answer, now: seq<Option<File>>)
    requires Tied(s, files, w) && (op.Write? ==> |op.data| < TWO32)
    modifies s, Buffers(s.nodes), Objects(files)
    ensures a == Stop ==> Outside(w, op, !Refuses(0, s.grants)) && Tied(s, now, w)
    ensures a != Stop ==> Right(w, op, a, !Refuses(0, s.grants)) && Tied(s, now, After(w, op, a))
    ensures fresh(Buffers(s.nodes) - old(Buffers(s.nodes))) && fresh(Objects(now) - Objects(files))
  {
    hide Tied, Objects, Buffers;
    now := files;
    match op {
      case Open(path, create, append, truncate) =>
        a, now := DoOpen(s, files, w, path, create, append, truncate);
      case Close(h) =>
        a, now := DoClose(s, files, w, h);
      case Seek(h, to) =>
        a := DoSeek(s, files, w, h, to);
      case Write(h, data) =>
        a := DoWrite(s, files, w, h, data);
      case Read(h, len) =>
        a := DoRead(s, files, w, h, len);
      case ReadLine(h, max) =>
        a := DoReadLine(s, files, w, h, max);
      case Exists(path) =>
        a := DoExists(s, files, w, path);
      case Unlink(path) =>
        a := DoUnlink(s, files, w, path);
      case Mkdir(path) =>
        a := DoMkdir(s, files, w, path);
    }
  }

  lemma FindGives(nodes: seq<Node>, path: string)
    ensures var k := FindNode(nodes, path); k < |nodes| ==> nodes[k].used && nodes[k].path == path
  {
  }

  /** A fresh handle joins the others. */
  lemma Joined(nodes: seq<Node>, files: seq<Option<File>>, hs: seq<Handle>, f: File, path: string)
    requires LinkedTo(nodes, files, hs) && Distinct(files) && Positions(files, hs) && f !in Objects(files)
    requires OnPath(nodes, f, path)
    ensures var fs, now := files + [Some(f)], hs + [Handle(path, f.pos, true, true)];
      LinkedTo(nodes, fs, now) && Distinct(fs) && Positions(fs, now) && Objects(fs) == Objects(files) + {f}
  {
    var fs := files + [Some(f)];
    forall h | 0 <= h < |fs| && fs[h].Some? ensures fs[h].value in Objects(files) + {f} {
      if h < |files| { assert files[h].value in Objects(files); }
    }
    assert f in Objects(fs) by { assert fs[|files|].value == f; }
    forall g | g in Objects(files) ensures g in Objects(fs) {
      var h :| 0 <= h < |files| && files[h].Some? && files[h].value == g;
      assert fs[h].value == g;
    }
  }

  method DoOpen(s: Store, files: seq<Option<File>>, ghost w: World, path: string, create: bool, append: bool, truncate: bool)
    returns (a: Answer, now: seq<Option<File>>)
    requires Tied(s, files, w)
    modifies s, Buffers(s.nodes)
    ensures var op := Open(path, create, append, truncate);
      a != Stop && Right(w, op, a, !Refuses(0, s.grants)) && Tied(s, now, After(w, op, a))
    ensures fresh(Buffers(s.nodes) - old(Buffers(s.nodes))) && fresh(Objects(now) - Objects(files))
  {
    hide Tied, Entered, Objects, Buffers;
    var r := Enter(s, files, w, path, create, append, truncate);
    now, a := files, Null;
    if r.Some? {
      ghost var v := Entered(w, path, create, truncate);
      Joins(s, files, v, r.value, path);
      now, a := files + [r], GotHandle;
    }
  }

  /** vfs_open up to the handle, which is made but not yet given out. */
  method Enter(s: Store, files: seq<Option<File>>, ghost w: World, path: string, create: bool, append: bool, truncate: bool)
    returns (r: Option<File>)
    requires Tied(s, files, w)
    modifies s, Buffers(s.nodes)
    ensures var v := Entered(w, path, create, truncate);
      && Tied(s, files, v) && (r == None ==> Standing(v, path) == None || Refuses(0, s.grants))
      && (r.Some? ==> Standing(v, path) != None && OnPath(s.nodes, r.value, path) && r.value !in Objects(files))
      && (r.Some? ==> r.value.pos == if append then Size(Standing(v, path)) else 0)
    ensures fresh(Buffers(s.nodes) - old(Buffers(s.nodes))) && (r.Some? ==> fresh(r.value))
  {
    hide Kept, Buffers, FindNode, Buffered, Distinct, LinkedTo, Store.Valid, Agree, Opened, Refuses;
    ghost var before := s.nodes;
    ApartFromAll(s, files);
    Agreed(s, w);
    r := s.Open(path, create, append, truncate);
    OpenedStands(Standing(w, path), w.made < MAX_FILES, create, truncate);
    Agreeing(s, w, path, Opened(Standing(w, path), w.made < MAX_FILES, create, truncate));
    KeptLinked(before, s.nodes, files, w.handles);
    KeptBuffered(before, s.nodes, s.grants);
    FindGives(s.nodes, path);
  }

  lemma OpenedStands(was: Option<Obj>, slot: bool, create: bool, truncate: bool)
    ensures was != None ==> Opened(was, slot, create, truncate) != None
  {
  }

  lemma Agreed(s: Store, w: World)
    requires Agree(s, w.objs, w.made)
    ensures |s.nodes| == w.made && forall p :: s.At(p) == Standing(w, p)
  {
  }

  lemma StillAgreed(s: Store, w: World)
    requires |s.nodes| == w.made && forall p :: s.At(p) == Standing(w, p)
    ensures Agree(s, w.objs, w.made)
  {
    hide Buffers, ObjOf, FindNode;
  }

  lemma Removed(s: Store, w: World, path: string)
    requires |s.nodes| == w.made && s.At(path) == None && forall p :: p != path ==> s.At(p) == Standing(w, p)
    ensures Agree(s, w.objs - {path}, w.made)
  {
    hide Buffers, ObjOf, FindNode;
  }

  lemma SamePositions(files: seq<Option<File>>, hs: seq<Handle>, path: string)
    requires Positions(files, hs)
    ensures Positions(files, Unlinked(hs, path))
  {
  }

  lemma FewerBuffers(a: seq<Node>, b: seq<Node>, path: string)
    requires var k := FindNode(a, path); b == if k < |a| then a[k := a[k].(used := false)] else a
    ensures Buffers(b) <= Buffers(a)
  {
    forall i | 0 <= i < |b| && b[i].data != null ensures b[i].data in Buffers(a) {
      InBuffers(a, i);
    }
  }

  /** One path leads to `o` now and the others to what they did. */
  lemma Agreeing(s: Store, w: World, path: string, o: Option<Obj>)
    requires s.At(path) == o && (Standing(w, path) != None ==> o != None)
    requires forall p :: p != path ==> s.At(p) == Standing(w, p)
    requires |s.nodes| == w.made + if Standing(w, path) == None && o != None then 1 else 0
    ensures var v := if o == None then w else Put(w, path, o.value);
      Agree(s, v.objs, v.made) && Standing(v, path) == o && v.handles == w.handles
  {
    hide Buffers, ObjOf, FindNode;
  }

  ghost predicate OnPath(nodes: seq<Node>, f: File, path: string) {
    f.node < |nodes| && nodes[f.node].path == path && nodes[f.node].used
  }

  lemma ApartFromAll(s: Store, files: seq<Option<File>>)
    ensures forall f, b: array<u8> :: f in Objects(files) && b in Buffers(s.nodes) ==> (b as object) != (f as object)
  {
  }

  /** The handle made joins the others. */
  lemma Joins(s: Store, files: seq<Option<File>>, v: World, f: File, path: string)
    requires Tied(s, files, v) && OnPath(s.nodes, f, path) && f !in Objects(files)
    ensures Tied(s, files + [Some(f)], v.(handles := v.handles + [Handle(path, f.pos, true, true)]))
    ensures Objects(files + [Some(f)]) == Objects(files) + {f}
  {
    hide LinkedTo, Distinct, Positions, Objects, Agree, Store.Valid, Buffered;
    Joined(s.nodes, files, v.handles, f, path);
  }

  method DoClose(s: Store, files: seq<Option<File>>, ghost w: World, h: nat) returns (a: Answer, now: seq<Option<File>>)
    requires Tied(s, files, w)
    ensures a == Stop ==> Outside(w, Close(h), !Refuses(0, s.grants)) && Tied(s, now, w)
    ensures a != Stop ==> Right(w, Close(h), a, !Refuses(0, s.grants)) && Tied(s, now, After(w, Close(h), a))
    ensures Objects(now) <= Objects(files)
  {
    hide Agree;
    if h >= |files| || files[h] == None { return Stop, files; }
    return Done, files[h := None];
  }

  method DoSeek(s: Store, files: seq<Option<File>>, ghost w: World, h: nat, to: u32) returns (a: Answer)
    requires Tied(s, files, w)
    modifies Objects(files)
    ensures a == Stop ==> Outside(w, Seek(h, to), !Refuses(0, s.grants)) && Tied(s, files, w)
    ensures a != Stop ==> Right(w, Seek(h, to), a, !Refuses(0, s.grants)) && Tied(s, files, After(w, Seek(h, to), a))
    ensures a == Done ==> h < |files| && files[h].Some? && files[h].value.pos == to
  {
    hide Agree, LinkedTo, Store.Valid, Buffered;
    Reached(s, files, w, h);
    if h >= |files| || files[h] == None { return Stop; }
    var f := files[h].value;
    Apart(s, f);
    f.pos := to;
    Moved(s, files, w, h);
    return Done;
  }

  method DoWrite(s: Store, files: seq<Option<File>>, ghost w: World, h: nat, data: seq<u8>) returns (a: Answer)
    requires Tied(s, files, w) && |data| < TWO32
    modifies s, Buffers(s.nodes), Objects(files)
    ensures a == Stop ==> Outside(w, Write(h, data), !Refuses(0, s.grants)) && Tied(s, files, w)
    ensures a != Stop ==> Right(w, Write(h, data), a, !Refuses(0, s.grants)) && Tied(s, files, After(w, Write(h, data), a))
    ensures fresh(Buffers(s.nodes) - old(Buffers(s.nodes)))
  {
    hide Tied, Written, Store.Valid, Buffers;
    Reached(s, files, w, h);
    if h >= |files| || files[h] == None { return Stop; }
    var f := files[h].value;
    if !s.nodes[f.node].used { return Stop; }
    if data != [] && !s.nodes[f.node].isDir && f.pos + |data| > MAX_DATA { return Stop; }
    StaysPut(w, h);
    var written, outside := WriteThrough(s, files, w, h, data);
    a := if outside then Stop else Code(written);
  }

  /** vfs_write through a usable handle. */
  method WriteThrough(s: Store, files: seq<Option<File>>, ghost w: World, h: nat, data: seq<u8>)
    returns (written: nat, outside: bool)
    requires Tied(s, files, w) && |data| < TWO32 && h < |files| && files[h].Some? && Usable(w, h)
    requires data == [] || Target(w, h) == Some(Directory) || w.handles[h].pos + |data| <= MAX_DATA
    modifies s, Buffers(s.nodes), Objects(files)
    ensures written == 0 || written == |data|
    ensures Tied(s, files, MoveTo(if written == 0 then w else Written(w, h, data), h, w.handles[h].pos + written))
    ensures Target(w, h) == Some(Directory) ==> written == 0
    ensures data != [] && Target(w, h) != Some(Directory) && !Refuses(0, s.grants) ==> written == |data|
    ensures outside ==> written == 0 && data != []
    ensures outside ==> w.handles[h].pos + |data| >= TWO32 || (Target(w, h) != Some(Directory) && Refuses(0, s.grants))
    ensures fresh(Buffers(s.nodes) - old(Buffers(s.nodes)))
  {
    hide Store.Valid, NodeOk, FindNode, Overwritten, Content, Kept, Buffers, Buffered, LinkedTo, Agree;
    Reached(s, files, w, h);
    Agreed(s, w);
    var f := files[h].value;
    ghost var before := s.nodes;
    Apart(s, f);
    s.NodeCap(f.node);
    InBuffers(s.nodes, f.node);
    if !Refuses(0, s.grants) && !s.nodes[f.node].isDir { HasBuffer(s, f.node); }
    written, outside := s.Write(f, data);
    KeptLinked(before, s.nodes, files, w.handles);
    KeptBuffered(before, s.nodes, s.grants);
    if written == 0 {
      StillAgreed(s, w);
      Moved(s, files, w, h);
    } else {
      Agreeing(s, w, w.handles[h].path, s.At(w.handles[h].path));
      Moved(s, files, Written(w, h, data), h);
    }
  }

  method DoRead(s: Store, files: seq<Option<File>>, ghost w: World, h: nat, len: u32) returns (a: Answer)
    requires Tied(s, files, w)
    modifies Objects(files)
    ensures a == Stop ==> Outside(w, Read(h, len), !Refuses(0, s.grants)) && Tied(s, files, w)
    ensures a != Stop ==> Right(w, Read(h, len), a, !Refuses(0, s.grants)) && Tied(s, files, After(w, Read(h, len), a))
  {
    hide Agree, LinkedTo, Store.Valid, Buffered, Zeros, Content;
    Reached(s, files, w, h);
    if h >= |files| || files[h] == None { return Stop; }
    var f := files[h].value;
    if !s.nodes[f.node].used { return Stop; }
    Apart(s, f);
    StaysPut(w, h);
    var out, outside := s.Read(f, len);
    Moved(s, files, w, h);
    a := if outside then Stop else Bytes(out);
  }

  method DoReadLine(s: Store, files: seq<Option<File>>, ghost w: World, h: nat, max: u32) returns (a: Answer)
    requires Tied(s, files, w)
    modifies Objects(files)
    ensures a == Stop ==> Outside(w, ReadLine(h, max), !Refuses(0, s.grants)) && Tied(s, files, w)
    ensures a != Stop ==>
      Right(w, ReadLine(h, max), a, !Refuses(0, s.grants)) && Tied(s, files, After(w, ReadLine(h, max), a))
  {
    hide Agree, LinkedTo, Store.Valid, Buffered, LineAt, Content;
    Reached(s, files, w, h);
    if h >= |files| || files[h] == None { return Stop; }
    var f := files[h].value;
    if !s.nodes[f.node].used { return Stop; }
    Apart(s, f);
    var line := s.ReadLine(f, max);
    Moved(s, files, w, h);
    a := Bytes(line);
  }

  method DoExists(s: Store, files: seq<Option<File>>, ghost w: World, path: string) returns (a: Answer)
    requires Tied(s, files, w)
    ensures a != Stop && Right(w, Exists(path), a, !Refuses(0, s.grants)) && Tied(s, files, After(w, Exists(path), a))
  {
    hide Store.Valid, ObjOf, LinkedTo, FindNode, Buffered, Distinct;
    assert s.At(path) == Standing(w, path);
    var k := s.Find(path);
    a := Code(if k < |s.nodes| then 1 else 0);
  }

  method DoUnlink(s: Store, files: seq<Option<File>>, ghost w: World, path: string) returns (a: Answer)
    requires Tied(s, files, w)
    modifies s
    ensures a != Stop && Right(w, Unlink(path), a, !Refuses(0, s.grants)) && Tied(s, files, After(w, Unlink(path), a))
    ensures fresh(Buffers(s.nodes) - old(Buffers(s.nodes)))
  {
    hide Store.Valid, ObjOf, LinkedTo, FindNode, Buffered, Distinct, Agree, Unlinked, Buffers;
    ghost var before := s.nodes;
    Agreed(s, w);
    assert DistinctPaths(before) by { s.Paths(); }
    var r := s.Unlink(path);
    UnlinkedLinked(before, path, files, w.handles);
    UnlinkedBuffered(before, path, s.grants);
    Removed(s, w, path);
    SamePositions(files, w.handles, path);
    FewerBuffers(before, s.nodes, path);
    a := Code(r);
  }

  lemma UnlinkedBuffered(nodes: seq<Node>, path: string, grants: nat -> bool)
    requires Buffered(nodes, grants)
    ensures var k := FindNode(nodes, path);
      Buffered(if k < |nodes| then nodes[k := nodes[k].(used := false)] else nodes, grants)
  {
  }

  /** Once a path's node is unlinked, the handles on that path are the ones that lose theirs. */
  lemma UnlinkedLinked(nodes: seq<Node>, path: string, files: seq<Option<File>>, hs: seq<Handle>)
    requires DistinctPaths(nodes) && LinkedTo(nodes, files, hs)
    ensures var k := FindNode(nodes, path);
      LinkedTo(if k < |nodes| then nodes[k := nodes[k].(used := false)] else nodes, files, Unlinked(hs, path))
  {
    var k := FindNode(nodes, path);
    forall h | 0 <= h < |hs| && hs[h].open ensures hs[h].path == path && hs[h].linked ==> files[h].value.node == k {
      if hs[h].linked { FoundIsUnique(nodes, files[h].value.node); }
    }
  }

  method DoMkdir(s: Store, files: seq<Option<File>>, ghost w: World, path: string) returns (a: Answer)
    requires Tied(s, files, w)
    modifies s
    ensures a != Stop && Right(w, Mkdir(path), a, !Refuses(0, s.grants)) && Tied(s, files, After(w, Mkdir(path), a))
    ensures fresh(Buffers(s.nodes) - old(Buffers(s.nodes)))
  {
    hide Store.Valid, Kept, ObjOf, Buffers, FindNode, Buffered, LinkedTo, Agree;
    ghost var before := s.nodes;
    Agreed(s, w);
    var r := s.Mkdir(path);
    Agreeing(s, w, path, s.At(path));
    SamePut(w, path);
    KeptLinked(before, s.nodes, files, w.handles);
    KeptBuffered(before, s.nodes, s.grants);
    a := Code(r);
  }

  lemma SamePut(w: World, path: string)
    ensures path in w.objs ==> Put(w, path, w.objs[path]) == w
  {
  }

  // ---- whole runs -------------------------------------------------------------------------------

  /** The world after the calls `ops`, answered `as`. */
  function Run(w: World, ops: seq<Op>, answers: seq<Answer>): World
    requires |ops| == |answers|
    decreases |ops|
  {
    if ops == [] then w else Run(After(w, ops[0], answers[0]), ops[1..], answers[1..])
  }

  /** Every answer is one the map may give at that point. */
  predicate AllRight(w: World, ops: seq<Op>, answers: seq<Answer>, granted: bool)
    requires |ops| == |answers|
    decreases |ops|
  {
    ops == [] ||
    (Right(w, ops[0], answers[0], granted) && AllRight(After(w, ops[0], answers[0]), ops[1..], answers[1..], granted))
  }

  lemma {:induction false} RunAppend(w: World, ops: seq<Op>, answers: seq<Answer>, op: Op, a: Answer, granted: bool)
    requires |ops| == |answers|
    ensures Run(w, ops + [op], answers + [a]) == After(Run(w, ops, answers), op, a)
    ensures AllRight(w, ops + [op], answers + [a], granted)
       <==> AllRight(w, ops, answers, granted) && Right(Run(w, ops, answers), op, a, granted)
    decreases |ops|
  {
    hide After, Right;
    if ops == [] {
      assert [op][1..] == [] && [a][1..] == [] && ops + [op] == [op] && answers + [a] == [a];
    } else {
      HeadAndTail(ops, [op]);
      HeadAndTail(answers, [a]);
      RunAppend(After(w, ops[0], answers[0]), ops[1..], answers[1..], op, a, granted);
    }
  }

  /** With every request for memory granted, the calls determine their answers. */
  lemma {:induction false} OneRun(w: World, ops: seq<Op>, a: seq<Answer>, b: seq<Answer>)
    requires |ops| == |a| == |b| && AllRight(w, ops, a, true) && AllRight(w, ops, b, true)
    ensures a == b
    decreases |ops|
  {
    hide After;
    if ops != [] {
      OneRun(After(w, ops[0], a[0]), ops[1..], a[1..], b[1..]);
      assert a == [a[0]] + a[1..] && b == [b[0]] + b[1..];
    }
  }

  /** No handle is on that path. */
  predicate NoHandle(w: World, path: string) { forall h :: 0 <= h < |w.handles| ==> w.handles[h].path != path }

  predicate Names(op: Op, path: string) { (op.Open? || op.Unlink? || op.Mkdir?) && op.path == path }

  lemma StepElsewhere(w: World, op: Op, a: Answer, path: string)
    requires NoHandle(w, path) && !Names(op, path)
    ensures var v := After(w, op, a); NoHandle(v, path) && Standing(v, path) == Standing(w, path)
  {
    hide Opened, Overwritten;
  }

  /** What no call names and no handle is on stays as it is over a whole run. */
  lemma {:induction false} UnnamedStays(w: World, ops: seq<Op>, answers: seq<Answer>, path: string)
    requires |ops| == |answers| && forall h :: 0 <= h < |w.handles| ==> w.handles[h].path != path
    requires forall op :: op in ops ==> !((op.Open? || op.Unlink? || op.Mkdir?) && op.path == path)
    ensures Standing(Run(w, ops, answers), path) == Standing(w, path)
    decreases |ops|
  {
    hide After, Standing;
    if ops != [] {
      assert ops[0] in ops;
      StepElsewhere(w, ops[0], answers[0], path);
      UnnamedStays(After(w, ops[0], answers[0]), ops[1..], answers[1..], path);
    }
  }

  // ---- what the answers mean to a caller -----------------------------------------------------------

  lemma TwoCalls(w: World, op: Op, a: Answer, op': Op, a': Answer, granted: bool)
    ensures Run(w, [op, op'], [a, a']) == After(After(w, op, a), op', a')
    ensures AllRight(w, [op, op'], [a, a'], granted)
       <==> Right(w, op, a, granted) && Right(After(w, op, a), op', a', granted)
  {
    hide After, Right;
    OneCall(After(w, op, a), op', a', granted);
    assert [op, op'][1..] == [op'] && [a, a'][1..] == [a'];
  }

  lemma OneCall(w: World, op: Op, a: Answer, granted: bool)
    ensures Run(w, [op], [a]) == After(w, op, a) && (AllRight(w, [op], [a], granted) <==> Right(w, op, a, granted))
  {
    hide After, Right;
    assert [op][1..] == [] && [a][1..] == [];
  }

  /** Saving a file: after a truncating open and one accepted write the path leads to exactly the bytes written,
      whatever stood there before. */
  lemma SavedWhole(w: World, path: string, create: bool, append: bool, d: seq<u8>, granted: bool)
    requires w.made <= 256 && d != [] && Standing(w, path) != Some(Directory)
    requires AllRight(w, [Open(path, create, append, true), Write(|w.handles|, d)], [GotHandle, Code(|d|)], granted)
    ensures Standing(Run(w, [Open(path, create, append, true), Write(|w.handles|, d)], [GotHandle, Code(|d|)]), path)
      == Some(Regular(d))
  {
    TwoCalls(w, Open(path, create, append, true), GotHandle, Write(|w.handles|, d), Code(|d|), granted);
    Fresh(d);
  }

  lemma Fresh(d: seq<u8>)
    ensures Overwritten([], 0, d) == d
  {
  }

  /** Appending to a file: an appending open and one accepted write put the bytes behind those that stood there. */
  lemma AppendedBehind(w: World, path: string, create: bool, was: seq<u8>, d: seq<u8>, granted: bool)
    requires d != [] && Standing(w, path) == Some(Regular(was))
    requires AllRight(w, [Open(path, create, true, false), Write(|w.handles|, d)], [GotHandle, Code(|d|)], granted)
    ensures Standing(Run(w, [Open(path, create, true, false), Write(|w.handles|, d)], [GotHandle, Code(|d|)]), path)
      == Some(Regular(was + d))
  {
    TwoCalls(w, Open(path, create, true, false), GotHandle, Write(|w.handles|, d), Code(|d|), granted);
    assert Overwritten(was, |was|, d) == was + d;
  }

  /** An open that neither appends nor truncates starts at the first byte and leaves what stands there. */
  lemma OpenedAtStart(w: World, path: string, create: bool, was: seq<u8>, len: u32, a: Answer, granted: bool)
    requires Standing(w, path) == Some(Regular(was)) && len <= |was|
    requires AllRight(w, [Open(path, create, false, false), Read(|w.handles|, len)], [GotHandle, a], granted)
    ensures a == Bytes(was[..len])
  {
    TwoCalls(w, Open(path, create, false, false), GotHandle, Read(|w.handles|, len), a, granted);
  }

  /** What was written is what is read at that place, through the same handle or another one on the path. */
  lemma WrittenIsRead(w: World, h: nat, g: nat, d: seq<u8>, a: Answer, granted: bool)
    requires h < |w.handles| && g < |w.handles| && w.handles[h].path == w.handles[g].path
    requires 0 < |d| < TWO32 && w.handles[h].pos < TWO32 && Standing(w, w.handles[h].path) != Some(Directory)
    requires Right(w, Write(h, d), Code(|d|), granted)
    requires AllRight(After(w, Write(h, d), Code(|d|)), [Seek(g, w.handles[h].pos), Read(g, |d|)], [Done, a], granted)
    ensures a == Bytes(d)
  {
    TwoCalls(After(w, Write(h, d), Code(|d|)), Seek(g, w.handles[h].pos), Done, Read(g, |d|), a, granted);
    ReadBackWritten(BytesOf(Target(w, h)), w.handles[h].pos, d);
  }

  /** Reading on: two reads one behind the other are one. */
  lemma ReadsGoOn(w: World, h: nat, m: u32, n: u32, a: seq<u8>, b: seq<u8>, c: seq<u8>, granted: bool)
    requires h < |w.handles| && w.handles[h].pos <= |BytesOf(Target(w, h))| && m + n < TWO32
    requires AllRight(w, [Read(h, m), Read(h, n)], [Bytes(a), Bytes(b)], granted)
    requires Right(w, Read(h, m + n), Bytes(c), granted)
    ensures a + b == c
  {
    TwoCalls(w, Read(h, m), Bytes(a), Read(h, n), Bytes(b), granted);
  }

  /** A path unlinked is gone, and its handles are unusable; one made stands; an unknown one is not opened. */
  lemma GoneAndMade(w: World, path: string, a: Answer, b: Answer, granted: bool)
    ensures AllRight(w, [Unlink(path), Exists(path)], [a, b], granted) ==> b == Code(0)
    ensures AllRight(w, [Mkdir(path), Exists(path)], [a, b], granted) ==> (b == Code(1) <==> a == Code(0))
    ensures AllRight(w, [Unlink(path), Open(path, false, false, false)], [a, b], granted) ==> b == Null
    ensures forall h :: 0 <= h < |w.handles| && w.handles[h].path == path ==> !Usable(After(w, Unlink(path), a), h)
  {
    TwoCalls(w, Unlink(path), a, Exists(path), b, granted);
    TwoCalls(w, Mkdir(path), a, Exists(path), b, granted);
    TwoCalls(w, Unlink(path), a, Open(path, false, false, false), b, granted);
  }

  /** What a run never stops at: calls on paths, seeking and closing open handles, and on handles whose node is there
      lines, reads that start inside the file, and, with memory granted, writes that end within a megabyte. */
  lemma NeverStops(w: World, op: Op)
    requires match op
      case Close(h) => h < |w.handles| && w.handles[h].open
      case Seek(h, _) => h < |w.handles| && w.handles[h].open
      case ReadLine(h, _) => h < |w.handles| && w.handles[h].open && w.handles[h].linked
      case Read(h, _) =>
        h < |w.handles| && w.handles[h].open && w.handles[h].linked && w.handles[h].pos <= |BytesOf(Target(w, h))|
      case Write(h, d) =>
        h < |w.handles| && w.handles[h].open && w.handles[h].linked && w.handles[h].pos + |d| <= 0x10_0000
      case _ => true
    ensures !Outside(w, op, true)
  {
  }

  /** Any sequence of calls on an empty store, up to the first call outside the model: every answer is one the map
      may give, and afterwards every path leads to what it leads to in the map. */
  method Session(grants: nat -> bool, ops: seq<Op>) returns (answers: seq<Answer>, s: Store, files: seq<Option<File>>)
    requires forall op :: op in ops && op.Write? ==> |op.data| < TWO32
    ensures |answers| <= |ops| && AllRight(Empty(), ops[..|answers|], answers, !Refuses(0, grants))
    ensures var w := Run(Empty(), ops[..|answers|], answers);
      Tied(s, files, w) && (|answers| < |ops| ==> Outside(w, ops[|answers|], !Refuses(0, grants)))
    ensures forall p :: s.At(p) == Standing(Run(Empty(), ops[..|answers|], answers), p)
  {
    hide After, Right, Outside, Tied;
    s := new Store(grants);
    files, answers := [], [];
    ghost var granted := !Refuses(0, grants);
    Nothing(s);
    while |answers| < |ops|
      invariant |answers| <= |ops| && s.grants == grants && fresh(s) && fresh(Buffers(s.nodes)) && fresh(Objects(files))
      invariant AllRight(Empty(), ops[..|answers|], answers, granted)
      invariant Tied(s, files, Run(Empty(), ops[..|answers|], answers))
      decreases |ops| - |answers|
    {
      var n := |answers|;
      var a, now := Perform(s, files, Run(Empty(), ops[..n], answers), ops[n]);
      files := now;
      if a == Stop { break; }
      assert ops[..n + 1] == ops[..n] + [ops[n]];
      RunAppend(Empty(), ops[..n], answers, ops[n], a, granted);
      answers := answers + [a];
    }
    SameEverywhere(s, files, Run(Empty(), ops[..|answers|], answers));
  }

  lemma SameEverywhere(s: Store, files: seq<Option<File>>, w: World)
    requires Tied(s, files, w)
    ensures forall p :: s.At(p) == Standing(w, p)
  {
  }

  lemma Nothing(s: Store)
    requires s.nodes == []
    ensures Tied(s, [], Empty())
  {
  }
}
