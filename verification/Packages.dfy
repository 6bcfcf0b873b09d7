/** The package cache and installed-packages database of apps/pkg/pkg.c, updated in place by
    install, remove and update, with the flags in memory always telling what the file says. */
module Packages {
  import opened Types
  import opened Lines
  import opened Resolver

  const LINE_MAX: nat := 255
  const NAME_MAX: nat := 62
  const VERSION_MAX: nat := 30
  const DB_LINES: nat := 256

  datatype Entry = Entry(name: string, version: string, deps: seq<string>, installed: bool) {
    function Info(): (p: Pkg)
      ensures p.name == name && p.version == version && p.deps == deps
    {
      Pkg(name, version, deps)
    }
  }

  /** What parse_packages leaves in the fixed-size fields: names and versions cut to their field, names
      without the characters that structure the database. */
  predicate EntryOk(e: Entry) { FieldsOk(e.name, e.version) }

  predicate FieldsOk(name: string, version: string) {
    && |name| <= NAME_MAX && '\t' !in name && '\n' !in name && (name == [] || name[0] != ' ')
    && |version| <= VERSION_MAX && '\n' !in version
  }

  ghost function Catalog(cache: seq<Entry>): (c: seq<Pkg>)
    ensures |c| == |cache| && forall i :: 0 <= i < |c| ==> c[i] == cache[i].Info()
  {
    if cache == [] then [] else [cache[0].Info()] + Catalog(cache[1..])
  }

  ghost function InstalledNames(cache: seq<Entry>): set<string> {
    set e | e in cache && e.installed :: e.name
  }

  const STAMP: string := "\tinstalado"

  /** The line db_mark_installed writes: ksnprintf keeps 254 characters of it. */
  function LineFor(name: string, version: string): string {
    var l := name + "\t" + (version + STAMP) + "\n";
    if |l| < LINE_MAX then l else l[..LINE_MAX - 1]
  }

  function Cut(s: string, n: nat): string { if |s| <= n then s else s[..n] }

  /** The cache after db_mark_installed: flag and version of every entry of that name. */
  function Marked(cache: seq<Entry>, name: string, version: string): (r: seq<Entry>)
    ensures |r| == |cache|
    ensures forall i :: 0 <= i < |r| ==>
      r[i] == if cache[i].name == name then cache[i].(installed := true, version := Cut(version, VERSION_MAX)) else cache[i]
  {
    if cache == [] then []
    else [if cache[0].name == name then cache[0].(installed := true, version := Cut(version, VERSION_MAX)) else cache[0]]
         + Marked(cache[1..], name, version)
  }

  /** Some line of the database is headed by `name`. */
  ghost predicate Heads(lines: seq<string>, name: string) {
    exists l :: l in lines && Key(l) == Some(name)
  }

  /** Each flag is true exactly when its name heads a line. */
  ghost predicate Agree(cache: seq<Entry>, lines: seq<string>) {
    forall e :: e in cache ==> (e.installed <==> Heads(lines, e.name))
  }

  lemma LineForOk(name: string, version: string)
    requires FieldsOk(name, version)
    ensures LineFor(name, version) == name + "\t" + version + "\tinstalado" + "\n"
    ensures IsLine(LineFor(name, version), LINE_MAX) && Key(LineFor(name, version)) == Some(name)
  {
    StampPlain();
    hide STAMP, Key;
    var stem := name + "\t" + (version + STAMP);
    assert (stem + "\n")[..|stem|] == stem;
    assert name + "\t" + ((version + STAMP) + "\n") == stem + "\n";
    KeyOfWritten(name, (version + STAMP) + "\n");
    assert LineFor(name, version) == stem + "\n";
    StampIs(name + "\t", version);
  }

  lemma StampIs(a: string, b: string)
    ensures a + (b + STAMP) + "\n" == a + b + "\tinstalado" + "\n"
  {
  }

  /** A written line, trimmed as the readers do, is the name, a tab, the version and the stamp. */
  lemma LineReadsBack(name: string, version: string)
    requires |name| <= 62 && '\t' !in name && '\n' !in name && (name == [] || name[0] != ' ')
    requires |version| <= 30 && '\n' !in version
    ensures var t := Trim(LineFor(name, version));
      && t == name + "\t" + version + "\tinstalado" && t + "\n" == LineFor(name, version)
      && FirstTab(t) == |name| && t[..|name|] == name && t[|name| + 1..|name| + 1 + |version|] == version
  {
    LineForOk(name, version);
    hide LineFor, Trim;
    var t := name + "\t" + version + "\tinstalado";
    Column(name, version, "\tinstalado");
    LineOf(t);
    FirstTabIs(t, |name|);
  }

  lemma Column(a: string, b: string, c: string)
    ensures var t := a + "\t" + b + c; t[..|a|] == a && t[|a|] == '\t' && t[|a| + 1..|a| + 1 + |b|] == b
  {
  }

  lemma LineOf(t: string)
    requires t != "" && t[0] != ' ' && t[|t| - 1] == 'o'
    ensures Trim(t + "\n") == t
  {
    var l := t + "\n";
    assert l[..|t|] == t && l[0] == t[0] && l[|t| - 1] == t[|t| - 1] && l[|t|] == '\n';
    TrimIs(l, 0, |t|);
  }

  lemma StampPlain()
    ensures |STAMP| == 10 && '\n' !in STAMP
  {
  }

  lemma HeadsAppend(lines: seq<string>, l: string, name: string)
    ensures Heads(lines + [l], name) <==> Heads(lines, name) || Key(l) == Some(name)
  {
    if Heads(lines, name) {
      var x :| x in lines && Key(x) == Some(name);
      assert x in lines + [l];
    }
    assert l in lines + [l];
  }

  lemma MarkedAgrees(cache: seq<Entry>, lines: seq<string>, name: string, version: string)
    requires Agree(cache, lines) && FieldsOk(name, version)
    ensures Agree(Marked(cache, name, version), lines + [LineFor(name, version)])
  {
    hide Heads, Key, LineFor, Cut;
    LineForOk(name, version);
    var r := Marked(cache, name, version);
    forall e | e in r ensures e.installed <==> Heads(lines + [LineFor(name, version)], e.name) {
      var i :| 0 <= i < |r| && r[i] == e;
      assert cache[i] in cache;
      HeadsAppend(lines, LineFor(name, version), e.name);
    }
  }

  lemma MarkedOk(cache: seq<Entry>, name: string, version: string)
    requires (forall e :: e in cache ==> EntryOk(e)) && FieldsOk(name, version)
    ensures forall e :: e in Marked(cache, name, version) ==> EntryOk(e)
  {
    forall e | e in Marked(cache, name, version) ensures EntryOk(e) {
      var r := Marked(cache, name, version);
      var i :| 0 <= i < |r| && r[i] == e;
      assert cache[i] in cache;
    }
  }

  /** Marking adds one name to the installed set. */
  lemma MarkedInstalls(cache: seq<Entry>, name: string, version: string)
    requires Search(Catalog(cache), name).Some?
    ensures InstalledNames(Marked(cache, name, version)) == InstalledNames(cache) + {name}
  {
    hide Marked, Catalog, Search;
    var r := Marked(cache, name, version);
    forall n | n in InstalledNames(r) ensures n in InstalledNames(cache) + {name} {
      var e :| e in r && e.installed && e.name == n;
      var i :| 0 <= i < |r| && r[i] == e;
      assert cache[i] in cache;
    }
    forall n | n in InstalledNames(cache) ensures n in InstalledNames(r) {
      var e :| e in cache && e.installed && e.name == n;
      var i :| 0 <= i < |cache| && cache[i] == e;
      assert r[i] in r;
    }
    var p := Search(Catalog(cache), name).value;
    var i :| 0 <= i < |cache| && Catalog(cache)[i] == p;
    assert r[i] in r;
  }

  /** Marking a package with its own version changes no search result. */
  lemma {:induction false} MarkedKeepsSearch(cache: seq<Entry>, name: string, version: string, n: string)
    requires |version| <= VERSION_MAX
    requires n == name ==> var p := Search(Catalog(cache), name); p.Some? ==> p.value.version == version
    ensures Search(Catalog(Marked(cache, name, version)), n) == Search(Catalog(cache), n)
  {
    if cache != [] && cache[0].name != n {
      MarkedKeepsSearch(cache[1..], name, version, n);
    }
  }

  // ---- pkg_remove ------------------------------------------------------------------------------

  /** The lines kept by pkg_remove, trimmed and ended with a newline again. */
  function Kept(lines: seq<string>, name: string): seq<string> {
    if lines == [] then []
    else if Key(lines[0]) == Some(name) then Kept(lines[1..], name)
    else [Trim(lines[0]) + "\n"] + Kept(lines[1..], name)
  }

  function Keys(lines: seq<string>): seq<Option<string>> {
    if lines == [] then [] else [Key(lines[0])] + Keys(lines[1..])
  }

  function Without(keys: seq<Option<string>>, name: string): seq<Option<string>> {
    if keys == [] then []
    else if keys[0] == Some(name) then Without(keys[1..], name)
    else [keys[0]] + Without(keys[1..], name)
  }

  /** Removing keeps every other line's name, in order, and no line of the removed name. */
  lemma {:induction false} KeptKeys(lines: seq<string>, name: string)
    ensures Keys(Kept(lines, name)) == Without(Keys(lines), name)
  {
    if lines != [] {
      KeptKeys(lines[1..], name);
      KeyOfTrimmed(lines[0]);
    }
  }

  lemma {:induction false} KeptHeads(lines: seq<string>, name: string, n: string)
    ensures Heads(Kept(lines, name), n) <==> n != name && Heads(lines, n)
  {
    if lines != [] {
      KeptHeads(lines[1..], name, n);
      KeyOfTrimmed(lines[0]);
      HeadsCons(lines, n);
      if Key(lines[0]) != Some(name) { HeadsCons(Kept(lines, name), n); }
    }
  }

  lemma HeadsCons(lines: seq<string>, n: string)
    requires lines != []
    ensures Heads(lines, n) <==> Key(lines[0]) == Some(n) || Heads(lines[1..], n)
  {
    if Heads(lines[1..], n) {
      var l :| l in lines[1..] && Key(l) == Some(n);
      assert l in lines;
    }
    if Heads(lines, n) {
      var l :| l in lines && Key(l) == Some(n);
      assert l == lines[0] || l in lines[1..];
    }
  }

  lemma {:induction false} KeptAreLines(lines: seq<string>, name: string)
    requires forall l :: l in lines ==> IsLine(l, LINE_MAX)
    ensures forall l :: l in Kept(lines, name) ==> IsLine(l, LINE_MAX)
  {
    if lines != [] {
      KeptAreLines(lines[1..], name);
      TrimKeepsLine(lines[0], LINE_MAX);
    }
  }

  lemma {:induction false} KeptAppend(lines: seq<string>, l: string, name: string)
    ensures Kept(lines + [l], name) == Kept(lines, name) + Kept([l], name)
  {
    hide Key, Trim;
    if lines == [] {
      assert lines + [l] == [l];
    } else {
      assert (lines + [l])[1..] == lines[1..] + [l];
      KeptAppend(lines[1..], l, name);
    }
  }

  /** The cache after pkg_remove. */
  function Cleared(cache: seq<Entry>, name: string): (r: seq<Entry>)
    ensures |r| == |cache|
    ensures forall i :: 0 <= i < |r| ==> r[i] == if cache[i].name == name then cache[i].(installed := false) else cache[i]
  {
    if cache == [] then []
    else [if cache[0].name == name then cache[0].(installed := false) else cache[0]] + Cleared(cache[1..], name)
  }

  lemma ClearedAgrees(cache: seq<Entry>, lines: seq<string>, name: string)
    requires Agree(cache, lines)
    ensures Agree(Cleared(cache, name), Kept(lines, name))
  {
    var r := Cleared(cache, name);
    forall e | e in r ensures e.installed <==> Heads(Kept(lines, name), e.name) {
      var i :| 0 <= i < |r| && r[i] == e;
      assert cache[i] in cache;
      KeptHeads(lines, name, e.name);
    }
  }

  // ---- the manager -----------------------------------------------------------------------------

  /** The lines a log of installations leaves in the database. */
  function LinesFor(log: seq<Pkg>): seq<string> {
    if log == [] then [] else [LineFor(log[0].name, log[0].version)] + LinesFor(log[1..])
  }

  lemma {:induction false} LinesForAppend(a: seq<Pkg>, b: seq<Pkg>)
    ensures LinesFor(a + b) == LinesFor(a) + LinesFor(b)
  {
    hide LineFor;
    if a == [] {
      assert a + b == b;
    } else {
      assert (a + b)[1..] == a[1..] + b;
      LinesForAppend(a[1..], b);
    }
  }

  /** The packages of another name. */
  function Others(book: seq<Pkg>, name: string): seq<Pkg> {
    if book == [] then [] else (if book[0].name == name then [] else [book[0]]) + Others(book[1..], name)
  }

  /** Removing from a file of written lines leaves the lines of the other packages, byte for byte, in order. */
  lemma {:induction false} KeptOfWritten(book: seq<Pkg>, name: string)
    requires forall p :: p in book ==> FieldsOk(p.name, p.version)
    ensures Kept(LinesFor(book), name) == LinesFor(Others(book, name))
  {
    hide Key, Trim, LineFor;
    if book != [] {
      var p := book[0];
      assert p in book;
      LineForOk(p.name, p.version);
      LineReadsBack(p.name, p.version);
      KeptOfWritten(book[1..], name);
      var o, rest := Others(book, name), Others(book[1..], name);
      assert LinesFor(book)[1..] == LinesFor(book[1..]) && LinesFor(book)[0] == LineFor(p.name, p.version);
      if p.name == name {
        assert o == rest;
      } else {
        assert o == [p] + rest && o[0] == p && o[1..] == rest;
        assert LinesFor(o) == [LineFor(p.name, p.version)] + LinesFor(rest);
      }
    }
  }

  /** One line for each package of `book`, no name twice. */
  ghost predicate Ledger(lines: seq<string>, book: seq<Pkg>) {
    && lines == LinesFor(book) && (forall p :: p in book ==> FieldsOk(p.name, p.version))
    && forall i, j :: 0 <= i < j < |book| ==> book[i].name != book[j].name
  }

  lemma {:induction false} InOthers(book: seq<Pkg>, name: string, p: Pkg)
    ensures p in Others(book, name) <==> p in book && p.name != name
  {
    if book != [] {
      InOthers(book[1..], name, p);
      assert book == [book[0]] + book[1..];
    }
  }

  lemma {:induction false} OthersDiffer(book: seq<Pkg>, name: string)
    requires forall i, j :: 0 <= i < j < |book| ==> book[i].name != book[j].name
    ensures forall i, j :: 0 <= i < j < |Others(book, name)| ==> Others(book, name)[i].name != Others(book, name)[j].name
  {
    if book != [] {
      var head, tail := book[0], book[1..];
      OthersDiffer(tail, name);
      var rest := Others(tail, name);
      assert Others(book, name) == (if head.name == name then [] else [head]) + rest;
      forall i | 0 <= i < |rest| ensures rest[i].name != head.name { HeadDiffers(book, name, rest[i]); }
    }
  }

  lemma HeadDiffers(book: seq<Pkg>, name: string, p: Pkg)
    requires book != [] && p in Others(book[1..], name)
    requires forall i, j :: 0 <= i < j < |book| ==> book[i].name != book[j].name
    ensures p.name != book[0].name
  {
    InOthers(book[1..], name, p);
    var j :| 0 <= j < |book[1..]| && book[1..][j] == p;
    assert book[j + 1] == p;
  }

  lemma {:induction false} LedgerHeads(lines: seq<string>, book: seq<Pkg>, name: string)
    requires lines == LinesFor(book) && forall p :: p in book ==> FieldsOk(p.name, p.version)
    ensures Heads(lines, name) <==> exists p :: p in book && p.name == name
    decreases |book|
  {
    hide Key, LineFor, FieldsOk, Heads;
    if book == [] {
      NoLines(name);
    } else {
      var p := book[0];
      assert p in book;
      LineForOk(p.name, p.version);
      HeadsCons(lines, name);
      LedgerHeads(lines[1..], book[1..], name);
      if q :| q in book[1..] && q.name == name { assert q in book; }
      if q :| q in book && q.name == name { assert q == p || q in book[1..]; }
    }
  }

  lemma NoLines(name: string)
    ensures !Heads([], name)
  {
  }

  /** Removing a package keeps the ledger. */
  lemma LedgerShrinks(lines: seq<string>, book: seq<Pkg>, name: string)
    requires Ledger(lines, book)
    ensures Ledger(Kept(lines, name), Others(book, name))
  {
    KeptOfWritten(book, name);
    OthersDiffer(book, name);
    forall p | p in Others(book, name) ensures FieldsOk(p.name, p.version) { InOthers(book, name, p); }
  }

  /** Installing keeps it: what is marked was not installed, so it had no line. */
  lemma LedgerGrows(cache: seq<Entry>, fetch: nat -> bool, s: State, name: string, lines: seq<string>, book: seq<Pkg>)
    requires Ledger(lines, book) && Agree(cache, lines) && s.installed == InstalledNames(cache)
    requires forall e :: e in cache ==> EntryOk(e)
    ensures var log := Resolver.PkgInstall(Catalog(cache), fetch, s, name).log;
      Ledger(lines + LinesFor(log), book + log)
  {
    var g := Catalog(cache);
    var log := Resolver.PkgInstall(g, fetch, s, name).log;
    hide Resolver.PkgInstall, LinesFor, FieldsOk, Search, Catalog, Agree;
    LinesForAppend(book, log);
    var all := book + log;
    forall k | 0 <= k < |log|
      ensures FieldsOk(log[k].name, log[k].version) && forall i :: 0 <= i < |book| ==> book[i].name != log[k].name
    {
      NewInLog(cache, fetch, s, name, lines, book, k);
    }
    forall p | p in all ensures FieldsOk(p.name, p.version) {
      var i :| 0 <= i < |all| && all[i] == p;
      if i < |book| { assert all[i] == book[i] && book[i] in book; } else { assert all[i] == log[i - |book|]; }
    }
    forall i, j | 0 <= i < j < |all| ensures all[i].name != all[j].name {
      if |book| <= i { NoPackageMarkedTwice(g, fetch, s, name, i - |book|, j - |book|); }
    }
  }

  lemma NewInLog(cache: seq<Entry>, fetch: nat -> bool, s: State, name: string, lines: seq<string>, book: seq<Pkg>, k: nat)
    requires Ledger(lines, book) && Agree(cache, lines) && s.installed == InstalledNames(cache)
    requires forall e :: e in cache ==> EntryOk(e)
    requires k < |Resolver.PkgInstall(Catalog(cache), fetch, s, name).log|
    ensures var p := Resolver.PkgInstall(Catalog(cache), fetch, s, name).log[k];
      FieldsOk(p.name, p.version) && forall i :: 0 <= i < |book| ==> book[i].name != p.name
  {
    var g := Catalog(cache);
    var log := Resolver.PkgInstall(g, fetch, s, name).log;
    hide Resolver.PkgInstall, LinesFor, FieldsOk, Search, Catalog, Heads;
    PkgInstallSound(g, fetch, s, name);
    assert SoundAt(g, After(s.installed, log[..k]), log[k]);
    AfterGrows(s.installed, log[..k]);
    var p := log[k];
    assert p in g;
    var i :| 0 <= i < |cache| && g[i] == p;
    var e := cache[i];
    assert e in cache && e.name == p.name && e.version == p.version;
    LedgerHeads(lines, book, p.name);
    assert EntryOk(e);
    assert e.installed ==> e.name in InstalledNames(cache);
    forall j | 0 <= j < |book| ensures book[j].name != p.name { assert book[j] in book; }
  }

  /** Two catalogues answer every search alike. */
  ghost predicate SameSearch(g: seq<Pkg>, c: seq<Pkg>) {
    forall n :: Search(c, n) == Search(g, n)
  }

  /** The outcome of the rest of a dependency loop, after `log` was already marked. */
  ghost function Behind(log: seq<Pkg>, o: Outcome): Outcome { Outcome(o.state, log + o.log, o.ok) }

  lemma DepsEnd(g: seq<Pkg>, fetch: nat -> bool, s: State, depth: nat)
    requires depth <= MAX_DEPTH
    ensures InstallDeps(g, fetch, s, [], depth) == Outcome(s, [], true)
  {
  }

  lemma DepsStep(g: seq<Pkg>, fetch: nat -> bool, s: State, deps: seq<string>, depth: nat)
    requires depth <= MAX_DEPTH && deps != []
    ensures InstallDeps(g, fetch, s, deps, depth) ==
      if Search(g, deps[0]).None? then Outcome(s, [], false) else
      var first := Install(g, fetch, s, Search(g, deps[0]).value, depth + 1);
      if !first.ok then first else Behind(first.log, InstallDeps(g, fetch, first.state, deps[1..], depth))
  {
  }

  lemma BehindNothing(o: Outcome)
    ensures Behind([], o) == o && LinesFor([]) == []
  {
  }

  lemma BehindBehind(a: seq<Pkg>, b: seq<Pkg>, o: Outcome)
    ensures Behind(a, Behind(b, o)) == Behind(a + b, o)
  {
    assert a + (b + o.log) == (a + b) + o.log;
  }

  lemma BehindLog(a: seq<Pkg>, o: Outcome)
    ensures Behind(a, o) == Outcome(o.state, a + o.log, o.ok)
    ensures o.log == [] ==> Behind(a, o) == Outcome(o.state, a, o.ok)
  {
  }

  /** The database text and its lines, read back by the kernel's own reader. */
  ghost predicate Stored(db: string, lines: seq<string>) {
    db == Concat(lines) && forall l :: l in lines ==> IsLine(l, LINE_MAX)
  }

  lemma StoredReadsBack(db: string, lines: seq<string>)
    requires Stored(db, lines)
    ensures LinesFrom(db, 0, LINE_MAX) == lines
  {
    assert db[0..] == db;
    ReadBack(db, 0, LINE_MAX, lines);
  }

  lemma StoredAppend(db: string, lines: seq<string>, l: string)
    requires Stored(db, lines) && IsLine(l, LINE_MAX)
    ensures Stored(db + l, lines + [l])
  {
    ConcatAppend(lines, [l]);
    assert [l][1..] == [];
  }

  class Manager {
    var cache: seq<Entry>
    var db: string
    var tries: nat
    const fetch: nat -> bool
    ghost var lines: seq<string>

    /** Every flag in memory says what the database file says. */
    ghost predicate Valid()
      reads this
    {
      Stored(db, lines) && (forall e :: e in cache ==> EntryOk(e)) && Agree(cache, lines)
    }

    ghost function St(): State
      reads this
    {
      State(InstalledNames(cache), tries)
    }

    /** A fresh system: no lists loaded, no database file. */
    constructor (fetch: nat -> bool)
      ensures Valid() && cache == [] && db == "" && this.fetch == fetch
    {
      cache, db, tries, lines := [], "", 0, [];
      this.fetch := fetch;
    }

    /** pkg_search. */
    method SearchCache(name: string) returns (r: Option<Pkg>)
      ensures r == Search(Catalog(cache), name)
    {
      ghost var c := Catalog(cache);
      hide Search, Catalog;
      var i: nat := 0;
      while i < |cache|
        invariant i <= |cache| && forall j :: 0 <= j < i ==> c[j].name != name
      {
        if cache[i].name == name {
          SearchIsFirst(c, name, i);
          return Some(cache[i].Info());
        }
        i := i + 1;
      }
      SearchIsFirst(c, name, i);
      return None;
    }

    /** db_is_installed. */
    method IsInstalled(name: string) returns (b: bool)
      requires Valid()
      ensures b <==> name in InstalledNames(cache)
      ensures b <==> exists e :: e in cache && e.name == name && e.installed
    {
      var i: nat := 0;
      while i < |cache|
        invariant i <= |cache| && forall j :: 0 <= j < i ==> cache[j].name != name
      {
        if cache[i].name == name {
          assert cache[i] in cache;
          return cache[i].installed;
        }
        i := i + 1;
      }
      return false;
    }

    /** The cache loop of db_mark_installed. */
    method MarkEntries(name: string, version: string)
      modifies `cache
      ensures cache == Marked(old(cache), name, version)
    {
      hide Marked, Cut;
      var i: nat := 0;
      ghost var goal := Marked(cache, name, version);
      while i < |cache|
        invariant i <= |cache| == |goal|
        invariant forall j :: 0 <= j < i ==> cache[j] == goal[j]
        invariant forall j :: i <= j < |cache| ==> cache[j] == old(cache)[j]
      {
        if cache[i].name == name {
          cache := cache[i := cache[i].(installed := true, version := Cut(version, VERSION_MAX))];
        }
        i := i + 1;
      }
    }

    /** db_mark_installed: one line appended to the file, then every entry of that name updated. */
    method MarkInstalled(name: string, version: string)
      requires Valid() && FieldsOk(name, version)
      modifies `cache, `db, `lines
      ensures Valid() && lines == old(lines) + [LineFor(name, version)]
      ensures cache == Marked(old(cache), name, version)
    {
      hide Agree, Stored, IsLine, FieldsOk, LineFor;
      LineForOk(name, version);
      StoredAppend(db, lines, LineFor(name, version));
      MarkedAgrees(cache, lines, name, version);
      MarkedOk(cache, name, version);
      db := db + LineFor(name, version);
      lines := lines + [LineFor(name, version)];
      MarkEntries(name, version);
    }

    /** The end of install_single, once the dependencies are in: download, extract, mark. */
    method FetchAndMark(p: Pkg, ghost g: seq<Pkg>) returns (ok: bool)
      requires Search(g, p.name) == Some(p) && SameSearch(g, Catalog(cache))
      requires Valid()
      modifies this
      ensures ok == fetch(old(tries)) && tries == old(tries) + 1
      ensures InstalledNames(cache) == old(InstalledNames(cache)) + if ok then {p.name} else {}
      ensures lines == old(lines) + if ok then [LineFor(p.name, p.version)] else []
      ensures Valid() && SameSearch(g, Catalog(cache))
    {
      hide Agree, Stored, SameSearch, Search, InstalledNames, LineFor;
      ok := fetch(tries);
      tries := tries + 1;
      if ok {
        CatalogFieldsOk(p, g);
        MarkedSame(p, g);
        MarkInstalled(p.name, p.version);
      }
    }

    /** install_single, at any depth of its own recursion. `g` is the catalogue the run started with;
        the result is that of Resolver.Install, and the database gains exactly the lines of its log. */
    method InstallSingle(p: Pkg, depth: nat, ghost g: seq<Pkg>) returns (r: int, ghost o: Outcome)
      requires depth <= MAX_DEPTH + 1 && Search(g, p.name) == Some(p) && SameSearch(g, Catalog(cache))
      requires Valid()
      modifies this
      ensures o == Install(g, fetch, old(St()), p, depth)
      ensures St() == o.state && lines == old(lines) + LinesFor(o.log)
      ensures r == if o.ok then 0 else -1
      ensures Valid() && SameSearch(g, Catalog(cache))
      decreases MAX_DEPTH + 1 - depth
    {
      hide Agree, Stored, SameSearch, Search, InstalledNames, LineFor, InstallDeps;
      if depth > MAX_DEPTH { return -1, Outcome(St(), [], false); }
      var have := IsInstalled(p.name);
      if have { return 0, Outcome(St(), [], true); }
      var ok;
      ok, o := InstallDependencies(p, depth, g);
      if !ok { return -1, o; }
      ok := FetchAndMark(p, g);
      if !ok { return -1, o.(state := St(), ok := false); }
      LinesForAppend(o.log, [p]);
      return 0, Outcome(St(), o.log + [p], true);
    }

    /** The dependency loop of install_single. */
    method InstallDependencies(p: Pkg, depth: nat, ghost g: seq<Pkg>) returns (ok: bool, ghost o: Outcome)
      requires depth <= MAX_DEPTH && SameSearch(g, Catalog(cache))
      requires Valid()
      modifies this
      ensures o == InstallDeps(g, fetch, old(St()), p.deps, depth)
      ensures St() == o.state && lines == old(lines) + LinesFor(o.log)
      ensures ok == o.ok
      ensures Valid() && SameSearch(g, Catalog(cache))
      decreases MAX_DEPTH + 1 - depth, 0
    {
      hide Agree, Stored, SameSearch, Search, InstalledNames, LineFor, LinesFor, Install, InstallDeps, Behind, Valid;
      var d: nat := 0;
      ghost var log: seq<Pkg> := [];
      assert p.deps[0..] == p.deps;
      BehindNothing(InstallDeps(g, fetch, St(), p.deps, depth));
      while d < |p.deps|
        invariant d <= |p.deps| && Valid() && SameSearch(g, Catalog(cache))
        invariant lines == old(lines) + LinesFor(log)
        invariant InstallDeps(g, fetch, old(St()), p.deps, depth)
          == Behind(log, InstallDeps(g, fetch, St(), p.deps[d..], depth))
      {
        var dep := SearchCache(p.deps[d]);
        SameSearchAt(g, p.deps[d]);
        DepsStep(g, fetch, St(), p.deps[d..], depth);
        if dep.None? {
          BehindLog(log, Outcome(St(), [], false));
          return false, Outcome(St(), log, false);
        }
        SearchIdempotent(g, p.deps[d]);
        ghost var before := St();
        var r;
        ghost var o1;
        r, o1 := InstallSingle(dep.value, depth + 1, g);
        LinesForAppend(log, o1.log);
        BehindLog(log, o1);
        BehindBehind(log, o1.log, InstallDeps(g, fetch, St(), p.deps[d + 1..], depth));
        log := log + o1.log;
        if r < 0 { return false, Outcome(St(), log, false); }
        assert p.deps[d..][1..] == p.deps[d + 1..];
        d := d + 1;
      }
      assert p.deps[d..] == [];
      DepsEnd(g, fetch, St(), depth);
      BehindLog(log, Outcome(St(), [], true));
      return true, Outcome(St(), log, true);
    }

    lemma SameSearchAt(g: seq<Pkg>, n: string)
      requires SameSearch(g, Catalog(cache))
      ensures Search(Catalog(cache), n) == Search(g, n)
    {
    }

    lemma CatalogFieldsOk(p: Pkg, g: seq<Pkg>)
      requires Valid() && SameSearch(g, Catalog(cache)) && Search(g, p.name) == Some(p)
      ensures FieldsOk(p.name, p.version) && Search(Catalog(cache), p.name) == Some(p)
    {
      assert Search(Catalog(cache), p.name) == Some(p);
      var i :| 0 <= i < |cache| && Catalog(cache)[i] == p;
      assert cache[i] in cache;
    }

    lemma MarkedSame(p: Pkg, g: seq<Pkg>)
      requires Valid() && SameSearch(g, Catalog(cache)) && Search(g, p.name) == Some(p)
      ensures SameSearch(g, Catalog(Marked(cache, p.name, p.version)))
      ensures InstalledNames(Marked(cache, p.name, p.version)) == InstalledNames(cache) + {p.name}
    {
      CatalogFieldsOk(p, g);
      MarkedInstalls(cache, p.name, p.version);
      forall n ensures Search(Catalog(Marked(cache, p.name, p.version)), n) == Search(g, n) {
        MarkedKeepsSearch(cache, p.name, p.version, n);
      }
    }

    /** pkg_install: the outcome of the resolver on the catalogue in the cache; the file gains the lines
        of exactly the packages it marked. */
    method PkgInstall(name: string) returns (r: int, ghost o: Outcome)
      requires Valid()
      modifies this
      ensures o == Resolver.PkgInstall(old(Catalog(cache)), fetch, old(St()), name)
      ensures r == if o.ok then 0 else -1
      ensures InstalledNames(cache) == o.state.installed && lines == old(lines) + LinesFor(o.log)
      ensures r == 0 ==> forall t :: old(tries) <= t < tries ==> fetch(t)
      ensures r == 0 ==> exists e :: e in cache && e.name == name && e.installed
      ensures tries <= old(tries) + |o.log| + if r == 0 then 0 else 1
      ensures Valid()
    {
      var p := SearchCache(name);
      ghost var g := Catalog(cache);
      hide Agree, Stored, EntryOk, LinesFor, Resolver.Install, Catalog;
      MarkedOnlyAfterDownload(g, fetch, St(), name);
      PkgInstallSound(g, fetch, St(), name);
      BehindNothing(Outcome(St(), [], false));
      assert lines == lines + [];
      if p.None? { return -1, Outcome(St(), [], false); }
      SearchIdempotent(g, name);
      assert SameSearch(g, Catalog(cache));
      r, o := InstallSingle(p.value, 0, g);
    }

    /** pkg_remove; `outside`: it would keep more lines than its table of DB_LINES has places for. */
    method PkgRemove(name: string) returns (r: int, outside: bool)
      requires Valid()
      modifies `cache, `db, `lines
      ensures outside <==> name in old(InstalledNames(cache)) && |Kept(old(lines), name)| > 256
      ensures r == if name in old(InstalledNames(cache)) && !outside then 0 else -1
      ensures name in old(InstalledNames(cache)) <==> exists e :: e in old(cache) && e.name == name && e.installed
      ensures r == -1 ==> db == old(db) && cache == old(cache) && lines == old(lines)
      ensures r == 0 ==> lines == Kept(old(lines), name) && cache == Cleared(old(cache), name)
      ensures Valid()
    {
      hide Agree, Stored, IsLine, EntryOk, Kept, Cleared, InstalledNames;
      var have := IsInstalled(name);
      if !have { return -1, false; }
      StoredKept(db, lines, name);
      ClearedAgrees(cache, lines, name);
      ClearedOk(cache, name);
      StoredReadsBack(db, lines);
      var kept, full := CollectOthers(db, name, lines);
      if full { return -1, true; }
      db := WriteAll(kept);
      lines := Kept(lines, name);
      ClearEntries(name);
      return 0, false;
    }

    /** The cache loop of pkg_remove. */
    method ClearEntries(name: string)
      modifies `cache
      ensures cache == Cleared(old(cache), name)
    {
      hide Cleared;
      var i: nat := 0;
      ghost var goal := Cleared(cache, name);
      while i < |cache|
        invariant i <= |cache| == |goal|
        invariant forall j :: 0 <= j < i ==> cache[j] == goal[j]
        invariant forall j :: i <= j < |cache| ==> cache[j] == old(cache)[j]
      {
        if cache[i].name == name { cache := cache[i := cache[i].(installed := false)]; }
        i := i + 1;
      }
    }

    /** pkg_update: the cache is replaced by the freshly parsed lists, then db_load sets the flags. */
    method PkgUpdate(parsed: seq<Entry>)
      requires Valid()
      requires forall e :: e in parsed ==> EntryOk(e) && !e.installed
      modifies `cache
      ensures cache == Loaded(parsed, lines)
      ensures Valid()
    {
      cache := parsed;
      StoredReadsBack(db, lines);
      LoadedAgrees(parsed, lines);
      DbLoad(lines);
    }

    /** db_load: reads the file line by line and sets the flag of every entry named at the head of one. */
    method DbLoad(ghost ls: seq<string>)
      requires LinesFrom(db, 0, LINE_MAX) == ls
      modifies `cache
      ensures cache == Loaded(old(cache), ls)
    {
      hide Loaded, Flagged, Key, LinesFrom, LineEnd;
      var pos: nat := 0;
      ghost var read: seq<string> := [];
      LoadedNone(cache);
      while pos < |db|
        invariant pos <= |db| && cache == Loaded(old(cache), read)
        invariant ls == read + LinesFrom(db, pos, LINE_MAX)
        decreases |db| - pos
      {
        var line, next := ReadLine(db, pos, LINE_MAX + 1);
        NextLine(db, pos, line, next);
        LoadedStep(old(cache), read, line);
        FlagEntries(Key(line));
        ghost var rest := LinesFrom(db, next, LINE_MAX);
        assert read + ([line] + rest) == (read + [line]) + rest;
        read := read + [line];
        pos := next;
      }
      NoMoreLines(db);
    }

    /** The body of db_load's loop behind the search for a tab: the inner loop, or nothing. */
    method FlagEntries(key: Option<string>)
      modifies `cache
      ensures cache == Flagged(old(cache), key)
    {
      hide Flagged, FlaggedTo;
      FlagEnds(cache, key);
      if key == None { return; }
      var i: nat := 0;
      while i < |cache|
        invariant i <= |cache| == |old(cache)| && cache == FlaggedTo(old(cache), key, i)
      {
        FlagStep(old(cache), key, i);
        if cache[i].name == key.value { cache := cache[i := cache[i].(installed := true)]; }
        i := i + 1;
      }
    }
  }

  lemma NoMoreLines(db: string)
    ensures LinesFrom(db, |db|, LINE_MAX) == []
  {
  }

  /** The reading loop of pkg_remove, into its table of DB_LINES lines. */
  method CollectOthers(db: string, name: string, ghost ls: seq<string>) returns (kept: seq<string>, full: bool)
    requires LinesFrom(db, 0, LINE_MAX) == ls
    ensures full <==> |Kept(ls, name)| > DB_LINES
    ensures !full ==> kept == Kept(ls, name)
  {
    hide Key, Trim, Kept, LinesFrom, LineEnd;
    kept, full := [], false;
    var pos: nat := 0;
    ghost var read: seq<string> := [];
    KeptNone(name);
    while pos < |db|
      invariant pos <= |db| && kept == Kept(read, name) && |kept| <= DB_LINES
      invariant ls == read + LinesFrom(db, pos, LINE_MAX)
      decreases |db| - pos
    {
      var line, next := ReadLine(db, pos, LINE_MAX + 1);
      NextLine(db, pos, line, next);
      ghost var rest := LinesFrom(db, next, LINE_MAX);
      assert read + ([line] + rest) == (read + [line]) + rest;
      KeptAppend(read, line, name);
      KeptOne(line, name);
      if Key(line) != Some(name) {
        if |kept| == DB_LINES {
          KeptConcat(read + [line], rest, name);
          return kept, true;
        }
        kept := kept + [Trim(line) + "\n"];
      }
      read := read + [line];
      pos := next;
    }
    NoMoreLines(db);
    assert ls == read;
  }

  lemma {:induction false} KeptConcat(a: seq<string>, b: seq<string>, name: string)
    ensures |Kept(a + b, name)| >= |Kept(a, name)|
  {
    if a != [] {
      hide Key, Trim;
      HeadAndTail(a, b);
      KeptConcat(a[1..], b, name);
    }
  }

  /** The writing loop of pkg_remove, into the truncated file. */
  method WriteAll(kept: seq<string>) returns (text: string)
    ensures text == Concat(kept)
  {
    text := "";
    var i: nat := 0;
    while i < |kept|
      invariant i <= |kept| && text == Concat(kept[..i])
    {
      assert kept[..i + 1] == kept[..i] + [kept[i]];
      ConcatAppend(kept[..i], [kept[i]]);
      ConcatOne(kept[i]);
      text := text + kept[i];
      i := i + 1;
    }
    assert kept[..i] == kept;
  }

  lemma ConcatOne(l: string)
    ensures Concat([l]) == l
  {
    assert [l][1..] == [];
  }

  lemma KeptNone(name: string)
    ensures Kept([], name) == []
  {
  }

  lemma KeptOne(l: string, name: string)
    ensures Kept([l], name) == if Key(l) == Some(name) then [] else [Trim(l) + "\n"]
  {
    assert [l][1..] == [];
  }

  lemma StoredKept(db: string, lines: seq<string>, name: string)
    requires Stored(db, lines)
    ensures Stored(Concat(Kept(lines, name)), Kept(lines, name))
  {
    KeptAreLines(lines, name);
  }

  lemma ClearedOk(cache: seq<Entry>, name: string)
    requires forall e :: e in cache ==> EntryOk(e)
    ensures forall e :: e in Cleared(cache, name) ==> EntryOk(e)
  {
    var r := Cleared(cache, name);
    forall e | e in r ensures EntryOk(e) {
      var i :| 0 <= i < |r| && r[i] == e;
      assert cache[i] in cache;
    }
  }

  /** The cache after db_load has read `lines`. */
  ghost function Loaded(cache: seq<Entry>, lines: seq<string>): (r: seq<Entry>)
    ensures |r| == |cache|
    ensures forall i :: 0 <= i < |r| ==>
      r[i] == if Heads(lines, cache[i].name) then cache[i].(installed := true) else cache[i]
  {
    seq(|cache|, i requires 0 <= i < |cache| =>
      if Heads(lines, cache[i].name) then cache[i].(installed := true) else cache[i])
  }

  lemma LoadedNone(cache: seq<Entry>)
    ensures Loaded(cache, []) == cache
  {
  }

  /** The flags after one line headed by `key` (none: a line without a tab) was seen. */
  ghost function Flagged(cache: seq<Entry>, key: Option<string>): (r: seq<Entry>)
    ensures |r| == |cache|
    ensures forall i :: 0 <= i < |r| ==>
      r[i] == if key == Some(cache[i].name) then cache[i].(installed := true) else cache[i]
  {
    if cache == [] then []
    else [if key == Some(cache[0].name) then cache[0].(installed := true) else cache[0]] + Flagged(cache[1..], key)
  }

  /** The same when only the first `i` entries were visited. */
  ghost function FlaggedTo(cache: seq<Entry>, key: Option<string>, i: nat): seq<Entry>
    requires i <= |cache|
  {
    Flagged(cache, key)[..i] + cache[i..]
  }

  lemma FlagStep(cache: seq<Entry>, key: Option<string>, i: nat)
    requires i < |cache|
    ensures |FlaggedTo(cache, key, i)| == |cache|
    ensures var now := FlaggedTo(cache, key, i);
      FlaggedTo(cache, key, i + 1) == if key == Some(now[i].name) then now[i := now[i].(installed := true)] else now
  {
    hide Flagged;
  }

  lemma FlagEnds(cache: seq<Entry>, key: Option<string>)
    ensures FlaggedTo(cache, key, 0) == cache && FlaggedTo(cache, key, |cache|) == Flagged(cache, key)
    ensures key == None ==> Flagged(cache, key) == cache
  {
    hide Flagged;
    assert cache[|cache|..] == [];
  }

  lemma LoadedStep(cache: seq<Entry>, lines: seq<string>, l: string)
    ensures Loaded(cache, lines + [l]) == Flagged(Loaded(cache, lines), Key(l))
  {
    hide Heads, Key;
    forall i | 0 <= i < |cache|
      ensures Heads(lines + [l], cache[i].name) <==> Heads(lines, cache[i].name) || Key(l) == Some(cache[i].name)
    {
      HeadsAppend(lines, l, cache[i].name);
    }
  }

  lemma NextLine(db: string, pos: nat, line: string, next: nat)
    requires pos < |db| && next == LineEnd(db, pos, LINE_MAX) && line == db[pos..next]
    ensures pos < next && LinesFrom(db, pos, LINE_MAX) == [line] + LinesFrom(db, next, LINE_MAX)
  {
  }

  lemma LoadedAgrees(parsed: seq<Entry>, lines: seq<string>)
    requires forall e :: e in parsed ==> EntryOk(e) && !e.installed
    ensures Agree(Loaded(parsed, lines), lines) && forall e :: e in Loaded(parsed, lines) ==> EntryOk(e)
  {
    var r := Loaded(parsed, lines);
    forall e | e in r ensures EntryOk(e) && (e.installed <==> Heads(lines, e.name)) {
      var i :| 0 <= i < |r| && r[i] == e;
      assert parsed[i] in parsed;
    }
  }

  /** In every reachable state the flag of an entry is what a fresh read of the file by the kernel's own
      line reader would say. */
  lemma FlagsFollowFile(m: Manager, i: nat)
    requires m.Valid() && i < |m.cache|
    ensures m.cache[i].installed <==> Heads(LinesFrom(m.db, 0, LINE_MAX), m.cache[i].name)
  {
    StoredReadsBack(m.db, m.lines);
    assert m.cache[i] in m.cache;
  }

  datatype Request = Get(name: string) | Remove(name: string) | Update(parsed: seq<Entry>)

  /** Any history of requests: at its end, and so at every point of it, the file holds exactly one line for each package
      installed and not removed since, its name, version and stamp between tabs, in the order of installation, and the
      flags say what the file says. It is followed up to a removal that would keep more lines than pkg_remove's table
      holds. */
  method Serve(m: Manager, requests: seq<Request>, ghost was: seq<Pkg>) returns (served: nat, ghost book: seq<Pkg>)
    requires m.Valid() && Ledger(m.lines, was)
    requires forall q :: q in requests && q.Update? ==> forall e :: e in q.parsed ==> EntryOk(e) && !e.installed
    modifies m
    ensures m.Valid() && served <= |requests|
    ensures served < |requests| ==> requests[served].Remove? && |Others(book, requests[served].name)| > 256
    ensures m.db == Concat(LinesFor(book)) && Ledger(m.lines, book)
    ensures forall e :: e in m.cache ==> (e.installed <==> exists p :: p in book && p.name == e.name)
    ensures forall e :: e in m.cache ==> (e.installed <==> Heads(LinesFrom(m.db, 0, 255), e.name))
  {
    hide Heads, LinesFrom, Stored, EntryOk, Kept, Ledger, LinesFor, Concat, Others, Catalog, Resolver.PkgInstall;
    served, book := 0, was;
    while served < |requests|
      invariant served <= |requests| && m.Valid() && Ledger(m.lines, book)
      decreases |requests| - served
    {
      match requests[served] {
        case Get(name) =>
          LedgerGrows(m.cache, m.fetch, m.St(), name, m.lines, book);
          ghost var o;
          var r;
          r, o := m.PkgInstall(name);
          book := book + o.log;
        case Remove(name) =>
          ghost var lines := m.lines;
          LedgerShrinks(lines, book, name);
          var r, outside := m.PkgRemove(name);
          if outside {
            LedgerLength(Kept(lines, name), Others(book, name));
            break;
          }
          if r == 0 { book := Others(book, name); }
        case Update(parsed) =>
          m.PkgUpdate(parsed);
      }
      served := served + 1;
    }
    StoredReadsBack(m.db, m.lines);
    LedgerTells(m, book);
  }

  lemma {:induction false} LinesForLength(book: seq<Pkg>)
    ensures |LinesFor(book)| == |book|
  {
    if book != [] { LinesForLength(book[1..]); }
  }

  lemma LedgerLength(lines: seq<string>, book: seq<Pkg>)
    requires Ledger(lines, book)
    ensures |lines| == |book|
  {
    LinesForLength(book);
  }

  lemma LedgerTells(m: Manager, book: seq<Pkg>)
    requires m.Valid() && Ledger(m.lines, book)
    ensures m.db == Concat(LinesFor(book))
    ensures forall e :: e in m.cache ==> (e.installed <==> exists p :: p in book && p.name == e.name)
  {
    hide Heads, LinesFor, Concat;
    forall e | e in m.cache ensures e.installed <==> exists p :: p in book && p.name == e.name {
      LedgerHeads(m.lines, book, e.name);
    }
  }

  lemma TextOfLines(lines: seq<string>)
    requires lines != [] && forall l :: l in lines ==> IsLine(l, LINE_MAX)
    ensures Concat(lines) != ""
  {
    assert lines[0] in lines;
  }

  /** A fresh system has an empty file. */
  lemma FreshLedger(m: Manager)
    requires m.Valid() && m.db == ""
    ensures Ledger(m.lines, [])
  {
    if m.lines != [] {
      TextOfLines(m.lines);
      assert false;
    }
  }
}
