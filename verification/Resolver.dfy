/** The dependency installer of apps/pkg/pkg.c as a function on catalogue and installed set:
    `install_single` with its depth bound, and what every one of its runs does. */
module Resolver {
  import opened Types

  const MAX_DEPTH: nat := 8

  /** A cache entry without its flag. */
  datatype Pkg = Pkg(name: string, version: string, deps: seq<string>)

  /** pkg_search: the first entry of that name. */
  function Search(catalog: seq<Pkg>, name: string): (r: Option<Pkg>)
    ensures r.Some? ==> r.value in catalog && r.value.name == name
    ensures r.None? ==> forall p :: p in catalog ==> p.name != name
  {
    if catalog == [] then None
    else if catalog[0].name == name then Some(catalog[0])
    else Search(catalog[1..], name)
  }

  /** The entry found is the first of its name; |catalog| stands for none. */
  lemma {:induction false} SearchIsFirst(catalog: seq<Pkg>, name: string, k: nat)
    requires k <= |catalog| && (forall j :: 0 <= j < k ==> catalog[j].name != name)
    requires (k < |catalog| ==> catalog[k].name == name)
    ensures Search(catalog, name) == if k < |catalog| then Some(catalog[k]) else None
    decreases k
  {
    if k > 0 { SearchIsFirst(catalog[1..], name, k - 1); }
  }

  /** `tries` counts downloads; whether download number t succeeds (and extracts) is `fetch(t)`. */
  datatype State = State(installed: set<string>, tries: nat)

  /** The result of a call: final state, the packages it marked, in order, and whether it returned 0. */
  datatype Outcome = Outcome(state: State, log: seq<Pkg>, ok: bool)

  function Install(catalog: seq<Pkg>, fetch: nat -> bool, s: State, p: Pkg, depth: nat): Outcome
    decreases MAX_DEPTH + 1 - depth, 1, 0
  {
    if depth > MAX_DEPTH then Outcome(s, [], false)
    else if p.name in s.installed then Outcome(s, [], true)
    else
      var d := InstallDeps(catalog, fetch, s, p.deps, depth);
      if !d.ok then d
      else if !fetch(d.state.tries) then Outcome(d.state.(tries := d.state.tries + 1), d.log, false)
      else Outcome(State(d.state.installed + {p.name}, d.state.tries + 1), d.log + [p], true)
  }

  function InstallDeps(catalog: seq<Pkg>, fetch: nat -> bool, s: State, deps: seq<string>, depth: nat): Outcome
    requires depth <= MAX_DEPTH
    decreases MAX_DEPTH + 1 - depth, 0, |deps|
  {
    if deps == [] then Outcome(s, [], true)
    else match Search(catalog, deps[0])
      case None => Outcome(s, [], false)
      case Some(e) =>
        var first := Install(catalog, fetch, s, e, depth + 1);
        if !first.ok then first
        else
          var rest := InstallDeps(catalog, fetch, first.state, deps[1..], depth);
          Outcome(rest.state, first.log + rest.log, rest.ok)
  }

  /** The installed set after the first `k` entries of a log. */
  ghost function After(installed: set<string>, log: seq<Pkg>): set<string> {
    installed + set p | p in log :: p.name
  }

  // ---- what is marked is what the log says ---------------------------------------------------

  lemma AfterAppend(i: set<string>, a: seq<Pkg>, b: seq<Pkg>)
    ensures After(After(i, a), b) == After(i, a + b)
  {
    var l, r := After(After(i, a), b), After(i, a + b);
    forall n ensures n in l <==> n in r {
      if n in l && n !in i {
        if p :| p in a && p.name == n { assert p in a + b; }
        if p :| p in b && p.name == n { assert p in a + b; }
      }
    }
  }

  lemma AfterGrows(i: set<string>, a: seq<Pkg>)
    ensures i <= After(i, a)
  {
  }

  ghost predicate Exact(s: State, o: Outcome) { o.state.installed == After(s.installed, o.log) }

  lemma {:induction false} InstallExact(catalog: seq<Pkg>, fetch: nat -> bool, s: State, p: Pkg, depth: nat)
    ensures var o := Install(catalog, fetch, s, p, depth);
      Exact(s, o) && (o.ok ==> p.name in o.state.installed)
    decreases MAX_DEPTH + 1 - depth, 1, 0
  {
    if depth <= MAX_DEPTH && p.name !in s.installed {
      InstallDepsExact(catalog, fetch, s, p.deps, depth);
      var d := InstallDeps(catalog, fetch, s, p.deps, depth);
      AfterAppend(s.installed, d.log, [p]);
    }
  }

  lemma ExactNothing(s: State)
    ensures s.installed == After(s.installed, [])
  {
  }

  lemma {:induction false} InstallDepsExact(catalog: seq<Pkg>, fetch: nat -> bool, s: State, deps: seq<string>, depth: nat)
    requires depth <= MAX_DEPTH
    ensures var o := InstallDeps(catalog, fetch, s, deps, depth);
      Exact(s, o) && (o.ok ==> forall n :: n in deps ==> n in o.state.installed)
    decreases MAX_DEPTH + 1 - depth, 0, |deps|
  {
    hide Search, Install, After;
    if deps == [] {
      ExactNothing(s);
    } else if Search(catalog, deps[0]).None? {
      ExactNothing(s);
    } else {
      var e := Search(catalog, deps[0]).value;
      InstallExact(catalog, fetch, s, e, depth + 1);
      var first := Install(catalog, fetch, s, e, depth + 1);
      if first.ok {
        InstallDepsExact(catalog, fetch, first.state, deps[1..], depth);
        var rest := InstallDeps(catalog, fetch, first.state, deps[1..], depth);
        AfterAppend(s.installed, first.log, rest.log);
        AfterGrows(first.state.installed, rest.log);
        assert deps == [deps[0]] + deps[1..];
      }
    }
  }

  // ---- downloads -------------------------------------------------------------------------------

  /** Each package marked took one download, which succeeded; at most one more was tried, and failed. */
  ghost predicate Downloaded(fetch: nat -> bool, s: State, o: Outcome) {
    && (forall k :: s.tries <= k < s.tries + |o.log| ==> fetch(k))
    && (o.state.tries == s.tries + |o.log|
        || (!o.ok && o.state.tries == s.tries + |o.log| + 1 && !fetch(s.tries + |o.log|)))
  }

  lemma {:induction false} InstallDownloads(catalog: seq<Pkg>, fetch: nat -> bool, s: State, p: Pkg, depth: nat)
    ensures var o := Install(catalog, fetch, s, p, depth); Downloaded(fetch, s, o)
    decreases MAX_DEPTH + 1 - depth, 1, 0
  {
    if depth <= MAX_DEPTH && p.name !in s.installed {
      DepsDownload(catalog, fetch, s, p.deps, depth);
    }
  }

  lemma {:induction false} DepsDownload(catalog: seq<Pkg>, fetch: nat -> bool, s: State, deps: seq<string>, depth: nat)
    requires depth <= MAX_DEPTH
    ensures Downloaded(fetch, s, InstallDeps(catalog, fetch, s, deps, depth))
    decreases MAX_DEPTH + 1 - depth, 0, |deps|
  {
    hide Search, Install;
    if deps != [] && Search(catalog, deps[0]).Some? {
      var e := Search(catalog, deps[0]).value;
      InstallDownloads(catalog, fetch, s, e, depth + 1);
      var first := Install(catalog, fetch, s, e, depth + 1);
      if first.ok { DepsDownload(catalog, fetch, first.state, deps[1..], depth); }
    }
  }

  // ---- packages still being installed ----------------------------------------------------------

  /** `c` is not installed and the first dependency of it that may be missing is `n`. */
  ghost predicate Awaits(catalog: seq<Pkg>, installed: set<string>, c: string, n: string) {
    && c !in installed && Search(catalog, c).Some?
    && exists k :: Blocks(installed, Search(catalog, c).value.deps, k, n)
  }

  /** Dependency number `k` is `n`, and all before it are installed. */
  ghost predicate Blocks(installed: set<string>, deps: seq<string>, k: nat, n: string) {
    k < |deps| && deps[k] == n && forall j :: 0 <= j < k ==> deps[j] in installed
  }

  /** Packages that wait for one another and for nobody else. */
  ghost predicate Stuck(catalog: seq<Pkg>, installed: set<string>, u: set<string>) {
    forall c {:trigger AwaitsWithin(catalog, installed, u, c)} :: c in u ==> AwaitsWithin(catalog, installed, u, c)
  }

  ghost predicate AwaitsWithin(catalog: seq<Pkg>, installed: set<string>, u: set<string>, c: string) {
    exists n :: n in u && Awaits(catalog, installed, c, n)
  }

  /** Whatever the depth left, a package of a stuck group fails, having changed and fetched nothing. */
  lemma {:induction false} StuckFails(catalog: seq<Pkg>, fetch: nat -> bool, s: State, u: set<string>, p: Pkg, depth: nat)
    requires Stuck(catalog, s.installed, u) && p.name in u && Search(catalog, p.name) == Some(p)
    ensures Install(catalog, fetch, s, p, depth) == Outcome(s, [], false)
    decreases MAX_DEPTH + 1 - depth, 1, 0
  {
    if depth <= MAX_DEPTH {
      assert AwaitsWithin(catalog, s.installed, u, p.name);
      var n :| n in u && Awaits(catalog, s.installed, p.name, n);
      var k :| Blocks(s.installed, p.deps, k, n);
      StuckDepsFail(catalog, fetch, s, u, p.deps, k, depth);
    }
  }

  lemma {:induction false} StuckDepsFail(catalog: seq<Pkg>, fetch: nat -> bool, s: State, u: set<string>,
                                         deps: seq<string>, k: nat, depth: nat)
    requires depth <= MAX_DEPTH && Stuck(catalog, s.installed, u)
    requires k < |deps| && deps[k] in u && forall j :: 0 <= j < k ==> deps[j] in s.installed
    ensures InstallDeps(catalog, fetch, s, deps, depth) == Outcome(s, [], false)
    decreases MAX_DEPTH + 1 - depth, 0, |deps|
  {
    if Search(catalog, deps[0]).Some? {
      var e := Search(catalog, deps[0]).value;
      if k == 0 {
        StuckFails(catalog, fetch, s, u, e, depth + 1);
      } else if depth + 1 <= MAX_DEPTH {
        assert Install(catalog, fetch, s, e, depth + 1) == Outcome(s, [], true);
        StuckDepsFail(catalog, fetch, s, u, deps[1..], k - 1, depth);
      }
    }
  }

  ghost function Next(chain: seq<string>, i: nat, cur: string): string {
    if i + 1 < |chain| then chain[i + 1] else cur
  }

  /** The call stack: each package on it awaits the next one, the last one awaits `cur`. */
  ghost predicate Stack(catalog: seq<Pkg>, installed: set<string>, chain: seq<string>, cur: string) {
    forall i :: 0 <= i < |chain| ==> Awaits(catalog, installed, chain[i], Next(chain, i, cur))
  }

  /** A package that is still being installed higher on the stack fails at once, leaving everything as it was. */
  lemma ReentrantCallFails(catalog: seq<Pkg>, fetch: nat -> bool, s: State, chain: seq<string>, p: Pkg, depth: nat)
    requires Stack(catalog, s.installed, chain, p.name) && p.name in chain && Search(catalog, p.name) == Some(p)
    ensures Install(catalog, fetch, s, p, depth) == Outcome(s, [], false)
  {
    var i :| 0 <= i < |chain| && chain[i] == p.name;
    var u := set j | i <= j < |chain| :: chain[j];
    forall c | c in u ensures AwaitsWithin(catalog, s.installed, u, c) {
      var j :| i <= j < |chain| && chain[j] == c;
      var n := Next(chain, j, p.name);
      assert n in u by { if j + 1 == |chain| { assert chain[i] in u; } }
      assert Awaits(catalog, s.installed, c, n);
    }
    StuckFails(catalog, fetch, s, u, p, depth);
  }

  /** Marks made in this order: every dependency of a marked package is installed before it, no package
      is marked when already installed, and what is marked is the catalogue's entry. */
  ghost predicate Sound(catalog: seq<Pkg>, installed: set<string>, log: seq<Pkg>) {
    forall k {:trigger log[k]} :: 0 <= k < |log| ==> SoundAt(catalog, After(installed, log[..k]), log[k])
  }

  ghost predicate SoundAt(catalog: seq<Pkg>, installed: set<string>, p: Pkg) {
    && p.name !in installed && Search(catalog, p.name) == Some(p)
    && forall d :: d in p.deps ==> d in installed
  }

  lemma SoundAppend(catalog: seq<Pkg>, i: set<string>, a: seq<Pkg>, b: seq<Pkg>)
    requires Sound(catalog, i, a) && Sound(catalog, After(i, a), b)
    ensures Sound(catalog, i, a + b)
  {
    var l := a + b;
    forall k | 0 <= k < |l| ensures SoundAt(catalog, After(i, l[..k]), l[k]) {
      if k < |a| {
        assert l[..k] == a[..k] && l[k] == a[k];
      } else {
        assert l[..k] == a + b[..k - |a|] && l[k] == b[k - |a|];
        AfterAppend(i, a, b[..k - |a|]);
      }
    }
  }

  lemma StackNotInstalled(catalog: seq<Pkg>, i: set<string>, chain: seq<string>, cur: string)
    requires Stack(catalog, i, chain, cur)
    ensures forall c :: c in chain ==> c !in i
  {
  }

  lemma AwaitsGrows(catalog: seq<Pkg>, i: set<string>, j: set<string>, c: string, n: string)
    requires Awaits(catalog, i, c, n) && i <= j && c !in j
    ensures Awaits(catalog, j, c, n)
  {
    var deps := Search(catalog, c).value.deps;
    var k :| Blocks(i, deps, k, n);
    assert Blocks(j, deps, k, n);
  }

  lemma ExactGrows(s: State, o: Outcome)
    requires Exact(s, o)
    ensures s.installed <= o.state.installed && o.state.installed == After(s.installed, o.log)
  {
  }

  lemma StackGrows(catalog: seq<Pkg>, i: set<string>, j: set<string>, chain: seq<string>, cur: string)
    requires Stack(catalog, i, chain, cur) && i <= j && forall c :: c in chain ==> c !in j
    ensures Stack(catalog, j, chain, cur)
  {
    forall x | 0 <= x < |chain|
      ensures Awaits(catalog, j, chain[x], Next(chain, x, cur))
    {
      AwaitsGrows(catalog, i, j, chain[x], Next(chain, x, cur));
    }
  }

  lemma StackPush(catalog: seq<Pkg>, i: set<string>, chain: seq<string>, p: Pkg, done: seq<string>, deps: seq<string>)
    requires Stack(catalog, i, chain, p.name) && p.name !in i && Search(catalog, p.name) == Some(p)
    requires p.deps == done + deps && deps != [] && forall d :: d in done ==> d in i
    ensures Stack(catalog, i, chain + [p.name], deps[0])
  {
    var grown := chain + [p.name];
    assert Awaits(catalog, i, p.name, deps[0]) by {
      forall j | 0 <= j < |done| ensures p.deps[j] in i { assert p.deps[j] == done[j]; }
      assert Blocks(i, p.deps, |done|, deps[0]);
    }
    forall x | 0 <= x < |grown|
      ensures Awaits(catalog, i, grown[x], Next(grown, x, deps[0]))
    {
      if x < |chain| {
        assert grown[x] == chain[x] && Next(grown, x, deps[0]) == Next(chain, x, p.name);
      }
    }
  }

  /** Every run of the installer marks soundly and never marks a package of the stack above it. */
  lemma {:induction false} InstallSound(catalog: seq<Pkg>, fetch: nat -> bool, s: State, p: Pkg, depth: nat,
    chain: seq<string>)
    requires Stack(catalog, s.installed, chain, p.name) && Search(catalog, p.name) == Some(p)
    ensures var o := Install(catalog, fetch, s, p, depth);
      Sound(catalog, s.installed, o.log) && forall c :: c in chain ==> c !in o.state.installed
    decreases MAX_DEPTH + 1 - depth, 1, 0
  {
    StackNotInstalled(catalog, s.installed, chain, p.name);
    if p.name in chain {
      ReentrantCallFails(catalog, fetch, s, chain, p, depth);
    } else if depth <= MAX_DEPTH && p.name !in s.installed {
      InstallDepsSound(catalog, fetch, s, p, [], p.deps, depth, chain);
      InstallDepsExact(catalog, fetch, s, p.deps, depth);
      var d := InstallDeps(catalog, fetch, s, p.deps, depth);
      if d.ok {
        assert Sound(catalog, d.state.installed, [p]) by {
          assert [p][..0] == [] && After(d.state.installed, []) == d.state.installed;
        }
        SoundAppend(catalog, s.installed, d.log, [p]);
      }
    }
  }

  lemma {:induction false} InstallDepsSound(catalog: seq<Pkg>, fetch: nat -> bool, s: State, p: Pkg, done: seq<string>,
                                            deps: seq<string>, depth: nat, chain: seq<string>)
    requires depth <= MAX_DEPTH && Stack(catalog, s.installed, chain, p.name) && Search(catalog, p.name) == Some(p)
    requires p.name !in s.installed && p.deps == done + deps && forall d :: d in done ==> d in s.installed
    ensures var o := InstallDeps(catalog, fetch, s, deps, depth);
      Sound(catalog, s.installed, o.log) && forall c :: c in chain + [p.name] ==> c !in o.state.installed
    decreases MAX_DEPTH + 1 - depth, 0, |deps|
  {
    hide Awaits, Stack, After, SoundAt, Exact;
    var grown := chain + [p.name];
    StackNotInstalled(catalog, s.installed, chain, p.name);
    if deps != [] && Search(catalog, deps[0]).Some? {
      var e := Search(catalog, deps[0]).value;
      StackPush(catalog, s.installed, chain, p, done, deps);
      SearchIdempotent(catalog, deps[0]);
      InstallSound(catalog, fetch, s, e, depth + 1, grown);
      InstallExact(catalog, fetch, s, e, depth + 1);
      var first := Install(catalog, fetch, s, e, depth + 1);
      if first.ok {
        ExactGrows(s, first);
        assert forall c :: c in chain ==> c in grown;
        StackGrows(catalog, s.installed, first.state.installed, chain, p.name);
        assert p.deps == (done + [deps[0]]) + deps[1..];
        InstallDepsSound(catalog, fetch, first.state, p, done + [deps[0]], deps[1..], depth, chain);
        var rest := InstallDeps(catalog, fetch, first.state, deps[1..], depth);
        SoundAppend(catalog, s.installed, first.log, rest.log);
      }
    }
  }

  lemma SearchIdempotent(catalog: seq<Pkg>, name: string)
    requires Search(catalog, name).Some?
    ensures Search(catalog, Search(catalog, name).value.name) == Search(catalog, name)
  {
  }

  // ---- whole calls of pkg_install -------------------------------------------------------------

  function PkgInstall(catalog: seq<Pkg>, fetch: nat -> bool, s: State, name: string): Outcome {
    match Search(catalog, name)
    case None => Outcome(s, [], false)
    case Some(p) => Install(catalog, fetch, s, p, 0)
  }

  /** Over every call: a package is marked only after its download succeeded, and a download that fails ends the call
      with a failure. */
  lemma MarkedOnlyAfterDownload(catalog: seq<Pkg>, fetch: nat -> bool, s: State, name: string)
    ensures var o := PkgInstall(catalog, fetch, s, name);
      && (forall t :: s.tries <= t < s.tries + |o.log| ==> fetch(t))
      && (o.state.tries == s.tries + |o.log|
          || (o.state.tries == s.tries + |o.log| + 1 && !fetch(s.tries + |o.log|) && !o.ok))
    ensures var o := PkgInstall(catalog, fetch, s, name);
      o.ok ==> forall t :: s.tries <= t < o.state.tries ==> fetch(t)
  {
    if Search(catalog, name).Some? { InstallDownloads(catalog, fetch, s, Search(catalog, name).value, 0); }
  }

  /** Every installed package the catalogue knows has all its dependencies installed. */
  ghost predicate Closed(catalog: seq<Pkg>, installed: set<string>) {
    forall n {:trigger Search(catalog, n)} :: n in installed && Search(catalog, n).Some? ==>
      forall d :: d in Search(catalog, n).value.deps ==> d in installed
  }

  lemma PkgInstallSound(catalog: seq<Pkg>, fetch: nat -> bool, s: State, name: string)
    ensures var o := PkgInstall(catalog, fetch, s, name);
      Sound(catalog, s.installed, o.log) && Exact(s, o) && (o.ok ==> name in o.state.installed)
  {
    if Search(catalog, name).Some? {
      var p := Search(catalog, name).value;
      SearchIdempotent(catalog, name);
      InstallSound(catalog, fetch, s, p, 0, []);
      InstallExact(catalog, fetch, s, p, 0);
    }
  }

  lemma {:induction false} SoundKeepsClosed(catalog: seq<Pkg>, installed: set<string>, log: seq<Pkg>, k: nat)
    requires Closed(catalog, installed) && Sound(catalog, installed, log) && k <= |log|
    ensures Closed(catalog, After(installed, log[..k]))
    decreases k
  {
    if k == 0 {
      assert After(installed, log[..0]) == installed;
    } else {
      SoundKeepsClosed(catalog, installed, log, k - 1);
      assert SoundAt(catalog, After(installed, log[..k - 1]), log[k - 1]);
      assert log[..k] == log[..k - 1] + [log[k - 1]];
      AfterAppend(installed, log[..k - 1], [log[k - 1]]);
    }
  }

  /** Every state pkg_install passes through, also when it later fails, is dependency-closed. */
  lemma EveryStateClosed(catalog: seq<Pkg>, fetch: nat -> bool, s: State, name: string, k: nat)
    requires Closed(catalog, s.installed) && k <= |PkgInstall(catalog, fetch, s, name).log|
    ensures Closed(catalog, After(s.installed, PkgInstall(catalog, fetch, s, name).log[..k]))
  {
    PkgInstallSound(catalog, fetch, s, name);
    SoundKeepsClosed(catalog, s.installed, PkgInstall(catalog, fetch, s, name).log, k);
  }

  /** pkg_remove looks at no dependents: taking a package out of a closed set leaves it closed exactly when no
      other installed package of the catalogue depends on it. */
  lemma RemovalKeepsClosed(catalog: seq<Pkg>, installed: set<string>, name: string)
    requires Closed(catalog, installed)
    ensures Closed(catalog, installed - {name}) <==>
      (forall n {:trigger Search(catalog, n)} :: n in installed && n != name && Search(catalog, n).Some?
        ==> name !in Search(catalog, n).value.deps)
  {
    hide Search;
    var less := installed - {name};
    if Closed(catalog, less) {
      forall n {:trigger Search(catalog, n)} | n in installed && n != name && Search(catalog, n).Some?
        ensures name !in Search(catalog, n).value.deps
      {
        assert n in less && name !in less;
      }
    } else {
      var n {:trigger Search(catalog, n)} :| n in less && Search(catalog, n).Some?
        && !forall d :: d in Search(catalog, n).value.deps ==> d in less;
      assert forall d :: d in Search(catalog, n).value.deps ==> d in installed;
      assert name in Search(catalog, n).value.deps;
    }
  }

  /** No package is marked twice, and none that was installed before. */
  lemma NoPackageMarkedTwice(catalog: seq<Pkg>, fetch: nat -> bool, s: State, name: string, j: nat, k: nat)
    requires var log := PkgInstall(catalog, fetch, s, name).log; j < k < |log|
    ensures var log := PkgInstall(catalog, fetch, s, name).log;
      log[j].name != log[k].name && log[k].name !in s.installed
  {
    PkgInstallSound(catalog, fetch, s, name);
    var log := PkgInstall(catalog, fetch, s, name).log;
    assert SoundAt(catalog, After(s.installed, log[..k]), log[k]);
    assert log[j] in log[..k];
  }

  /** Packages each of which depends on another of the group. */
  ghost predicate Cyclic(catalog: seq<Pkg>, group: set<string>) {
    forall c :: c in group && Search(catalog, c).Some? ==> DependsWithin(Search(catalog, c).value, group)
  }

  ghost predicate DependsWithin(p: Pkg, group: set<string>) {
    exists d :: d in p.deps && d in group
  }

  lemma {:induction false} CycleNeverMarked(catalog: seq<Pkg>, installed: set<string>, log: seq<Pkg>, group: set<string>,
    k: nat)
    requires Sound(catalog, installed, log) && Cyclic(catalog, group) && group !! installed && k <= |log|
    ensures group !! After(installed, log[..k])
    decreases k
  {
    if k == 0 {
      assert After(installed, log[..0]) == installed;
    } else {
      CycleNeverMarked(catalog, installed, log, group, k - 1);
      var p := log[k - 1];
      assert SoundAt(catalog, After(installed, log[..k - 1]), p);
      assert log[..k] == log[..k - 1] + [p];
      AfterAppend(installed, log[..k - 1], [p]);
      assert p.name in group ==> DependsWithin(p, group);
    }
  }

  /** A dependency cycle with no member installed stays that way: no member is ever marked, whatever is
      installed, in whatever order dependencies are listed, and asking for a member fails. */
  lemma CycleNeverInstalled(catalog: seq<Pkg>, fetch: nat -> bool, s: State, name: string, group: set<string>)
    requires Cyclic(catalog, group) && group !! s.installed
    ensures var o := PkgInstall(catalog, fetch, s, name);
      group !! o.state.installed && (name in group ==> !o.ok)
  {
    PkgInstallSound(catalog, fetch, s, name);
    var o := PkgInstall(catalog, fetch, s, name);
    CycleNeverMarked(catalog, s.installed, o.log, group, |o.log|);
    assert o.log[..|o.log|] == o.log;
  }

  // ---- success and the depth bound -------------------------------------------------------------

  /** Every dependency path from `name` at this depth exists in the catalogue and stays within the bound;
      a path ends at an installed package. */
  ghost predicate Fits(catalog: seq<Pkg>, installed: set<string>, name: string, depth: nat)
    decreases MAX_DEPTH + 1 - depth
  {
    && depth <= MAX_DEPTH && Search(catalog, name).Some?
    && (name in installed || forall d :: d in Search(catalog, name).value.deps ==> Fits(catalog, installed, d, depth + 1))
  }

  lemma {:induction false} FitsGrows(catalog: seq<Pkg>, i: set<string>, j: set<string>, name: string, depth: nat)
    requires Fits(catalog, i, name, depth) && i <= j
    ensures Fits(catalog, j, name, depth)
    decreases MAX_DEPTH + 1 - depth
  {
    if name !in i {
      forall d | d in Search(catalog, name).value.deps ensures Fits(catalog, j, d, depth + 1) {
        FitsGrows(catalog, i, j, d, depth + 1);
      }
    }
  }

  /** The last download failed. */
  ghost predicate GaveUp(fetch: nat -> bool, s: State, o: Outcome) {
    !o.ok && o.state.tries > s.tries && !fetch(o.state.tries - 1)
  }

  lemma {:induction false} InstallSucceeds(catalog: seq<Pkg>, fetch: nat -> bool, s: State, p: Pkg, depth: nat)
    requires Fits(catalog, s.installed, p.name, depth) && Search(catalog, p.name) == Some(p)
    ensures var o := Install(catalog, fetch, s, p, depth); o.ok || GaveUp(fetch, s, o)
    decreases MAX_DEPTH + 1 - depth, 1, 0
  {
    if p.name !in s.installed {
      DepsSucceed(catalog, fetch, s, p.deps, depth);
      DepsDownload(catalog, fetch, s, p.deps, depth);
    }
  }

  lemma {:induction false} DepsSucceed(catalog: seq<Pkg>, fetch: nat -> bool, s: State, deps: seq<string>, depth: nat)
    requires depth <= MAX_DEPTH
    requires forall d :: d in deps ==> Fits(catalog, s.installed, d, depth + 1)
    ensures var o := InstallDeps(catalog, fetch, s, deps, depth); o.ok || GaveUp(fetch, s, o)
    decreases MAX_DEPTH + 1 - depth, 0, |deps|
  {
    if deps != [] {
      assert deps[0] in deps;
      var e := Search(catalog, deps[0]).value;
      InstallSucceeds(catalog, fetch, s, e, depth + 1);
      InstallDownloads(catalog, fetch, s, e, depth + 1);
      InstallExact(catalog, fetch, s, e, depth + 1);
      var first := Install(catalog, fetch, s, e, depth + 1);
      hide Install;
      if first.ok {
        ExactGrows(s, first);
        forall d | d in deps[1..] ensures Fits(catalog, first.state.installed, d, depth + 1) {
          assert d in deps;
          FitsGrows(catalog, s.installed, first.state.installed, d, depth + 1);
        }
        DepsSucceed(catalog, fetch, first.state, deps[1..], depth);
      }
    }
  }

  /** When every path is known and short enough, the call succeeds exactly when its downloads do. */
  lemma OnlyDownloadsFail(catalog: seq<Pkg>, fetch: nat -> bool, s: State, name: string)
    requires Fits(catalog, s.installed, name, 0)
    ensures var o := PkgInstall(catalog, fetch, s, name);
      o.ok <==> forall t :: s.tries <= t < o.state.tries ==> fetch(t)
  {
    SearchIdempotent(catalog, name);
    InstallSucceeds(catalog, fetch, s, Search(catalog, name).value, 0);
    MarkedOnlyAfterDownload(catalog, fetch, s, name);
  }

  /** With every dependency in the catalogue, every download succeeding and no dependency path longer than
      nine packages, pkg_install succeeds and the package ends up installed. */
  lemma ShallowInstallSucceeds(catalog: seq<Pkg>, fetch: nat -> bool, s: State, name: string)
    requires (forall t :: fetch(t)) && Fits(catalog, s.installed, name, 0)
    ensures var o := PkgInstall(catalog, fetch, s, name); o.ok && name in o.state.installed
  {
    OnlyDownloadsFail(catalog, fetch, s, name);
    PkgInstallSound(catalog, fetch, s, name);
  }

  lemma StackPop(catalog: seq<Pkg>, i: set<string>, chain: seq<string>, last: string)
    requires chain != [] && Stack(catalog, i, chain, last)
    ensures Stack(catalog, i, chain[1..], last)
  {
    hide Awaits;
    var rest := chain[1..];
    forall x | 0 <= x < |rest| ensures Awaits(catalog, i, rest[x], Next(rest, x, last)) {
      assert rest[x] == chain[x + 1] && Next(rest, x, last) == Next(chain, x + 1, last);
    }
  }

  /** Nine is the limit: when packages await one another along a longer path, the first of them fails
      and nothing changes, even if the last one is installed. */
  lemma {:induction false} LongPathFails(catalog: seq<Pkg>, fetch: nat -> bool, s: State, chain: seq<string>,
    last: string, depth: nat)
    requires chain != [] && Stack(catalog, s.installed, chain, last) && |chain| + depth > MAX_DEPTH
    ensures Search(catalog, chain[0]).Some?
    ensures Install(catalog, fetch, s, Search(catalog, chain[0]).value, depth) == Outcome(s, [], false)
    decreases MAX_DEPTH + 1 - depth, 1, 0
  {
    var next := Next(chain, 0, last);
    assert Awaits(catalog, s.installed, chain[0], next);
    var p := Search(catalog, chain[0]).value;
    if depth <= MAX_DEPTH {
      var k :| Blocks(s.installed, p.deps, k, next);
      LongPathDepsFail(catalog, fetch, s, chain, last, p.deps, k, depth);
    }
  }

  lemma {:induction false} LongPathDepsFail(catalog: seq<Pkg>, fetch: nat -> bool, s: State, chain: seq<string>,
    last: string, deps: seq<string>, k: nat, depth: nat)
    requires depth <= MAX_DEPTH && chain != [] && Stack(catalog, s.installed, chain, last) && |chain| + depth > MAX_DEPTH
    requires Blocks(s.installed, deps, k, Next(chain, 0, last))
    ensures InstallDeps(catalog, fetch, s, deps, depth) == Outcome(s, [], false)
    decreases MAX_DEPTH + 1 - depth, 0, |deps|
  {
    hide Awaits, Stack;
    if Search(catalog, deps[0]).Some? && depth < MAX_DEPTH {
      if k == 0 {
        StackPop(catalog, s.installed, chain, last);
        LongPathFails(catalog, fetch, s, chain[1..], last, depth + 1);
      } else {
        assert Blocks(s.installed, deps[1..], k - 1, Next(chain, 0, last));
        LongPathDepsFail(catalog, fetch, s, chain, last, deps[1..], k - 1, depth);
      }
    }
  }

  /** Packages each depending on the next, none installed: the first can be installed exactly when there are at most
      nine of them. */
  lemma ChainInstallsIff(catalog: seq<Pkg>, fetch: nat -> bool, s: State)
    requires catalog != [] && forall t :: fetch(t)
    requires forall i, j :: 0 <= i < j < |catalog| ==> catalog[i].name != catalog[j].name
    requires forall i :: 0 <= i < |catalog| ==> catalog[i].name !in s.installed
    requires forall i {:trigger catalog[i]} :: 0 <= i < |catalog| ==>
      catalog[i].deps == if i + 1 < |catalog| then [catalog[i + 1].name] else []
    ensures PkgInstall(catalog, fetch, s, catalog[0].name).ok <==> |catalog| <= 9
  {
    hide Search, Fits, Install;
    SearchIsFirst(catalog, catalog[0].name, 0);
    if |catalog| <= 9 {
      ChainFits(catalog, s.installed, 0);
      ShallowInstallSucceeds(catalog, fetch, s, catalog[0].name);
    } else {
      var chain := seq(9, i requires 0 <= i < 9 => catalog[i].name);
      forall i | 0 <= i < 9 ensures Awaits(catalog, s.installed, chain[i], Next(chain, i, catalog[9].name)) {
        SearchIsFirst(catalog, catalog[i].name, i);
        assert Blocks(s.installed, catalog[i].deps, 0, catalog[i + 1].name);
      }
      LongPathFails(catalog, fetch, s, chain, catalog[9].name, 0);
    }
  }

  lemma {:induction false} ChainFits(catalog: seq<Pkg>, installed: set<string>, k: nat)
    requires k < |catalog| <= 9 && forall i, j :: 0 <= i < j < |catalog| ==> catalog[i].name != catalog[j].name
    requires forall i {:trigger catalog[i]} :: 0 <= i < |catalog| ==>
      catalog[i].deps == if i + 1 < |catalog| then [catalog[i + 1].name] else []
    ensures Fits(catalog, installed, catalog[k].name, k)
    decreases |catalog| - k
  {
    hide Search, Fits;
    SearchIsFirst(catalog, catalog[k].name, k);
    if k + 1 < |catalog| { ChainFits(catalog, installed, k + 1); }
    LinkFits(catalog, installed, k);
  }

  lemma LinkFits(catalog: seq<Pkg>, installed: set<string>, k: nat)
    requires k < |catalog| <= 9 && Search(catalog, catalog[k].name) == Some(catalog[k])
    requires catalog[k].deps == if k + 1 < |catalog| then [catalog[k + 1].name] else []
    requires k + 1 < |catalog| ==> Fits(catalog, installed, catalog[k + 1].name, k + 1)
    ensures Fits(catalog, installed, catalog[k].name, k)
  {
    hide Search;
  }

  // ---- the exact condition, whatever the order of dependencies -------------------------------------------

  /** The same entry with its dependencies listed in some order. */
  ghost predicate SameEntry(p: Pkg, q: Pkg) {
    p.name == q.name && p.version == q.version && multiset(p.deps) == multiset(q.deps)
  }

  /** The same catalogue with dependency lists permuted. */
  ghost predicate Shuffled(c: seq<Pkg>, d: seq<Pkg>) {
    |c| == |d| && forall i :: 0 <= i < |c| ==> SameEntry(c[i], d[i])
  }

  lemma {:induction false} SearchShuffled(c: seq<Pkg>, d: seq<Pkg>, name: string)
    requires Shuffled(c, d)
    ensures Search(c, name).Some? <==> Search(d, name).Some?
    ensures Search(c, name).Some? ==> SameEntry(Search(c, name).value, Search(d, name).value)
  {
    if c != [] {
      assert SameEntry(c[0], d[0]);
      SearchShuffled(c[1..], d[1..], name);
    }
  }

  lemma SameDeps(p: Pkg, q: Pkg)
    requires SameEntry(p, q)
    ensures forall n :: n in p.deps <==> n in q.deps
  {
    forall n ensures n in p.deps <==> n in q.deps {
      assert n in p.deps <==> n in multiset(p.deps);
      assert n in q.deps <==> n in multiset(q.deps);
    }
  }

  lemma {:induction false} FitsShuffled(c: seq<Pkg>, d: seq<Pkg>, installed: set<string>, name: string, depth: nat)
    requires Shuffled(c, d) && Fits(c, installed, name, depth)
    ensures Fits(d, installed, name, depth)
    decreases MAX_DEPTH + 1 - depth
  {
    hide Search, Shuffled;
    SearchShuffled(c, d, name);
    if name !in installed {
      SameDeps(Search(c, name).value, Search(d, name).value);
      forall n | n in Search(d, name).value.deps ensures Fits(d, installed, n, depth + 1) {
        FitsShuffled(c, d, installed, n, depth + 1);
      }
    }
  }

  /** A path that stays within the bound from one level on does so from the level above. */
  lemma {:induction false} FitsHigher(catalog: seq<Pkg>, installed: set<string>, name: string, depth: nat)
    requires Fits(catalog, installed, name, depth + 1)
    ensures Fits(catalog, installed, name, depth)
    decreases MAX_DEPTH + 1 - depth
  {
    hide Search;
    if name !in installed {
      forall n | n in Search(catalog, name).value.deps ensures Fits(catalog, installed, n, depth + 1) {
        FitsHigher(catalog, installed, n, depth + 1);
      }
    }
  }

  /** The first depth at which a package no longer fits. */
  ghost function Level(catalog: seq<Pkg>, installed: set<string>, name: string, depth: nat): (l: nat)
    requires depth <= MAX_DEPTH + 1
    ensures depth <= l <= MAX_DEPTH + 1 && !Fits(catalog, installed, name, l)
    ensures forall k :: depth <= k < l ==> Fits(catalog, installed, name, k)
    decreases MAX_DEPTH + 1 - depth
  {
    if Fits(catalog, installed, name, depth) then Level(catalog, installed, name, depth + 1) else depth
  }

  lemma {:induction false} LevelDecides(catalog: seq<Pkg>, installed: set<string>, name: string, depth: nat)
    ensures Fits(catalog, installed, name, depth) <==> depth < Level(catalog, installed, name, 0)
  {
    var l := Level(catalog, installed, name, 0);
    if l <= depth { NeverFitsBelow(catalog, installed, name, l, depth); }
  }

  lemma {:induction false} NeverFitsBelow(catalog: seq<Pkg>, installed: set<string>, name: string, l: nat, depth: nat)
    requires !Fits(catalog, installed, name, l) && l <= depth
    ensures !Fits(catalog, installed, name, depth)
    decreases depth
  {
    hide Fits;
    if l < depth {
      NeverFitsBelow(catalog, installed, name, l, depth - 1);
      if Fits(catalog, installed, name, depth) { FitsHigher(catalog, installed, name, depth - 1); }
    }
  }

  /** The place of a dependency of lowest level. */
  ghost function Worst(catalog: seq<Pkg>, installed: set<string>, deps: seq<string>): (k: nat)
    requires deps != []
    ensures k < |deps|
  {
    if |deps| == 1 then 0
    else
      var k := Worst(catalog, installed, deps[1..]);
      if Level(catalog, installed, deps[0], 0) <= Level(catalog, installed, deps[1..][k], 0) then 0 else k + 1
  }

  lemma {:induction false} WorstIsLowest(catalog: seq<Pkg>, installed: set<string>, deps: seq<string>, n: string)
    requires deps != [] && n in deps
    ensures Level(catalog, installed, deps[Worst(catalog, installed, deps)], 0) <= Level(catalog, installed, n, 0)
    decreases |deps|
  {
    hide Level;
    if |deps| > 1 {
      if n in deps[1..] {
        WorstIsLowest(catalog, installed, deps[1..], n);
      } else {
        assert n == deps[0];
      }
    }
  }

  /** An entry with its worst dependency listed first. */
  ghost function WorstFirst(catalog: seq<Pkg>, installed: set<string>, p: Pkg): (q: Pkg)
    ensures SameEntry(p, q)
    ensures q.deps == [] <==> p.deps == []
    ensures p.deps != [] ==> q.deps[0] == p.deps[Worst(catalog, installed, p.deps)]
  {
    if p.deps == [] then p
    else
      var k := Worst(catalog, installed, p.deps);
      MoveToFront(p.deps, k);
      p.(deps := [p.deps[k]] + p.deps[..k] + p.deps[k + 1..])
  }

  lemma MoveToFront(deps: seq<string>, k: nat)
    requires k < |deps|
    ensures multiset([deps[k]] + deps[..k] + deps[k + 1..]) == multiset(deps)
  {
    assert deps == deps[..k] + [deps[k]] + deps[k + 1..];
  }

  ghost function WorstCatalog(catalog: seq<Pkg>, installed: set<string>): (d: seq<Pkg>)
    ensures |d| == |catalog| && forall i :: 0 <= i < |d| ==> d[i] == WorstFirst(catalog, installed, catalog[i])
  {
    seq(|catalog|, i requires 0 <= i < |catalog| => WorstFirst(catalog, installed, catalog[i]))
  }

  /** The entry found in the reordered catalogue is the reordered entry. */
  lemma SearchWorst(catalog: seq<Pkg>, installed: set<string>, name: string)
    ensures Shuffled(catalog, WorstCatalog(catalog, installed))
    ensures var (r, d) := (Search(catalog, name), Search(WorstCatalog(catalog, installed), name));
      (r.Some? <==> d.Some?) && (r.Some? ==> d.value == WorstFirst(catalog, installed, r.value))
  {
    hide WorstFirst;
    var d := WorstCatalog(catalog, installed);
    var k := FirstNamed(catalog, name);
    SearchIsFirst(catalog, name, k);
    forall j | 0 <= j < |d| ensures d[j].name == catalog[j].name { assert SameEntry(catalog[j], d[j]); }
    SearchIsFirst(d, name, k);
  }

  ghost function FirstNamed(catalog: seq<Pkg>, name: string): (k: nat)
    ensures k <= |catalog| && (k < |catalog| ==> catalog[k].name == name)
    ensures forall j :: 0 <= j < k ==> catalog[j].name != name
  {
    if catalog == [] || catalog[0].name == name then 0 else 1 + FirstNamed(catalog[1..], name)
  }

  /** A package that does not fit fails when every list starts with its worst dependency, and changes nothing. */
  lemma {:induction false} WorstFails(catalog: seq<Pkg>, fetch: nat -> bool, s: State, name: string, depth: nat)
    requires !Fits(catalog, s.installed, name, depth)
    ensures var d := WorstCatalog(catalog, s.installed);
      Search(d, name).Some? ==> Install(d, fetch, s, Search(d, name).value, depth) == Outcome(s, [], false)
    decreases MAX_DEPTH + 1 - depth
  {
    hide Search, WorstCatalog, WorstFirst, InstallDeps, Level, Worst;
    var d := WorstCatalog(catalog, s.installed);
    SearchWorst(catalog, s.installed, name);
    if depth <= MAX_DEPTH && Search(d, name).Some? {
      var p, q := Search(catalog, name).value, Search(d, name).value;
      var n :| n in p.deps && !Fits(catalog, s.installed, n, depth + 1);
      var w := p.deps[Worst(catalog, s.installed, p.deps)];
      WorstIsLowest(catalog, s.installed, p.deps, n);
      LevelDecides(catalog, s.installed, n, depth + 1);
      LevelDecides(catalog, s.installed, w, depth + 1);
      WorstFails(catalog, fetch, s, w, depth + 1);
      FirstDepFails(d, fetch, s, q.deps, depth);
    }
  }

  lemma FirstDepFails(d: seq<Pkg>, fetch: nat -> bool, s: State, deps: seq<string>, depth: nat)
    requires depth <= MAX_DEPTH && deps != []
    requires Search(d, deps[0]).Some? ==> Install(d, fetch, s, Search(d, deps[0]).value, depth + 1) == Outcome(s, [], false)
    ensures InstallDeps(d, fetch, s, deps, depth) == Outcome(s, [], false)
  {
  }

  /** The exact condition under which installing does not depend on the order of dependencies: with every download
      succeeding, pkg_install succeeds for every permutation of the dependency lists exactly when every dependency
      path is known and no longer than nine packages. */
  lemma FitsIffEveryOrderInstalls(catalog: seq<Pkg>, fetch: nat -> bool, s: State, name: string)
    requires forall t :: fetch(t)
    ensures Fits(catalog, s.installed, name, 0) <==>
      forall d :: Shuffled(catalog, d) ==> PkgInstall(d, fetch, s, name).ok
  {
    hide Fits, Search, WorstCatalog;
    if Fits(catalog, s.installed, name, 0) {
      forall d | Shuffled(catalog, d) ensures PkgInstall(d, fetch, s, name).ok {
        FitsShuffled(catalog, d, s.installed, name, 0);
        ShallowInstallSucceeds(d, fetch, s, name);
      }
    } else {
      SearchWorst(catalog, s.installed, name);
      WorstFails(catalog, fetch, s, name, 0);
      assert !PkgInstall(WorstCatalog(catalog, s.installed), fetch, s, name).ok;
    }
  }
}
