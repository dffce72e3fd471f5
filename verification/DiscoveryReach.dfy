/**
 * What the discovery walk finds: exactly the configurations of the directories reachable through at
 * most `maxDepth` readable, non-hidden, non-excluded, in-root subdirectories, each exactly once, in
 * an order that does not depend on how the file system lists them; and a walk without diagnostics
 * has missed nothing at any depth.
 */
module DiscoveryReach {
  import opened Text
  import opened Sorting
  import opened Discovery

  // ---------- Reachability ----------

  /** A name that does not begin with a dot. */
  predicate IsVisible(name: string) {
    name == "" || name[0] != '.'
  }

  /** A subdirectory that is listed, exists, and is neither hidden nor excluded. */
  predicate Open(fs: FileSystem, scope: Scope, dir: Path, name: string) {
    && fs.readdir(dir).Some? && name in fs.readdir(dir).value
    && fs.stat(dir + [name]) == Some(Directory)
    && IsVisible(name) && name !in scope.excluded
  }

  /** The real path of what a path leads to is the root's real path or continues it. */
  predicate StaysInside(fs: FileSystem, anchor: Path, path: Path) {
    var root, target := fs.realpath(anchor), fs.realpath(fs.realpath(path));
    |root| <= |target| && target[..|root|] == root
  }

  ghost predicate AllOpen(fs: FileSystem, scope: Scope, dir: Path, rel: Path) {
    forall i :: 0 <= i < |rel| ==> Open(fs, scope, dir + rel[..i], rel[i])
  }

  ghost predicate AllInside(fs: FileSystem, anchor: Path, dir: Path, rel: Path) {
    forall i :: 0 < i <= |rel| ==> StaysInside(fs, anchor, dir + rel[..i])
  }

  ghost predicate Reachable(fs: FileSystem, scope: Scope, anchor: Path, dir: Path, rel: Path, budget: nat) {
    |rel| <= budget && AllOpen(fs, scope, dir, rel) && AllInside(fs, anchor, dir, rel)
  }

  /** `p` is a configuration file of the directory `dir` itself, in one of the four forms. */
  predicate ConfigOf(fs: FileSystem, dir: Path, p: Path) {
    fs.readdir(dir).Some? && (RootForm(fs, dir, p) || DotForm(fs, dir, p))
  }

  predicate RootForm(fs: FileSystem, dir: Path, p: Path)
    requires fs.readdir(dir).Some?
  {
    exists name ::
      && name in fs.readdir(dir).value && name in {"devcontainer.json", ".devcontainer.json"} && p == dir + [name]
      && fs.stat(p) == Some(File)
  }

  predicate DotForm(fs: FileSystem, dir: Path, p: Path)
    requires fs.readdir(dir).Some?
  {
    && ".devcontainer" in fs.readdir(dir).value && fs.stat(dir + [".devcontainer"]) == Some(Directory)
    && InDotDirectory(fs, dir + [".devcontainer"], p)
  }

  predicate InDotDirectory(fs: FileSystem, dotDir: Path, p: Path) {
    && fs.stat(p) == Some(File)
    && (p == dotDir + ["devcontainer.json"]
        || (fs.readdir(dotDir).Some? && NamedIn(dotDir, fs.readdir(dotDir).value, p)))
  }

  predicate NamedIn(dotDir: Path, entries: seq<string>, p: Path) {
    exists e :: e in entries && IsVisible(e) && p == dotDir + [e, "devcontainer.json"]
  }

  // ---------- What one visit finds ----------

  lemma {:induction false} NamedConfigsMembers(fs: FileSystem, dotDir: Path, entries: seq<string>, p: Path)
    ensures p in NamedConfigs(fs, dotDir, entries) <==> IsFile(fs, p) && NamedIn(dotDir, entries, p)
  {
    if entries != [] {
      NamedConfigsMembers(fs, dotDir, entries[1..], p);
      NamedConfigsStep(fs, dotDir, entries);
      assert entries == [entries[0]] + entries[1..];
    }
  }

  lemma DotDirectoryMembers(fs: FileSystem, dotDir: Path, p: Path)
    ensures p in DotDirectory(fs, dotDir).found <==> InDotDirectory(fs, dotDir, p)
  {
    match fs.readdir(dotDir)
    case None =>
    case Some(entries) =>
      NamedConfigsMembers(fs, dotDir, Listed(entries), p);
      SortMembers(entries, StringLe);
  }

  lemma WalkNamesStep(fs: FileSystem, scope: Scope, anchor: Path, dir: Path, depth: nat, names: seq<string>)
    requires depth <= scope.maxDepth && names != []
    ensures WalkNames(fs, scope, anchor, dir, depth, names) ==
      Plus(Visit(fs, scope, anchor, dir, depth, names[0]), WalkNames(fs, scope, anchor, dir, depth, names[1..]))
  {
  }

  ghost predicate FoundByName(
    fs: FileSystem, scope: Scope, anchor: Path, dir: Path, depth: nat, names: seq<string>, p: Path)
    requires depth <= scope.maxDepth
  {
    exists name :: name in names && p in Visit(fs, scope, anchor, dir, depth, name).found
  }

  lemma {:induction false} WalkNamesMembers(
    fs: FileSystem, scope: Scope, anchor: Path, dir: Path, depth: nat, names: seq<string>, p: Path)
    requires depth <= scope.maxDepth
    ensures p in WalkNames(fs, scope, anchor, dir, depth, names).found
      <==> FoundByName(fs, scope, anchor, dir, depth, names, p)
  {
    if names != [] {
      var rest := names[1..];
      WalkNamesMembers(fs, scope, anchor, dir, depth, rest, p);
      WalkNamesStep(fs, scope, anchor, dir, depth, names);
      hide WalkNames, Visit;
      assert names == [names[0]] + rest;
      assert names[0] in names;
      assert FoundByName(fs, scope, anchor, dir, depth, rest, p) ==>
        FoundByName(fs, scope, anchor, dir, depth, names, p);
    }
  }

  lemma WalkMembers(fs: FileSystem, scope: Scope, anchor: Path, dir: Path, depth: nat, p: Path)
    requires depth <= scope.maxDepth
    ensures p in Walk(fs, scope, anchor, dir, depth).found <==>
      fs.readdir(dir).Some? && FoundByName(fs, scope, anchor, dir, depth, fs.readdir(dir).value, p)
  {
    hide Visit;
    if fs.readdir(dir).Some? {
      var names := fs.readdir(dir).value;
      WalkNamesMembers(fs, scope, anchor, dir, depth, Listed(names), p);
      SortMembers(names, StringLe);
    }
  }

  /** The visit of a name descends into that directory. */
  predicate Descends(fs: FileSystem, scope: Scope, anchor: Path, dir: Path, depth: nat, name: string) {
    && fs.stat(dir + [name]) == Some(Directory) && !IsHidden(name) && name !in scope.excluded
    && depth < scope.maxDepth && StaysInside(fs, anchor, dir + [name])
  }

  lemma InsideIsStaying(fs: FileSystem, anchor: Path, path: Path)
    ensures Inside(fs, anchor, path) <==> StaysInside(fs, anchor, path)
  {
  }

  lemma VisitMembers(fs: FileSystem, scope: Scope, anchor: Path, dir: Path, depth: nat, name: string, p: Path)
    requires depth <= scope.maxDepth && fs.readdir(dir).Some? && name in fs.readdir(dir).value
    ensures p in Visit(fs, scope, anchor, dir, depth, name).found <==>
      if Descends(fs, scope, anchor, dir, depth, name) then p in Walk(fs, scope, anchor, dir + [name], depth + 1).found
      else (p == dir + [name] && RootForm(fs, dir, p)) || (name == DOT_DIR && DotForm(fs, dir, p))
  {
    hide Walk, DotDirectory, InDotDirectory;
    InsideIsStaying(fs, anchor, dir + [name]);
    hide StaysInside, Inside;
    assert IsHidden(DOT_DIR);
    assert forall other :: dir + [name] == dir + [other] ==> (dir + [name])[|dir|] == other;
    if name == DOT_DIR {
      DotDirectoryMembers(fs, dir + [name], p);
    }
  }

  // ---------- The walk finds exactly the reachable configurations ----------

  ghost predicate FoundBelow(fs: FileSystem, scope: Scope, anchor: Path, dir: Path, budget: nat, p: Path) {
    exists rel :: Reachable(fs, scope, anchor, dir, rel, budget) && ConfigOf(fs, dir + rel, p)
  }

  /** Reaching through a first step is the step plus reaching the rest from there. */
  lemma ReachableCons(fs: FileSystem, scope: Scope, anchor: Path, dir: Path, name: string, rel: Path, budget: nat)
    requires budget > 0
    ensures Reachable(fs, scope, anchor, dir, [name] + rel, budget) <==>
      Open(fs, scope, dir, name) && StaysInside(fs, anchor, dir + [name])
      && Reachable(fs, scope, anchor, dir + [name], rel, budget - 1)
  {
    AllOpenCons(fs, scope, dir, name, rel);
    AllInsideCons(fs, anchor, dir, name, rel);
  }

  lemma AllOpenCons(fs: FileSystem, scope: Scope, dir: Path, name: string, rel: Path)
    ensures AllOpen(fs, scope, dir, [name] + rel) <==>
      Open(fs, scope, dir, name) && AllOpen(fs, scope, dir + [name], rel)
  {
    hide Open;
    var all := [name] + rel;
    assert forall i :: 0 <= i < |rel| ==> dir + all[..i + 1] == dir + [name] + rel[..i] && all[i + 1] == rel[i];
    assert dir + all[..0] == dir && all[0] == name;
    if AllOpen(fs, scope, dir, all) {
      forall i | 0 <= i < |rel| ensures Open(fs, scope, dir + [name] + rel[..i], rel[i]) {
        assert Open(fs, scope, dir + all[..i + 1], all[i + 1]);
      }
    }
    if Open(fs, scope, dir, name) && AllOpen(fs, scope, dir + [name], rel) {
      forall i | 0 <= i < |all| ensures Open(fs, scope, dir + all[..i], all[i]) {
        if i > 0 {
          assert Open(fs, scope, dir + [name] + rel[..i - 1], rel[i - 1]);
        }
      }
    }
  }

  lemma AllInsideCons(fs: FileSystem, anchor: Path, dir: Path, name: string, rel: Path)
    ensures AllInside(fs, anchor, dir, [name] + rel) <==>
      StaysInside(fs, anchor, dir + [name]) && AllInside(fs, anchor, dir + [name], rel)
  {
    hide StaysInside;
    var all := [name] + rel;
    assert forall i :: 0 < i <= |rel| ==> dir + all[..i + 1] == dir + [name] + rel[..i];
    assert dir + all[..1] == dir + [name];
    if AllInside(fs, anchor, dir, all) {
      forall i | 0 < i <= |rel| ensures StaysInside(fs, anchor, dir + [name] + rel[..i]) {
        assert StaysInside(fs, anchor, dir + all[..i + 1]);
      }
    }
    if StaysInside(fs, anchor, dir + [name]) && AllInside(fs, anchor, dir + [name], rel) {
      forall i | 0 < i <= |all| ensures StaysInside(fs, anchor, dir + all[..i]) {
        if i > 1 {
          assert StaysInside(fs, anchor, dir + [name] + rel[..i - 1]);
        }
      }
    }
  }

  lemma ReachesItself(fs: FileSystem, scope: Scope, anchor: Path, dir: Path, budget: nat)
    ensures Reachable(fs, scope, anchor, dir, [], budget) && dir + [] == dir
  {
  }

  lemma OwnConfigIsVisited(fs: FileSystem, scope: Scope, anchor: Path, dir: Path, depth: nat, p: Path)
    requires depth <= scope.maxDepth && ConfigOf(fs, dir, p)
    ensures p in Walk(fs, scope, anchor, dir, depth).found
  {
    WalkMembers(fs, scope, anchor, dir, depth, p);
    var names := fs.readdir(dir).value;
    if RootForm(fs, dir, p) {
      var name :| name in names && name in {PLAIN, HIDDEN} && p == dir + [name] && IsFile(fs, p);
      VisitMembers(fs, scope, anchor, dir, depth, name, p);
    } else {
      assert IsHidden(DOT_DIR);
      VisitMembers(fs, scope, anchor, dir, depth, DOT_DIR, p);
    }
  }

  lemma FoundBelowCons(fs: FileSystem, scope: Scope, anchor: Path, dir: Path, name: string, budget: nat, p: Path)
    requires budget > 0 && Open(fs, scope, dir, name) && StaysInside(fs, anchor, dir + [name])
    requires FoundBelow(fs, scope, anchor, dir + [name], budget - 1, p)
    ensures FoundBelow(fs, scope, anchor, dir, budget, p)
  {
    hide Reachable, ConfigOf;
    var rel :| Reachable(fs, scope, anchor, dir + [name], rel, budget - 1) && ConfigOf(fs, dir + [name] + rel, p);
    ReachableCons(fs, scope, anchor, dir, name, rel, budget);
    assert dir + ([name] + rel) == dir + [name] + rel;
  }

  lemma FoundHere(fs: FileSystem, scope: Scope, anchor: Path, dir: Path, budget: nat, p: Path)
    requires ConfigOf(fs, dir, p)
    ensures FoundBelow(fs, scope, anchor, dir, budget, p)
  {
    ReachesItself(fs, scope, anchor, dir, budget);
  }

  lemma {:induction false} FoundIsReachable(fs: FileSystem, scope: Scope, anchor: Path, dir: Path, depth: nat, p: Path)
    requires depth <= scope.maxDepth && p in Walk(fs, scope, anchor, dir, depth).found
    ensures FoundBelow(fs, scope, anchor, dir, scope.maxDepth - depth, p)
    decreases scope.maxDepth - depth
  {
    WalkMembers(fs, scope, anchor, dir, depth, p);
    hide Visit, Walk, ConfigOf, Reachable, FoundBelow, RootForm, DotForm, StaysInside;
    var name :| name in fs.readdir(dir).value && p in Visit(fs, scope, anchor, dir, depth, name).found;
    VisitMembers(fs, scope, anchor, dir, depth, name, p);
    if Descends(fs, scope, anchor, dir, depth, name) {
      FoundIsReachable(fs, scope, anchor, dir + [name], depth + 1, p);
      FoundBelowCons(fs, scope, anchor, dir, name, scope.maxDepth - depth, p);
    } else {
      OwnConfigFromVisit(fs, dir, name, p);
      FoundHere(fs, scope, anchor, dir, scope.maxDepth - depth, p);
    }
  }

  lemma OwnConfigFromVisit(fs: FileSystem, dir: Path, name: string, p: Path)
    requires fs.readdir(dir).Some?
    requires (p == dir + [name] && RootForm(fs, dir, p)) || (name == DOT_DIR && DotForm(fs, dir, p))
    ensures ConfigOf(fs, dir, p)
  {
  }

  lemma {:induction false} ReachableIsFound(
    fs: FileSystem, scope: Scope, anchor: Path, dir: Path, depth: nat, rel: Path, p: Path)
    requires depth <= scope.maxDepth
    requires Reachable(fs, scope, anchor, dir, rel, scope.maxDepth - depth) && ConfigOf(fs, dir + rel, p)
    ensures p in Walk(fs, scope, anchor, dir, depth).found
    decreases |rel|
  {
    hide Visit, Walk, ConfigOf;
    if rel == [] {
      assert dir + rel == dir;
      OwnConfigIsVisited(fs, scope, anchor, dir, depth, p);
    } else {
      var name, rest := rel[0], rel[1..];
      assert rel == [name] + rest;
      assert dir + rel == dir + [name] + rest;
      ReachableCons(fs, scope, anchor, dir, name, rest, scope.maxDepth - depth);
      ReachableIsFound(fs, scope, anchor, dir + [name], depth + 1, rest, p);
      VisitMembers(fs, scope, anchor, dir, depth, name, p);
      WalkMembers(fs, scope, anchor, dir, depth, p);
    }
  }

  /** The main result, for every file system, cyclic ones included. */
  lemma WalkFindsExactlyTheReachable(fs: FileSystem, scope: Scope, root: Path, p: Path)
    ensures p in Walk(fs, scope, root, root, 0).found <==> FoundBelow(fs, scope, root, root, scope.maxDepth, p)
  {
    if p in Walk(fs, scope, root, root, 0).found {
      FoundIsReachable(fs, scope, root, root, 0, p);
    }
    if FoundBelow(fs, scope, root, root, scope.maxDepth, p) {
      var rel :| Reachable(fs, scope, root, root, rel, scope.maxDepth) && ConfigOf(fs, root + rel, p);
      ReachableIsFound(fs, scope, root, root, 0, rel, p);
    }
  }

  // ---------- Each configuration is found once ----------

  predicate Distinct<T(==)>(xs: seq<T>) {
    forall i, j :: 0 <= i < j < |xs| ==> xs[i] != xs[j]
  }

  /** No directory lists a name twice. */
  ghost predicate ListsOnce(fs: FileSystem) {
    forall dir :: fs.readdir(dir).Some? ==> Distinct(fs.readdir(dir).value)
  }

  lemma DistinctIsSingle<T>(xs: seq<T>)
    ensures Distinct(xs) <==> forall x :: x in xs ==> multiset(xs)[x] == 1
  {
    if Distinct(xs) {
      forall x | x in xs ensures multiset(xs)[x] == 1 {
        var i :| 0 <= i < |xs| && xs[i] == x;
        assert xs == xs[..i] + [x] + xs[i + 1..];
        assert x !in xs[..i] && x !in xs[i + 1..];
        assert multiset(xs) == multiset(xs[..i]) + multiset{x} + multiset(xs[i + 1..]);
      }
    }
    if i, j :| 0 <= i < j < |xs| && xs[i] == xs[j] {
      var x := xs[i];
      assert xs == xs[..i] + [x] + xs[i + 1..];
      assert xs[i + 1..][j - i - 1] == x && x in multiset(xs[i + 1..]);
      assert multiset(xs) == multiset(xs[..i]) + multiset{x} + multiset(xs[i + 1..]);
      assert x in xs && multiset(xs)[x] >= 2;
    }
  }

  lemma SortKeepsDistinct(xs: seq<string>)
    requires Distinct(xs)
    ensures Distinct(Listed(xs))
  {
    SortPermutes(xs, StringLe);
    SortMembers(xs, StringLe);
    DistinctIsSingle(xs);
    DistinctIsSingle(Listed(xs));
  }

  lemma DistinctConcat<T>(a: seq<T>, b: seq<T>)
    requires Distinct(a) && Distinct(b) && forall x :: x in a ==> x !in b
    ensures Distinct(a + b)
  {
    forall i, j | 0 <= i < j < |a + b| ensures (a + b)[i] != (a + b)[j] {
      if i < |a| <= j {
        assert (a + b)[i] in a && (a + b)[j] in b;
      }
    }
  }

  lemma {:induction false} NamedConfigsDistinct(fs: FileSystem, dotDir: Path, entries: seq<string>)
    requires Distinct(entries)
    ensures Distinct(NamedConfigs(fs, dotDir, entries))
  {
    if entries != [] {
      var rest := entries[1..];
      NamedConfigsDistinct(fs, dotDir, rest);
      NamedConfigsStep(fs, dotDir, entries);
      var path := dotDir + [entries[0], PLAIN];
      NamedConfigsMembers(fs, dotDir, rest, path);
      assert forall e :: dotDir + [e, PLAIN] == path ==> (dotDir + [e, PLAIN])[|dotDir|] == entries[0];
      assert entries[0] !in rest;
      DistinctConcat([path], NamedConfigs(fs, dotDir, rest));
    }
  }

  lemma DotDirectoryDistinct(fs: FileSystem, dotDir: Path)
    requires ListsOnce(fs)
    ensures Distinct(DotDirectory(fs, dotDir).found)
  {
    if fs.readdir(dotDir).Some? {
      var entries := fs.readdir(dotDir).value;
      SortKeepsDistinct(entries);
      NamedConfigsDistinct(fs, dotDir, Listed(entries));
      NamedConfigsMembers(fs, dotDir, Listed(entries), dotDir + [PLAIN]);
      assert forall e :: |dotDir + [e, PLAIN]| == |dotDir| + 2;
      if IsFile(fs, dotDir + [PLAIN]) {
        DistinctConcat([dotDir + [PLAIN]], NamedConfigs(fs, dotDir, Listed(entries)));
      }
    }
  }

  /** Whatever is found below a directory lies properly below it. */
  lemma FoundLiesBelow(fs: FileSystem, scope: Scope, anchor: Path, dir: Path, depth: nat, p: Path)
    requires depth <= scope.maxDepth && p in Walk(fs, scope, anchor, dir, depth).found
    ensures dir < p
  {
    FoundIsReachable(fs, scope, anchor, dir, depth, p);
    var rel :| Reachable(fs, scope, anchor, dir, rel, scope.maxDepth - depth) && ConfigOf(fs, dir + rel, p);
    assert dir <= dir + rel;
    ConfigLiesBelow(fs, dir + rel, p);
  }

  lemma ConfigLiesBelow(fs: FileSystem, dir: Path, p: Path)
    requires ConfigOf(fs, dir, p)
    ensures dir < p
  {
  }

  /** What one visit finds carries the visited name, so different names find different files. */
  lemma VisitCarriesName(fs: FileSystem, scope: Scope, anchor: Path, dir: Path, depth: nat, name: string, p: Path)
    requires depth <= scope.maxDepth && fs.readdir(dir).Some? && name in fs.readdir(dir).value
    requires p in Visit(fs, scope, anchor, dir, depth, name).found
    ensures |p| > |dir| && p[|dir|] == name
  {
    VisitMembers(fs, scope, anchor, dir, depth, name, p);
    if Descends(fs, scope, anchor, dir, depth, name) {
      FoundLiesBelow(fs, scope, anchor, dir + [name], depth + 1, p);
      assert (dir + [name])[|dir|] == name;
    }
  }

  lemma {:induction false} WalkNamesDistinct(
    fs: FileSystem, scope: Scope, anchor: Path, dir: Path, depth: nat, names: seq<string>)
    requires ListsOnce(fs) && depth <= scope.maxDepth && fs.readdir(dir).Some?
    requires Distinct(names) && forall n :: n in names ==> n in fs.readdir(dir).value
    ensures Distinct(WalkNames(fs, scope, anchor, dir, depth, names).found)
    decreases scope.maxDepth - depth, 0, |names|
  {
    if names != [] {
      var rest := names[1..];
      var here := Visit(fs, scope, anchor, dir, depth, names[0]).found;
      WalkNamesStep(fs, scope, anchor, dir, depth, names);
      VisitDistinct(fs, scope, anchor, dir, depth, names[0]);
      WalkNamesDistinct(fs, scope, anchor, dir, depth, rest);
      hide Visit, WalkNames;
      forall p | p in here ensures p !in WalkNames(fs, scope, anchor, dir, depth, rest).found {
        VisitCarriesName(fs, scope, anchor, dir, depth, names[0], p);
        WalkNamesMembers(fs, scope, anchor, dir, depth, rest, p);
        if name :| name in rest && p in Visit(fs, scope, anchor, dir, depth, name).found {
          VisitCarriesName(fs, scope, anchor, dir, depth, name, p);
        }
      }
      DistinctConcat(here, WalkNames(fs, scope, anchor, dir, depth, rest).found);
    }
  }

  lemma {:induction false} VisitDistinct(
    fs: FileSystem, scope: Scope, anchor: Path, dir: Path, depth: nat, name: string)
    requires ListsOnce(fs) && depth <= scope.maxDepth
    ensures Distinct(Visit(fs, scope, anchor, dir, depth, name).found)
    decreases scope.maxDepth - depth, 0, 0
  {
    var full := dir + [name];
    hide DotDirectory, Walk, StaysInside;
    if name == DOT_DIR {
      DotDirectoryDistinct(fs, full);
    } else if depth < scope.maxDepth {
      WalkFindsOnce(fs, scope, anchor, full, depth + 1);
    }
  }

  /** No configuration is found twice in one walk. */
  lemma {:induction false} WalkFindsOnce(fs: FileSystem, scope: Scope, anchor: Path, dir: Path, depth: nat)
    requires ListsOnce(fs) && depth <= scope.maxDepth
    ensures Distinct(Walk(fs, scope, anchor, dir, depth).found)
    decreases scope.maxDepth - depth, 1, 0
  {
    if fs.readdir(dir).Some? {
      var names := fs.readdir(dir).value;
      SortKeepsDistinct(names);
      SortMembers(names, StringLe);
      WalkNamesDistinct(fs, scope, anchor, dir, depth, Listed(names));
    }
  }

  // ---------- A walk without notes has missed nothing ----------

  lemma {:induction false} SilentNames(
    fs: FileSystem, scope: Scope, anchor: Path, dir: Path, depth: nat, names: seq<string>, name: string)
    requires depth <= scope.maxDepth && name in names
    requires WalkNames(fs, scope, anchor, dir, depth, names).notes == []
    ensures Visit(fs, scope, anchor, dir, depth, name).notes == []
  {
    WalkNamesStep(fs, scope, anchor, dir, depth, names);
    if name != names[0] {
      SilentNames(fs, scope, anchor, dir, depth, names[1..], name);
    }
  }

  lemma SilentStepDescends(fs: FileSystem, scope: Scope, anchor: Path, dir: Path, depth: nat, name: string)
    requires depth <= scope.maxDepth && Open(fs, scope, dir, name)
    requires Walk(fs, scope, anchor, dir, depth).notes == []
    ensures Descends(fs, scope, anchor, dir, depth, name)
    ensures Walk(fs, scope, anchor, dir + [name], depth + 1).notes == []
  {
    var names := fs.readdir(dir).value;
    SortMembers(names, StringLe);
    SilentNames(fs, scope, anchor, dir, depth, Listed(names), name);
    assert IsHidden(DOT_DIR);
  }

  lemma {:induction false} SilentWalkReaches(
    fs: FileSystem, scope: Scope, anchor: Path, dir: Path, depth: nat, rel: Path)
    requires depth <= scope.maxDepth && AllOpen(fs, scope, dir, rel)
    requires Walk(fs, scope, anchor, dir, depth).notes == []
    ensures Reachable(fs, scope, anchor, dir, rel, scope.maxDepth - depth)
    decreases |rel|
  {
    hide Walk, Open;
    if rel != [] {
      var name, rest := rel[0], rel[1..];
      assert rel == [name] + rest;
      AllOpenCons(fs, scope, dir, name, rest);
      SilentStepDescends(fs, scope, anchor, dir, depth, name);
      SilentWalkReaches(fs, scope, anchor, dir + [name], depth + 1, rest);
      ReachableCons(fs, scope, anchor, dir, name, rest, scope.maxDepth - depth);
    }
  }

  /**
   * The depth bound and the boundary check lose nothing silently: if the walk has no diagnostics, it
   * found every configuration reachable through open directories, at whatever depth.
   */
  lemma SilentWalkIsComplete(fs: FileSystem, scope: Scope, root: Path, rel: Path, p: Path)
    requires Walk(fs, scope, root, root, 0).notes == []
    requires AllOpen(fs, scope, root, rel) && ConfigOf(fs, root + rel, p)
    ensures p in Walk(fs, scope, root, root, 0).found && |rel| <= scope.maxDepth
  {
    SilentWalkReaches(fs, scope, root, root, 0, rel);
    ReachableIsFound(fs, scope, root, root, 0, rel, p);
  }

  // ---------- The result does not depend on the order of listings ----------

  ghost predicate SameUpToListingOrder(fs: FileSystem, other: FileSystem) {
    && (forall p :: fs.stat(p) == other.stat(p))
    && (forall p :: fs.realpath(p) == other.realpath(p))
    && (forall p :: fs.readdir(p).Some? == other.readdir(p).Some?)
    && (forall p :: fs.readdir(p).Some? ==> multiset(fs.readdir(p).value) == multiset(other.readdir(p).value))
  }

  lemma ListedForgetsOrder(xs: seq<string>, ys: seq<string>)
    requires multiset(xs) == multiset(ys)
    ensures Listed(xs) == Listed(ys)
  {
    StringLeIsTotalOrder();
    SortForgetsOrder(xs, ys, StringLe);
  }

  lemma {:induction false} NamedConfigsAgree(fs: FileSystem, other: FileSystem, dotDir: Path, entries: seq<string>)
    requires SameUpToListingOrder(fs, other)
    ensures NamedConfigs(fs, dotDir, entries) == NamedConfigs(other, dotDir, entries)
  {
    if entries != [] {
      NamedConfigsAgree(fs, other, dotDir, entries[1..]);
      NamedConfigsStep(fs, dotDir, entries);
      NamedConfigsStep(other, dotDir, entries);
    }
  }

  lemma {:induction false} VisitAgrees(
    fs: FileSystem, other: FileSystem, scope: Scope, anchor: Path, dir: Path, depth: nat, name: string)
    requires SameUpToListingOrder(fs, other) && depth <= scope.maxDepth
    ensures Visit(fs, scope, anchor, dir, depth, name) == Visit(other, scope, anchor, dir, depth, name)
    decreases scope.maxDepth - depth, 0, 0
  {
    var full := dir + [name];
    if name == DOT_DIR {
      if fs.readdir(full).Some? {
        ListedForgetsOrder(fs.readdir(full).value, other.readdir(full).value);
        NamedConfigsAgree(fs, other, full, Listed(fs.readdir(full).value));
      }
    } else if depth < scope.maxDepth {
      WalkForgetsListingOrder(fs, other, scope, anchor, full, depth + 1);
      hide Walk;
    }
  }

  lemma {:induction false} WalkNamesAgree(
    fs: FileSystem, other: FileSystem, scope: Scope, anchor: Path, dir: Path, depth: nat, names: seq<string>)
    requires SameUpToListingOrder(fs, other) && depth <= scope.maxDepth
    ensures WalkNames(fs, scope, anchor, dir, depth, names) == WalkNames(other, scope, anchor, dir, depth, names)
    decreases scope.maxDepth - depth, 1, |names|
  {
    if names != [] {
      VisitAgrees(fs, other, scope, anchor, dir, depth, names[0]);
      WalkNamesAgree(fs, other, scope, anchor, dir, depth, names[1..]);
      WalkNamesStep(fs, scope, anchor, dir, depth, names);
      WalkNamesStep(other, scope, anchor, dir, depth, names);
    }
  }

  /** Deterministic output: same files in the same order, and the same notes. */
  lemma {:induction false} WalkForgetsListingOrder(
    fs: FileSystem, other: FileSystem, scope: Scope, anchor: Path, dir: Path, depth: nat)
    requires SameUpToListingOrder(fs, other) && depth <= scope.maxDepth
    ensures Walk(fs, scope, anchor, dir, depth) == Walk(other, scope, anchor, dir, depth)
    decreases scope.maxDepth - depth, 2, 0
  {
    if fs.readdir(dir).Some? {
      ListedForgetsOrder(fs.readdir(dir).value, other.readdir(dir).value);
      WalkNamesAgree(fs, other, scope, anchor, dir, depth, Listed(fs.readdir(dir).value));
    }
  }

  // ---------- Whose configuration it is ----------

  /** The directory is a `.devcontainer` directory or lies directly in one. */
  predicate InDotDir(dir: Path) {
    Basename(dir) == DOT_DIR || Basename(Dirname(dir)) == DOT_DIR
  }

  /** The path arithmetic recovers the owning directory, except inside `.devcontainer` itself. */
  lemma OwnerIsRecovered(fs: FileSystem, dir: Path, p: Path)
    requires ConfigOf(fs, dir, p)
    ensures WorkspacePathFor(p) == dir <==> DotForm(fs, dir, p) || !InDotDir(dir)
    ensures DotForm(fs, dir, p) ==> KindFor(p) == if |p| == |dir| + 2 then Unnamed else Named
    ensures !DotForm(fs, dir, p) && !InDotDir(dir) ==>
      KindFor(p) == if p[|dir|] == HIDDEN then RootHidden else RootPlain
  {
    if DotForm(fs, dir, p) {
      DotFormOwner(fs, dir, p);
    } else {
      var name :| name in fs.readdir(dir).value && name in {PLAIN, HIDDEN} && p == dir + [name] && IsFile(fs, p);
      assert Dirname(p) == dir;
    }
  }

  lemma DotFormOwner(fs: FileSystem, dir: Path, p: Path)
    requires fs.readdir(dir).Some? && DotForm(fs, dir, p)
    ensures WorkspacePathFor(p) == dir && KindFor(p) == if |p| == |dir| + 2 then Unnamed else Named
  {
    var dotDir := dir + [DOT_DIR];
    if p == dotDir + [PLAIN] {
      assert Dirname(p) == dotDir && Dirname(dotDir) == dir;
    } else {
      var e :| e in fs.readdir(dotDir).value && IsVisible(e) && p == dotDir + [e, PLAIN];
      assert Dirname(p) == dotDir + [e] && Dirname(dotDir + [e]) == dotDir && Dirname(dotDir) == dir;
      assert IsHidden(DOT_DIR);
    }
  }

  /** The walk never leaves the reader inside a `.devcontainer` directory it did not start in. */
  lemma ReachableIsNotInDotDir(fs: FileSystem, scope: Scope, root: Path, rel: Path)
    requires AllOpen(fs, scope, root, rel) && Basename(root) != DOT_DIR && Basename(Dirname(root)) != DOT_DIR
    ensures !InDotDir(root + rel)
  {
    assert IsHidden(DOT_DIR);
    var dir := root + rel;
    if rel != [] {
      var n := |rel| - 1;
      assert Open(fs, scope, root + rel[..n], rel[n]);
      assert Dirname(dir) == root + rel[..n];
      if n > 0 {
        assert Open(fs, scope, root + rel[..n - 1], rel[n - 1]);
      } else {
        assert Dirname(dir) == root;
      }
    } else {
      assert dir == root;
    }
  }

  ghost predicate Owns(fs: FileSystem, scope: Scope, root: Path, rel: Path, p: Path) {
    Reachable(fs, scope, root, root, rel, scope.maxDepth) && ConfigOf(fs, root + rel, p)
  }

  /** Every discovered project names the directory that was reached, and its real path. */
  lemma ProjectsNameTheirOwner(fs: FileSystem, scope: Scope, root: Path, p: Path)
    requires p in Walk(fs, scope, root, root, 0).found && !InDotDir(root)
    ensures exists rel :: Owns(fs, scope, root, rel, p) && ToProject(fs, p).workspacePath == fs.realpath(root + rel)
  {
    FoundIsReachable(fs, scope, root, root, 0, p);
    var rel :| Reachable(fs, scope, root, root, rel, scope.maxDepth) && ConfigOf(fs, root + rel, p);
    ReachableIsNotInDotDir(fs, scope, root, rel);
    OwnerIsRecovered(fs, root + rel, p);
    assert Owns(fs, scope, root, rel, p);
  }

  // ---------- The cheap probe ----------

  predicate WorkspaceHasConfig(fs: FileSystem, workspace: Path) {
    var dotDir := workspace + [DOT_DIR];
    || IsFile(fs, workspace + [PLAIN]) || IsFile(fs, workspace + [HIDDEN])
    || IsFile(fs, dotDir + [PLAIN])
    || (fs.readdir(dotDir).Some?
        && exists e :: e in fs.readdir(dotDir).value && !IsHidden(e) && IsFile(fs, dotDir + [e, PLAIN]))
  }

  /** Listings are complete, and whatever exists inside a directory makes it a listed directory. */
  ghost predicate Coherent(fs: FileSystem, workspace: Path) {
    var dotDir := workspace + [DOT_DIR];
    && (fs.readdir(workspace).Some? ==> forall n :: fs.stat(workspace + [n]).Some? ==> n in fs.readdir(workspace).value)
    && (IsFile(fs, dotDir + [PLAIN]) || fs.readdir(dotDir).Some? ==> fs.stat(dotDir) == Some(Directory))
  }

  lemma ProbeSeesConfigs(fs: FileSystem, workspace: Path, p: Path)
    requires ConfigOf(fs, workspace, p)
    ensures WorkspaceHasConfig(fs, workspace)
  {
  }

  lemma ConfigsAnswerProbe(fs: FileSystem, workspace: Path) returns (p: Path)
    requires Coherent(fs, workspace) && WorkspaceHasConfig(fs, workspace) && fs.readdir(workspace).Some?
    ensures ConfigOf(fs, workspace, p)
  {
    var dotDir := workspace + [DOT_DIR];
    if IsFile(fs, workspace + [PLAIN]) {
      p := workspace + [PLAIN];
      assert PLAIN in fs.readdir(workspace).value;
    } else if IsFile(fs, workspace + [HIDDEN]) {
      p := workspace + [HIDDEN];
      assert HIDDEN in fs.readdir(workspace).value;
    } else if IsFile(fs, dotDir + [PLAIN]) {
      p := dotDir + [PLAIN];
      assert DOT_DIR in fs.readdir(workspace).value;
    } else {
      var e :| e in fs.readdir(dotDir).value && !IsHidden(e) && IsFile(fs, dotDir + [e, PLAIN]);
      p := dotDir + [e, PLAIN];
      assert DOT_DIR in fs.readdir(workspace).value;
    }
  }

  /**
   * In a readable workspace the probe and a walk of depth 0 agree. In an unreadable one the walk finds nothing,
   * so they differ exactly when a configuration can be reached by name.
   */
  lemma ProbeAgreesWithWalk(fs: FileSystem, scope: Scope, workspace: Path)
    requires scope.maxDepth == 0 && Coherent(fs, workspace)
    ensures fs.readdir(workspace).Some? ==>
      (WorkspaceHasConfig(fs, workspace) <==> Walk(fs, scope, workspace, workspace, 0).found != [])
    ensures fs.readdir(workspace).None? ==> Walk(fs, scope, workspace, workspace, 0).found == []
  {
    var found := Walk(fs, scope, workspace, workspace, 0).found;
    if fs.readdir(workspace).Some? {
      if found != [] {
        var p := found[0];
        FoundIsReachable(fs, scope, workspace, workspace, 0, p);
        var rel :| Reachable(fs, scope, workspace, workspace, rel, 0) && ConfigOf(fs, workspace + rel, p);
        assert workspace + rel == workspace;
        ProbeSeesConfigs(fs, workspace, p);
      }
      if WorkspaceHasConfig(fs, workspace) {
        var p := ConfigsAnswerProbe(fs, workspace);
        OwnConfigIsVisited(fs, scope, workspace, workspace, 0, p);
      }
    }
  }

  /** A directory that can be searched but not listed, holding a `devcontainer.json`. */
  function Unlistable(): FileSystem {
    FileSystem(_ => None, p => if p == ["w", PLAIN] then Some(File) else None, p => p)
  }

  /** There the probe sees a configuration that the walk does not. */
  lemma ProbeSeesMoreThanTheWalk()
    ensures var fs := Unlistable(); var scope := Scope(0, {});
      Coherent(fs, ["w"]) && WorkspaceHasConfig(fs, ["w"]) && Walk(fs, scope, ["w"], ["w"], 0).found == []
  {
    var fs := Unlistable();
    assert ["w"] + [PLAIN] == ["w", PLAIN];
    assert |["w"] + [DOT_DIR] + [PLAIN]| == 3 && (["w"] + [DOT_DIR])[1] != PLAIN;
    assert fs.readdir(["w"]).None? && IsFile(fs, ["w"] + [PLAIN]);
  }

  // ---------- All roots ----------

  lemma {:induction false} OccurrencesAreDistinct(xs: seq<Path>)
    ensures Distinct(FirstOccurrences(xs))
  {
    if xs != [] {
      var front, last := xs[..|xs| - 1], xs[|xs| - 1];
      OccurrencesAreDistinct(front);
      OccurrenceMembers(front);
      if last !in front {
        DistinctConcat(FirstOccurrences(front), [last]);
      }
    }
  }

  /** The roots are scanned one after the other, in the order given. */
  lemma {:induction false} RootsInOrder(fs: FileSystem, scope: Scope, roots: seq<Path>, more: seq<Path>)
    ensures DiscoverAll(fs, scope, roots + more) == Plus(DiscoverAll(fs, scope, roots), DiscoverAll(fs, scope, more))
    ensures forall root :: DiscoverAll(fs, scope, [root]) == Walk(fs, scope, root, root, 0)
  {
    hide Walk;
    forall root ensures DiscoverAll(fs, scope, [root]) == Walk(fs, scope, root, root, 0) {
      OneRoot(fs, scope, root);
    }
    if more == [] {
      assert roots + more == roots;
    } else {
      var n := |more| - 1;
      RootsInOrder(fs, scope, roots, more[..n]);
      var a, b := DiscoverAll(fs, scope, roots), DiscoverAll(fs, scope, more[..n]);
      var last := Walk(fs, scope, more[n], more[n], 0);
      assert (roots + more)[..|roots| + n] == roots + more[..n] && (roots + more)[|roots| + n] == more[n];
      assert DiscoverAll(fs, scope, roots + more) == Plus(Plus(a, b), last);
      hide DiscoverAll;
      PlusAssociates(a, b, last);
    }
  }

  lemma OneRoot(fs: FileSystem, scope: Scope, root: Path)
    ensures DiscoverAll(fs, scope, [root]) == Walk(fs, scope, root, root, 0)
  {
    hide Walk;
    assert [root][..0] == [];
  }

  lemma PlusAssociates(a: Report, b: Report, c: Report)
    ensures Plus(Plus(a, b), c) == Plus(a, Plus(b, c))
  {
  }

  lemma {:induction false} DiscoverAllMembers(fs: FileSystem, scope: Scope, roots: seq<Path>, p: Path)
    ensures p in DiscoverAll(fs, scope, roots).found <==>
      exists root :: root in roots && FoundBelow(fs, scope, root, root, scope.maxDepth, p)
  {
    hide FoundBelow, Walk;
    if roots != [] {
      var front, last := roots[..|roots| - 1], roots[|roots| - 1];
      DiscoverAllMembers(fs, scope, front, p);
      WalkFindsExactlyTheReachable(fs, scope, last, p);
      assert roots == front + [last];
      assert last in roots && forall root :: root in front ==> root in roots;
    }
  }

  /** The session directory is always scanned, and every root once, under its real path. */
  lemma EveryRootIsScanned(fs: FileSystem, scope: Scope, cwd: Path, allowed: seq<Path>, p: Path)
    ensures Distinct(RootsFor(fs, cwd, allowed))
    ensures p in DiscoverAll(fs, scope, RootsFor(fs, cwd, allowed)).found <==>
      exists asked :: asked in [cwd] + allowed
        && FoundBelow(fs, scope, fs.realpath(asked), fs.realpath(asked), scope.maxDepth, p)
  {
    hide FoundBelow;
    var asked := [cwd] + allowed;
    var roots := RealPaths(fs, asked);
    OccurrenceMembers(roots);
    OccurrencesAreDistinct(roots);
    DiscoverAllMembers(fs, scope, RootsFor(fs, cwd, allowed), p);
    if root :| root in RootsFor(fs, cwd, allowed) && FoundBelow(fs, scope, root, root, scope.maxDepth, p) {
      var i :| 0 <= i < |roots| && roots[i] == root;
      assert asked[i] in asked;
    }
    if a :| a in asked && FoundBelow(fs, scope, fs.realpath(a), fs.realpath(a), scope.maxDepth, p) {
      var i :| 0 <= i < |asked| && asked[i] == a;
      assert roots[i] in roots;
    }
  }
}
