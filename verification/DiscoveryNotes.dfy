/**
 * What the discovery walk reports: exactly the places it could not read, the entries it could not look at, and the
 * directories it would have entered but for its depth limit or the root they leave.
 */
module DiscoveryNotes {
  import opened Text
  import opened Sorting
  import opened Discovery
  import opened DiscoveryReach

  /** What there is to report about one entry of a reached directory, the deepest the walk goes to or not. */
  predicate NoteOf(fs: FileSystem, scope: Scope, anchor: Path, dir: Path, deepest: bool, name: string, n: Note) {
    var path := dir + [name];
    match n
    case CannotRead(p) =>
      p == path && name == ".devcontainer" && fs.stat(path) == Some(Directory) && fs.readdir(path).None?
    case CannotStat(p) => p == path && fs.stat(path).None?
    case TooDeep(p) => p == path && Open(fs, scope, dir, name) && deepest
    case Escapes(p) => p == path && Open(fs, scope, dir, name) && !deepest && !StaysInside(fs, anchor, path)
  }

  /** And about the directory itself. */
  predicate NoteAt(fs: FileSystem, scope: Scope, anchor: Path, dir: Path, deepest: bool, n: Note) {
    if fs.readdir(dir).None? then n == CannotRead(dir)
    else exists name :: name in fs.readdir(dir).value && NoteOf(fs, scope, anchor, dir, deepest, name, n)
  }

  ghost predicate NotedBelow(fs: FileSystem, scope: Scope, anchor: Path, dir: Path, budget: nat, n: Note) {
    exists rel :: Reachable(fs, scope, anchor, dir, rel, budget)
      && NoteAt(fs, scope, anchor, dir + rel, |rel| == budget, n)
  }

  // ---------- One directory ----------

  lemma {:induction false} NotesOfNames(
    fs: FileSystem, scope: Scope, anchor: Path, dir: Path, depth: nat, names: seq<string>, n: Note)
    requires depth <= scope.maxDepth
    ensures n in WalkNames(fs, scope, anchor, dir, depth, names).notes <==>
      exists name :: name in names && n in Visit(fs, scope, anchor, dir, depth, name).notes
  {
    if names != [] {
      NotesOfNames(fs, scope, anchor, dir, depth, names[1..], n);
      WalkNamesStep(fs, scope, anchor, dir, depth, names);
      hide WalkNames, Visit;
      assert names == [names[0]] + names[1..];
    }
  }

  lemma NotesOfWalk(fs: FileSystem, scope: Scope, anchor: Path, dir: Path, depth: nat, n: Note)
    requires depth <= scope.maxDepth
    ensures n in Walk(fs, scope, anchor, dir, depth).notes <==>
      if fs.readdir(dir).None? then n == CannotRead(dir)
      else exists name :: name in fs.readdir(dir).value && n in Visit(fs, scope, anchor, dir, depth, name).notes
  {
    hide Visit;
    if fs.readdir(dir).Some? {
      NotesOfNames(fs, scope, anchor, dir, depth, Listed(fs.readdir(dir).value), n);
      SortMembers(fs.readdir(dir).value, StringLe);
    }
  }

  /** A visit reports what its directory does, or what there is to report about the entry. */
  lemma NotesOfVisit(fs: FileSystem, scope: Scope, anchor: Path, dir: Path, depth: nat, name: string, n: Note)
    requires depth <= scope.maxDepth && fs.readdir(dir).Some? && name in fs.readdir(dir).value
    ensures n in Visit(fs, scope, anchor, dir, depth, name).notes <==>
      if Descends(fs, scope, anchor, dir, depth, name) then n in Walk(fs, scope, anchor, dir + [name], depth + 1).notes
      else NoteOf(fs, scope, anchor, dir, depth == scope.maxDepth, name, n)
  {
    InsideIsStaying(fs, anchor, dir + [name]);
    hide Walk, Inside, StaysInside;
    assert IsHidden(DOT_DIR);
  }

  lemma DescendedIsSilent(fs: FileSystem, scope: Scope, anchor: Path, dir: Path, depth: nat, name: string, n: Note)
    requires Descends(fs, scope, anchor, dir, depth, name)
    ensures !NoteOf(fs, scope, anchor, dir, depth == scope.maxDepth, name, n)
  {
    hide StaysInside;
    assert IsHidden(DOT_DIR);
  }

  // ---------- Every directory ----------

  lemma NotedBelowCons(fs: FileSystem, scope: Scope, anchor: Path, dir: Path, name: string, budget: nat, n: Note)
    requires budget > 0 && Open(fs, scope, dir, name) && StaysInside(fs, anchor, dir + [name])
    requires NotedBelow(fs, scope, anchor, dir + [name], budget - 1, n)
    ensures NotedBelow(fs, scope, anchor, dir, budget, n)
  {
    hide Reachable, NoteAt;
    var rel :| Reachable(fs, scope, anchor, dir + [name], rel, budget - 1)
      && NoteAt(fs, scope, anchor, dir + [name] + rel, |rel| == budget - 1, n);
    ReachableCons(fs, scope, anchor, dir, name, rel, budget);
    assert dir + ([name] + rel) == dir + [name] + rel && |[name] + rel| == |rel| + 1;
  }

  lemma NotedHere(fs: FileSystem, scope: Scope, anchor: Path, dir: Path, budget: nat, n: Note)
    requires NoteAt(fs, scope, anchor, dir, budget == 0, n)
    ensures NotedBelow(fs, scope, anchor, dir, budget, n)
  {
    ReachesItself(fs, scope, anchor, dir, budget);
    hide Reachable, NoteAt;
    var rel: Path := [];
    assert |rel| == 0;
  }

  lemma {:induction false} ReportedIsNoted(
    fs: FileSystem, scope: Scope, anchor: Path, dir: Path, depth: nat, n: Note)
    requires depth <= scope.maxDepth && n in Walk(fs, scope, anchor, dir, depth).notes
    ensures NotedBelow(fs, scope, anchor, dir, scope.maxDepth - depth, n)
    decreases scope.maxDepth - depth
  {
    NotesOfWalk(fs, scope, anchor, dir, depth, n);
    hide Visit, Walk, Reachable, NotedBelow, NoteOf, StaysInside;
    if fs.readdir(dir).Some? {
      var name :| name in fs.readdir(dir).value && n in Visit(fs, scope, anchor, dir, depth, name).notes;
      NotesOfVisit(fs, scope, anchor, dir, depth, name, n);
      if Descends(fs, scope, anchor, dir, depth, name) {
        ReportedIsNoted(fs, scope, anchor, dir + [name], depth + 1, n);
        NotedBelowCons(fs, scope, anchor, dir, name, scope.maxDepth - depth, n);
        return;
      }
    }
    NotedHere(fs, scope, anchor, dir, scope.maxDepth - depth, n);
  }

  lemma {:induction false} NotedIsReported(
    fs: FileSystem, scope: Scope, anchor: Path, dir: Path, depth: nat, rel: Path, n: Note)
    requires depth <= scope.maxDepth && Reachable(fs, scope, anchor, dir, rel, scope.maxDepth - depth)
    requires NoteAt(fs, scope, anchor, dir + rel, |rel| == scope.maxDepth - depth, n)
    ensures n in Walk(fs, scope, anchor, dir, depth).notes
    decreases |rel|
  {
    NotesOfWalk(fs, scope, anchor, dir, depth, n);
    hide Visit, Walk, NoteOf;
    if rel == [] {
      assert dir + rel == dir;
      if fs.readdir(dir).Some? {
        var name :| name in fs.readdir(dir).value
          && NoteOf(fs, scope, anchor, dir, depth == scope.maxDepth, name, n);
        if Descends(fs, scope, anchor, dir, depth, name) {
          DescendedIsSilent(fs, scope, anchor, dir, depth, name, n);
        }
        NotesOfVisit(fs, scope, anchor, dir, depth, name, n);
      }
    } else {
      var name, rest := rel[0], rel[1..];
      assert rel == [name] + rest && dir + rel == dir + [name] + rest;
      ReachableCons(fs, scope, anchor, dir, name, rest, scope.maxDepth - depth);
      NotedIsReported(fs, scope, anchor, dir + [name], depth + 1, rest, n);
      NotesOfVisit(fs, scope, anchor, dir, depth, name, n);
    }
  }

  /** For every file system: a note is reported if and only if some reached directory gives cause for it. */
  lemma WalkReportsExactly(fs: FileSystem, scope: Scope, root: Path, n: Note)
    ensures n in Walk(fs, scope, root, root, 0).notes <==> NotedBelow(fs, scope, root, root, scope.maxDepth, n)
  {
    if n in Walk(fs, scope, root, root, 0).notes {
      ReportedIsNoted(fs, scope, root, root, 0, n);
    }
    if NotedBelow(fs, scope, root, root, scope.maxDepth, n) {
      var rel :| Reachable(fs, scope, root, root, rel, scope.maxDepth)
        && NoteAt(fs, scope, root, root + rel, |rel| == scope.maxDepth, n);
      NotedIsReported(fs, scope, root, root, 0, rel, n);
    }
  }
}
