/**
 * Host-side configuration discovery (src/runtime/host-discovery.ts): a depth-bounded recursive walk
 * over a file system that may be cyclic, unreadable in places, or escape through links.
 *
 * A path is the sequence of its names; the file system is three functions.
 */
module Discovery {
  import opened Text
  import opened Sorting

  type Path = seq<string>

  datatype Kind = Directory | File | Other

  /** `readdir` and `stat` give nothing when they throw; `realpath` always answers. */
  datatype FileSystem = FileSystem(
    readdir: Path -> Option<seq<string>>,
    stat: Path -> Option<Kind>,
    realpath: Path -> Path)

  datatype Scope = Scope(maxDepth: nat, excluded: set<string>)

  datatype ConfigKind = RootPlain | RootHidden | Unnamed | Named

  datatype Project = Project(workspacePath: Path, configPath: Path, configKind: ConfigKind)

  datatype Note = CannotRead(dir: Path) | CannotStat(path: Path) | TooDeep(path: Path) | Escapes(path: Path)

  const PLAIN := "devcontainer.json"
  const HIDDEN := ".devcontainer.json"
  const DOT_DIR := ".devcontainer"

  predicate IsHidden(name: string) {
    StartsWith(name, ".")
  }

  predicate IsFile(fs: FileSystem, path: Path) {
    fs.stat(path) == Some(File)
  }

  /** `isWithinWorkspace(anchorRoot, realpath(full))`, which resolves both sides itself. */
  predicate Inside(fs: FileSystem, anchor: Path, path: Path) {
    fs.realpath(anchor) <= fs.realpath(fs.realpath(path))
  }

  function Listed(names: seq<string>): seq<string> {
    SortBy(names, StringLe)
  }

  // ---------- Where a configuration belongs ----------

  function Dirname(p: Path): Path {
    if p == [] then [] else p[..|p| - 1]
  }

  function Basename(p: Path): string {
    if p == [] then "" else p[|p| - 1]
  }

  function WorkspacePathFor(configPath: Path): Path {
    var parent := Dirname(configPath);
    if Basename(parent) == DOT_DIR then Dirname(parent)
    else if Basename(Dirname(parent)) == DOT_DIR then Dirname(Dirname(parent))
    else parent
  }

  function KindFor(configPath: Path): ConfigKind {
    var parent := Dirname(configPath);
    if Basename(parent) == DOT_DIR then Unnamed
    else if Basename(Dirname(parent)) == DOT_DIR then Named
    else if Basename(configPath) == HIDDEN then RootHidden
    else RootPlain
  }

  function ToProject(fs: FileSystem, configPath: Path): Project {
    Project(fs.realpath(WorkspacePathFor(configPath)), configPath, KindFor(configPath))
  }

  function ToProjects(fs: FileSystem, configs: seq<Path>): seq<Project> {
    seq(|configs|, i requires 0 <= i < |configs| => ToProject(fs, configs[i]))
  }

  // ---------- The walk as a function ----------

  /** What a visit adds: configuration files, and notes about what it could not do. */
  datatype Report = Report(found: seq<Path>, notes: seq<Note>)

  function Plus(a: Report, b: Report): Report {
    Report(a.found + b.found, a.notes + b.notes)
  }

  const NOTHING := Report([], [])

  function NamedConfigs(fs: FileSystem, dotDir: Path, entries: seq<string>): seq<Path> {
    if entries == [] then []
    else
      var path := dotDir + [entries[0], PLAIN];
      (if !IsHidden(entries[0]) && IsFile(fs, path) then [path] else []) + NamedConfigs(fs, dotDir, entries[1..])
  }

  function DotDirectory(fs: FileSystem, dotDir: Path): Report {
    var unnamed := if IsFile(fs, dotDir + [PLAIN]) then [dotDir + [PLAIN]] else [];
    match fs.readdir(dotDir)
    case None => Report(unnamed, [CannotRead(dotDir)])
    case Some(entries) => Report(unnamed + NamedConfigs(fs, dotDir, Listed(entries)), [])
  }

  function Walk(fs: FileSystem, scope: Scope, anchor: Path, dir: Path, depth: nat): Report
    requires depth <= scope.maxDepth
    decreases scope.maxDepth - depth, 2, 0
  {
    match fs.readdir(dir)
    case None => Report([], [CannotRead(dir)])
    case Some(names) => WalkNames(fs, scope, anchor, dir, depth, Listed(names))
  }

  function WalkNames(fs: FileSystem, scope: Scope, anchor: Path, dir: Path, depth: nat, names: seq<string>): Report
    requires depth <= scope.maxDepth
    decreases scope.maxDepth - depth, 1, |names|
  {
    if names == [] then NOTHING
    else Plus(Visit(fs, scope, anchor, dir, depth, names[0]), WalkNames(fs, scope, anchor, dir, depth, names[1..]))
  }

  function Visit(fs: FileSystem, scope: Scope, anchor: Path, dir: Path, depth: nat, name: string): Report
    requires depth <= scope.maxDepth
    decreases scope.maxDepth - depth, 0, 0
  {
    var full := dir + [name];
    match fs.stat(full)
    case None => Report([], [CannotStat(full)])
    case Some(Directory) =>
      if name == DOT_DIR then DotDirectory(fs, full)
      else if IsHidden(name) || name in scope.excluded then NOTHING
      else if depth >= scope.maxDepth then Report([], [TooDeep(full)])
      else if !Inside(fs, anchor, full) then Report([], [Escapes(full)])
      else Walk(fs, scope, anchor, full, depth + 1)
    case Some(File) => if name == PLAIN || name == HIDDEN then Report([full], []) else NOTHING
    case Some(Other) => NOTHING
  }

  // ---------- The walk as the source runs it ----------

  /** The two arrays the walk pushes to. */
  class Findings {
    var projects: seq<Project>
    var notes: seq<Note>

    constructor ()
      ensures projects == [] && notes == []
    {
      projects, notes := [], [];
    }
  }

  /** The projects after pushing those of `configs`. */
  function Pushed(fs: FileSystem, projects: seq<Project>, configs: seq<Path>): seq<Project> {
    projects + ToProjects(fs, configs)
  }

  lemma PushedTwice(fs: FileSystem, projects: seq<Project>, a: seq<Path>, b: seq<Path>)
    ensures Pushed(fs, projects, a + b) == Pushed(fs, Pushed(fs, projects, a), b)
  {
    assert ToProjects(fs, a + b) == ToProjects(fs, a) + ToProjects(fs, b);
  }

  lemma PushedFew(fs: FileSystem, projects: seq<Project>, config: Path)
    ensures Pushed(fs, projects, []) == projects
    ensures Pushed(fs, projects, [config]) == projects + [ToProject(fs, config)]
  {
    assert ToProjects(fs, []) == [];
    assert ToProjects(fs, [config]) == [ToProject(fs, config)];
  }

  method ScanNamed(fs: FileSystem, full: Path, entries: seq<string>, findings: Findings)
    modifies findings
    ensures findings.projects == Pushed(fs, old(findings.projects), NamedConfigs(fs, full, entries))
    ensures findings.notes == old(findings.notes)
  {
    hide Pushed, ToProject;
    assert entries[0..] == entries;
    for i := 0 to |entries|
      invariant Pushed(fs, old(findings.projects), NamedConfigs(fs, full, entries))
             == Pushed(fs, findings.projects, NamedConfigs(fs, full, entries[i..]))
      invariant findings.notes == old(findings.notes)
    {
      var entry := entries[i];
      var namedPath := full + [entry, PLAIN];
      ghost var more := NamedConfigs(fs, full, entries[i + 1..]);
      NamedConfigsStep(fs, full, entries[i..]);
      assert entries[i..][1..] == entries[i + 1..];
      if IsHidden(entry) {
        continue;
      }
      if IsFile(fs, namedPath) {
        PushedTwice(fs, findings.projects, [namedPath], more);
        PushedFew(fs, findings.projects, namedPath);
        findings.projects := findings.projects + [ToProject(fs, namedPath)];
      }
    }
    assert entries[|entries|..] == [];
    PushedFew(fs, findings.projects, []);
  }

  lemma NamedConfigsStep(fs: FileSystem, full: Path, entries: seq<string>)
    requires entries != []
    ensures var path := full + [entries[0], PLAIN]; var more := NamedConfigs(fs, full, entries[1..]);
      NamedConfigs(fs, full, entries) == if !IsHidden(entries[0]) && IsFile(fs, path) then [path] + more else more
  {
  }

  method ScanDotDirectory(fs: FileSystem, full: Path, findings: Findings)
    modifies findings
    ensures findings.projects == Pushed(fs, old(findings.projects), DotDirectory(fs, full).found)
    ensures findings.notes == old(findings.notes) + DotDirectory(fs, full).notes
  {
    hide Pushed, ToProject, NamedConfigs, Listed;
    var configPath := full + [PLAIN];
    ghost var unnamed: seq<Path> := if IsFile(fs, configPath) then [configPath] else [];
    PushedFew(fs, findings.projects, configPath);
    if IsFile(fs, configPath) {
      findings.projects := findings.projects + [ToProject(fs, configPath)];
    }
    var listing := fs.readdir(full);
    if listing.None? {
      findings.notes := findings.notes + [CannotRead(full)];
      return;
    }
    PushedTwice(fs, old(findings.projects), unnamed, NamedConfigs(fs, full, Listed(listing.value)));
    ScanNamed(fs, full, Listed(listing.value), findings);
  }

  method WalkDir(fs: FileSystem, scope: Scope, anchor: Path, dir: Path, depth: nat, findings: Findings)
    requires depth <= scope.maxDepth
    modifies findings
    ensures findings.projects == Pushed(fs, old(findings.projects), Walk(fs, scope, anchor, dir, depth).found)
    ensures findings.notes == old(findings.notes) + Walk(fs, scope, anchor, dir, depth).notes
    decreases scope.maxDepth - depth, 1
  {
    hide Pushed, Visit, Listed;
    var listing := fs.readdir(dir);
    if listing.None? {
      PushedFew(fs, findings.projects, []);
      findings.notes := findings.notes + [CannotRead(dir)];
      return;
    }
    var names := Listed(listing.value);
    ghost var all := WalkNames(fs, scope, anchor, dir, depth, names);
    assert names[0..] == names;
    for i := 0 to |names|
      invariant Pushed(fs, old(findings.projects), all.found)
             == Pushed(fs, findings.projects, WalkNames(fs, scope, anchor, dir, depth, names[i..]).found)
      invariant old(findings.notes) + all.notes
             == findings.notes + WalkNames(fs, scope, anchor, dir, depth, names[i..]).notes
    {
      ghost var visit := Visit(fs, scope, anchor, dir, depth, names[i]);
      ghost var more := WalkNames(fs, scope, anchor, dir, depth, names[i + 1..]);
      assert names[i..][1..] == names[i + 1..];
      assert WalkNames(fs, scope, anchor, dir, depth, names[i..]) == Plus(visit, more);
      PushedTwice(fs, findings.projects, visit.found, more.found);
      assert findings.notes + (visit.notes + more.notes) == findings.notes + visit.notes + more.notes;
      VisitName(fs, scope, anchor, dir, depth, names[i], findings);
    }
    assert names[|names|..] == [];
    PushedFew(fs, findings.projects, []);
  }

  /** The body of the source's loop over the names of a directory. */
  method VisitName(fs: FileSystem, scope: Scope, anchor: Path, dir: Path, depth: nat, name: string, findings: Findings)
    requires depth <= scope.maxDepth
    modifies findings
    ensures findings.projects == Pushed(fs, old(findings.projects), Visit(fs, scope, anchor, dir, depth, name).found)
    ensures findings.notes == old(findings.notes) + Visit(fs, scope, anchor, dir, depth, name).notes
    decreases scope.maxDepth - depth, 0
  {
    hide DotDirectory, Walk, Inside, ToProject, Pushed;
    var full := dir + [name];
    PushedFew(fs, findings.projects, full);
    var stats := fs.stat(full);
    if stats.None? {
      findings.notes := findings.notes + [CannotStat(full)];
      return;
    }
    if stats.value == Directory {
      if name == DOT_DIR {
        ScanDotDirectory(fs, full, findings);
        return;
      }
      if IsHidden(name) || name in scope.excluded {
        return;
      }
      if depth >= scope.maxDepth {
        findings.notes := findings.notes + [TooDeep(full)];
        return;
      }
      if !Inside(fs, anchor, full) {
        findings.notes := findings.notes + [Escapes(full)];
        return;
      }
      WalkDir(fs, scope, anchor, full, depth + 1, findings);
    } else if stats.value == File {
      if name == PLAIN || name == HIDDEN {
        findings.projects := findings.projects + [ToProject(fs, full)];
      }
    }
  }

  // ---------- The roots ----------

  function RealPaths(fs: FileSystem, paths: seq<Path>): seq<Path> {
    seq(|paths|, i requires 0 <= i < |paths| => fs.realpath(paths[i]))
  }

  function FirstOccurrences(paths: seq<Path>): seq<Path> {
    if paths == [] then []
    else
      var front, last := paths[..|paths| - 1], paths[|paths| - 1];
      if last in front then FirstOccurrences(front) else FirstOccurrences(front) + [last]
  }

  lemma {:induction false} OccurrenceMembers(xs: seq<Path>)
    ensures forall x :: x in FirstOccurrences(xs) <==> x in xs
  {
    if xs != [] {
      OccurrenceMembers(xs[..|xs| - 1]);
      assert xs == xs[..|xs| - 1] + [xs[|xs| - 1]];
    }
  }

  function RootsFor(fs: FileSystem, cwd: Path, allowed: seq<Path>): seq<Path> {
    FirstOccurrences(RealPaths(fs, [cwd] + allowed))
  }

  function DiscoverAll(fs: FileSystem, scope: Scope, roots: seq<Path>): Report {
    if roots == [] then NOTHING
    else Plus(DiscoverAll(fs, scope, roots[..|roots| - 1]), Walk(fs, scope, roots[|roots| - 1], roots[|roots| - 1], 0))
  }

  method UniqueWorkspaceKeys(paths: seq<Path>) returns (result: seq<Path>)
    ensures result == FirstOccurrences(paths)
  {
    var seen: set<Path> := {};
    result := [];
    for i := 0 to |paths|
      invariant result == FirstOccurrences(paths[..i])
      invariant forall p :: p in seen <==> p in paths[..i]
    {
      assert paths[..i + 1][..i] == paths[..i];
      if paths[i] !in seen {
        seen := seen + {paths[i]};
        result := result + [paths[i]];
      }
    }
    assert paths[..|paths|] == paths;
  }

  method DiscoverHostConfigs(fs: FileSystem, scope: Scope, cwd: Path, allowed: seq<Path>) returns (findings: Findings)
    ensures fresh(findings)
    ensures findings.projects == Pushed(fs, [], DiscoverAll(fs, scope, RootsFor(fs, cwd, allowed)).found)
    ensures findings.notes == DiscoverAll(fs, scope, RootsFor(fs, cwd, allowed)).notes
  {
    var roots := UniqueWorkspaceKeys(RealPaths(fs, [cwd] + allowed));
    findings := new Findings();
    PushedFew(fs, [], []);
    hide Pushed, Walk;
    for i := 0 to |roots|
      invariant findings.projects == Pushed(fs, [], DiscoverAll(fs, scope, roots[..i]).found)
      invariant findings.notes == DiscoverAll(fs, scope, roots[..i]).notes
    {
      assert roots[..i + 1][..i] == roots[..i];
      PushedTwice(fs, [], DiscoverAll(fs, scope, roots[..i]).found, Walk(fs, scope, roots[i], roots[i], 0).found);
      WalkDir(fs, scope, roots[i], roots[i], 0, findings);
    }
    assert roots[..|roots|] == roots;
  }
}
