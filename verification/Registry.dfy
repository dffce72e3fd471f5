/**
 * The workspace registry (src/runtime/host-discovery.ts): discovered configurations and labelled
 * containers merged into one entry per workspace.
 *
 * Keys are canonical absolute paths as name sequences. `localeCompare` is an arbitrary comparison.
 */
module Registry {
  import opened Text
  import opened Sorting
  import opened Discovery

  datatype State = Running | Exited | Created | Paused | Unknown

  datatype Container = Container(id: string, state: string, image: string, workspaceKey: Option<Path>)

  datatype Candidate = Candidate(id: string, state: State, image: string)

  datatype ConfigCandidate = ConfigCandidate(configPath: Path, configKind: ConfigKind)

  datatype Entry =
    | ConfigEntry(workspacePath: Path, configs: seq<ConfigCandidate>, containers: seq<Candidate>, ambiguous: bool)
    | ContainerOnly(workspacePath: Path, containers: seq<Candidate>, ambiguous: bool)

  /** `localeCompare(a, b) <= 0` on paths. */
  type Locale = (Path, Path) -> bool

  function MapContainerState(state: string): State {
    match state
    case "running" => Running
    case "exited" => Exited
    case "created" => Created
    case "paused" => Paused
    case _ => Unknown
  }

  function KindPriority(kind: ConfigKind): nat {
    match kind
    case Unnamed => 0
    case Named => 1
    case RootHidden => 2
    case RootPlain => 3
  }

  predicate ConfigLe(locale: Locale, a: ConfigCandidate, b: ConfigCandidate) {
    || KindPriority(a.configKind) < KindPriority(b.configKind)
    || (a.configKind == b.configKind && locale(a.configPath, b.configPath))
  }

  predicate RunningFirst(a: Candidate, b: Candidate) {
    a.state == Running || b.state != Running
  }

  function Filter<T>(xs: seq<T>, keep: T -> bool): seq<T> {
    if xs == [] then []
    else if keep(xs[|xs| - 1]) then Filter(xs[..|xs| - 1], keep) + [xs[|xs| - 1]]
    else Filter(xs[..|xs| - 1], keep)
  }

  function Map<S, T>(f: S -> T, xs: seq<S>): seq<T> {
    seq(|xs|, i requires 0 <= i < |xs| => f(xs[i]))
  }

  // ---------- The merge as a function ----------

  function ConfigsPlus(locale: Locale, configs: seq<ConfigCandidate>, p: Project): seq<ConfigCandidate> {
    SortBy(configs + [ConfigCandidate(p.configPath, p.configKind)], (a, b) => ConfigLe(locale, a, b))
  }

  /** The configurations of one workspace: each new one is sorted in, most preferred first. */
  function ConfigsOf(locale: Locale, projects: seq<Project>, key: Path): seq<ConfigCandidate> {
    if projects == [] then []
    else
      var front := ConfigsOf(locale, projects[..|projects| - 1], key);
      var p := projects[|projects| - 1];
      if p.workspacePath != key then front
      else ConfigsPlus(locale, front, p)
  }

  function KeysOf(projects: seq<Project>): seq<Path> {
    FirstOccurrences(Map((p: Project) => p.workspacePath, projects))
  }

  predicate HasKey(realpath: Path -> Path, c: Container, key: Path) {
    c.workspaceKey.Some? && realpath(c.workspaceKey.value) == key
  }

  /** The containers labelled for one workspace, in listing order. */
  function GroupOf(realpath: Path -> Path, listing: seq<Container>, key: Path): seq<Container> {
    Filter(listing, (c: Container) => HasKey(realpath, c, key))
  }

  /** The workspaces the listing names, in order of first appearance. */
  function DockerKeys(realpath: Path -> Path, listing: seq<Container>): seq<Path> {
    if listing == [] then []
    else
      var front, c := DockerKeys(realpath, listing[..|listing| - 1]), listing[|listing| - 1];
      if c.workspaceKey.None? || realpath(c.workspaceKey.value) in front then front
      else front + [realpath(c.workspaceKey.value)]
  }

  /** The ids of the containers without a workspace identity; each is reported. */
  function Unlabelled(listing: seq<Container>): seq<string> {
    if listing == [] then []
    else
      var front, c := Unlabelled(listing[..|listing| - 1]), listing[|listing| - 1];
      if c.workspaceKey.None? then front + [c.id] else front
  }

  function ToCandidate(c: Container): Candidate {
    Candidate(c.id, MapContainerState(c.state), c.image)
  }

  /** Every container with an id, running ones first. */
  function CandidatesOf(group: seq<Container>): seq<Candidate> {
    SortBy(Map(ToCandidate, Filter(group, (c: Container) => c.id != "")), RunningFirst)
  }

  function RunningOf(containers: seq<Candidate>): seq<Candidate> {
    Filter(containers, (c: Candidate) => c.state == Running)
  }

  predicate IsAmbiguous(containers: seq<Candidate>) {
    |RunningOf(containers)| > 1
  }

  function ConfigEntryFor(
    locale: Locale, realpath: Path -> Path, projects: seq<Project>, listing: seq<Container>, key: Path): Entry
  {
    var containers := CandidatesOf(GroupOf(realpath, listing, key));
    ConfigEntry(key, ConfigsOf(locale, projects, key), containers, IsAmbiguous(containers))
  }

  function ContainerEntriesFor(realpath: Path -> Path, listing: seq<Container>, key: Path): seq<Entry> {
    var containers := CandidatesOf(GroupOf(realpath, listing, key));
    if containers == [] then [] else [ContainerOnly(key, containers, IsAmbiguous(containers))]
  }

  function ConfigEntries(
    locale: Locale, realpath: Path -> Path, projects: seq<Project>, listing: seq<Container>,
    keys: seq<Path>): seq<Entry>
  {
    if keys == [] then []
    else ConfigEntries(locale, realpath, projects, listing, keys[..|keys| - 1])
         + [ConfigEntryFor(locale, realpath, projects, listing, keys[|keys| - 1])]
  }

  function ContainerEntries(
    realpath: Path -> Path, known: seq<Path>, listing: seq<Container>, keys: seq<Path>): seq<Entry>
  {
    if keys == [] then []
    else
      var front, key := ContainerEntries(realpath, known, listing, keys[..|keys| - 1]), keys[|keys| - 1];
      if key in known then front else front + ContainerEntriesFor(realpath, listing, key)
  }

  function Unsorted(
    locale: Locale, realpath: Path -> Path, projects: seq<Project>, listing: seq<Container>): seq<Entry>
  {
    ConfigEntries(locale, realpath, projects, listing, KeysOf(projects))
    + ContainerEntries(realpath, KeysOf(projects), listing, DockerKeys(realpath, listing))
  }

  function Build(locale: Locale, realpath: Path -> Path, projects: seq<Project>, listing: seq<Container>): seq<Entry> {
    SortBy(
      Unsorted(locale, realpath, projects, listing), (a: Entry, b: Entry) => locale(a.workspacePath, b.workspacePath))
  }

  // ---------- The merge as the source runs it ----------

  lemma ConfigsStep(locale: Locale, projects: seq<Project>, i: nat, key: Path)
    requires i < |projects|
    ensures ConfigsOf(locale, projects[..i + 1], key) ==
      if projects[i].workspacePath != key then ConfigsOf(locale, projects[..i], key)
      else ConfigsPlus(locale, ConfigsOf(locale, projects[..i], key), projects[i])
    ensures KeysOf(projects[..i + 1]) ==
      if projects[i].workspacePath in KeysOf(projects[..i]) then KeysOf(projects[..i])
      else KeysOf(projects[..i]) + [projects[i].workspacePath]
  {
    var path := (p: Project) => p.workspacePath;
    assert projects[..i + 1][..i] == projects[..i];
    assert Map(path, projects[..i + 1])[..i] == Map(path, projects[..i]);
    OccurrenceMembers(Map(path, projects[..i]));
  }

  /** One project: a new workspace goes to the end of the order, a known one gets its configurations re-sorted. */
  method AddProject(locale: Locale, p: Project, order: seq<Path>, byKey: map<Path, seq<ConfigCandidate>>)
    returns (nextOrder: seq<Path>, next: map<Path, seq<ConfigCandidate>>)
    requires byKey.Keys == set k | k in order
    ensures nextOrder == Noted(order, p.workspacePath) && next == WithProject(locale, byKey, p)
  {
    var candidate := ConfigCandidate(p.configPath, p.configKind);
    nextOrder := order;
    if p.workspacePath !in byKey {
      nextOrder := nextOrder + [p.workspacePath];
      next := byKey[p.workspacePath := [candidate]];
      assert SortBy([] + [candidate], (a, b) => ConfigLe(locale, a, b)) == [candidate];
    } else {
      next := byKey[p.workspacePath := SortBy(byKey[p.workspacePath] + [candidate], (a, b) => ConfigLe(locale, a, b))];
    }
  }

  function Noted(order: seq<Path>, key: Path): seq<Path> {
    if key in order then order else order + [key]
  }

  function At(byKey: map<Path, seq<ConfigCandidate>>, key: Path): seq<ConfigCandidate> {
    if key in byKey then byKey[key] else []
  }

  function WithProject(
    locale: Locale, byKey: map<Path, seq<ConfigCandidate>>, p: Project): map<Path, seq<ConfigCandidate>>
  {
    byKey[p.workspacePath := ConfigsPlus(locale, At(byKey, p.workspacePath), p)]
  }

  ghost predicate Merged(
    locale: Locale, projects: seq<Project>, order: seq<Path>, byKey: map<Path, seq<ConfigCandidate>>)
  {
    && order == KeysOf(projects) && byKey.Keys == (set k | k in order)
    && forall k :: At(byKey, k) == ConfigsOf(locale, projects, k)
  }

  lemma MergedStep(
    locale: Locale, projects: seq<Project>, i: nat, order: seq<Path>, byKey: map<Path, seq<ConfigCandidate>>)
    requires i < |projects| && Merged(locale, projects[..i], order, byKey)
    ensures var p := projects[i];
      Merged(locale, projects[..i + 1], Noted(order, p.workspacePath), WithProject(locale, byKey, p))
  {
    var p := projects[i];
    ConfigsStep(locale, projects, i, p.workspacePath);
    forall k ensures At(WithProject(locale, byKey, p), k) == ConfigsOf(locale, projects[..i + 1], k) {
      ConfigsStep(locale, projects, i, k);
      assert At(byKey, k) == ConfigsOf(locale, projects[..i], k);
      hide ConfigsOf, ConfigsPlus, KeysOf;
    }
    hide ConfigsOf, ConfigsPlus, KeysOf, At;
    assert WithProject(locale, byKey, p).Keys == byKey.Keys + {p.workspacePath};
  }

  /** The first loop: a map from workspace to configurations, with its insertion order. */
  method MergeConfigs(
    locale: Locale, projects: seq<Project>)
    returns (order: seq<Path>, byKey: map<Path, seq<ConfigCandidate>>)
    ensures order == KeysOf(projects) && forall k :: k in byKey <==> k in order
    ensures forall k :: k in byKey ==> byKey[k] == ConfigsOf(locale, projects, k)
  {
    order, byKey := [], map[];
    for i := 0 to |projects|
      invariant Merged(locale, projects[..i], order, byKey)
    {
      var nextOrder, next := AddProject(locale, projects[i], order, byKey);
      MergedStep(locale, projects, i, order, byKey);
      hide Merged;
      order, byKey := nextOrder, next;
    }
    assert projects[..|projects|] == projects;
    hide ConfigsOf, KeysOf;
    forall k | k in byKey ensures byKey[k] == ConfigsOf(locale, projects, k) {
      assert At(byKey, k) == ConfigsOf(locale, projects, k);
    }
  }

  lemma GroupStep(realpath: Path -> Path, listing: seq<Container>, i: nat, key: Path)
    requires i < |listing|
    ensures GroupOf(realpath, listing[..i + 1], key) ==
      GroupOf(realpath, listing[..i], key) + if HasKey(realpath, listing[i], key) then [listing[i]] else []
  {
    assert listing[..i + 1][..i] == listing[..i];
  }

  lemma DockerStep(realpath: Path -> Path, listing: seq<Container>, i: nat)
    requires i < |listing|
    ensures var c := listing[i]; var keys := DockerKeys(realpath, listing[..i]);
      DockerKeys(realpath, listing[..i + 1]) ==
        if c.workspaceKey.None? || realpath(c.workspaceKey.value) in keys then keys
        else keys + [realpath(c.workspaceKey.value)]
    ensures Unlabelled(listing[..i + 1]) ==
      if listing[i].workspaceKey.None? then Unlabelled(listing[..i]) + [listing[i].id] else Unlabelled(listing[..i])
  {
    assert listing[..i + 1][..i] == listing[..i];
  }

  function Members(byKey: map<Path, seq<Container>>, key: Path): seq<Container> {
    if key in byKey then byKey[key] else []
  }

  ghost predicate Grouped(
    realpath: Path -> Path, listing: seq<Container>, order: seq<Path>, byKey: map<Path, seq<Container>>)
  {
    && order == DockerKeys(realpath, listing) && byKey.Keys == (set k | k in order)
    && forall k :: Members(byKey, k) == GroupOf(realpath, listing, k)
  }

  lemma GroupedStep(
    realpath: Path -> Path, listing: seq<Container>, i: nat, order: seq<Path>, byKey: map<Path, seq<Container>>)
    requires i < |listing| && Grouped(realpath, listing[..i], order, byKey)
    ensures var c := listing[i];
      if c.workspaceKey.None? then Grouped(realpath, listing[..i + 1], order, byKey)
      else
        var key := realpath(c.workspaceKey.value);
        Grouped(realpath, listing[..i + 1], Noted(order, key), byKey[key := Members(byKey, key) + [c]])
  {
    var c := listing[i];
    DockerStep(realpath, listing, i);
    if c.workspaceKey.None? {
      forall k ensures Members(byKey, k) == GroupOf(realpath, listing[..i + 1], k) {
        GroupStep(realpath, listing, i, k);
        assert Members(byKey, k) == GroupOf(realpath, listing[..i], k);
        hide GroupOf, DockerKeys;
      }
    } else {
      var key := realpath(c.workspaceKey.value);
      var next := byKey[key := Members(byKey, key) + [c]];
      forall k ensures Members(next, k) == GroupOf(realpath, listing[..i + 1], k) {
        GroupStep(realpath, listing, i, k);
        assert Members(byKey, k) == GroupOf(realpath, listing[..i], k);
        hide GroupOf, DockerKeys;
      }
      hide GroupOf, DockerKeys, Members;
      assert next.Keys == byKey.Keys + {key};
    }
  }

  /** The second loop: containers grouped by the real path of their label. */
  method GroupContainers(realpath: Path -> Path, listing: seq<Container>)
    returns (order: seq<Path>, byKey: map<Path, seq<Container>>, unlabelled: seq<string>)
    ensures order == DockerKeys(realpath, listing) && unlabelled == Unlabelled(listing)
    ensures forall k :: k in byKey <==> k in order
    ensures forall k :: k in byKey ==> byKey[k] == GroupOf(realpath, listing, k)
    ensures forall k :: k !in byKey ==> GroupOf(realpath, listing, k) == []
  {
    order, byKey, unlabelled := [], map[], [];
    assert Grouped(realpath, listing[..0], order, byKey);
    hide GroupOf;
    for i := 0 to |listing|
      invariant Grouped(realpath, listing[..i], order, byKey) && unlabelled == Unlabelled(listing[..i])
    {
      var c := listing[i];
      DockerStep(realpath, listing, i);
      GroupedStep(realpath, listing, i, order, byKey);
      assert forall k :: k in byKey <==> k in order;
      hide Grouped, DockerKeys, Unlabelled;
      if c.workspaceKey.None? {
        unlabelled := unlabelled + [c.id];
        continue;
      }
      var key := realpath(c.workspaceKey.value);
      if key !in byKey {
        assert [] + [c] == [c];
        order := order + [key];
        byKey := byKey[key := [c]];
      } else {
        byKey := byKey[key := byKey[key] + [c]];
      }
    }
    assert listing[..|listing|] == listing;
    hide DockerKeys, Unlabelled;
    forall k ensures GroupOf(realpath, listing, k) == if k in byKey then byKey[k] else [] {
      assert Members(byKey, k) == GroupOf(realpath, listing, k);
    }
  }

  method HostEntries(
    locale: Locale, realpath: Path -> Path, projects: seq<Project>, listing: seq<Container>,
    hostKeys: seq<Path>, configs: map<Path, seq<ConfigCandidate>>, groups: map<Path, seq<Container>>)
    returns (entries: seq<Entry>)
    requires forall k :: k in hostKeys ==> k in configs && configs[k] == ConfigsOf(locale, projects, k)
    requires forall k :: GroupOf(realpath, listing, k) == if k in groups then groups[k] else []
    ensures entries == ConfigEntries(locale, realpath, projects, listing, hostKeys)
  {
    hide CandidatesOf, IsAmbiguous, GroupOf, ConfigsOf;
    entries := [];
    for i := 0 to |hostKeys|
      invariant entries == ConfigEntries(locale, realpath, projects, listing, hostKeys[..i])
    {
      var key := hostKeys[i];
      assert hostKeys[..i + 1][..i] == hostKeys[..i];
      var containers := CandidatesOf(if key in groups then groups[key] else []);
      entries := entries + [ConfigEntry(key, configs[key], containers, IsAmbiguous(containers))];
    }
    assert hostKeys[..|hostKeys|] == hostKeys;
  }

  method DockerOnlyEntries(
    realpath: Path -> Path, known: seq<Path>, listing: seq<Container>, keys: seq<Path>,
    groups: map<Path, seq<Container>>)
    returns (entries: seq<Entry>)
    requires forall k :: k in keys ==> k in groups && groups[k] == GroupOf(realpath, listing, k)
    ensures entries == ContainerEntries(realpath, known, listing, keys)
  {
    hide CandidatesOf, IsAmbiguous, GroupOf;
    entries := [];
    for i := 0 to |keys|
      invariant entries == ContainerEntries(realpath, known, listing, keys[..i])
    {
      var key := keys[i];
      assert keys[..i + 1][..i] == keys[..i];
      if key in known {
        continue;
      }
      var containers := CandidatesOf(groups[key]);
      if |containers| == 0 {
        continue;
      }
      entries := entries + [ContainerOnly(key, containers, IsAmbiguous(containers))];
    }
    assert keys[..|keys|] == keys;
  }

  /** Entries for host configurations, then for workspaces known through containers only, then sorted. */
  method BuildWorkspaceRegistry(locale: Locale, realpath: Path -> Path, projects: seq<Project>, listing: seq<Container>)
    returns (entries: seq<Entry>, unlabelled: seq<string>)
    ensures entries == Build(locale, realpath, projects, listing)
    ensures unlabelled == Unlabelled(listing)
  {
    hide ConfigsOf, GroupOf, KeysOf, DockerKeys, ConfigEntries, ContainerEntries, Unlabelled;
    var hostKeys, configs := MergeConfigs(locale, projects);
    var dockerKeys, groups, missing := GroupContainers(realpath, listing);
    var hosted := HostEntries(locale, realpath, projects, listing, hostKeys, configs, groups);
    var dockerOnly := DockerOnlyEntries(realpath, hostKeys, listing, dockerKeys, groups);
    entries := SortBy(hosted + dockerOnly, (a: Entry, b: Entry) => locale(a.workspacePath, b.workspacePath));
    unlabelled := missing;
  }

  // ---------- What an entry is ----------

  /** The entry of one workspace, independent of every loop: at most one, and none without evidence. */
  function EntriesFor(
    locale: Locale, realpath: Path -> Path, projects: seq<Project>, listing: seq<Container>, key: Path): seq<Entry>
  {
    if exists p :: p in projects && p.workspacePath == key
    then [ConfigEntryFor(locale, realpath, projects, listing, key)]
    else ContainerEntriesFor(realpath, listing, key)
  }

  lemma KeysMembers(projects: seq<Project>, key: Path)
    ensures key in KeysOf(projects) <==> exists p :: p in projects && p.workspacePath == key
  {
    var paths := Map((p: Project) => p.workspacePath, projects);
    OccurrenceMembers(paths);
    if key in paths {
      var i :| 0 <= i < |paths| && paths[i] == key;
      assert projects[i] in projects;
    }
    if p :| p in projects && p.workspacePath == key {
      var i :| 0 <= i < |projects| && projects[i] == p;
      assert paths[i] == key;
    }
  }

  lemma {:induction false} DockerKeysMembers(realpath: Path -> Path, listing: seq<Container>, key: Path)
    ensures key in DockerKeys(realpath, listing) <==> GroupOf(realpath, listing, key) != []
  {
    if listing != [] {
      var n := |listing| - 1;
      assert listing[..n + 1] == listing;
      DockerKeysMembers(realpath, listing[..n], key);
      DockerStep(realpath, listing, n);
      GroupStep(realpath, listing, n, key);
    }
  }

  lemma {:induction false} ConfigEntriesMembers(
    locale: Locale, realpath: Path -> Path, projects: seq<Project>, listing: seq<Container>, keys: seq<Path>, e: Entry)
    ensures e in ConfigEntries(locale, realpath, projects, listing, keys) <==>
      e.workspacePath in keys && e == ConfigEntryFor(locale, realpath, projects, listing, e.workspacePath)
  {
    if keys != [] {
      var n := |keys| - 1;
      ConfigEntriesMembers(locale, realpath, projects, listing, keys[..n], e);
      assert keys == keys[..n] + [keys[n]];
    }
  }

  lemma {:induction false} ContainerEntriesMembers(
    realpath: Path -> Path, known: seq<Path>, listing: seq<Container>, keys: seq<Path>, e: Entry)
    ensures e in ContainerEntries(realpath, known, listing, keys) <==>
      && e.workspacePath in keys && e.workspacePath !in known
      && e in ContainerEntriesFor(realpath, listing, e.workspacePath)
  {
    if keys != [] {
      var n := |keys| - 1;
      ContainerEntriesMembers(realpath, known, listing, keys[..n], e);
      assert keys == keys[..n] + [keys[n]];
    }
  }

  /** The registry holds exactly the entry of each workspace. */
  lemma BuildMembers(locale: Locale, realpath: Path -> Path, projects: seq<Project>, listing: seq<Container>, e: Entry)
    ensures e in Build(locale, realpath, projects, listing)
      <==> e in EntriesFor(locale, realpath, projects, listing, e.workspacePath)
  {
    var key := e.workspacePath;
    KeysMembers(projects, key);
    DockerKeysMembers(realpath, listing, key);
    ConfigEntriesMembers(locale, realpath, projects, listing, KeysOf(projects), e);
    ContainerEntriesMembers(realpath, KeysOf(projects), listing, DockerKeys(realpath, listing), e);
    SortMembers(
      Unsorted(locale, realpath, projects, listing), (a: Entry, b: Entry) => locale(a.workspacePath, b.workspacePath));
    hide ConfigEntries, ContainerEntries, KeysOf, DockerKeys, GroupOf;
    NoContainers();
  }

  lemma NoContainers()
    ensures CandidatesOf([]) == []
  {
  }

  /** `entries.find` by workspace. */
  function Lookup(entries: seq<Entry>, key: Path): Option<Entry> {
    if entries == [] then None
    else if entries[0].workspacePath == key then Some(entries[0])
    else Lookup(entries[1..], key)
  }

  lemma {:induction false} LookupMembers(entries: seq<Entry>, key: Path)
    ensures Lookup(entries, key).Some? ==>
      Lookup(entries, key).value in entries && Lookup(entries, key).value.workspacePath == key
    ensures Lookup(entries, key).None? ==> forall e :: e in entries ==> e.workspacePath != key
  {
    if entries != [] && entries[0].workspacePath != key {
      LookupMembers(entries[1..], key);
    }
  }

  lemma BuildLookup(locale: Locale, realpath: Path -> Path, projects: seq<Project>, listing: seq<Container>, key: Path)
    ensures var found := EntriesFor(locale, realpath, projects, listing, key);
      Lookup(Build(locale, realpath, projects, listing), key) == if found == [] then None else Some(found[0])
  {
    var entries := Build(locale, realpath, projects, listing);
    var found := EntriesFor(locale, realpath, projects, listing, key);
    LookupMembers(entries, key);
    if found != [] {
      assert found[0].workspacePath == key;
      BuildMembers(locale, realpath, projects, listing, found[0]);
      hide Build, EntriesFor;
      assert found[0] in found;
    }
    if Lookup(entries, key).Some? {
      BuildMembers(locale, realpath, projects, listing, Lookup(entries, key).value);
    }
  }

  // ---------- Permuted listings ----------

  lemma {:induction false} FilterConcat<T>(xs: seq<T>, ys: seq<T>, keep: T -> bool)
    ensures Filter(xs + ys, keep) == Filter(xs, keep) + Filter(ys, keep)
  {
    if ys == [] {
      assert xs + ys == xs;
    } else {
      var n := |ys| - 1;
      assert (xs + ys)[..|xs| + n] == xs + ys[..n];
      FilterConcat(xs, ys[..n], keep);
    }
  }

  function Single<T>(x: T, keep: T -> bool): seq<T> {
    if keep(x) then [x] else []
  }

  lemma FilterMiddle<T>(before: seq<T>, x: T, after: seq<T>, keep: T -> bool)
    ensures Filter(before + [x] + after, keep) == Filter(before, keep) + Single(x, keep) + Filter(after, keep)
  {
    assert Filter([x], keep) == Single(x, keep);
    FilterConcat(before, [x], keep);
    FilterConcat(before + [x], after, keep);
  }

  lemma MultisetMiddle<T>(before: seq<T>, middle: seq<T>, after: seq<T>)
    ensures multiset(before + middle + after) == multiset(middle) + multiset(before + after)
  {
  }

  lemma FilterRemoved<T>(before: seq<T>, x: T, after: seq<T>, keep: T -> bool)
    ensures multiset(Filter(before + [x] + after, keep))
      == multiset(Single(x, keep)) + multiset(Filter(before + after, keep))
  {
    FilterMiddle(before, x, after, keep);
    FilterConcat(before, after, keep);
    hide Filter, Single;
    MultisetMiddle(Filter(before, keep), Single(x, keep), Filter(after, keep));
  }

  lemma FilterAdded<T>(rest: seq<T>, x: T, before: seq<T>, after: seq<T>, keep: T -> bool)
    requires multiset(Filter(rest, keep)) == multiset(Filter(before + after, keep))
    ensures multiset(Filter([x] + rest, keep)) == multiset(Filter(before + [x] + after, keep))
  {
    FilterRemoved([], x, rest, keep);
    FilterRemoved(before, x, after, keep);
    hide Filter, Single;
    assert [] + [x] + rest == [x] + rest && [] + rest == rest;
  }

  lemma MapRemoved<S, T>(f: S -> T, ys: seq<S>, j: nat)
    requires j < |ys|
    ensures multiset(Map(f, ys)) == multiset{f(ys[j])} + multiset(Map(f, ys[..j] + ys[j + 1..]))
  {
    var before, after := Map(f, ys[..j]), Map(f, ys[j + 1..]);
    assert Map(f, ys) == before + [f(ys[j])] + after;
    assert Map(f, ys[..j] + ys[j + 1..]) == before + after;
  }

  lemma {:induction false} MapPermutes<S, T>(f: S -> T, xs: seq<S>, ys: seq<S>)
    requires multiset(xs) == multiset(ys)
    ensures multiset(Map(f, xs)) == multiset(Map(f, ys))
    decreases |xs|
  {
    SameSize(xs, ys);
    if xs != [] {
      var j := MatchFirst(xs, ys);
      MapPermutes(f, xs[1..], ys[..j] + ys[j + 1..]);
      MapRemoved(f, xs, 0);
      MapRemoved(f, ys, j);
      hide Map;
      assert xs[..0] + xs[1..] == xs[1..];
    } else {
      assert ys == [];
    }
  }

  lemma {:induction false} FilterPermutes<T>(xs: seq<T>, ys: seq<T>, keep: T -> bool)
    requires multiset(xs) == multiset(ys)
    ensures multiset(Filter(xs, keep)) == multiset(Filter(ys, keep))
    decreases |xs|
  {
    SameSize(xs, ys);
    if xs == [] {
      assert ys == [];
    } else {
      var j := MatchFirst(xs, ys);
      FilterPermutes(xs[1..], ys[..j] + ys[j + 1..], keep);
      FilterAdded(xs[1..], xs[0], ys[..j], ys[j + 1..], keep);
      hide Filter;
    }
  }

  lemma CandidatesPermute(realpath: Path -> Path, a: seq<Container>, b: seq<Container>, key: Path)
    requires multiset(a) == multiset(b)
    ensures multiset(CandidatesOf(GroupOf(realpath, a, key))) == multiset(CandidatesOf(GroupOf(realpath, b, key)))
  {
    var ga, gb := GroupOf(realpath, a, key), GroupOf(realpath, b, key);
    FilterPermutes(a, b, (c: Container) => HasKey(realpath, c, key));
    FilterPermutes(ga, gb, (c: Container) => c.id != "");
    var fa, fb := Filter(ga, (c: Container) => c.id != ""), Filter(gb, (c: Container) => c.id != "");
    MapPermutes(ToCandidate, fa, fb);
    SortPermutes(Map(ToCandidate, fa), RunningFirst);
    SortPermutes(Map(ToCandidate, fb), RunningFirst);
  }

  /** The same entry, with its containers in whatever order running-first leaves open. */
  predicate SameUpToContainerOrder(a: Entry, b: Entry) {
    && a.ConfigEntry? == b.ConfigEntry? && a.workspacePath == b.workspacePath && a.ambiguous == b.ambiguous
    && (a.ConfigEntry? ==> a.configs == b.configs)
    && multiset(a.containers) == multiset(b.containers)
  }

  lemma AmbiguityPermutes(a: seq<Candidate>, b: seq<Candidate>)
    requires multiset(a) == multiset(b)
    ensures IsAmbiguous(a) == IsAmbiguous(b)
  {
    FilterPermutes(a, b, (c: Candidate) => c.state == Running);
    SameSize(RunningOf(a), RunningOf(b));
  }

  /** Permuting the listing changes no entry except for the order of its containers. */
  lemma PermutedListing(
    locale: Locale, realpath: Path -> Path, projects: seq<Project>, a: seq<Container>, b: seq<Container>, key: Path)
    requires multiset(a) == multiset(b)
    ensures var x, y := EntriesFor(locale, realpath, projects, a, key), EntriesFor(locale, realpath, projects, b, key);
      |x| == |y| <= 1 && (x != [] ==> SameUpToContainerOrder(x[0], y[0]))
  {
    CandidatesPermute(realpath, a, b, key);
    var ca, cb := CandidatesOf(GroupOf(realpath, a, key)), CandidatesOf(GroupOf(realpath, b, key));
    AmbiguityPermutes(ca, cb);
    SameSize(ca, cb);
  }

  // ---------- What every entry satisfies ----------

  /** Running containers come first, and the entry knows whether there is more than one. */
  ghost predicate WellBuilt(e: Entry) {
    && SortedBy(e.containers, RunningFirst)
    && e.ambiguous == IsAmbiguous(e.containers)
    && (e.ConfigEntry? ==> e.configs != [])
  }

  lemma {:induction false} ConfigsNonEmpty(locale: Locale, projects: seq<Project>, key: Path)
    ensures ConfigsOf(locale, projects, key) == [] <==> key !in KeysOf(projects)
  {
    if projects != [] {
      var n := |projects| - 1;
      assert projects[..n + 1] == projects;
      ConfigsNonEmpty(locale, projects[..n], key);
      ConfigsStep(locale, projects, n, key);
      var added := ConfigCandidate(projects[n].configPath, projects[n].configKind);
      SortPermutes(ConfigsOf(locale, projects[..n], key) + [added], (a, b) => ConfigLe(locale, a, b));
      hide ConfigsOf, KeysOf;
    }
  }

  lemma CandidatesRunningFirst(group: seq<Container>)
    ensures SortedBy(CandidatesOf(group), RunningFirst)
  {
    assert TotalPreorder(RunningFirst);
    SortSorts(Map(ToCandidate, Filter(group, (c: Container) => c.id != "")), RunningFirst);
  }

  lemma BuiltIsWellBuilt(
    locale: Locale, realpath: Path -> Path, projects: seq<Project>, listing: seq<Container>, e: Entry)
    requires e in Build(locale, realpath, projects, listing)
    ensures WellBuilt(e)
  {
    BuildMembers(locale, realpath, projects, listing, e);
    CandidatesRunningFirst(GroupOf(realpath, listing, e.workspacePath));
    KeysMembers(projects, e.workspacePath);
    ConfigsNonEmpty(locale, projects, e.workspacePath);
  }

  // ---------- What the configurations of an entry are ----------

  /** `compareConfigCandidates` ranks by kind and then by path: a total preorder if `localeCompare` is one. */
  lemma ConfigLeIsTotal(locale: Locale)
    requires TotalPreorder(locale)
    ensures TotalPreorder((a: ConfigCandidate, b: ConfigCandidate) => ConfigLe(locale, a, b))
  {
  }

  lemma {:induction false} ConfigsAreSorted(locale: Locale, projects: seq<Project>, key: Path)
    requires TotalPreorder(locale)
    ensures SortedBy(ConfigsOf(locale, projects, key), (a, b) => ConfigLe(locale, a, b))
  {
    if projects != [] {
      var n := |projects| - 1;
      var p := projects[n];
      assert projects[..n + 1] == projects;
      ConfigsAreSorted(locale, projects[..n], key);
      ConfigsStep(locale, projects, n, key);
      ConfigLeIsTotal(locale);
      SortSorts(ConfigsOf(locale, projects[..n], key) + [ConfigCandidate(p.configPath, p.configKind)],
                (a, b) => ConfigLe(locale, a, b));
      hide ConfigsOf, ConfigLe, KeysOf;
    }
  }

  lemma {:induction false} ConfigsAreCounted(locale: Locale, projects: seq<Project>, key: Path, c: ConfigCandidate)
    ensures multiset(ConfigsOf(locale, projects, key))[c]
      == multiset(projects)[Project(key, c.configPath, c.configKind)]
  {
    if projects != [] {
      var n := |projects| - 1;
      var p, before := projects[n], ConfigsOf(locale, projects[..n], key);
      var added := ConfigCandidate(p.configPath, p.configKind);
      assert projects[..n + 1] == projects && projects == projects[..n] + [p];
      ConfigsAreCounted(locale, projects[..n], key, c);
      ConfigsStep(locale, projects, n, key);
      SortPermutes(before + [added], (a, b) => ConfigLe(locale, a, b));
      hide ConfigsOf, ConfigLe, KeysOf, SortBy;
      assert multiset(before + [added])[c] == multiset(before)[c] + if added == c then 1 else 0;
    }
  }

  /** In which order the command line tool looks the forms up, the explicit ones behind. */
  const LOOKUP_ORDER := [Unnamed, Named, RootHidden, RootPlain]

  /** Of two configurations the one in front is of an earlier form, or of the same form and of an earlier path. */
  predicate InLookupOrder(locale: Locale, a: ConfigCandidate, b: ConfigCandidate) {
    exists m, n :: 0 <= m <= n < 4 && LOOKUP_ORDER[m] == a.configKind && LOOKUP_ORDER[n] == b.configKind
      && (m == n ==> locale(a.configPath, b.configPath))
  }

  /** So the primary configuration precedes every other of its form. */
  lemma ConfigsInLookupOrder(locale: Locale, projects: seq<Project>, key: Path, i: nat, j: nat)
    requires TotalPreorder(locale) && i < j < |ConfigsOf(locale, projects, key)|
    ensures var configs := ConfigsOf(locale, projects, key); InLookupOrder(locale, configs[i], configs[j])
  {
    ConfigsAreSorted(locale, projects, key);
    var configs := ConfigsOf(locale, projects, key);
    hide ConfigsOf;
    assert ConfigLe(locale, configs[i], configs[j]);
    var m, n := KindPriority(configs[i].configKind), KindPriority(configs[j].configKind);
    assert LOOKUP_ORDER[m] == configs[i].configKind && LOOKUP_ORDER[n] == configs[j].configKind;
  }

  /** Every discovered configuration of the workspace is kept, and the first one is the most preferred. */
  lemma ConfigsAreComplete(locale: Locale, projects: seq<Project>, key: Path)
    requires TotalPreorder(locale)
    ensures SortedBy(ConfigsOf(locale, projects, key), (a, b) => ConfigLe(locale, a, b))
    ensures forall c ::
      multiset(ConfigsOf(locale, projects, key))[c] == multiset(projects)[Project(key, c.configPath, c.configKind)]
  {
    ConfigsAreSorted(locale, projects, key);
    forall c ensures
      multiset(ConfigsOf(locale, projects, key))[c] == multiset(projects)[Project(key, c.configPath, c.configKind)]
    {
      ConfigsAreCounted(locale, projects, key, c);
    }
  }

  // ---------- What the entries say about the listing and the discovery ----------

  lemma {:induction false} FilterHas<T>(xs: seq<T>, keep: T -> bool, x: T)
    ensures x in Filter(xs, keep) <==> x in xs && keep(x)
  {
    if xs != [] {
      FilterHas(xs[..|xs| - 1], keep, x);
      assert xs == xs[..|xs| - 1] + [xs[|xs| - 1]];
    }
  }

  lemma MapHas<S, T>(f: S -> T, xs: seq<S>, y: T)
    ensures y in Map(f, xs) <==> exists x :: x in xs && f(x) == y
  {
    if y in Map(f, xs) {
      var i :| 0 <= i < |xs| && Map(f, xs)[i] == y;
      assert xs[i] in xs;
    }
    if x :| x in xs && f(x) == y {
      var i :| 0 <= i < |xs| && xs[i] == x;
      assert Map(f, xs)[i] == y;
    }
  }

  /** What a state reads as in the listing; any other text is an unknown state. */
  predicate ReadsAs(text: string, state: State) {
    match state
    case Running => text == "running"
    case Exited => text == "exited"
    case Created => text == "created"
    case Paused => text == "paused"
    case Unknown => text !in {"running", "exited", "created", "paused"}
  }

  /** A container with an id, labelled for the workspace by the real path of its label. */
  predicate IsListed(realpath: Path -> Path, listing: seq<Container>, key: Path, c: Candidate, d: Container) {
    && d in listing && d.workspaceKey.Some? && realpath(d.workspaceKey.value) == key
    && d.id != "" && d.id == c.id && d.image == c.image && ReadsAs(d.state, c.state)
  }

  /**
   * The candidates of a workspace are exactly its labelled containers with an id, each in the state the listing
   * gives.
   */
  lemma CandidatesAreListed(realpath: Path -> Path, listing: seq<Container>, key: Path, c: Candidate)
    ensures c in CandidatesOf(GroupOf(realpath, listing, key)) <==> exists d :: IsListed(realpath, listing, key, c, d)
  {
    var mine, named := (d: Container) => HasKey(realpath, d, key), (d: Container) => d.id != "";
    var group := GroupOf(realpath, listing, key);
    var kept := Filter(group, named);
    SortMembers(Map(ToCandidate, kept), RunningFirst);
    MapHas(ToCandidate, kept, c);
    forall d ensures d in kept <==> d in listing && mine(d) && named(d) {
      FilterHas(listing, mine, d);
      FilterHas(group, named, d);
    }
    hide Filter, Map, SortBy;
    if c in CandidatesOf(group) {
      var d :| d in kept && ToCandidate(d) == c;
      assert IsListed(realpath, listing, key, c, d);
    }
  }

  /** Sorting running containers first keeps the order among them, and among the others. */
  lemma {:induction false} SortTwoClasses(xs: seq<Candidate>)
    ensures SortBy(xs, RunningFirst)
      == Filter(xs, (c: Candidate) => c.state == Running) + Filter(xs, (c: Candidate) => c.state != Running)
  {
    if xs != [] {
      var x, rest := xs[0], xs[1..];
      var runs, others := (c: Candidate) => c.state == Running, (c: Candidate) => c.state != Running;
      SortTwoClasses(rest);
      assert xs == [x] + rest;
      FilterConcat([x], rest, runs);
      FilterConcat([x], rest, others);
      FilterOne(x, runs);
      FilterOne(x, others);
      AllKept(rest, runs);
      AllKept(rest, others);
      hide Filter;
      InsertBetween(x, Filter(rest, runs), Filter(rest, others));
    }
  }

  lemma FilterOne<T>(x: T, keep: T -> bool)
    ensures Filter([x], keep) == Single(x, keep)
  {
    assert [x][..0] == [];
  }

  lemma AllKept<T>(xs: seq<T>, keep: T -> bool)
    ensures forall x :: x in Filter(xs, keep) ==> keep(x)
  {
    forall x | x in Filter(xs, keep) ensures keep(x) {
      FilterHas(xs, keep, x);
    }
  }

  lemma {:induction false} InsertBetween(x: Candidate, runs: seq<Candidate>, others: seq<Candidate>)
    requires forall c :: c in runs ==> c.state == Running
    requires forall c :: c in others ==> c.state != Running
    ensures Insert(x, runs + others, RunningFirst)
      == if x.state == Running then [x] + runs + others else runs + [x] + others
  {
    if runs == [] {
      assert runs + others == others && runs + [x] + others == [x] + others;
      assert others != [] ==> others[0] in others;
    } else {
      var first, rest := runs[0], runs[1..];
      assert first in runs && runs == [first] + rest && (runs + others)[0] == first;
      if x.state == Running {
        assert [x] + (runs + others) == [x] + runs + others;
      } else {
        assert forall c :: c in rest ==> c in runs;
        InsertBetween(x, rest, others);
        hide Insert;
        InsertBehind(x, first, rest, others);
      }
    }
  }

  lemma InsertBehind(x: Candidate, first: Candidate, rest: seq<Candidate>, others: seq<Candidate>)
    requires first.state == Running && x.state != Running
    requires Insert(x, rest + others, RunningFirst) == rest + [x] + others
    ensures Insert(x, [first] + rest + others, RunningFirst) == [first] + rest + [x] + others
  {
    var all := [first] + rest + others;
    assert all[0] == first && all[1..] == rest + others;
    assert [first] + (rest + [x] + others) == [first] + rest + [x] + others;
  }

  /**
   * The candidates in order: first the containers listed as `running`, then the others, both as listed. So the
   * listing's order decides which container is the primary one only among equals.
   */
  lemma CandidatesInOrder(group: seq<Container>)
    ensures var named := Filter(group, (d: Container) => d.id != "");
      CandidatesOf(group)
        == Filter(Map(ToCandidate, named), (c: Candidate) => c.state == Running)
           + Filter(Map(ToCandidate, named), (c: Candidate) => c.state != Running)
  {
    SortTwoClasses(Map(ToCandidate, Filter(group, (d: Container) => d.id != "")));
  }

  /** Reported are the ids of exactly the containers without a label, each as often as listed. */
  lemma {:induction false} UnlabelledAreReported(listing: seq<Container>)
    ensures Unlabelled(listing)
      == Map((d: Container) => d.id, Filter(listing, (d: Container) => d.workspaceKey == None))
  {
    if listing != [] {
      UnlabelledAreReported(listing[..|listing| - 1]);
    }
  }

  /**
   * A workspace has an entry exactly when a configuration of it was discovered or a container with an id is labelled
   * for it; the entry says which, and holds every such container.
   */
  lemma WorkspacesExactly(
    locale: Locale, realpath: Path -> Path, projects: seq<Project>, listing: seq<Container>, key: Path)
    ensures var found := Lookup(Build(locale, realpath, projects, listing), key);
      var configured := exists p :: p in projects && p.workspacePath == key;
      && (found.Some? <==>
            configured || exists d :: d in listing && d.id != "" && HasKey(realpath, d, key))
      && (found.Some? ==>
            && found.value.workspacePath == key && (found.value.ConfigEntry? <==> configured)
            && found.value.containers == CandidatesOf(GroupOf(realpath, listing, key)))
  {
    BuildLookup(locale, realpath, projects, listing, key);
    var mine, named := (d: Container) => HasKey(realpath, d, key), (d: Container) => d.id != "";
    var kept := Filter(GroupOf(realpath, listing, key), named);
    forall d ensures d in kept <==> d in listing && mine(d) && named(d) {
      FilterHas(listing, mine, d);
      FilterHas(GroupOf(realpath, listing, key), named, d);
    }
    SortPermutes(Map(ToCandidate, kept), RunningFirst);
    hide Build, Lookup, Filter, SortBy, ConfigsOf, HasKey;
    assert kept != [] ==> kept[0] in kept;
  }

  /** The registry is in the order of its workspaces' paths. */
  lemma EntriesInOrder(
    locale: Locale, realpath: Path -> Path, projects: seq<Project>, listing: seq<Container>, i: nat, j: nat)
    requires TotalPreorder(locale) && i < j < |Build(locale, realpath, projects, listing)|
    ensures var entries := Build(locale, realpath, projects, listing);
      locale(entries[i].workspacePath, entries[j].workspacePath)
  {
    PathOrderIsTotal(locale);
    SortSorts(
      Unsorted(locale, realpath, projects, listing), (a: Entry, b: Entry) => locale(a.workspacePath, b.workspacePath));
    hide Unsorted, SortBy, TotalPreorder;
  }

  lemma PathOrderIsTotal(locale: Locale)
    requires TotalPreorder(locale)
    ensures TotalPreorder((a: Entry, b: Entry) => locale(a.workspacePath, b.workspacePath))
  {
    var le := (a: Entry, b: Entry) => locale(a.workspacePath, b.workspacePath);
    forall a, b ensures le(a, b) || le(b, a) {
      assert locale(a.workspacePath, b.workspacePath) || locale(b.workspacePath, a.workspacePath);
    }
    forall a, b, c | le(a, b) && le(b, c) ensures le(a, c) {
      assert locale(a.workspacePath, b.workspacePath) && locale(b.workspacePath, c.workspacePath);
    }
  }

  /** The preferred configuration: what the command line tool looks up first, if it was discovered. */
  lemma PreferredComesFirst(locale: Locale, projects: seq<Project>, key: Path)
    requires TotalPreorder(locale) && ConfigsOf(locale, projects, key) != []
    ensures var configs := ConfigsOf(locale, projects, key);
      configs[0].configKind ==
        if HasKind(projects, key, Unnamed) then Unnamed
        else if HasKind(projects, key, Named) then Named
        else if HasKind(projects, key, RootHidden) then RootHidden
        else RootPlain
  {
    var configs := ConfigsOf(locale, projects, key);
    ConfigsAreSorted(locale, projects, key);
    forall kind
      ensures HasKind(projects, key, kind) <==> exists i :: 0 <= i < |configs| && configs[i].configKind == kind
    {
      KindIsKept(locale, projects, key, kind);
    }
    hide ConfigsOf, HasKind;
    forall i | 0 < i < |configs| ensures KindPriority(configs[0].configKind) <= KindPriority(configs[i].configKind) {
      assert ConfigLe(locale, configs[0], configs[i]);
    }
  }

  predicate HasKind(projects: seq<Project>, key: Path, kind: ConfigKind) {
    exists p :: p in projects && p.workspacePath == key && p.configKind == kind
  }

  lemma KindIsKept(locale: Locale, projects: seq<Project>, key: Path, kind: ConfigKind)
    ensures var configs := ConfigsOf(locale, projects, key);
      HasKind(projects, key, kind) <==> exists i :: 0 <= i < |configs| && configs[i].configKind == kind
  {
    var configs := ConfigsOf(locale, projects, key);
    if p :| p in projects && p.workspacePath == key && p.configKind == kind {
      var c := ConfigCandidate(p.configPath, kind);
      ConfigsAreCounted(locale, projects, key, c);
      assert p == Project(key, c.configPath, c.configKind) && p in multiset(projects);
      assert c in multiset(configs);
      var i :| 0 <= i < |configs| && configs[i] == c;
    }
    if i :| 0 <= i < |configs| && configs[i].configKind == kind {
      var c := configs[i];
      ConfigsAreCounted(locale, projects, key, c);
      assert c in multiset(configs);
      assert Project(key, c.configPath, c.configKind) in multiset(projects);
    }
  }
}
