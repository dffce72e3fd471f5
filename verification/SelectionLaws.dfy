/**
 * What the choice of a target guarantees on a built registry: the adopted project is the deepest one,
 * the order of the container listing is invisible, every committed selection is grounded in the
 * registry it was read from, and a remembered selection comes back.
 */
module SelectionLaws {
  import opened Text
  import opened Sorting
  import opened Discovery
  import opened Registry
  import opened Selection
  import Paths

  // ---------- Built registries ----------

  /** Each workspace has one entry, with running containers first. */
  ghost predicate Coherent(entries: seq<Entry>) {
    forall e :: e in entries ==> Lookup(entries, e.workspacePath) == Some(e) && WellBuilt(e)
  }

  lemma BuiltIsCoherent(locale: Locale, realpath: Path -> Path, projects: seq<Project>, listing: seq<Container>)
    ensures Coherent(Build(locale, realpath, projects, listing))
  {
    var entries := Build(locale, realpath, projects, listing);
    forall e | e in entries ensures Lookup(entries, e.workspacePath) == Some(e) && WellBuilt(e) {
      BuiltIsWellBuilt(locale, realpath, projects, listing, e);
      BuildMembers(locale, realpath, projects, listing, e);
      BuildLookup(locale, realpath, projects, listing, e.workspacePath);
      hide Build;
    }
  }

  lemma {:induction false} FoundById(containers: seq<Candidate>, id: string)
    ensures Offers(containers, id) <==> exists c :: c in containers && c.id == id
    ensures Offers(containers, id) ==>
      FindById(containers, id).value in containers && FindById(containers, id).value.id == id
  {
    if containers != [] {
      assert containers == [containers[0]] + containers[1..];
      FoundById(containers[1..], id);
    }
  }

  // ---------- What is refused ----------

  /** Which selections bind, and which refusal the others meet. */
  lemma RefusedExactly(s: Selection)
    ensures Bind(s).Bound? <==> s.status == Valid && s.candidate.Some? && s.candidate.value.state == Running
    ensures Bind(s).Bound? ==>
      var c := s.candidate.value; var key := if s.workspaceKey.Some? then s.workspaceKey.value else c.workspaceKey;
      Bind(s).context == Context(key, c.id, c.configPath)
    ensures Bind(s) == Refused(NoCandidate) <==> s.status == NothingSelected
    ensures Bind(s) == Refused(TargetRefreshing) <==> s.status == Refreshing
    ensures Bind(s) == Refused(AmbiguousCandidate) <==> s.status == Status.Ambiguous
    ensures Bind(s) == Refused(DeniedByPolicy) <==> s.status == PolicyDenied
    ensures Bind(s) == Refused(Unexpected) <==> s.status == Valid && s.candidate.None?
    ensures Bind(s) == Refused(TargetStopped) <==>
      s.status == Stopped || s.status == Missing
      || (s.status == Valid && s.candidate.Some? && s.candidate.value.state != Running)
  {
  }

  // ---------- The adopted project ----------

  ghost predicate KeysResolved(entries: seq<Entry>) {
    forall e :: e in entries ==> Paths.Resolved(e.workspacePath, true)
  }

  /** What `InProject` decides, on segments. */
  predicate Contained(request: Path, key: Path, reach: Reach) {
    match reach
    case Exact => key == request
    case AtOrUnder => key <= request
  }

  lemma InsideBySegments(request: Path, key: Path, reach: Reach)
    requires Paths.Resolved(request, true) && Paths.Resolved(key, true)
    ensures InProject(request, key, reach) <==> Contained(request, key, reach)
  {
    Paths.SpellResolves(request, true);
    Paths.SpellResolves(key, true);
    Paths.UnderIsSegmentPrefix(Key(request), Key(key));
    Paths.SamePathBySegments(Key(key), Key(request));
  }

  lemma {:induction false} DeepestOfMatches(matches: seq<Entry>, request: Path)
    requires matches != []
    requires forall e :: e in matches ==> Paths.Resolved(e.workspacePath, true) && e.workspacePath <= request
    ensures Deepest(matches) in matches
    ensures forall e :: e in matches ==> e.workspacePath <= Deepest(matches).workspacePath
  {
    var last := matches[|matches| - 1];
    assert last in matches;
    if |matches| > 1 {
      var front := matches[..|matches| - 1];
      assert matches == front + [last];
      assert forall e :: e in front ==> e in matches;
      DeepestOfMatches(front, request);
      var best := Deepest(front);
      Paths.LongerKeyIsDeeper(last.workspacePath, best.workspacePath, request);
      PrefixesOfOnePath(last.workspacePath, best.workspacePath, request);
      hide Key;
    }
  }

  lemma PrefixesOfOnePath(a: Path, b: Path, path: Path)
    requires a <= path && b <= path
    ensures a <= b || b < a
  {
    assert a == path[..|a|] && b == path[..|b|];
  }

  /** A project that contains the request and is contained in no deeper one that does. */
  ghost predicate IsDeepestProject(entries: seq<Entry>, request: Path, reach: Reach, e: Entry) {
    && e in entries && Contained(request, e.workspacePath, reach)
    && forall d :: d in entries && Contained(request, d.workspacePath, reach) ==> d.workspacePath <= e.workspacePath
  }

  /** The text-length comparison finds the longest prefix, and on a coherent registry only one entry is that. */
  lemma AdoptionFindsDeepest(entries: seq<Entry>, request: Path, reach: Reach)
    requires Coherent(entries) && KeysResolved(entries) && Paths.Resolved(request, true)
    ensures var matches := Matches(entries, request, reach);
      if matches == [] then forall e :: e in entries ==> !Contained(request, e.workspacePath, reach)
      else forall e :: IsDeepestProject(entries, request, reach, e) <==> e == Deepest(matches)
  {
    var matches := Matches(entries, request, reach);
    forall e ensures e in matches <==> e in entries && Contained(request, e.workspacePath, reach) {
      FilterHas(entries, (x: Entry) => InProject(request, x.workspacePath, reach), e);
      if e in entries {
        InsideBySegments(request, e.workspacePath, reach);
      }
    }
    hide Matches;
    if matches != [] {
      DeepestOfMatches(matches, request);
      hide Deepest;
      forall e ensures IsDeepestProject(entries, request, reach, e) <==> e == Deepest(matches) {
        if IsDeepestProject(entries, request, reach, e) {
          assert e in matches && e.workspacePath == Deepest(matches).workspacePath;
        }
      }
    }
  }

  // ---------- The order of the listing ----------

  predicate IsRunning(containers: seq<Candidate>, id: string) {
    exists c :: c in containers && c.id == id && c.state == Running
  }

  /** With running containers first, looking up an id finds a running one if there is one. */
  lemma {:induction false} FindsRunningFirst(containers: seq<Candidate>, id: string)
    requires SortedBy(containers, RunningFirst) && Offers(containers, id)
    ensures FindById(containers, id).value.state == Running <==> IsRunning(containers, id)
  {
    if containers[0].id == id {
      assert containers[0] in containers;
      forall c | c in containers && c.state == Running ensures containers[0].state == Running {
        var j :| 0 <= j < |containers| && containers[j] == c;
        assert j > 0 ==> RunningFirst(containers[0], containers[j]);
      }
    } else {
      assert containers == [containers[0]] + containers[1..];
      FindsRunningFirst(containers[1..], id);
    }
  }

  /** Without ambiguity the only container that can be running is the first. */
  lemma RunningIsPrimary(e: Entry)
    requires WellBuilt(e) && !e.ambiguous
    ensures RunningOf(e.containers) ==
      if e.containers != [] && e.containers[0].state == Running then [e.containers[0]] else []
    ensures StateFor(e, PrimaryId(e)) == if e.containers == [] then Exited else e.containers[0].state
  {
    var keep := (c: Candidate) => c.state == Running;
    var running := RunningOf(e.containers);
    forall c ensures c in running <==> c in e.containers && c.state == Running {
      FilterHas(e.containers, keep, c);
    }
    hide Filter;
    if e.containers != [] {
      assert e.containers[0] in e.containers;
      if running != [] {
        var j :| 0 <= j < |e.containers| && e.containers[j] == running[0];
        assert j > 0 ==> RunningFirst(e.containers[0], e.containers[j]);
        assert e.containers[0] in running;
      }
    }
  }

  lemma SameRunning(x: Entry, y: Entry)
    requires WellBuilt(x) && WellBuilt(y) && SameUpToContainerOrder(x, y) && !x.ambiguous
    ensures RunningOf(x.containers) == RunningOf(y.containers)
  {
    var rx, ry := RunningOf(x.containers), RunningOf(y.containers);
    RunningIsPrimary(x);
    RunningIsPrimary(y);
    FilterPermutes(x.containers, y.containers, (c: Candidate) => c.state == Running);
    hide Filter;
    SameSize(rx, ry);
    if rx != [] {
      SameMembers(rx, ry, rx[0]);
    }
  }

  /** The same outcome: the same status, and the same binding or the same kind of refusal. */
  predicate SameOutcome(s: Selection, t: Selection) {
    s.status == t.status && s.workspaceKey == t.workspaceKey && Bind(s) == Bind(t)
  }

  lemma UnattendedForgetsOrder(x: Entry, y: Entry, config: Option<Path>)
    requires WellBuilt(x) && WellBuilt(y) && SameUpToContainerOrder(x, y)
    ensures SameOutcome(SelectionFor(x, Unattended(x), config), SelectionFor(y, Unattended(y), config))
  {
    if !x.ambiguous {
      SameRunning(x, y);
      RunningIsPrimary(x);
      RunningIsPrimary(y);
      SameConfigs(x, y, config);
      hide Filter, CarriedConfig, FindById;
    }
  }

  lemma SameConfigs(x: Entry, y: Entry, config: Option<Path>)
    requires SameUpToContainerOrder(x, y)
    ensures CarriedConfig(x, config) == CarriedConfig(y, config)
  {
    assert ConfigsOfEntry(x) == ConfigsOfEntry(y);
  }

  lemma NamedForgetsOrder(x: Entry, y: Entry, id: string, config: Option<Path>)
    requires WellBuilt(x) && WellBuilt(y) && SameUpToContainerOrder(x, y)
    ensures Offers(x.containers, id) == Offers(y.containers, id)
    ensures Offers(x.containers, id) ==>
      SameOutcome(SelectionFor(x, Some(id), config), SelectionFor(y, Some(id), config))
  {
    FoundById(x.containers, id);
    FoundById(y.containers, id);
    forall c ensures c in x.containers <==> c in y.containers {
      SameMembers(x.containers, y.containers, c);
    }
    SameConfigs(x, y, config);
    if Offers(x.containers, id) {
      FindsRunningFirst(x.containers, id);
      FindsRunningFirst(y.containers, id);
      hide CarriedConfig, FindById;
    }
  }

  /** Looking up one workspace in two registries built from permuted listings. */
  lemma LookupForgetsOrder(
    locale: Locale, realpath: Path -> Path, projects: seq<Project>, a: seq<Container>, b: seq<Container>, key: Path)
    requires multiset(a) == multiset(b)
    ensures var x := Lookup(Build(locale, realpath, projects, a), key);
      var y := Lookup(Build(locale, realpath, projects, b), key);
      && x.Some? == y.Some?
      && (x.Some? ==> WellBuilt(x.value) && WellBuilt(y.value) && SameUpToContainerOrder(x.value, y.value)
                      && x.value.workspacePath == key)
  {
    PermutedListing(locale, realpath, projects, a, b, key);
    BuildLookup(locale, realpath, projects, a, key);
    BuildLookup(locale, realpath, projects, b, key);
    LookupMembers(Build(locale, realpath, projects, a), key);
    LookupMembers(Build(locale, realpath, projects, b), key);
    BuiltIsCoherent(locale, realpath, projects, a);
    BuiltIsCoherent(locale, realpath, projects, b);
    hide Build, EntriesFor, WellBuilt;
  }

  lemma DeepestForgetsOrder(
    locale: Locale, realpath: Path -> Path, projects: seq<Project>, a: seq<Container>, b: seq<Container>,
    request: Path, reach: Reach, e: Entry)
    requires multiset(a) == multiset(b)
    requires IsDeepestProject(Build(locale, realpath, projects, a), request, reach, e)
    ensures var found := Lookup(Build(locale, realpath, projects, b), e.workspacePath);
      found.Some? && IsDeepestProject(Build(locale, realpath, projects, b), request, reach, found.value)
  {
    var xs, ys := Build(locale, realpath, projects, a), Build(locale, realpath, projects, b);
    BuiltIsCoherent(locale, realpath, projects, a);
    BuiltIsCoherent(locale, realpath, projects, b);
    LookupForgetsOrder(locale, realpath, projects, a, b, e.workspacePath);
    LookupMembers(ys, e.workspacePath);
    hide Build, WellBuilt, SameUpToContainerOrder;
    forall d | d in ys && Contained(request, d.workspacePath, reach) ensures d.workspacePath <= e.workspacePath {
      LookupForgetsOrder(locale, realpath, projects, a, b, d.workspacePath);
      LookupMembers(xs, d.workspacePath);
    }
  }

  lemma KeysForgetOrder(
    locale: Locale, realpath: Path -> Path, projects: seq<Project>, a: seq<Container>, b: seq<Container>)
    requires multiset(a) == multiset(b) && KeysResolved(Build(locale, realpath, projects, a))
    ensures KeysResolved(Build(locale, realpath, projects, b))
  {
    var xs, ys := Build(locale, realpath, projects, a), Build(locale, realpath, projects, b);
    BuiltIsCoherent(locale, realpath, projects, b);
    forall e | e in ys ensures Paths.Resolved(e.workspacePath, true) {
      LookupForgetsOrder(locale, realpath, projects, a, b, e.workspacePath);
      LookupMembers(xs, e.workspacePath);
    }
  }

  /** The order in which containers are listed never decides the outcome of an adoption. */
  lemma AdoptionForgetsOrder(
    locale: Locale, realpath: Path -> Path, projects: seq<Project>, a: seq<Container>, b: seq<Container>,
    request: Path, reach: Reach, now: Snapshot)
    requires multiset(a) == multiset(b)
    requires KeysResolved(Build(locale, realpath, projects, a)) && Paths.Resolved(request, true)
    ensures var x := Adopt(Build(locale, realpath, projects, a), realpath, request, reach, now);
      var y := Adopt(Build(locale, realpath, projects, b), realpath, request, reach, now);
      x.Some? == y.Some? && (x.Some? ==> SameOutcome(x.value, y.value))
  {
    var xs, ys := Build(locale, realpath, projects, a), Build(locale, realpath, projects, b);
    if now.status == Stopped || now.status == Missing {
      RepairForgetsOrder(locale, realpath, projects, a, b, request, now);
    } else if now.status == NothingSelected {
      KeysForgetOrder(locale, realpath, projects, a, b);
      BuiltIsCoherent(locale, realpath, projects, a);
      BuiltIsCoherent(locale, realpath, projects, b);
      hide Build;
      AdoptionFindsDeepest(xs, request, reach);
      AdoptionFindsDeepest(ys, request, reach);
      ChosenForgetsOrder(locale, realpath, projects, a, b, request, reach);
    }
  }

  lemma ChosenForgetsOrder(
    locale: Locale, realpath: Path -> Path, projects: seq<Project>, a: seq<Container>, b: seq<Container>,
    request: Path, reach: Reach)
    requires multiset(a) == multiset(b)
    requires KeysResolved(Build(locale, realpath, projects, a)) && Paths.Resolved(request, true)
    ensures var x := Matches(Build(locale, realpath, projects, a), request, reach);
      var y := Matches(Build(locale, realpath, projects, b), request, reach);
      && (x == [] <==> y == [])
      && (x != [] ==> WellBuilt(Deepest(x)) && WellBuilt(Deepest(y)) && SameUpToContainerOrder(Deepest(x), Deepest(y)))
      && (x != [] ==>
        SameOutcome(
          SelectionFor(Deepest(x), Unattended(Deepest(x)), None),
          SelectionFor(Deepest(y), Unattended(Deepest(y)), None)))
  {
    var xs, ys := Build(locale, realpath, projects, a), Build(locale, realpath, projects, b);
    var x, y := Matches(xs, request, reach), Matches(ys, request, reach);
    KeysForgetOrder(locale, realpath, projects, a, b);
    BuiltIsCoherent(locale, realpath, projects, a);
    BuiltIsCoherent(locale, realpath, projects, b);
    AdoptionFindsDeepest(xs, request, reach);
    AdoptionFindsDeepest(ys, request, reach);
    hide Build, Matches, Deepest, WellBuilt, SameUpToContainerOrder, SelectionFor, Contained, SameOutcome;
    if x != [] {
      var e := Deepest(x);
      DeepestForgetsOrder(locale, realpath, projects, a, b, request, reach, e);
      LookupForgetsOrder(locale, realpath, projects, a, b, e.workspacePath);
      UnattendedForgetsOrder(e, Deepest(y), None);
    } else if y != [] {
      DeepestForgetsOrder(locale, realpath, projects, b, a, request, reach, Deepest(y));
      LookupMembers(xs, Deepest(y).workspacePath);
    }
  }

  /** A repair comes out identical. */
  lemma RepairForgetsOrder(
    locale: Locale, realpath: Path -> Path, projects: seq<Project>, a: seq<Container>, b: seq<Container>,
    request: Path, parked: Snapshot)
    requires multiset(a) == multiset(b)
    ensures Repair(Build(locale, realpath, projects, a), realpath, request, parked)
      == Repair(Build(locale, realpath, projects, b), realpath, request, parked)
  {
    hide Build;
    if parked.workspaceKey.Some? {
      LookupForgetsOrder(locale, realpath, projects, a, b, parked.workspaceKey.value);
      var x := Lookup(Build(locale, realpath, projects, a), parked.workspaceKey.value);
      var y := Lookup(Build(locale, realpath, projects, b), parked.workspaceKey.value);
      if x.Some? && !x.value.ambiguous {
        SameRunning(x.value, y.value);
        RunningIsPrimary(x.value);
        RunningIsPrimary(y.value);
        SameConfigs(x.value, y.value, parked.configPath);
        hide Filter, CarriedConfig, WellBuilt, Lookup;
      }
    }
  }

  /** So does a restored or refreshed selection, up to which stopped container it names. */
  lemma ReconcileForgetsOrder(
    locale: Locale, realpath: Path -> Path, projects: seq<Project>, a: seq<Container>, b: seq<Container>,
    hint: Hint, current: Snapshot)
    requires multiset(a) == multiset(b)
    ensures SameOutcome(Reconcile(Build(locale, realpath, projects, a), hint, current),
                        Reconcile(Build(locale, realpath, projects, b), hint, current))
  {
    hide Build;
    LookupForgetsOrder(locale, realpath, projects, a, b, hint.workspaceKey);
    var x := Lookup(Build(locale, realpath, projects, a), hint.workspaceKey);
    var y := Lookup(Build(locale, realpath, projects, b), hint.workspaceKey);
    if x.Some? {
      var config :=
        if hint.configPath.Some? then hint.configPath
        else if current.workspaceKey == Some(hint.workspaceKey) then current.configPath
        else None;
      UnattendedForgetsOrder(x.value, y.value, config);
      if hint.candidateId.Some? {
        NamedForgetsOrder(x.value, y.value, hint.candidateId.value, config);
      }
      hide SelectionFor, SameOutcome, WellBuilt, Lookup, FindById;
    }
  }
}
