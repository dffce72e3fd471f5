/**
 * Whole runs of the selection protocol: every step reads a registry and a snapshot, possibly stale,
 * proposes a selection, and the store commits the proposals in call order.
 */
module SelectionRuns {
  import opened Text
  import opened Discovery
  import opened Registry
  import opened Selection
  import opened SelectionLaws
  import opened TargetStore
  import Paths

  datatype Action =
    | UseAction(typed: Request)
    | ReconcileAction(hint: Hint, current: Snapshot)
    | AdoptAction(request: Path, reach: Reach, now: Snapshot)
    | RepairAction(request: Path, parked: Snapshot)

  /** One step of a session: a choice made against the registry it read, or the opt-out. */
  datatype Deed = Deed(entries: seq<Entry>, action: Action) | OptOut

  function Proposed(realpath: Path -> Path, entries: seq<Entry>, action: Action): Option<Selection> {
    match action
    case UseAction(typed) => Use(entries, typed)
    case ReconcileAction(hint, current) => Some(Reconcile(entries, hint, current))
    case AdoptAction(request, reach, now) => Adopt(entries, realpath, request, reach, now)
    case RepairAction(request, parked) => Repair(entries, realpath, request, parked)
  }

  /** An adoption of an empty session commits only if nothing else has been selected meanwhile. */
  function OpOf(realpath: Path -> Path, deed: Deed): seq<Op> {
    match deed
    case OptOut => [Clear]
    case Deed(entries, action) =>
      match Proposed(realpath, entries, action)
      case None => []
      case Some(s) =>
        if action.AdoptAction? && action.now.status == NothingSelected then [PutIfNone(s)] else [Put(s)]
  }

  function OpsOf(realpath: Path -> Path, run: seq<Deed>): seq<Op> {
    if run == [] then [] else OpsOf(realpath, run[..|run| - 1]) + OpOf(realpath, run[|run| - 1])
  }

  ghost predicate ReadsCoherently(deed: Deed) {
    deed.Deed? ==> Coherent(deed.entries)
  }

  // ---------- One proposal ----------

  /** The candidate is a container of this entry, in the state recorded, with a discovered configuration if any. */
  predicate RestsOn(e: Entry, s: Selection) {
    && s.workspaceKey == Some(e.workspacePath)
    && (s.candidate.Some? ==>
      var c := s.candidate.value;
      && (exists k :: k in e.containers && k.id == c.id && k.state == c.state)
      && c.workspaceKey == e.workspacePath
      && (c.configPath.Some? ==> Discovered(e, c.configPath.value)))
  }

  /** The operator typed this container's id, or picked its row in a workspace with several running. */
  predicate NamedBy(e: Entry, action: Action, id: string) {
    action.UseAction?
    && (action.typed.wanted == id
        || (e.ambiguous && action.typed.containerRow.Some? && action.typed.containerRow.value < |e.containers|
            && e.containers[action.typed.containerRow.value].id == id))
  }

  /** It rests on the entry; to be valid it is the only container running there, or the operator named it. */
  predicate Earned(e: Entry, action: Action, s: Selection) {
    && RestsOn(e, s)
    && (s.status == Valid ==>
      s.candidate.Some? && (|RunningOf(e.containers)| == 1 || NamedBy(e, action, s.candidate.value.id)))
  }

  /** Ready to run: a running container, and among several only one the operator named. */
  predicate Grounded(entries: seq<Entry>, action: Action, s: Selection) {
    && (s.status == Valid || s.status == Stopped ==>
      s.workspaceKey.Some? && exists e :: e in entries && Earned(e, action, s))
    && (s.status == Valid ==> s.candidate.Some? && s.candidate.value.state == Running)
    && s.status != NothingSelected && s.status != Refreshing && s.status != PolicyDenied
  }

  lemma CarriedIsDiscovered(e: Entry, config: Option<Path>)
    ensures CarriedConfig(e, config).Some? ==> Discovered(e, CarriedConfig(e, config).value)
  {
    if config.None? && PrimaryConfig(e).Some? {
      assert PrimaryConfig(e).value in ConfigsOfEntry(e);
    }
  }

  /** Whoever derives a selection from an entry and one of its containers gets one that rests on the entry. */
  lemma SelectionForRests(e: Entry, id: Option<string>, config: Option<Path>)
    requires WellBuilt(e) && (id.Some? ==> Offers(e.containers, id.value))
    requires id.None? ==> e.ambiguous || e.containers == []
    ensures var s := SelectionFor(e, id, config);
      && RestsOn(e, s)
      && (s.status == Valid ==> s.candidate.Some? && s.candidate.value.state == Running)
      && (s.status == Valid || s.status == Stopped || (s.status == Status.Ambiguous && e.ambiguous && id.None?))
  {
    CarriedIsDiscovered(e, config);
    if id.Some? {
      FoundById(e.containers, id.value);
    }
  }

  lemma PrimaryIsOffered(e: Entry)
    ensures e.containers != [] ==> Offers(e.containers, PrimaryId(e).value)
  {
  }

  lemma ValidMeansOneRunning(e: Entry, id: Option<string>, config: Option<Path>)
    requires WellBuilt(e) && !e.ambiguous && (id.Some? ==> Offers(e.containers, id.value))
    requires SelectionFor(e, id, config).status == Valid
    ensures |RunningOf(e.containers)| == 1
  {
    RunningIsPrimary(e);
    if id.Some? {
      FindsRunningFirst(e.containers, id.value);
      var c :| c in e.containers && c.id == id.value && c.state == Running;
      FilterHas(e.containers, (x: Candidate) => x.state == Running, c);
    }
    hide Filter;
  }

  /** An unattended choice, by primary container or by a remembered id. */
  lemma UnattendedIsGrounded(entries: seq<Entry>, action: Action, e: Entry, id: Option<string>, config: Option<Path>)
    requires e in entries && WellBuilt(e)
    requires if e.ambiguous then id.None? else id == PrimaryId(e) || (id.Some? && Offers(e.containers, id.value))
    ensures Grounded(entries, action, SelectionFor(e, id, config))
  {
    PrimaryIsOffered(e);
    hide FindById;
    SelectionForRests(e, id, config);
    var s := SelectionFor(e, id, config);
    if s.status == Valid {
      ValidMeansOneRunning(e, id, config);
    }
    assert s.workspaceKey.Some?;
    hide SelectionFor, RestsOn, WellBuilt, RunningOf, NamedBy;
    assert Earned(e, action, s);
  }

  lemma {:induction false} FindByContainerFinds(entries: seq<Entry>, id: string)
    ensures var found := FindByContainer(entries, id);
      found.Some? ==> found.value in entries && Offers(found.value.containers, id)
  {
    if entries != [] && !Offers(entries[0].containers, id) {
      FindByContainerFinds(entries[1..], id);
    }
  }

  lemma {:induction false} ResolvedIsDiscovered(candidates: seq<ConfigCandidate>, requested: string)
    ensures var r := ResolveConfig(candidates, requested);
      r.Resolved? ==> r.configPath.Some? && exists c :: c in candidates && c.configPath == r.configPath.value
  {
    if candidates != [] {
      assert candidates == [candidates[0]] + candidates[1..];
      ResolvedIsDiscovered(candidates[1..], requested);
    }
  }

  predicate OperatorMade(e: Entry, request: Request, s: Option<Selection>) {
    s.Some? ==>
      && (s.value.status == Valid || s.value.status == Stopped)
      && s.value.workspaceKey.Some? && Earned(e, UseAction(request), s.value)
      && (s.value.status == Valid ==> s.value.candidate.Some? && s.value.candidate.value.state == Running)
  }

  /** The operator's choice within an entry rests on it; with several running, the operator names the container. */
  lemma ChoiceRests(e: Entry, request: Request, id: Option<string>)
    requires WellBuilt(e) && (id.Some? ==> Offers(e.containers, id.value))
    requires id.None? ==> e.containers == []
    requires id.Some? && e.ambiguous ==> NamedBy(e, UseAction(request), id.value)
    ensures OperatorMade(e, request, ChooseWith(e, id, request.config))
  {
    var s := ChooseWith(e, id, request.config);
    if s.Some? {
      var path :=
        if request.config.None? then None else ResolveConfig(ConfigsOfEntry(e), request.config.value).configPath;
      SelectionForRests(e, id, path);
      if e.containers == [] {
        assert RunningOf([]) == [];
      }
      if !e.ambiguous && s.value.status == Valid {
        ValidMeansOneRunning(e, id, path);
      }
      hide RunningOf, RestsOn, NamedBy, FindById, CarriedConfig, ResolveConfig;
    }
  }

  lemma ChoiceInRests(e: Entry, request: Request)
    requires WellBuilt(e)
    ensures OperatorMade(e, request, ChooseIn(e, request))
  {
    if !e.ambiguous {
      PrimaryIsOffered(e);
      ChoiceRests(e, request, PrimaryId(e));
    } else if request.containerRow.Some? && request.containerRow.value < |e.containers| {
      var c := e.containers[request.containerRow.value];
      FoundById(e.containers, c.id);
      ChoiceRests(e, request, Some(c.id));
    }
  }

  /** The entry a `use` resolves to. */
  function Addressed(entries: seq<Entry>, request: Request): Option<Entry> {
    var byContainer := if request.wanted == "" then None else FindByContainer(entries, request.wanted);
    var rows := Filter(entries, (e: Entry) => Contains(Key(e.workspacePath), request.wanted));
    if byContainer.Some? then byContainer
    else if |rows| == 1 then Some(rows[0])
    else if request.workspaceRow.None? || request.workspaceRow.value >= |rows| then None
    else Some(rows[request.workspaceRow.value])
  }

  predicate StandsAt(s: string, part: string, k: nat) {
    k <= |s| && part <= s[k..]
  }

  /** A workspace answers to any part of its path. */
  lemma {:induction false} ContainsExactly(s: string, part: string)
    ensures Contains(s, part) <==> exists k: nat :: StandsAt(s, part, k)
  {
    assert s[0..] == s;
    if part <= s {
      assert StandsAt(s, part, 0);
    } else if s != "" {
      ContainsExactly(s[1..], part);
      assert forall k: nat :: 0 < k <= |s| ==> s[1..][k - 1..] == s[k..];
      if k: nat :| StandsAt(s, part, k) {
        assert StandsAt(s[1..], part, k - 1);
      }
      if k: nat :| StandsAt(s[1..], part, k) {
        assert StandsAt(s, part, k + 1);
      }
    }
  }

  predicate ByContainer(entries: seq<Entry>, request: Request) {
    request.wanted != "" && FindByContainer(entries, request.wanted).Some?
  }

  lemma UseIsAddressed(entries: seq<Entry>, request: Request)
    ensures var e := Addressed(entries, request);
      && (e.Some? ==> e.value in entries)
      && (e.Some? && ByContainer(entries, request) ==> Offers(e.value.containers, request.wanted))
      && Use(entries, request) ==
        if e.None? then None
        else if ByContainer(entries, request) then ChooseWith(e.value, Some(request.wanted), request.config)
        else ChooseIn(e.value, request)
  {
    var e := Addressed(entries, request);
    FindByContainerFinds(entries, request.wanted);
    if e.Some? {
      FilterHas(entries, (x: Entry) => Contains(Key(x.workspacePath), request.wanted), e.value);
    }
    hide Filter, FindByContainer, ChooseIn, ChooseWith, Contains, Key, FindById;
  }

  lemma UseIsGrounded(entries: seq<Entry>, request: Request)
    requires Coherent(entries)
    ensures Use(entries, request).Some? ==> Grounded(entries, UseAction(request), Use(entries, request).value)
  {
    UseIsAddressed(entries, request);
    var e := Addressed(entries, request);
    hide Use, Addressed, ChooseIn, ChooseWith, WellBuilt, FindById;
    if e.Some? {
      ChoiceInRests(e.value, request);
      if ByContainer(entries, request) {
        ChoiceRests(e.value, request, Some(request.wanted));
      }
      hide Earned;
    }
  }

  lemma ReconcileIsGrounded(entries: seq<Entry>, hint: Hint, current: Snapshot)
    requires Coherent(entries)
    ensures Grounded(entries, ReconcileAction(hint, current), Reconcile(entries, hint, current))
  {
    var found := Lookup(entries, hint.workspaceKey);
    LookupMembers(entries, hint.workspaceKey);
    if found.Some? {
      var e := found.value;
      var offered := hint.candidateId.Some? && Offers(e.containers, hint.candidateId.value);
      var id := if e.ambiguous then None else if offered then hint.candidateId else PrimaryId(e);
      var config :=
        if hint.configPath.Some? then hint.configPath
        else if current.workspaceKey == Some(hint.workspaceKey) then current.configPath
        else None;
      UnattendedIsGrounded(entries, ReconcileAction(hint, current), e, id, config);
      hide SelectionFor, Lookup, FindById;
    }
  }

  lemma {:induction false} DeepestIsMember(matches: seq<Entry>)
    requires matches != []
    ensures Deepest(matches) in matches
  {
    if |matches| > 1 {
      DeepestIsMember(matches[..|matches| - 1]);
      assert matches == matches[..|matches| - 1] + [matches[|matches| - 1]];
    }
  }

  lemma AdoptIsGrounded(realpath: Path -> Path, entries: seq<Entry>, request: Path, reach: Reach, now: Snapshot)
    requires Coherent(entries)
    ensures var s := Adopt(entries, realpath, request, reach, now);
      s.Some? ==> Grounded(entries, AdoptAction(request, reach, now), s.value)
  {
    var matches := Matches(entries, request, reach);
    if now.status == Stopped || now.status == Missing {
      RepairIsGrounded(realpath, entries, request, now, AdoptAction(request, reach, now));
    } else if matches != [] {
      DeepestIsMember(matches);
      var e := Deepest(matches);
      FilterHas(entries, (x: Entry) => InProject(request, x.workspacePath, reach), e);
      UnattendedIsGrounded(entries, AdoptAction(request, reach, now), e, Unattended(e), None);
      hide SelectionFor, Deepest, Matches;
    }
  }

  lemma RepairIsGrounded(realpath: Path -> Path, entries: seq<Entry>, request: Path, parked: Snapshot, action: Action)
    requires Coherent(entries)
    ensures var s := Repair(entries, realpath, request, parked);
      s.Some? ==> Grounded(entries, action, s.value)
  {
    var s := Repair(entries, realpath, request, parked);
    if s.Some? {
      LookupMembers(entries, parked.workspaceKey.value);
      var e := Lookup(entries, parked.workspaceKey.value).value;
      RunningIsPrimary(e);
      hide Lookup, RunningOf, SelectionFor;
      UnattendedIsGrounded(entries, action, e, PrimaryId(e), parked.configPath);
    }
  }

  lemma ProposalIsGrounded(realpath: Path -> Path, entries: seq<Entry>, action: Action)
    requires Coherent(entries)
    ensures var s := Proposed(realpath, entries, action);
      s.Some? ==> Grounded(entries, action, s.value)
  {
    match action
    case UseAction(typed) => UseIsGrounded(entries, typed);
    case ReconcileAction(hint, current) => ReconcileIsGrounded(entries, hint, current);
    case AdoptAction(request, reach, now) => AdoptIsGrounded(realpath, entries, request, reach, now);
    case RepairAction(request, parked) => RepairIsGrounded(realpath, entries, request, parked, action);
  }

  /** The container an addressed entry is used with: the one named, the one picked, or the only sensible one. */
  function Picked(entries: seq<Entry>, request: Request, e: Entry): Option<string> {
    if ByContainer(entries, request) then Some(request.wanted)
    else if !e.ambiguous then PrimaryId(e)
    else if request.containerRow.None? || request.containerRow.value >= |e.containers| then None
    else Some(e.containers[request.containerRow.value].id)
  }

  /**
   * `use` selects exactly the workspace and container asked for, or nothing: unknown configurations and cancelled
   * choices change nothing. The configuration asked for is stored with the container, so without one it is dropped.
   */
  lemma UseIsWhatWasAsked(entries: seq<Entry>, request: Request)
    ensures var e := Addressed(entries, request); var u := Use(entries, request);
      && (u.Some? <==> e.Some? && ConfigKnown(e.value, request.config)
                       && (e.value.ambiguous ==> Picked(entries, request, e.value).Some?))
      && (u.Some? ==>
        && u.value.workspaceKey == Some(e.value.workspacePath)
        && SnapshotOf(u.value).candidateId == Picked(entries, request, e.value)
        && SnapshotOf(u.value).configPath ==
          if Picked(entries, request, e.value).None? then None
          else if request.config.None? then DefaultConfig(e.value)
          else ResolveConfig(ConfigsOfEntry(e.value), request.config.value).configPath)
  {
    UseIsAddressed(entries, request);
    var e := Addressed(entries, request);
    hide Use, Addressed, ByContainer, FindById, StateFor;
    if e.Some? && request.config.Some? {
      ResolvedIsDiscovered(ConfigsOfEntry(e.value), request.config.value);
    }
    hide ResolveConfig, ConfigsOfEntry;
  }

  /** Whoever asks for a configuration gets a selection that carries it exactly when the workspace has a container. */
  lemma UseCarriesExactly(entries: seq<Entry>, request: Request)
    requires Coherent(entries) && Use(entries, request).Some? && request.config.Some?
    ensures var e := Addressed(entries, request);
      && e.Some?
      && (Resolved(SnapshotOf(Use(entries, request).value).configPath)
            == ResolveConfig(ConfigsOfEntry(e.value), request.config.value)
          <==> e.value.containers != [])
  {
    UseIsWhatWasAsked(entries, request);
    UseIsAddressed(entries, request);
    var e := Addressed(entries, request).value;
    ResolvedIsDiscovered(ConfigsOfEntry(e), request.config.value);
    hide Use, Addressed, ResolveConfig;
    assert RunningOf([]) == [];
  }

  predicate ConfigKnown(e: Entry, config: Option<string>) {
    config.Some? ==> ResolveConfig(ConfigsOfEntry(e), config.value).Resolved?
  }

  // ---------- Whole runs ----------

  /** Step `i` of the run is where this selection comes from, and it was grounded there. */
  predicate ComesFrom(run: seq<Deed>, i: nat, s: Selection) {
    i < |run| && run[i].Deed? && Grounded(run[i].entries, run[i].action, s)
  }

  ghost predicate HasGround(run: seq<Deed>, s: Selection) {
    s == NO_SELECTION || exists i: nat :: ComesFrom(run, i, s)
  }

  lemma GroundLasts(run: seq<Deed>, last: Deed, s: Selection)
    requires HasGround(run, s)
    ensures HasGround(run + [last], s)
  {
    hide Grounded;
    if s != NO_SELECTION {
      var i: nat :| ComesFrom(run, i, s);
      assert ComesFrom(run + [last], i, s);
    }
  }

  lemma OneMoreOp(before: seq<Op>, ops: seq<Op>)
    requires |ops| <= 1
    ensures Fold(before + ops) == if ops == [] then Fold(before) else Apply(Fold(before), ops[0])
  {
    if ops == [] {
      assert before + ops == before;
    } else {
      assert (before + ops)[..|before|] == before;
    }
  }

  /**
   * One more step of a run, told by the selection it comes to: choices of the operator and re-resolutions replace
   * what was selected, an adoption of a session seen empty only fills an empty store, a repair replaces, and the
   * opt-out empties.
   */
  lemma DeedsExactly(realpath: Path -> Path, run: seq<Deed>, last: Deed)
    ensures OpsOf(realpath, []) == []
    ensures var s, now := Fold(OpsOf(realpath, run)), Fold(OpsOf(realpath, run + [last]));
      match last {
        case OptOut => now == NO_SELECTION
        case Deed(entries, UseAction(typed)) =>
          now == if Use(entries, typed).Some? then Use(entries, typed).value else s
        case Deed(entries, ReconcileAction(hint, current)) => now == Reconcile(entries, hint, current)
        case Deed(entries, AdoptAction(request, reach, seen)) =>
          var found := Adopt(entries, realpath, request, reach, seen);
          now == if found.None? || (seen.status == NothingSelected && s.status != NothingSelected) then s
                 else found.value
        case Deed(entries, RepairAction(request, parked)) =>
          var found := Repair(entries, realpath, request, parked);
          now == if found.None? then s else found.value
      }
  {
    LastDeed(realpath, run, last);
    hide Use, Reconcile, Adopt, Repair, Fold, OpsOf;
  }

  lemma LastDeed(realpath: Path -> Path, run: seq<Deed>, last: Deed)
    ensures OpsOf(realpath, []) == []
    ensures var s, ops := Fold(OpsOf(realpath, run)), OpOf(realpath, last);
      Fold(OpsOf(realpath, run + [last])) == if ops == [] then s else Apply(s, ops[0])
  {
    AtMostOneOp(realpath, last);
    OneMoreOp(OpsOf(realpath, run), OpOf(realpath, last));
    hide OpOf, Apply, Fold;
    assert (run + [last])[..|run|] == run;
  }

  /** One step leaves the selection alone, empties it, or installs its own grounded proposal. */
  lemma StepHasGround(realpath: Path -> Path, run: seq<Deed>, last: Deed)
    requires HasGround(run, Fold(OpsOf(realpath, run))) && ReadsCoherently(last)
    ensures HasGround(run + [last], Fold(OpsOf(realpath, run + [last])))
  {
    GroundLasts(run, last, Fold(OpsOf(realpath, run)));
    DeedsExactly(realpath, run, last);
    if last.Deed? {
      ProposalIsGrounded(realpath, last.entries, last.action);
      var proposed := Proposed(realpath, last.entries, last.action);
      hide Grounded, Fold, OpsOf, Use, Reconcile, Adopt, Repair;
      assert proposed.Some? ==> ComesFrom(run + [last], |run|, proposed.value);
    }
  }

  lemma {:induction false} WholeRunHasGround(realpath: Path -> Path, run: seq<Deed>)
    requires forall d :: d in run ==> ReadsCoherently(d)
    ensures HasGround(run, Fold(OpsOf(realpath, run)))
  {
    if run != [] {
      var n := |run| - 1;
      assert run == run[..n] + [run[n]];
      WholeRunHasGround(realpath, run[..n]);
      StepHasGround(realpath, run[..n], run[n]);
      hide HasGround, Fold, OpsOf, ReadsCoherently;
    }
  }

  /** What the store has committed, with later calls still waiting, are the calls of a shorter run. */
  lemma {:induction false} CommittedIsARun(realpath: Path -> Path, run: seq<Deed>, done: nat) returns (m: nat)
    requires done <= |OpsOf(realpath, run)|
    ensures m <= |run| && OpsOf(realpath, run[..m]) == OpsOf(realpath, run)[..done]
  {
    hide OpOf;
    if done == |OpsOf(realpath, run)| {
      m := |run|;
      assert run[..m] == run && OpsOf(realpath, run)[..done] == OpsOf(realpath, run);
    } else {
      var front, last := run[..|run| - 1], run[|run| - 1];
      AtMostOneOp(realpath, last);
      m := CommittedIsARun(realpath, front, done);
      assert run[..m] == front[..m];
      assert (OpsOf(realpath, front) + OpOf(realpath, last))[..done] == OpsOf(realpath, front)[..done];
    }
  }

  lemma AtMostOneOp(realpath: Path -> Path, deed: Deed)
    ensures |OpOf(realpath, deed)| <= 1
  {
  }

  /** In every reachable state of the store, whatever still waits in its queue. */
  lemma RunHasGround(realpath: Path -> Path, run: seq<Deed>, done: nat)
    requires forall d :: d in run ==> ReadsCoherently(d)
    requires done <= |OpsOf(realpath, run)|
    ensures HasGround(run, Fold(OpsOf(realpath, run)[..done]))
  {
    var m := CommittedIsARun(realpath, run, done);
    WholeRunHasGround(realpath, run[..m]);
    var s := Fold(OpsOf(realpath, run[..m]));
    hide OpsOf, Fold, Grounded, ReadsCoherently;
    if s != NO_SELECTION {
      var i: nat :| ComesFrom(run[..m], i, s);
      assert ComesFrom(run, i, s);
    }
  }

  /**
   * In every reachable state, with any calls still waiting, `bind` binds exactly when the selection is valid,
   * never reaches its internal error, and what it binds was a running container of that workspace, with a
   * discovered configuration, in a registry the run read; unless the operator named it, the only running one.
   * Nothing selected, an ambiguous choice and a target that does not run are refused as what they are.
   */
  lemma BindIsSafe(realpath: Path -> Path, run: seq<Deed>, done: nat)
    requires forall d :: d in run ==> ReadsCoherently(d)
    requires done <= |OpsOf(realpath, run)|
    ensures var s := Fold(OpsOf(realpath, run)[..done]); var b := Bind(s);
      && b != Refused(Unexpected)
      && (b.Bound? <==> s.status == Valid)
      && (b.Bound? ==> exists d :: d in run && BindsIn(d, b.context))
      && (b == Refused(NoCandidate) <==> s == NO_SELECTION)
      && (b == Refused(AmbiguousCandidate) <==> s.status == Status.Ambiguous)
      && (b == Refused(TargetStopped) <==> s.status == Stopped || s.status == Missing)
  {
    RunHasGround(realpath, run, done);
    RefusedExactly(Fold(OpsOf(realpath, run)[..done]));
    var s := Fold(OpsOf(realpath, run)[..done]);
    hide OpsOf, Fold, ReadsCoherently, BindsIn, Earned, RunningOf;
    if s != NO_SELECTION {
      var i: nat :| ComesFrom(run, i, s);
      if s.status == Valid {
        GroundedBinds(run[i], s);
        assert run[i] in run;
      }
    }
  }

  /** Of the store itself: whatever it has committed of the calls this run made, what it shows now binds safely. */
  lemma StoreBindsSafely(store: Store, realpath: Path -> Path, run: seq<Deed>)
    requires store.Valid() && store.calls == OpsOf(realpath, run)
    requires forall d :: d in run ==> ReadsCoherently(d)
    ensures var b := Bind(store.selection);
      && b != Refused(Unexpected)
      && (b.Bound? ==> exists d :: d in run && BindsIn(d, b.context))
  {
    BindIsSafe(realpath, run, store.done);
    hide OpsOf, Bind, BindsIn, ReadsCoherently;
  }

  predicate BindsIn(deed: Deed, context: Context) {
    deed.Deed? && exists e :: e in deed.entries && BindsTo(e, deed.action, context)
  }

  predicate BindsTo(e: Entry, action: Action, context: Context) {
    && context.workspaceKey == e.workspacePath
    && IsRunning(e.containers, context.candidateId)
    && (context.configPath.Some? ==> Discovered(e, context.configPath.value))
    && (|RunningOf(e.containers)| == 1 || NamedBy(e, action, context.candidateId))
  }

  lemma GroundedBinds(deed: Deed, s: Selection)
    requires deed.Deed? && Grounded(deed.entries, deed.action, s) && s.status == Valid
    ensures Bind(s).Bound? && BindsIn(deed, Bind(s).context)
  {
    hide RunningOf, NamedBy;
    var e :| e in deed.entries && Earned(e, deed.action, s);
    assert BindsTo(e, deed.action, Bind(s).context);
  }

  /** Down to the listing: a running container of an entry was listed as `running`, labelled for that workspace. */
  lemma RunningWasListed(
    locale: Locale, realpath: Path -> Path, projects: seq<Project>, listing: seq<Container>, e: Entry, id: string)
    requires e in Build(locale, realpath, projects, listing) && IsRunning(e.containers, id)
    ensures exists d :: d in listing && d.id == id && d.state == "running" && d.workspaceKey.Some?
                        && realpath(d.workspaceKey.value) == e.workspacePath
  {
    BuildMembers(locale, realpath, projects, listing, e);
    hide Build;
    var c :| c in e.containers && c.id == id && c.state == Running;
    CandidatesAreListed(realpath, listing, e.workspacePath, c);
    hide CandidatesOf, GroupOf, ConfigsOf;
    var d :| IsListed(realpath, listing, e.workspacePath, c, d);
    assert d.state == "running";
  }

  /** And a configuration that travels with a binding was discovered for that workspace. */
  lemma ConfigWasDiscovered(
    locale: Locale, realpath: Path -> Path, projects: seq<Project>, listing: seq<Container>, e: Entry, path: Path)
    requires e in Build(locale, realpath, projects, listing) && Discovered(e, path)
    ensures exists p :: p in projects && p.workspacePath == e.workspacePath && p.configPath == path
  {
    BuildMembers(locale, realpath, projects, listing, e);
    hide Build, CandidatesOf, GroupOf;
    var c :| c in ConfigsOfEntry(e) && c.configPath == path;
    ConfigsAreCounted(locale, projects, e.workspacePath, c);
    hide ConfigsOf;
    assert c in multiset(e.configs);
    assert Project(e.workspacePath, c.configPath, c.configKind) in multiset(projects);
  }

  /** The configuration a re-resolution asks for: the hint's, or the one this workspace already has selected. */
  function Asked(hint: Hint, current: Snapshot): Option<Path> {
    if hint.configPath.Some? then hint.configPath
    else if current.workspaceKey == Some(hint.workspaceKey) then current.configPath
    else None
  }

  /** Asked for a configuration that is gone, of a workspace whose preferred one has to be named. */
  predicate AsksInVain(entries: seq<Entry>, hint: Hint, current: Snapshot) {
    var e := Lookup(entries, hint.workspaceKey);
    && e.Some? && !e.value.ambiguous && e.value.containers != []
    && Asked(hint, current).Some? && !Discovered(e.value, Asked(hint, current).value) && DefaultConfig(e.value).Some?
  }

  /** Re-resolving what a re-resolution left behind: what it recorded, on the store as it left it. */
  function Again(entries: seq<Entry>, s: Selection): Selection
    requires s.workspaceKey.Some?
  {
    Reconcile(entries, Remembered(s).value, SnapshotOf(s))
  }

  /** An entry re-resolved by its own container and carried configuration. */
  lemma AgainFor(entries: seq<Entry>, e: Entry, id: Option<string>, asked: Option<Path>)
    requires Lookup(entries, e.workspacePath) == Some(e)
    requires if e.ambiguous || e.containers == [] then id.None? else id.Some? && Offers(e.containers, id.value)
    ensures var s := SelectionFor(e, id, asked);
      && s.workspaceKey.Some?
      && Again(entries, s) == SelectionFor(e, id, if id.Some? then CarriedConfig(e, asked) else None)
  {
    hide FindById, Discovered, DefaultConfig, Lookup;
  }

  /**
   * Re-resolving on an unchanged registry keeps container, state and configuration: once is as good as twice,
   * except exactly when a vanished configuration was asked for where one has to be named; then twice is enough.
   */
  lemma ReconcileSettles(entries: seq<Entry>, hint: Hint, current: Snapshot)
    ensures var s := Reconcile(entries, hint, current);
      && s.workspaceKey.Some? && Again(entries, s).workspaceKey.Some?
      && (Again(entries, s) == s <==> !AsksInVain(entries, hint, current))
      && Again(entries, Again(entries, s)) == Again(entries, s)
  {
    LookupMembers(entries, hint.workspaceKey);
    var found := Lookup(entries, hint.workspaceKey);
    if found.Some? {
      var e, asked := found.value, Asked(hint, current);
      PrimaryIsOffered(e);
      var offered := hint.candidateId.Some? && Offers(e.containers, hint.candidateId.value);
      NoneIsOffered(e, hint.candidateId);
      var id := if e.ambiguous then None else if offered then hint.candidateId else PrimaryId(e);
      var carried := if id.Some? then CarriedConfig(e, asked) else None;
      assert Reconcile(entries, hint, current) == SelectionFor(e, id, asked);
      AgainFor(entries, e, id, asked);
      AgainFor(entries, e, id, carried);
      CarriedTwice(e, asked);
      hide Lookup, FindById, Offers, CarriedConfig, DefaultConfig, Discovered, Again, Reconcile;
    }
  }

  lemma NoneIsOffered(e: Entry, id: Option<string>)
    ensures e.containers == [] && id.Some? ==> !Offers(e.containers, id.value)
  {
  }

  /** Carrying what was carried changes it only from nothing to the preferred configuration. */
  lemma CarriedTwice(e: Entry, asked: Option<Path>)
    ensures var once := CarriedConfig(e, asked); var twice := CarriedConfig(e, once);
      && (twice == once <==> !(asked.Some? && !Discovered(e, asked.value) && DefaultConfig(e).Some?))
      && CarriedConfig(e, twice) == twice
  {
    CarriedIsDiscovered(e, asked);
    CarriedIsDiscovered(e, None);
    hide Discovered, DefaultConfig;
  }

  // ---------- Repairs ----------

  /** Exactly when a parked selection is repaired; the repair always binds, to the only running container. */
  lemma RepairBindsTheOnlyRunning(realpath: Path -> Path, entries: seq<Entry>, request: Path, parked: Snapshot)
    requires Coherent(entries)
    ensures var r := Repair(entries, realpath, request, parked);
      && (r.Some? <==> Repairable(realpath, entries, request, parked))
      && (r.Some? ==>
        var e := Lookup(entries, parked.workspaceKey.value).value;
        Bind(r.value) == Bound(Context(e.workspacePath, e.containers[0].id, CarriedConfig(e, parked.configPath))))
  {
    if parked.workspaceKey.Some? {
      LookupMembers(entries, parked.workspaceKey.value);
      var found := Lookup(entries, parked.workspaceKey.value);
      if found.Some? && !found.value.ambiguous {
        RunningIsPrimary(found.value);
      }
      hide Lookup, RunningOf, CarriedConfig;
    }
  }

  /** Parked by reality, inside the workspace asked about, and with one container running there. */
  predicate Repairable(realpath: Path -> Path, entries: seq<Entry>, request: Path, parked: Snapshot) {
    && (parked.status == Stopped || parked.status == Missing)
    && parked.workspaceKey.Some?
    && Paths.IsAtOrUnder(Key(realpath(request)), Key(realpath(parked.workspaceKey.value)))
    && var found := Lookup(entries, parked.workspaceKey.value);
    && found.Some? && !found.value.ambiguous
    && found.value.containers != [] && found.value.containers[0].state == Running
  }

  // ---------- Reload ----------

  /** What `use` and a reconcile persist of a committed selection. */
  function Remembered(s: Selection): Option<Hint> {
    if s.workspaceKey.None? then None
    else
      Some(Hint(s.workspaceKey.value, SnapshotOf(s).candidateId, SnapshotOf(s).configPath))
  }

  /** A reload starts from an empty store and re-resolves what was remembered. */
  function Reloaded(entries: seq<Entry>, hint: Hint): Selection {
    Reconcile(entries, hint, SnapshotOf(NO_SELECTION))
  }

  lemma ReloadFor(entries: seq<Entry>, e: Entry, id: Option<string>, config: Option<Path>)
    requires Coherent(entries) && e in entries
    requires (id.Some? && Offers(e.containers, id.value)) || (id.None? && e.containers == [])
    requires config.Some? ==> Discovered(e, config.value)
    ensures var s := SelectionFor(e, id, config);
      Remembered(s).Some? && (Reloaded(entries, Remembered(s).value) == s <==> !e.ambiguous)
  {
    CarriedIsDiscovered(e, config);
    hide FindById, Discovered, DefaultConfig;
    var s := SelectionFor(e, id, config);
    assert id.Some? ==> CarriedConfig(e, s.candidate.value.configPath) == s.candidate.value.configPath;
  }

  lemma ChosenReloads(entries: seq<Entry>, e: Entry, id: Option<string>, config: Option<string>)
    requires Coherent(entries) && e in entries
    requires (id.Some? && Offers(e.containers, id.value)) || (id.None? && e.containers == [])
    ensures var s := ChooseWith(e, id, config);
      s.Some? ==>
        Remembered(s.value).Some? && (Reloaded(entries, Remembered(s.value).value) == s.value <==> !e.ambiguous)
  {
    if config.None? {
      ReloadFor(entries, e, id, None);
    } else {
      ResolvedIsDiscovered(ConfigsOfEntry(e), config.value);
      var r := ResolveConfig(ConfigsOfEntry(e), config.value);
      if r.Resolved? {
        assert Discovered(e, r.configPath.value);
        ReloadFor(entries, e, id, r.configPath);
      }
    }
  }

  /**
   * Using a target and reloading on an unchanged registry gives the same selection exactly when the workspace
   * is not ambiguous: an explicit choice among several running containers is not restored on its own.
   */
  lemma UseThenReload(entries: seq<Entry>, request: Request)
    requires Coherent(entries) && Use(entries, request).Some?
    ensures var s := Use(entries, request).value; var e := Addressed(entries, request);
      && e.Some? && Remembered(s).Some?
      && (Reloaded(entries, Remembered(s).value) == s <==> !e.value.ambiguous)
  {
    UseIsAddressed(entries, request);
    var e := Addressed(entries, request).value;
    hide Addressed, Use, Reloaded, Remembered, ChooseWith, Coherent;
    if ByContainer(entries, request) {
      ChosenReloads(entries, e, Some(request.wanted), request.config);
    } else if e.ambiguous {
      var c := e.containers[request.containerRow.value];
      FoundById(e.containers, c.id);
      ChosenReloads(entries, e, Some(c.id), request.config);
    } else {
      PrimaryIsOffered(e);
      ChosenReloads(entries, e, PrimaryId(e), request.config);
    }
  }

  /** Two running containers of one workspace. */
  function TwoRunning(): Entry {
    ContainerOnly(["w"], [Candidate("a", Running, ""), Candidate("b", Running, "")], true)
  }

  /** One of them is named and selected; a reload finds the workspace ambiguous. */
  lemma NamedChoiceIsLost()
    ensures var entries := [TwoRunning()];
      var chosen := Selection(Valid, Some(Target("b", ["w"], Running, None)), Some(["w"]));
      && Coherent(entries)
      && Use(entries, Request("b", None, None, None)) == Some(chosen)
      && Remembered(chosen).Some?
      && Reloaded(entries, Remembered(chosen).value) == Selection(Status.Ambiguous, None, Some(["w"]))
  {
    var e := TwoRunning();
    assert e.containers[..1] == [e.containers[0]] && e.containers[1..] == [e.containers[1]];
    assert Filter(e.containers[..1], (c: Candidate) => c.state == Running) == e.containers[..1] by {
      assert e.containers[..1][..0] == [];
    }
    assert RunningOf(e.containers) == e.containers;
    assert FindById(e.containers, "b") == Some(e.containers[1]);
    assert FindByContainer([e], "b") == Some(e);
    hide Filter, FindById, FindByContainer;
  }
}
