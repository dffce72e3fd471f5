/**
 * Which configuration `up`, `build` and a bound command are given (`configPathFor`, the target resolution of
 * `up` and `build`, and `finishUpLike` in src/commands.ts), over the life of a selection.
 */
module UpConfig {
  import opened Text
  import opened Discovery
  import opened Registry
  import opened Selection
  import opened SelectionLaws
  import opened SelectionRuns
  import Paths

  /** What `up` and `build` hand over for a workspace, with or without a `--config` of their own. */
  function UpTarget(entries: seq<Entry>, key: Path, selector: Option<string>, selected: Snapshot): ConfigResolution {
    match Lookup(entries, key)
    case None => if selector.None? then Resolved(None) else UnknownConfig
    case Some(e) => ConfigPathFor(e, selector, selected)
  }

  /** After a start the selection is re-resolved from the workspace alone. */
  function AfterUp(later: seq<Entry>, key: Path, selected: Selection): Selection {
    Reconcile(later, Hint(key, None, None), SnapshotOf(selected))
  }

  ghost predicate CanonicalConfigs(e: Entry) {
    forall c :: c in ConfigsOfEntry(e) ==> Paths.Resolved(c.configPath, true)
  }

  // ---------- One `up` ----------

  /** A canonical path is not the name of a configuration, so looking one up by path finds that path. */
  lemma {:induction false} PathResolvesToItself(candidates: seq<ConfigCandidate>, path: Path)
    requires Paths.Resolved(path, true)
    requires forall c :: c in candidates ==> Paths.Resolved(c.configPath, true)
    ensures ResolveConfig(candidates, Key(path)) ==
      if exists c :: c in candidates && c.configPath == path then Resolved(Some(path)) else UnknownConfig
  {
    if candidates != [] {
      var c := candidates[0];
      assert c in candidates && candidates == [c] + candidates[1..];
      PathResolvesToItself(candidates[1..], path);
      Paths.SpellIsInjective(c.configPath, path, true);
      NameIsNoPath(c, path);
      hide Key, SelectorName;
    }
  }

  lemma NameIsNoPath(c: ConfigCandidate, path: Path)
    requires Paths.Resolved(c.configPath, true)
    ensures SelectorName(c) != Key(path)
  {
    assert Key(path)[0] == '/';
    if c.configKind == Named && |c.configPath| >= 2 {
      var name := c.configPath[|c.configPath| - 2];
      assert '/' !in name;
    }
  }

  /** By its path, by the name of its directory if it has one, and any other as `default`. */
  predicate Answers(c: ConfigCandidate, requested: string) {
    || Key(c.configPath) == requested
    || (if c.configKind in {Unnamed, RootHidden, RootPlain} then requested == "default"
        else requested == if |c.configPath| >= 2 then c.configPath[|c.configPath| - 2] else "")
  }

  /** A requested configuration is the first that answers to the request, and unknown if none does. */
  lemma {:induction false} ResolvesToFirst(candidates: seq<ConfigCandidate>, requested: string)
    ensures var r := ResolveConfig(candidates, requested);
      && (r.UnknownConfig? <==> forall c :: c in candidates ==> !Answers(c, requested))
      && (r.Resolved? ==> exists i ::
            && 0 <= i < |candidates| && Answers(candidates[i], requested)
            && r.configPath == Some(candidates[i].configPath)
            && forall j :: 0 <= j < i ==> !Answers(candidates[j], requested))
  {
    if candidates != [] {
      var c, rest := candidates[0], candidates[1..];
      assert candidates == [c] + rest;
      ResolvesToFirst(rest, requested);
      if Key(c.configPath) != requested && SelectorName(c) != requested {
        var r := ResolveConfig(rest, requested);
        if r.Resolved? {
          var i :| 0 <= i < |rest| && Answers(rest[i], requested) && r.configPath == Some(rest[i].configPath)
            && forall j :: 0 <= j < i ==> !Answers(rest[j], requested);
          assert candidates[i + 1] == rest[i];
        }
      } else {
        assert Answers(candidates[0], requested);
      }
    }
  }

  /**
   * Without a `--config`, `up` is given the configuration selected for this very workspace while it is discovered,
   * else the preferred one.
   */
  lemma HandsOver(e: Entry, selected: Snapshot)
    requires CanonicalConfigs(e) && (selected.configPath.Some? ==> Paths.Resolved(selected.configPath.value, true))
    ensures var own := selected.workspaceKey == Some(e.workspacePath);
      var usable := own && selected.configPath.Some? && Discovered(e, selected.configPath.value);
      ConfigPathFor(e, None, selected) == Resolved(if usable then selected.configPath else DefaultConfig(e))
  {
    if selected.configPath.Some? {
      PathResolvesToItself(ConfigsOfEntry(e), selected.configPath.value);
    }
    hide Key, ResolveConfig;
  }

  /**
   * Starting the selected target hands over the configuration the selection carries, exactly when discovery
   * prefers none that has to be named, or a container is selected and what was asked for is discovered.
   */
  lemma UpUsesTheSelectedConfig(e: Entry, id: Option<string>, config: Option<Path>)
    requires CanonicalConfigs(e)
    ensures var s := SnapshotOf(SelectionFor(e, id, config));
      ConfigPathFor(e, None, s) == Resolved(s.configPath) <==>
        DefaultConfig(e).None? || (id.Some? && (config.None? || Discovered(e, config.value)))
  {
    CarriedIsDiscovered(e, config);
    HandsOver(e, SnapshotOf(SelectionFor(e, id, config)));
    hide ConfigPathFor, Discovered, StateFor, DefaultConfig;
  }

  /** The workspace has a container, and not two running: a re-resolution selects one. */
  predicate HasTarget(entries: seq<Entry>, key: Path) {
    var e := Lookup(entries, key);
    e.Some? && !e.value.ambiguous && e.value.containers != []
  }

  /**
   * A configuration named to `up` is handed over, but the selection left behind carries it exactly when it was
   * already the selected one, or none was selected and discovery prefers it. The next `up` is given it exactly
   * when it is the one selected before, kept because it is discovered and a container is there, else the preferred.
   */
  lemma UpCarriesItsConfigExactly(
    read: seq<Entry>, later: seq<Entry>, key: Path, selector: string, selected: Selection, config: Path)
    requires UpTarget(read, key, Some(selector), SnapshotOf(selected)) == Resolved(Some(config))
    requires Lookup(later, key).Some? ==> CanonicalConfigs(Lookup(later, key).value)
    ensures Lookup(read, key).Some?
    ensures var e := Lookup(later, key); var own := Asked(Hint(key, None, None), SnapshotOf(selected));
      var s := SnapshotOf(AfterUp(later, key, selected));
      && (s.configPath == Some(config) <==>
            && HasTarget(later, key)
            && if own.Some? then own.value == config && Discovered(e.value, config)
               else DefaultConfig(e.value) == Some(config))
      && (e.Some? ==>
            (UpTarget(later, key, None, s) == Resolved(Some(config)) <==>
              if HasTarget(later, key) && own.Some? && Discovered(e.value, own.value) then own.value == config
              else DefaultConfig(e.value) == Some(config)))
      && (e.None? ==>
            UpTarget(later, key, None, s) == Resolved(None)
            && UpTarget(later, key, Some(selector), s) == UnknownConfig)
  {
    LookupMembers(later, key);
    if Lookup(later, key).Some? {
      var e := Lookup(later, key).value;
      PrimaryIsOffered(e);
      CarriedIsDiscovered(e, Asked(Hint(key, None, None), SnapshotOf(selected)));
      CarriedIsDiscovered(e, None);
      HandsOver(e, SnapshotOf(AfterUp(later, key, selected)));
    }
    hide Lookup, FindById, Discovered, DefaultConfig, ConfigPathFor;
  }

  // ---------- From `use` on ----------

  /** What may follow a `use` in its workspace without another choice by the operator. */
  datatype Turn =
    | Started(later: Option<seq<Entry>>)
    | Listed(entries: seq<Entry>)
    | Executing(entries: seq<Entry>, request: Path, reach: Reach)

  /** A start may fail; `list` re-resolves a missing target; a command may adopt or repair before it binds. */
  function Next(realpath: Path -> Path, key: Path, s: Selection, t: Turn): Selection {
    match t
    case Started(later) => if later.None? then s else AfterUp(later.value, key, s)
    case Listed(entries) => if s.status == Missing then AfterUp(entries, key, s) else s
    case Executing(entries, request, reach) =>
      var found := Adopt(entries, realpath, request, reach, SnapshotOf(s));
      if found.Some? then found.value else s
  }

  function After(realpath: Path -> Path, key: Path, s: Selection, turns: seq<Turn>): Selection {
    if turns == [] then s else Next(realpath, key, After(realpath, key, s, turns[..|turns| - 1]), turns[|turns| - 1])
  }

  /** One more turn, told by what it re-derives the selection from. */
  lemma TurnsExactly(realpath: Path -> Path, key: Path, s: Selection, turns: seq<Turn>, t: Turn)
    ensures After(realpath, key, s, []) == s
    ensures var was, now := After(realpath, key, s, turns), After(realpath, key, s, turns + [t]);
      match t {
        case Started(None) => now == was
        case Started(Some(later)) => now == Reconcile(later, Hint(key, None, None), SnapshotOf(was))
        case Listed(entries) =>
          now == if was.status == Missing then Reconcile(entries, Hint(key, None, None), SnapshotOf(was)) else was
        case Executing(entries, request, reach) =>
          var found := Adopt(entries, realpath, request, reach, SnapshotOf(was));
          now == if found.Some? then found.value else was
      }
  {
    assert (turns + [t])[..|turns|] == turns;
    hide Reconcile, Adopt;
  }

  /** Whenever the workspace is found, the configuration is discovered there and the preferred one is the same. */
  predicate Still(entries: seq<Entry>, e: Entry, config: Path) {
    var found := Lookup(entries, e.workspacePath);
    found.Some? ==> Discovered(found.value, config) && DefaultConfig(found.value) == DefaultConfig(e)
  }

  predicate TurnSees(t: Turn, e: Entry, config: Path) {
    match t
    case Started(later) => later.Some? ==> Still(later.value, e, config)
    case Listed(entries) => Still(entries, e, config)
    case Executing(entries, _, _) => Still(entries, e, config)
  }

  /** Every start that succeeded found one container to select. */
  predicate EveryStartHasTarget(key: Path, turns: seq<Turn>) {
    forall t :: t in turns ==> t.Started? && t.later.Some? ==> HasTarget(t.later.value, key)
  }

  /** The selection is of this workspace and carries the configuration, or, once lost, the preferred one. */
  predicate Carries(e: Entry, config: Path, kept: bool, s: Selection) {
    && s.workspaceKey == Some(e.workspacePath) && s.status != NothingSelected
    && (kept ==> s.candidate.Some? && s.status != Missing)
    && (s.candidate.Some? ==> s.candidate.value.configPath == if kept then Some(config) else DefaultConfig(e))
  }

  /** Carrying what was carried, while it is discovered: the preferred configuration replaces only nothing. */
  lemma CarriedOn(found: Entry, config: Option<Path>)
    ensures config.Some? && Discovered(found, config.value) ==> CarriedConfig(found, config) == config
    ensures config.None? || config == DefaultConfig(found) ==> CarriedConfig(found, config) == DefaultConfig(found)
  {
    CarriedIsDiscovered(found, None);
  }

  lemma AfterUpCarries(e: Entry, config: Path, kept: bool, s: Selection, later: seq<Entry>)
    requires Carries(e, config, kept, s) && Still(later, e, config)
    ensures Carries(e, config, kept && HasTarget(later, e.workspacePath), AfterUp(later, e.workspacePath, s))
  {
    LookupMembers(later, e.workspacePath);
    var found := Lookup(later, e.workspacePath);
    if found.Some? {
      PrimaryIsOffered(found.value);
      CarriedOn(found.value, SnapshotOf(s).configPath);
    }
    hide Lookup, FindById, Discovered, DefaultConfig, CarriedConfig;
  }

  lemma ExecutingCarries(
    realpath: Path -> Path, e: Entry, config: Path, kept: bool, s: Selection,
    entries: seq<Entry>, request: Path, reach: Reach)
    requires Carries(e, config, kept, s) && Still(entries, e, config)
    ensures Carries(e, config, kept, Next(realpath, e.workspacePath, s, Executing(entries, request, reach)))
  {
    LookupMembers(entries, e.workspacePath);
    var found := Lookup(entries, e.workspacePath);
    if found.Some? {
      CarriedOn(found.value, SnapshotOf(s).configPath);
    }
    hide Lookup, FindById, Discovered, DefaultConfig, CarriedConfig, Matches, Deepest, RunningOf;
  }

  lemma {:induction false} TurnsCarry(
    realpath: Path -> Path, e: Entry, config: Path, kept: bool, s: Selection, turns: seq<Turn>)
    requires Carries(e, config, kept, s) && forall t :: t in turns ==> TurnSees(t, e, config)
    ensures Carries(e, config, kept && EveryStartHasTarget(e.workspacePath, turns),
                    After(realpath, e.workspacePath, s, turns))
    decreases |turns|
  {
    if turns != [] {
      var n := |turns| - 1;
      var t, key := turns[n], e.workspacePath;
      assert turns == turns[..n] + [t];
      TurnsCarry(realpath, e, config, kept, s, turns[..n]);
      TurnsExactly(realpath, key, s, turns[..n], t);
      var now, still := After(realpath, key, s, turns[..n]), kept && EveryStartHasTarget(key, turns[..n]);
      assert TurnSees(t, e, config);
      match t {
        case Started(later) =>
          if later.Some? {
            AfterUpCarries(e, config, still, now, later.value);
          }
        case Listed(entries) =>
          AfterUpCarries(e, config, still, now, entries);
        case Executing(entries, request, reach) =>
          ExecutingCarries(realpath, e, config, still, now, entries, request, reach);
      }
      hide After, AfterUp, HasTarget, Still, Discovered, DefaultConfig, Adopt;
    }
  }

  lemma UseCarries(entries: seq<Entry>, request: Request, e: Entry, config: Path)
    requires Coherent(entries) && Use(entries, request).Some? && Addressed(entries, request) == Some(e)
    requires request.config.Some? && ResolveConfig(ConfigsOfEntry(e), request.config.value) == Resolved(Some(config))
    ensures Carries(e, config, e.containers != [], Use(entries, request).value)
  {
    UseIsWhatWasAsked(entries, request);
    UseIsGrounded(entries, request);
    UseCarriesExactly(entries, request);
    hide Use, Addressed, ResolveConfig, Grounded, Picked;
  }

  /**
   * `use --config X`, and then any starts, listings and commands, while X stays discovered and the preferred
   * configuration the same: `up` is given X, and a command binds X, exactly when the workspace had a container
   * when X was asked for and every start found one to select, or X is preferred and has to be named anyway.
   */
  lemma ConfigIsCarriedExactly(
    realpath: Path -> Path, entries: seq<Entry>, request: Request, e: Entry, config: Path,
    turns: seq<Turn>, read: seq<Entry>)
    requires Coherent(entries) && Use(entries, request).Some? && Addressed(entries, request) == Some(e)
    requires request.config.Some? && ResolveConfig(ConfigsOfEntry(e), request.config.value) == Resolved(Some(config))
    requires forall t :: t in turns ==> TurnSees(t, e, config)
    requires var now := Lookup(read, e.workspacePath);
      now.Some? && CanonicalConfigs(now.value) && Still(read, e, config)
    ensures var key := e.workspacePath;
      var s := After(realpath, key, Use(entries, request).value, turns);
      var carried := (e.containers != [] && EveryStartHasTarget(key, turns)) || DefaultConfig(e) == Some(config);
      && (UpTarget(read, key, None, SnapshotOf(s)) == Resolved(Some(config)) <==> carried)
      && (Bind(s).Bound? ==> (Bind(s).context.configPath == Some(config) <==> carried))
  {
    UseCarries(entries, request, e, config);
    TurnsCarry(realpath, e, config, e.containers != [], Use(entries, request).value, turns);
    var s := After(realpath, e.workspacePath, Use(entries, request).value, turns);
    LookupMembers(read, e.workspacePath);
    var found := Lookup(read, e.workspacePath).value;
    CarriedIsDiscovered(found, None);
    HandsOver(found, SnapshotOf(s));
    hide Use, Addressed, After, Lookup, ResolveConfig, EveryStartHasTarget, ConfigPathFor, Discovered;
  }

  // ---------- Inputs on which the configuration asked for is lost ----------

  const PY: Path := ["w", ".devcontainer", "py", "devcontainer.json"]

  /** A workspace with an unnamed and a named configuration. */
  function TwoConfigs(containers: seq<Candidate>): Entry {
    ConfigEntry(
      ["w"], [ConfigCandidate(["w", ".devcontainer", "devcontainer.json"], Unnamed), ConfigCandidate(PY, Named)],
      containers, false)
  }

  const STARTED := TwoConfigs([Candidate("c", Running, "")])

  lemma PyIsNamed()
    ensures forall containers :: ResolveConfig(ConfigsOfEntry(TwoConfigs(containers)), "py") == Resolved(Some(PY))
  {
    var unnamed := ["w", ".devcontainer", "devcontainer.json"];
    assert |PY| == 4 && PY[|PY| - 2] == "py";
    assert Key(unnamed)[0] == '/' && Key(PY)[0] == '/';
    forall containers ensures ResolveConfig(ConfigsOfEntry(TwoConfigs(containers)), "py") == Resolved(Some(PY)) {
      var configs := ConfigsOfEntry(TwoConfigs(containers));
      assert configs[1..] == [ConfigCandidate(PY, Named)];
    }
  }

  /** Before the first `up`: the named configuration is asked for, and neither `up` nor a later command is given it. */
  lemma UseBeforeUpDropsTheConfig()
    ensures var request := Request("w", Some("py"), None, None); var chosen := Selection(Stopped, None, Some(["w"]));
      && Use([TwoConfigs([])], request) == Some(chosen)
      && UpTarget([TwoConfigs([])], ["w"], None, SnapshotOf(chosen)) == Resolved(None)
      && Bind(AfterUp([STARTED], ["w"], chosen)) == Bound(Context(["w"], "c", None))
  {
  }

  /** `up` is given the named configuration, and the next one, like every command, is not. */
  lemma UpConfigIsForgotten()
    ensures var s := AfterUp([STARTED], ["w"], NO_SELECTION);
      && UpTarget([TwoConfigs([])], ["w"], Some("py"), SnapshotOf(NO_SELECTION)) == Resolved(Some(PY))
      && Bind(s) == Bound(Context(["w"], "c", None))
      && UpTarget([STARTED], ["w"], None, SnapshotOf(s)) == Resolved(None)
  {
    PyIsNamed();
  }

  /** A started workspace whose only configuration is a named one. */
  const ONLY_NAMED := ConfigEntry(["w"], [ConfigCandidate(PY, Named)], [Candidate("a", Running, "")], false)

  /**
   * A remembered configuration is gone: the selection restored carries none, `up` is given the named one, and
   * re-resolving once more selects that.
   */
  lemma UpNamesAnotherConfig()
    ensures var hint := Hint(["w"], Some("a"), Some(["w", "old.json"]));
      var s := Reconcile([ONLY_NAMED], hint, SnapshotOf(NO_SELECTION));
      && s == Selection(Valid, Some(Target("a", ["w"], Running, None)), Some(["w"]))
      && UpTarget([ONLY_NAMED], ["w"], None, SnapshotOf(s)) == Resolved(Some(PY))
      && AsksInVain([ONLY_NAMED], hint, SnapshotOf(NO_SELECTION))
      && Again([ONLY_NAMED], s) == Selection(Valid, Some(Target("a", ["w"], Running, Some(PY))), Some(["w"]))
  {
    assert |PY| == 4;
    assert !Discovered(ONLY_NAMED, ["w", "old.json"]) by {
      assert |["w", "old.json"]| == 2;
    }
  }
}
