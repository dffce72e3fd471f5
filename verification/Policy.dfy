/**
 * Layered configuration (src/config.ts) and the policy gate (src/policy.ts): a project file can only
 * withhold, and what the gate authorizes the environment builder delivers.
 */
module Policy {
  import opened Text
  import Paths

  datatype Capture = NoCapture | Fingerprint | RedactedText

  /** One validated configuration file; absent fields are `None`. */
  datatype Layer = Layer(
    roots: Option<seq<string>>, environment: Option<seq<string>>,
    maxTimeout: Option<real>, maxOutput: Option<real>, maxDepth: Option<int>, retentionDays: Option<real>,
    capture: Option<Capture>, allowStop: Option<bool>, allowRemove: Option<bool>, allowHost: Option<bool>)

  const EMPTY := Layer(None, None, None, None, None, None, None, None, None, None)

  datatype Config = Config(
    roots: seq<string>, environment: seq<string>,
    maxTimeout: real, maxOutput: real, maxDepth: int, retentionDays: real,
    capture: Capture, allowStop: bool, allowRemove: bool, allowHost: bool)

  /** The shipped posture for running commands on the host: granted. */
  const HOST_DEFAULT := true

  function OrElse<T>(o: Option<T>, otherwise: T): T {
    if o.Some? then o.value else otherwise
  }

  function Intersect(requested: seq<string>, ceiling: seq<string>): seq<string> {
    if requested == [] then []
    else (if requested[0] in ceiling then [requested[0]] else []) + Intersect(requested[1..], ceiling)
  }

  function MinReal(a: real, b: real): real {
    if a <= b then a else b
  }

  function MinInt(a: int, b: int): int {
    if a <= b then a else b
  }

  function Rank(c: Capture): nat {
    match c
    case NoCapture => 0
    case Fingerprint => 1
    case RedactedText => 2
  }

  function LowerCapture(requested: Capture, ceiling: Capture): Capture {
    if Rank(requested) <= Rank(ceiling) then requested else ceiling
  }

  function MergeList(global: Option<seq<string>>, project: Option<seq<string>>, otherwise: seq<string>): seq<string> {
    var ceiling := OrElse(global, otherwise);
    if project.None? then ceiling else Intersect(project.value, ceiling)
  }

  function MergeReal(global: Option<real>, project: Option<real>, otherwise: real): real {
    MinReal(OrElse(project, OrElse(global, otherwise)), OrElse(global, otherwise))
  }

  function MergeInt(global: Option<int>, project: Option<int>, otherwise: int): int {
    MinInt(OrElse(project, OrElse(global, otherwise)), OrElse(global, otherwise))
  }

  function MergeDestructive(global: Option<bool>, project: Option<bool>): bool {
    || (project == Some(true) && global == Some(true))
    || (project == None && global == Some(true))
    || (project == None && global == None && false)
  }

  function MergeHost(global: Option<bool>, project: Option<bool>, otherwise: bool): bool {
    if project == Some(false) || global == Some(false) then false
    else OrElse(project, OrElse(global, otherwise))
  }

  function CompileConfig(global: Layer, project: Layer): Config {
    var ceiling := OrElse(global.capture, Fingerprint);
    Config(
      MergeList(global.roots, project.roots, []),
      MergeList(global.environment, project.environment, []),
      MergeReal(global.maxTimeout, project.maxTimeout, 900.0),
      MergeReal(global.maxOutput, project.maxOutput, 51200.0),
      MergeInt(global.maxDepth, project.maxDepth, 3),
      MergeReal(global.retentionDays, project.retentionDays, 90.0),
      LowerCapture(OrElse(project.capture, ceiling), ceiling),
      MergeDestructive(global.allowStop, project.allowStop),
      MergeDestructive(global.allowRemove, project.allowRemove),
      MergeHost(global.allowHost, project.allowHost, HOST_DEFAULT))
  }

  // ---------- The gate ----------

  datatype Operation = Stop | Remove | Rebuild | HostExec | AnyOther

  datatype Input = Input(workspace: Option<string>, operation: Operation, environment: Option<map<string, string>>)

  datatype Denial = WorkspaceNotAllowed | DestructiveDisabled | HostDisabled | EnvironmentDenied

  /** `realpath` (the path itself when it does not resolve), and the names no list may let through. */
  datatype Surroundings = Surroundings(realpath: string -> string, reserved: string -> bool)

  predicate IsWithinWorkspace(on: Surroundings, root: string, candidate: string) {
    && Paths.IsAbsolute(root) && Paths.IsAbsolute(candidate)
    && Paths.IsAtOrUnder(Paths.Normalize(on.realpath(candidate)), Paths.Normalize(on.realpath(root)))
  }

  predicate IsWorkspaceAllowed(on: Surroundings, workspace: string, roots: seq<string>) {
    Paths.IsAbsolute(workspace) && exists r :: r in roots && IsWithinWorkspace(on, r, workspace)
  }

  predicate IsEnvironmentAllowed(on: Surroundings, name: string, allowlist: seq<string>) {
    !on.reserved(name) && name in allowlist
  }

  /** A rebuild removes the container before it recreates it. */
  predicate Removes(operation: Operation) {
    operation == Remove || operation == Rebuild
  }

  function EvaluatePolicy(on: Surroundings, c: Config, input: Input): Option<Denial> {
    if input.workspace.Some? && input.workspace.value != "" && !IsWorkspaceAllowed(on, input.workspace.value, c.roots)
    then Some(WorkspaceNotAllowed)
    else if (input.operation == Stop && !c.allowStop)
            || (Removes(input.operation) && !c.allowRemove)
    then Some(DestructiveDisabled)
    else if input.operation == HostExec && !c.allowHost then Some(HostDisabled)
    else if input.environment.Some?
            && exists name :: name in input.environment.value && !IsEnvironmentAllowed(on, name, c.environment)
    then Some(EnvironmentDenied)
    else None
  }

  // ---------- A project layer only withholds ----------

  lemma {:induction false} IntersectMembers(requested: seq<string>, ceiling: seq<string>, x: string)
    ensures x in Intersect(requested, ceiling) <==> x in requested && x in ceiling
  {
    if requested != [] {
      IntersectMembers(requested[1..], ceiling, x);
      assert requested == [requested[0]] + requested[1..];
    }
  }

  /** No grant of the merged configuration is missing from the one without the project layer. */
  predicate AtMost(c: Config, ceiling: Config) {
    && (forall r :: r in c.roots ==> r in ceiling.roots)
    && (forall n :: n in c.environment ==> n in ceiling.environment)
    && c.maxTimeout <= ceiling.maxTimeout && c.maxOutput <= ceiling.maxOutput
    && c.maxDepth <= ceiling.maxDepth && c.retentionDays <= ceiling.retentionDays
    && Rank(c.capture) <= Rank(ceiling.capture)
    && (c.allowStop ==> ceiling.allowStop) && (c.allowRemove ==> ceiling.allowRemove)
    && (c.allowHost ==> ceiling.allowHost)
  }

  lemma ProjectOnlyNarrows(global: Layer, project: Layer)
    ensures AtMost(CompileConfig(global, project), CompileConfig(global, EMPTY))
  {
    var c, ceiling := CompileConfig(global, project), CompileConfig(global, EMPTY);
    forall r | r in c.roots ensures r in ceiling.roots {
      IntersectMembers(OrElse(project.roots, []), OrElse(global.roots, []), r);
    }
    forall n | n in c.environment ensures n in ceiling.environment {
      IntersectMembers(OrElse(project.environment, []), OrElse(global.environment, []), n);
    }
  }

  /** The least of the values the two layers state; the shipped value stands in for a silent global layer. */
  predicate IsCeiling(value: real, global: Option<real>, project: Option<real>, shipped: real) {
    && value <= (if global.Some? then global.value else shipped)
    && (project.Some? ==> value <= project.value)
    && (global == Some(value) || project == Some(value) || (global.None? && value == shipped))
  }

  /** What each layer states is a ceiling, and the compiled value is the lowest of them. */
  lemma EveryCeilingHolds(global: Layer, project: Layer)
    ensures var c := CompileConfig(global, project);
      && IsCeiling(c.maxTimeout, global.maxTimeout, project.maxTimeout, 900.0)
      && IsCeiling(c.maxOutput, global.maxOutput, project.maxOutput, 51200.0)
      && IsCeiling(c.retentionDays, global.retentionDays, project.retentionDays, 90.0)
      && c.maxDepth <= (if global.maxDepth.Some? then global.maxDepth.value else 3)
      && (project.maxDepth.Some? ==> c.maxDepth <= project.maxDepth.value)
      && (global.maxDepth == Some(c.maxDepth) || project.maxDepth == Some(c.maxDepth)
          || (global.maxDepth.None? && c.maxDepth == 3))
  {
  }

  /** Capture is lowered by either layer, in the order none, fingerprint, redacted text; fingerprint is shipped. */
  lemma CaptureIsLowered(global: Layer, project: Layer)
    ensures var c := CompileConfig(global, project).capture;
      var ceiling := if global.capture.Some? then global.capture.value else Fingerprint;
      && (c == NoCapture <==> ceiling == NoCapture || project.capture == Some(NoCapture))
      && (c == RedactedText <==>
            ceiling == RedactedText && (project.capture == None || project.capture == Some(RedactedText)))
  {
  }

  /** What the narrower configuration authorizes, the wider one authorizes. */
  lemma AuthorizationIsMonotone(on: Surroundings, c: Config, ceiling: Config, input: Input)
    requires AtMost(c, ceiling) && EvaluatePolicy(on, c, input).None?
    ensures EvaluatePolicy(on, ceiling, input).None?
  {
    hide IsWithinWorkspace;
    if input.workspace.Some? && input.workspace.value != "" {
      var r :| r in c.roots && IsWithinWorkspace(on, r, input.workspace.value);
      assert r in ceiling.roots;
    }
  }

  /** For every input: a project file never turns a denial into an authorization. */
  lemma ProjectNeverGrants(on: Surroundings, global: Layer, project: Layer, input: Input)
    requires EvaluatePolicy(on, CompileConfig(global, project), input).None?
    ensures EvaluatePolicy(on, CompileConfig(global, EMPTY), input).None?
  {
    ProjectOnlyNarrows(global, project);
    AuthorizationIsMonotone(on, CompileConfig(global, project), CompileConfig(global, EMPTY), input);
  }

  /** For running on the host this rests on the shipped default: with a withholding one a project could grant. */
  lemma HostNeedsAGrantingDefault(otherwise: bool)
    ensures (forall global, project :: MergeHost(global, project, otherwise) ==> MergeHost(global, None, otherwise))
      <==> otherwise
  {
    if !otherwise {
      assert MergeHost(None, Some(true), otherwise) && !MergeHost(None, None, otherwise);
    }
  }

  predicate InBoth(global: Option<seq<string>>, project: Option<seq<string>>, x: string) {
    global.Some? && x in global.value && (project.Some? ==> x in project.value)
  }

  lemma MergedMembers(global: Option<seq<string>>, project: Option<seq<string>>, x: string)
    ensures x in MergeList(global, project, []) <==> InBoth(global, project, x)
  {
    IntersectMembers(OrElse(project, []), OrElse(global, []), x);
  }

  predicate RootAllows(on: Surroundings, global: Layer, project: Layer, root: string, workspace: string) {
    InBoth(global.roots, project.roots, root) && IsWithinWorkspace(on, root, workspace)
  }

  lemma RootsAllow(on: Surroundings, global: Layer, project: Layer, workspace: string)
    ensures IsWorkspaceAllowed(on, workspace, MergeList(global.roots, project.roots, [])) <==>
      exists root :: RootAllows(on, global, project, root, workspace)
  {
    var roots := MergeList(global.roots, project.roots, []);
    forall x ensures x in roots <==> InBoth(global.roots, project.roots, x) {
      MergedMembers(global.roots, project.roots, x);
    }
    hide MergeList, InBoth;
    if root :| RootAllows(on, global, project, root, workspace) {
      assert root in roots;
    }
    if IsWorkspaceAllowed(on, workspace, roots) {
      var root :| root in roots && IsWithinWorkspace(on, root, workspace);
      assert RootAllows(on, global, project, root, workspace);
    }
  }

  predicate NameAllowed(on: Surroundings, global: Layer, project: Layer, name: string) {
    !on.reserved(name) && InBoth(global.environment, project.environment, name)
  }

  lemma NamesAllowed(on: Surroundings, global: Layer, project: Layer, name: string)
    ensures IsEnvironmentAllowed(on, name, MergeList(global.environment, project.environment, []))
      <==> NameAllowed(on, global, project, name)
  {
    MergedMembers(global.environment, project.environment, name);
  }

  lemma DestructiveGrant(global: Option<bool>, project: Option<bool>)
    ensures MergeDestructive(global, project) <==> global == Some(true) && project != Some(false)
  {
    match project
    case None =>
    case Some(asked) => assert asked || !asked;
  }

  /** Exactly what two layers authorize: both must agree, except that silence of both permits running on the host. */
  lemma AuthorizedExactly(on: Surroundings, global: Layer, project: Layer, input: Input)
    ensures EvaluatePolicy(on, CompileConfig(global, project), input).None? <==>
      && (input.workspace.None? || input.workspace.value == ""
          || exists root :: RootAllows(on, global, project, root, input.workspace.value))
      && (input.operation == Stop ==> global.allowStop == Some(true) && project.allowStop != Some(false))
      && (input.operation in {Remove, Rebuild} ==>
            global.allowRemove == Some(true) && project.allowRemove != Some(false))
      && (input.operation == HostExec ==> global.allowHost != Some(false) && project.allowHost != Some(false))
      && (input.environment.Some? ==>
        forall name :: name in input.environment.value ==> NameAllowed(on, global, project, name))
  {
    if input.workspace.Some? {
      RootsAllow(on, global, project, input.workspace.value);
    }
    forall name ensures IsEnvironmentAllowed(on, name, CompileConfig(global, project).environment)
      <==> NameAllowed(on, global, project, name)
    {
      NamesAllowed(on, global, project, name);
    }
    hide MergeList, InBoth, MergeReal, MergeInt;
    hide LowerCapture, IsWorkspaceAllowed, IsEnvironmentAllowed, RootAllows, NameAllowed;
    DestructiveGrant(global.allowStop, project.allowStop);
    DestructiveGrant(global.allowRemove, project.allowRemove);
  }

  /** Which denial two layers give: for the workspace first, then for the operation, then for the environment. */
  lemma DeniedFor(on: Surroundings, global: Layer, project: Layer, input: Input)
    ensures var denial := EvaluatePolicy(on, CompileConfig(global, project), input);
      var outside := input.workspace.Some? && input.workspace.value != ""
        && !exists root :: RootAllows(on, global, project, root, input.workspace.value);
      var destroys :=
        || (input.operation == Stop && (global.allowStop != Some(true) || project.allowStop == Some(false)))
        || (input.operation in {Remove, Rebuild}
            && (global.allowRemove != Some(true) || project.allowRemove == Some(false)));
      var onHost := input.operation == HostExec
        && (global.allowHost == Some(false) || project.allowHost == Some(false));
      && (denial == Some(WorkspaceNotAllowed) <==> outside)
      && (denial == Some(DestructiveDisabled) <==> !outside && destroys)
      && (denial == Some(HostDisabled) <==> !outside && onHost)
      && (denial == Some(EnvironmentDenied) <==>
            !outside && !destroys && !onHost && input.environment.Some?
            && exists name :: name in input.environment.value && !NameAllowed(on, global, project, name))
  {
    AuthorizedExactly(on, global, project, input);
    if input.workspace.Some? {
      RootsAllow(on, global, project, input.workspace.value);
    }
    forall name ensures IsEnvironmentAllowed(on, name, CompileConfig(global, project).environment)
      <==> NameAllowed(on, global, project, name)
    {
      NamesAllowed(on, global, project, name);
    }
    DestructiveGrant(global.allowStop, project.allowStop);
    DestructiveGrant(global.allowRemove, project.allowRemove);
    hide MergeList, InBoth, MergeReal, MergeInt, MergeDestructive;
    hide LowerCapture, IsWorkspaceAllowed, IsEnvironmentAllowed, RootAllows, NameAllowed;
  }

  /** For an absolute workspace: it is allowed exactly when it resolves to a root's segments or below them. */
  lemma AllowedBySegments(on: Surroundings, workspace: string, roots: seq<string>)
    requires forall p :: Paths.IsAbsolute(p) ==> Paths.IsAbsolute(on.realpath(p))
    ensures IsWorkspaceAllowed(on, workspace, roots) <==>
      Paths.IsAbsolute(workspace) && exists r :: r in roots && Paths.IsAbsolute(r) && Below(on, r, workspace)
  {
    forall r | r in roots && Paths.IsAbsolute(r) && Paths.IsAbsolute(workspace)
      ensures IsWithinWorkspace(on, r, workspace) <==> Below(on, r, workspace)
    {
      var c, b := on.realpath(workspace), on.realpath(r);
      Paths.NormalizeIdempotent(c);
      Paths.NormalizeIdempotent(b);
      Paths.UnderIsSegmentPrefix(Paths.Normalize(c), Paths.Normalize(b));
    }
    hide IsWithinWorkspace, Below;
    if IsWorkspaceAllowed(on, workspace, roots) {
      var r :| r in roots && IsWithinWorkspace(on, r, workspace);
      assert Paths.IsAbsolute(r) by {
        WithinIsAbsolute(on, r, workspace);
      }
    }
  }

  predicate Below(on: Surroundings, root: string, workspace: string) {
    Paths.Resolve(on.realpath(root)) <= Paths.Resolve(on.realpath(workspace))
  }

  lemma WithinIsAbsolute(on: Surroundings, root: string, candidate: string)
    requires IsWithinWorkspace(on, root, candidate)
    ensures Paths.IsAbsolute(root)
  {
  }

  // ---------- The environment ----------

  datatype Built = Delivered(environment: map<string, string>) | NotAllowed(name: string)

  /** Entries of an object, in order; names are distinct. */
  function AsMap(entries: seq<(string, string)>): map<string, string> {
    if entries == [] then map[]
    else AsMap(entries[..|entries| - 1])[entries[|entries| - 1].0 := entries[|entries| - 1].1]
  }

  function Inherited(on: Surroundings, baseline: seq<(string, string)>, allowlist: seq<string>): map<string, string> {
    if baseline == [] then map[]
    else
      var front, last := Inherited(on, baseline[..|baseline| - 1], allowlist), baseline[|baseline| - 1];
      if IsEnvironmentAllowed(on, last.0, allowlist) then front[last.0 := last.1] else front
  }

  /** The last value given for a name. */
  predicate IsLastValue(entries: seq<(string, string)>, k: nat, name: string) {
    k < |entries| && entries[k].0 == name && forall j :: k < j < |entries| ==> entries[j].0 != name
  }

  /** A map of entries holds each name's last value; of the inherited ones only names that are allowed. */
  lemma {:induction false} LastValueHolds(
    on: Surroundings, entries: seq<(string, string)>, allowlist: seq<string>, name: string)
    ensures var all, mine := AsMap(entries), Inherited(on, entries, allowlist);
      var allowed := !on.reserved(name) && name in allowlist;
      && (name in all <==> exists k: nat :: IsLastValue(entries, k, name))
      && (name in mine <==> allowed && exists k: nat :: IsLastValue(entries, k, name))
      && (forall k: nat :: IsLastValue(entries, k, name) ==>
            all[name] == entries[k].1 && (allowed ==> mine[name] == entries[k].1))
  {
    if entries != [] {
      var n := |entries| - 1;
      LastValueHolds(on, entries[..n], allowlist, name);
      if entries[n].0 == name {
        assert IsLastValue(entries, n, name);
      } else {
        assert forall k: nat :: IsLastValue(entries, k, name) <==> IsLastValue(entries[..n], k, name);
      }
    }
  }

  predicate IsFirstRefused(
    on: Surroundings, requested: seq<(string, string)>, allowlist: seq<string>, k: nat, name: string)
  {
    && k < |requested| && name == requested[k].0 && !IsEnvironmentAllowed(on, name, allowlist)
    && forall j :: 0 <= j < k ==> IsEnvironmentAllowed(on, requested[j].0, allowlist)
  }

  /** Inherited values that are allowed, overridden by the requested ones; or the first name that is not allowed. */
  method BuildChildEnvironment(
    on: Surroundings, requested: seq<(string, string)>, allowlist: seq<string>, baseline: seq<(string, string)>)
    returns (r: Built)
    ensures r.Delivered? <==> forall e :: e in requested ==> IsEnvironmentAllowed(on, e.0, allowlist)
    ensures r.Delivered? ==> r.environment == Inherited(on, baseline, allowlist) + AsMap(requested)
    ensures r.NotAllowed? ==> exists k: nat :: IsFirstRefused(on, requested, allowlist, k, r.name)
  {
    var result: map<string, string> := map[];
    for i := 0 to |baseline|
      invariant result == Inherited(on, baseline[..i], allowlist)
    {
      assert baseline[..i + 1][..i] == baseline[..i];
      if IsEnvironmentAllowed(on, baseline[i].0, allowlist) {
        result := result[baseline[i].0 := baseline[i].1];
      }
    }
    assert baseline[..|baseline|] == baseline;
    ghost var inherited := result;
    for i := 0 to |requested|
      invariant result == inherited + AsMap(requested[..i])
      invariant forall j :: 0 <= j < i ==> IsEnvironmentAllowed(on, requested[j].0, allowlist)
    {
      assert requested[..i + 1][..i] == requested[..i];
      if !IsEnvironmentAllowed(on, requested[i].0, allowlist) {
        assert IsFirstRefused(on, requested, allowlist, i, requested[i].0);
        return NotAllowed(requested[i].0);
      }
      result := result[requested[i].0 := requested[i].1];
    }
    assert requested[..|requested|] == requested;
    return Delivered(result);
  }

  lemma {:induction false} AsMapKeys(entries: seq<(string, string)>)
    ensures forall e :: e in entries ==> e.0 in AsMap(entries)
  {
    if entries != [] {
      var n := |entries| - 1;
      AsMapKeys(entries[..n]);
      assert entries == entries[..n] + [entries[n]];
    }
  }

  /** After the gate nothing can be refused any more: an authorized request is delivered whole. */
  method DeliverAuthorized(on: Surroundings, c: Config, input: Input, requested: Option<seq<(string, string)>>)
    returns (r: Built)
    requires EvaluatePolicy(on, c, input).None?
    requires input.environment == if requested.None? then None else Some(AsMap(requested.value))
    ensures r == Delivered(AsMap(OrElse(requested, [])))
  {
    var entries := OrElse(requested, []);
    AsMapKeys(entries);
    assert forall e :: e in entries ==> IsEnvironmentAllowed(on, e.0, c.environment);
    r := BuildChildEnvironment(on, entries, c.environment, []);
    assert map[] + AsMap(entries) == AsMap(entries);
  }
}
