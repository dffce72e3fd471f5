/**
 * How a target is chosen (src/commands.ts, src/target-adoption.ts, src/target-repair.ts) and bound
 * (`bind` and `refusalFor` in src/target-store.ts).
 *
 * Workspaces and configurations are canonical absolute paths as name sequences; `Text` spells them.
 */
module Selection {
  import opened Text
  import opened Discovery
  import opened Registry
  import Paths

  datatype Status = NothingSelected | Valid | Ambiguous | Missing | Stopped | PolicyDenied | Refreshing

  datatype Target = Target(id: string, workspaceKey: Path, state: State, configPath: Option<Path>)

  datatype Selection = Selection(status: Status, candidate: Option<Target>, workspaceKey: Option<Path>)

  datatype Snapshot = Snapshot(
    status: Status, workspaceKey: Option<Path>, candidateId: Option<string>, configPath: Option<Path>)

  const NO_SELECTION := Selection(NothingSelected, None, None)

  function SnapshotOf(s: Selection): Snapshot {
    Snapshot(
      s.status, s.workspaceKey,
      if s.candidate.Some? then Some(s.candidate.value.id) else None,
      if s.candidate.Some? then s.candidate.value.configPath else None)
  }

  // ---------- Reading an entry ----------

  function Key(p: Path): string {
    Paths.Spell(p, true)
  }

  function ConfigsOfEntry(e: Entry): seq<ConfigCandidate> {
    if e.ConfigEntry? then e.configs else []
  }

  function PrimaryConfig(e: Entry): Option<ConfigCandidate> {
    if ConfigsOfEntry(e) == [] then None else Some(ConfigsOfEntry(e)[0])
  }

  function PrimaryId(e: Entry): Option<string> {
    if e.containers == [] then None else Some(e.containers[0].id)
  }

  function FindById(containers: seq<Candidate>, id: string): Option<Candidate> {
    if containers == [] then None
    else if containers[0].id == id then Some(containers[0])
    else FindById(containers[1..], id)
  }

  predicate Offers(containers: seq<Candidate>, id: string) {
    FindById(containers, id).Some?
  }

  predicate NeedsExplicitConfig(kind: ConfigKind) {
    kind != Unnamed && kind != RootHidden
  }

  predicate Discovered(e: Entry, path: Path) {
    exists c :: c in ConfigsOfEntry(e) && c.configPath == path
  }

  /** The configuration the command line tool cannot find by itself, if that is what discovery prefers. */
  function DefaultConfig(e: Entry): Option<Path> {
    var primary := PrimaryConfig(e);
    if primary.Some? && NeedsExplicitConfig(primary.value.configKind) then Some(primary.value.configPath) else None
  }

  /** The configuration a selection carries: a requested one only while it is still discovered. */
  function CarriedConfig(e: Entry, requested: Option<Path>): Option<Path> {
    if requested.None? then DefaultConfig(e) else if Discovered(e, requested.value) then requested else None
  }

  // ---------- Deriving a selection ----------

  function StateFor(e: Entry, id: Option<string>): State {
    var primary := if e.containers == [] then Exited else e.containers[0].state;
    if id.Some? && Offers(e.containers, id.value) then FindById(e.containers, id.value).value.state else primary
  }

  function SelectionFor(e: Entry, id: Option<string>, config: Option<Path>): Selection {
    var state := StateFor(e, id);
    if e.ambiguous && id.None? then Selection(Status.Ambiguous, None, Some(e.workspacePath))
    else
      Selection(
        if state == Running then Valid else Stopped,
        if id.Some? then Some(Target(id.value, e.workspacePath, state, CarriedConfig(e, config))) else None,
        Some(e.workspacePath))
  }

  /** The identity an automatic choice passes on: none for an ambiguous workspace. */
  function Unattended(e: Entry): Option<string> {
    if e.ambiguous then None else PrimaryId(e)
  }

  datatype Hint = Hint(workspaceKey: Path, candidateId: Option<string>, configPath: Option<Path>)

  /** `reconcileSelection`: what it commits, given what the store showed when it looked. */
  function Reconcile(entries: seq<Entry>, hint: Hint, current: Snapshot): Selection {
    match Lookup(entries, hint.workspaceKey)
    case None => Selection(Missing, None, Some(hint.workspaceKey))
    case Some(e) =>
      var offered := hint.candidateId.Some? && Offers(e.containers, hint.candidateId.value);
      var id := if e.ambiguous then None else if offered then hint.candidateId else PrimaryId(e);
      var config :=
        if hint.configPath.Some? then hint.configPath
        else if current.workspaceKey == Some(hint.workspaceKey) then current.configPath
        else None;
      SelectionFor(e, id, config)
  }

  datatype Reach = Exact | AtOrUnder

  predicate InProject(request: Path, key: Path, reach: Reach) {
    match reach
    case Exact => Paths.IsSamePath(Key(key), Key(request))
    case AtOrUnder => Paths.IsAtOrUnder(Key(request), Key(key))
  }

  function Matches(entries: seq<Entry>, request: Path, reach: Reach): seq<Entry> {
    Filter(entries, (e: Entry) => InProject(request, e.workspacePath, reach))
  }

  /** The left fold over the matches: a later one wins only if its key is longer. */
  function Deepest(matches: seq<Entry>): Entry
    requires matches != []
  {
    var last := matches[|matches| - 1];
    if |matches| == 1 then last
    else
      var best := Deepest(matches[..|matches| - 1]);
      if |Key(last.workspacePath)| > |Key(best.workspacePath)| then last else best
  }

  function Repair(entries: seq<Entry>, realpath: Path -> Path, request: Path, parked: Snapshot): Option<Selection> {
    if (parked.status != Stopped && parked.status != Missing) || parked.workspaceKey.None? then None
    else if !Paths.IsAtOrUnder(Key(realpath(request)), Key(realpath(parked.workspaceKey.value))) then None
    else
      match Lookup(entries, parked.workspaceKey.value)
      case None => None
      case Some(e) =>
        var running := RunningOf(e.containers);
        if e.ambiguous || |running| != 1 then None else Some(SelectionFor(e, Some(running[0].id), parked.configPath))
  }

  function Adopt(
    entries: seq<Entry>, realpath: Path -> Path, request: Path, reach: Reach, now: Snapshot): Option<Selection>
  {
    if now.status == Stopped || now.status == Missing then Repair(entries, realpath, request, now)
    else if now.status != NothingSelected then None
    else
      var matches := Matches(entries, request, reach);
      if matches == [] then None else Some(SelectionFor(Deepest(matches), Unattended(Deepest(matches)), None))
  }

  // ---------- Choosing a configuration by name ----------

  function SelectorName(c: ConfigCandidate): string {
    if c.configKind != Named then "default"
    else if |c.configPath| < 2 then ""
    else c.configPath[|c.configPath| - 2]
  }

  datatype ConfigResolution = Resolved(configPath: Option<Path>) | UnknownConfig

  function ResolveConfig(candidates: seq<ConfigCandidate>, requested: string): ConfigResolution {
    if candidates == [] then UnknownConfig
    else if Key(candidates[0].configPath) == requested || SelectorName(candidates[0]) == requested
    then Resolved(Some(candidates[0].configPath))
    else ResolveConfig(candidates[1..], requested)
  }

  /** What `up` and `build` hand to the command line tool. */
  function ConfigPathFor(e: Entry, selector: Option<string>, selected: Snapshot): ConfigResolution {
    if selector.Some? then ResolveConfig(ConfigsOfEntry(e), selector.value)
    else
      var validated :=
        if selected.configPath.Some? && selected.workspaceKey == Some(e.workspacePath)
        then ResolveConfig(ConfigsOfEntry(e), Key(selected.configPath.value))
        else UnknownConfig;
      if validated.Resolved? then validated else Resolved(DefaultConfig(e))
  }

  // ---------- The `use` command ----------

  predicate Contains(s: string, part: string) {
    part <= s || (s != "" && Contains(s[1..], part))
  }

  /** What the operator typed, and the rows picked if asked; no row is a cancelled or absent dialog. */
  datatype Request = Request(
    wanted: string, config: Option<string>, workspaceRow: Option<nat>, containerRow: Option<nat>)

  function FindByContainer(entries: seq<Entry>, id: string): Option<Entry> {
    if entries == [] then None
    else if Offers(entries[0].containers, id) then Some(entries[0])
    else FindByContainer(entries[1..], id)
  }

  function ChooseWith(e: Entry, id: Option<string>, config: Option<string>): Option<Selection> {
    if config.None? then Some(SelectionFor(e, id, None))
    else
      match ResolveConfig(ConfigsOfEntry(e), config.value)
      case UnknownConfig => None
      case Resolved(path) => Some(SelectionFor(e, id, path))
  }

  /** The chosen container of an ambiguous workspace is the operator's, never the first listed. */
  function ChooseIn(e: Entry, request: Request): Option<Selection> {
    if !e.ambiguous then ChooseWith(e, PrimaryId(e), request.config)
    else if request.containerRow.None? || request.containerRow.value >= |e.containers| then None
    else ChooseWith(e, Some(e.containers[request.containerRow.value].id), request.config)
  }

  function Use(entries: seq<Entry>, request: Request): Option<Selection> {
    var byContainer := if request.wanted == "" then None else FindByContainer(entries, request.wanted);
    if byContainer.Some? then ChooseWith(byContainer.value, Some(request.wanted), request.config)
    else
      var rows := Filter(entries, (e: Entry) => Contains(Key(e.workspacePath), request.wanted));
      if |rows| == 1 then ChooseIn(rows[0], request)
      else if request.workspaceRow.None? || request.workspaceRow.value >= |rows| then None
      else ChooseIn(rows[request.workspaceRow.value], request)
  }

  // ---------- Binding ----------

  datatype Context = Context(workspaceKey: Path, candidateId: string, configPath: Option<Path>)

  datatype Refusal = NoCandidate | TargetRefreshing | AmbiguousCandidate | TargetStopped | DeniedByPolicy | Unexpected

  datatype Binding = Bound(context: Context) | Refused(kind: Refusal)

  function Bind(s: Selection): Binding {
    match s.status
    case NothingSelected => Refused(NoCandidate)
    case Refreshing => Refused(TargetRefreshing)
    case Ambiguous => Refused(AmbiguousCandidate)
    case Missing => Refused(TargetStopped)
    case Stopped => Refused(TargetStopped)
    case PolicyDenied => Refused(DeniedByPolicy)
    case Valid =>
      if s.candidate.None? then Refused(Unexpected)
      else if s.candidate.value.state != Running then Refused(TargetStopped)
      else
        var c := s.candidate.value;
        Bound(Context(if s.workspaceKey.Some? then s.workspaceKey.value else c.workspaceKey, c.id, c.configPath))
  }
}
