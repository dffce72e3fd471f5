# Verification of the DevContainer manager

A Dafny model of the parts of the DevContainer manager whose correctness decides what runs where, with proofs
about all inputs, all file systems and all interleavings. `dafny verify dfyconfig.toml` checks everything.

## What is modelled

- **The JSONC stripper** (`Jsonc`, `JsoncOutput`, `JsoncTokens`). The cursor loops are proved equal to a
  lexeme-level reference; string literals follow section 7 of RFC 8259. On that reference stand the meaning
  results: no comment left, literals intact, when it throws, when it is the identity, when it is idempotent, and
  token preservation for every placement of white space and comments.
- **Path algebra and routing guards** (`Paths`, `Guards`). A path is read as a walk through directories; the
  source's text tests are proved to be the prefix order on the resolved segments. Translation between host and
  container is an order embedding, and the two guards are dual.
- **Discovery and registry** (`Discovery`, `DiscoveryReach`, `DiscoveryNotes`, `Sorting`, `Registry`,
  `PsListing`, `PsGrammar`). The file system is three functions and may be cyclic. The walk finds exactly what a
  reachability predicate describes; the merge holds one entry per workspace whatever the listing order; the
  listing parser survives any cut.
- **The selection protocol** (`Selection`, `SelectionLaws`, `SelectionRuns`, `TargetStore`, `Commands`,
  `Adoption`, `UpConfig`). The promise queue is a list of pending operations with a commit step; a step may act
  on any stale read. Listing order is invisible, every binding is grounded, and explicit choices stand.
  `UpConfig` follows a requested configuration through the life of a selection.
- **The execution service** (`Service`, `ServiceCases`, `ServiceLaws`, `Grounding`). Each `await` ends a
  segment; segments of concurrent calls interleave freely with store commits. Methods carry the segments out on
  the service's own state and are proved against one transition function, whose invariants hold in every run;
  `Grounding` joins it with the store.
- **The session** (`Session`, `OptOut`, `Reload`). Persisted intent, activation, generations, and the steps of a
  start between awaits, with commands that may act on a runtime that has been replaced; `OptOut` joins them with
  the store's queue and says what `off` guarantees.
- **The host command grammar** (`HostExec`), **bounded buffers** (`Capture`, `ToolOutput`), **the short-lived
  cache** (`ShortCache`) and **layered policy** (`Policy`).

Where code and documentation disagree the model follows the code, and the exact condition is proved:

- Tool output: the byte budget charges the last line for a newline it does not have (`ToolOutput.LosesALineExactly`,
  `ToolOutput.LosesALine`), and the notice about "a single line" also appears for several lines, with the head of
  the output instead of its tail (`ToolOutput.HeadExactly`, `ToolOutput.HeadOfTwoLines`).
- `off` does not stop an adoption, a repair or a restore that already had its permission: its choice is enqueued
  behind the clear (`OptOut.OffEmptiesExactly`, `OptOut.LateAdoptionSelects`, `OptOut.LateRestoreSelects`).
- Stripping is not idempotent on doubled trailing commas (`JsoncOutput.IdempotentExactlyWithoutDoubledComma`,
  `JsoncOutput.DoubledCommaIsNotStable`).
- The reverse guard's ancestor test compares raw lengths (`Guards.AncestorExactly`, `Guards.AncestorSpellingsDiffer`),
  and bare slashes trim to the empty text (`Guards.OnlySlashesAreNeverRefused`, `Guards.RootSpellingsDiffer`,
  `Guards.SlashesContainerExcusesNothing`).
- The cheap configuration probe differs from a walk only in a workspace that cannot be listed
  (`DiscoveryReach.ProbeAgreesWithWalk`, `DiscoveryReach.ProbeSeesMoreThanTheWalk`).
- An explicit choice among several running containers does not survive a reload (`SelectionRuns.UseThenReload`,
  `SelectionRuns.NamedChoiceIsLost`).
- A presentation hook that fails after the command ran leaves no audit record (`ServiceLaws.OneRecordPerCall`,
  `ServiceLaws.UnpresentedLeavesNoRecord`).
- `use --config X` is said to reach every later `up` and `exec`, but X is stored with the container: before the first
  `up` it is dropped (`SelectionRuns.UseCarriesExactly`, `UpConfig.ConfigIsCarriedExactly`,
  `UpConfig.UseBeforeUpDropsTheConfig`), and `up --config X` re-resolves without X
  (`UpConfig.UpCarriesItsConfigExactly`, `UpConfig.UpConfigIsForgotten`).
- A stale requested configuration leaves a selection without one, and `up` then falls back to the primary one
  (`UpConfig.UpUsesTheSelectedConfig`, `UpConfig.UpNamesAnotherConfig`, `SelectionRuns.ReconcileSettles`).

Hypotheses a reader should know: paths given as segment lists are canonical (`Paths.Resolved`), `localeCompare` is
an arbitrary comparison unless a lemma asks for a total preorder, and `realpath` is an arbitrary function.

## Model

| member | source | states |
|---|---|---|
| Jsonc.SkipWhitespace | src/jsonc.ts:20-24 | stops at the first character that is not white space, having passed only white space |
| Jsonc.SkipComment | src/jsonc.ts:31-48 | recognises exactly the comment that starts here, where it ends, and an unclosed block comment |
| Jsonc.StripJsonc | src/jsonc.ts:51-102 | the scanner, loop by loop, computes the lexeme-level reference: drop comments and every comma whose next lexeme past white space and comments is a closer; it throws where the reference does |
| JsoncOutput.KeptReadsBack | src/jsonc.ts:51-102 | the output lexes to exactly the kept lexemes: removing text never creates a comment, a string or an escape |
| JsoncOutput.OutputHasNoComments | src/jsonc.ts:51-102 | for every accepted text: no comment is left outside strings and all string literals survive, in order, character for character |
| JsoncOutput.ThrowsExactlyOnUnclosedBlock | src/jsonc.ts:31-48 | throws if and only if a block comment that is never closed starts outside strings and comments |
| JsoncOutput.IdentityExactlyWhenNothingToDrop | src/jsonc.ts:51-102 | returns its input if and only if there is no leading byte-order mark, no comment and no trailing comma |
| JsoncOutput.IdempotentExactlyWithoutDoubledComma | src/jsonc.ts:80-98 | stripping twice is stripping once if and only if the text has no comma that becomes trailing by losing its successor, and no byte-order mark in second place |
| JsoncOutput.DoubledCommaIsNotStable | src/jsonc.ts:83-95 | a concrete text on which stripping is not idempotent |
| JsoncTokens.TokensSurviveExactlyUnlessGlued | src/jsonc.ts:51-102 | the tokens of the output are the tokens of the input minus its trailing commas if and only if no comment separates two bare scalars |
| JsoncTokens.PrintedTokens | src/jsonc.ts:51-102 | any token sequence without adjacent scalars, printed with any white space and comments between tokens and possibly ending in an unterminated line comment, tokenises to itself |
| JsoncTokens.StrippedDocument | src/jsonc.ts:51-102 | for every such printed document the stripped text tokenises to the document minus exactly the commas before a closer |
| Paths.NormalizeSegments | src/workspace-path.ts:86-100 | the loop with pushes and pops spells the segments the path resolves to, which `FirstSegment` and `NextSegment` determine |
| Paths.NormalizeIdempotent | src/workspace-path.ts:86-100 | normalizing is idempotent and changes neither the resolved segments nor absoluteness |
| Paths.FirstSegment | src/workspace-path.ts:86-100 | what one segment resolves to, with and without a leading slash |
| Paths.NextSegment | src/workspace-path.ts:89-96 | a further segment stays, goes down, or goes back up; at the root it stays, and a relative path that has nothing to leave keeps its `..` |
| Paths.DownAndUp | src/workspace-path.ts:103-107 | going down by a name and back up is the same path |
| Paths.ResolveContinues | src/workspace-path.ts:86-100 | resolving is compositional: a path continued with `/` continues the walk from where it was |
| Paths.UnderIsSegmentPrefix | src/workspace-path.ts:67-78 | for all spellings, relative ones included, the text-prefix test is the prefix order on resolved segments |
| Paths.UnderIsAPreorder | src/workspace-path.ts:67-107 | containment is reflexive and transitive, and mutual containment is `isSamePath` |
| Paths.ParentIsOutside | src/workspace-path.ts:67-78 | a path contains its own parent exactly when there is nothing to leave: an absolute path only if it is the root |
| Paths.SamePathBySegments | src/workspace-path.ts:103-107 | two paths are the same exactly when they resolve to the same segments |
| Paths.LongerKeyIsDeeper | src/target-adoption.ts:49-53 | of two canonical keys containing one path, the longer text is the properly deeper directory |
| Paths.TranslationSwapsPrefix | src/path-mapper.ts:99-113 | `hostToContainer` answers exactly for paths under the host path, and swaps the host segments for the container segments |
| Paths.TranslationIsAnEmbedding | src/path-mapper.ts:99-113 | translation preserves and reflects containment and path identity, and stays under the container path |
| Guards.FindContainerPath | src/path-mapper.ts:124-135 | returns the first token of the argv that lies under the container path, and none when none does |
| Guards.DetectHostPathOnContainerSurface | src/routing-guard.ts:47-81 | returns the first token the reverse guard refuses, and none when it refuses none |
| Guards.ForwardBySegments | src/path-mapper.ts:124-135 | the forward verdict in terms of resolved segments, for every token |
| Guards.ReverseBySegments | src/routing-guard.ts:47-81 | the reverse verdict in terms of resolved segments for all spellings, with its ancestor exception, visible mounts and bare slashes |
| Guards.VerdictsDependOnSegmentsOnly | src/routing-guard.ts:47-81 | two spellings of one path, neither or both of bare slashes, get the same verdict from both guards, whatever the spellings of the endpoints |
| Guards.OnlySlashesAreNeverRefused | src/routing-guard.ts:35-43 | bare slashes trim to the empty text: such a token is never refused, and under such a host path nothing is |
| Guards.RootSpellingsDiffer | src/routing-guard.ts:35-43 | so with host path `/` the tokens `/` and `//` get different verdicts |
| Guards.AncestorOnCanonicalEndpoints | src/routing-guard.ts:69 | on canonical endpoints the raw length comparison is the proper prefix order |
| Guards.AncestorExactly | src/routing-guard.ts:69 | on any endpoints: the container path contains the host path, is not bare slashes, and its trimmed spelling is shorter |
| Guards.LongSpellingDisarmsTheGuard | src/routing-guard.ts:69-78 | a container path that contains the host path in a spelling that is no shorter disables the guard |
| Guards.SlashesContainerExcusesNothing | src/routing-guard.ts:69-78 | a container path of bare slashes excuses nothing: every unmounted absolute path under the host path is refused |
| Guards.AncestorSpellingsDiffer | src/routing-guard.ts:69-78 | two spellings of one container path between which the verdict differs |
| Guards.GuardDuality | src/routing-guard.ts:47-81 | a refused token has an image that the reverse guard accepts and the forward guard refuses, unless the container path contains the host path |
| Guards.ImageVerdict | src/routing-guard.ts:47-81 | in general the image is refused again exactly when it still lies under the host path, unexcused and not bare slashes |
| Text.SpacesExactly | src/commands.ts:1070-1079 | the white space the grammar splits at is what sections 12.2 and 12.3 of ECMA-262 list |
| HostExec.FindNextArgvWord | src/commands.ts:1070-1079 | finds the next flag that starts a word |
| HostExec.TakeArgument | src/commands.ts:1021-1062 | one turn of the loop, branch by branch, as `GluedExactly` and `SpacedExactly` tell them; what is left is strictly shorter |
| HostExec.GluedExactly | src/commands.ts:1021-1062 | behind `--argv=` the value is the text up to the next flag word, trimmed at its end |
| HostExec.SpacedExactly | src/commands.ts:1021-1062 | behind a bare `--argv` it is trimmed on both sides, and wanting exactly when only white space comes before the next flag word |
| HostExec.ParseHostExecArgv | src/commands.ts:1009-1067 | the loop computes the grammar's result, or the first refusal |
| HostExec.ParsedIsExpressible | src/commands.ts:1009-1067 | every accepted argv is non-empty and each value has no trailing white space and no further flag word |
| HostExec.RoundTrip | src/commands.ts:1009-1067 | parsing undoes printing as `--argv=` words on exactly the non-empty lists of such values |
| HostExec.EitherFormParses | src/commands.ts:1009-1067 | whichever of the two forms is chosen for each argument, the parser reads the arguments back |
| HostExec.ParsePrintParse | src/commands.ts:1009-1067 | printing what was parsed, in whatever form it was typed, loses nothing |
| Discovery.ScanNamed | src/runtime/host-discovery.ts:225-231 | collects the named configurations of one `.devcontainer` directory |
| Discovery.ScanDotDirectory | src/runtime/host-discovery.ts:217-232 | collects the unnamed and the named configurations, or reports the unreadable directory |
| Discovery.VisitName | src/runtime/host-discovery.ts:207-253 | one directory entry: configuration file, `.devcontainer`, skipped, too deep, escaping, or descended into |
| Discovery.WalkDir | src/runtime/host-discovery.ts:191-254 | the recursive walk pushes exactly what the walk function lists, and terminates on every file system |
| Discovery.UniqueWorkspaceKeys | src/workspace-path.ts:118-129 | keeps the first occurrence of every key, in order |
| Discovery.DiscoverHostConfigs | src/runtime/host-discovery.ts:180-189 | scans the session directory and every allowed root once, under its real path |
| DiscoveryReach.WalkFindsExactlyTheReachable | src/runtime/host-discovery.ts:191-254 | a configuration is found if and only if its directory is reached through at most `maxDepth` readable, non-hidden, non-excluded, in-root subdirectories |
| DiscoveryNotes.WalkReportsExactly | src/runtime/host-discovery.ts:200-253 | a note is reported if and only if a reached directory gives cause: unreadable, an entry that cannot be looked at, too deep, or leaving the root |
| DiscoveryReach.WalkFindsOnce | src/runtime/host-discovery.ts:191-254 | no configuration is found twice in a walk, although directories may be reached through cycles |
| DiscoveryReach.SilentWalkIsComplete | src/runtime/host-discovery.ts:238-253 | a walk without diagnostics missed nothing behind an open directory, at any depth |
| DiscoveryReach.WalkForgetsListingOrder | src/runtime/host-discovery.ts:265-277 | the order in which the operating system lists entries does not matter |
| DiscoveryReach.OwnerIsRecovered | src/runtime/host-discovery.ts:135-157 | path arithmetic recovers the owning directory and the kind, exactly outside `.devcontainer` itself |
| DiscoveryReach.ProjectsNameTheirOwner | src/runtime/host-discovery.ts:256-263 | every project carries the real path of the directory that was reached |
| DiscoveryReach.ProbeAgreesWithWalk | src/runtime/host-discovery.ts:117-132 | in a readable workspace the cheap probe agrees with a walk of depth 0; in an unreadable one the walk finds nothing |
| DiscoveryReach.ProbeSeesMoreThanTheWalk | src/runtime/host-discovery.ts:117-132 | the failing file system: a directory that cannot be listed and holds a configuration |
| DiscoveryReach.EveryRootIsScanned | src/runtime/host-discovery.ts:164-189 | no root is scanned twice, and what is discovered overall is what is reachable from some requested root |
| DiscoveryReach.RootsInOrder | src/runtime/host-discovery.ts:180-189 | roots are scanned one after the other: what several find is what each finds, in the order given |
| Sorting.SortForgetsOrder | src/runtime/host-discovery.ts:265-277 | under a total order a sorted listing does not depend on the order it came in |
| Registry.AddProject | src/runtime/host-discovery.ts:309-335 | a new workspace is appended, a known one gets its configurations re-sorted |
| Registry.MergeConfigs | src/runtime/host-discovery.ts:308-335 | the map and its insertion order hold each workspace's configurations |
| Registry.GroupContainers | src/runtime/host-discovery.ts:337-349 | containers are grouped by the real path of their label; unlabelled ones are reported |
| Registry.HostEntries | src/runtime/host-discovery.ts:351-379 | one entry per host workspace, with running containers first |
| Registry.DockerOnlyEntries | src/runtime/host-discovery.ts:381-403 | one entry per workspace known through containers only, if any has an id |
| Registry.BuildWorkspaceRegistry | src/runtime/host-discovery.ts:303-407 | the loops build the sorted registry function and report the unlabelled containers |
| Registry.BuildMembers | src/runtime/host-discovery.ts:303-407 | an entry is in the registry if and only if it is the one entry its workspace's evidence determines |
| Registry.BuildLookup | src/runtime/host-discovery.ts:303-407 | looking a workspace up gives that entry, or nothing without evidence |
| Registry.WorkspacesExactly | src/runtime/host-discovery.ts:303-407 | a workspace has an entry exactly when a configuration was discovered or a container with an id is labelled for it, and the entry says which |
| Registry.EntriesInOrder | src/runtime/host-discovery.ts:405 | entries come in the order of their workspaces' paths |
| Registry.PermutedListing | src/runtime/host-discovery.ts:337-404 | permuting the container listing changes no entry except the order of its containers |
| Registry.BuiltIsWellBuilt | src/runtime/host-discovery.ts:358-378 | running containers come first, and an entry is ambiguous exactly when more than one runs |
| Registry.ConfigsAreComplete | src/runtime/host-discovery.ts:410-416 | each discovered configuration of a workspace is kept exactly as often as discovered, most preferred first |
| Registry.ConfigsInLookupOrder | src/runtime/host-discovery.ts:410-416 | of two configurations the one in front is of an earlier form in the lookup order, or of the same form and of an earlier path |
| Registry.CandidatesAreListed | src/runtime/host-discovery.ts:358-372 | the candidates of a workspace are exactly its labelled containers with an id, each in the state the listing's text names |
| Registry.CandidatesInOrder | src/runtime/host-discovery.ts:357-370 | the candidates are the containers listed as running and then the others, both in listing order |
| Registry.UnlabelledAreReported | src/runtime/host-discovery.ts:337-344 | reported are the ids of exactly the containers without a label |
| Registry.PreferredComesFirst | src/runtime/host-discovery.ts:71-76 | the primary configuration is of the first kind discovered in lookup order |
| SelectionLaws.BuiltIsCoherent | src/runtime/host-discovery.ts:303-407 | each workspace of a built registry has one entry |
| SelectionLaws.AdoptionFindsDeepest | src/target-adoption.ts:41-53 | the text-length fold selects the unique deepest project that contains the request |
| SelectionLaws.RunningIsPrimary | src/registry-entry.ts:18-40 | without ambiguity the only container that can be running is the first |
| Adoption.AdoptionExactly | src/target-adoption.ts:34-55 | with nothing selected, something is adopted exactly when a project contains the request: the deepest one, with its only running container and the configuration that has to be named, or as ambiguous, or as stopped |
| Adoption.ParkedIsReplacedExactly | src/target-adoption.ts:36-39 | with something selected, an automatic choice is made exactly when it is parked, the request lies in its workspace and one container runs there, and binds that container with the configuration selected before |
| SelectionLaws.AdoptionForgetsOrder | src/target-adoption.ts:34-55 | for any permutation of the listing an adoption has the same status and the same binding or kind of refusal |
| SelectionLaws.RepairForgetsOrder | src/target-repair.ts:44-69 | a repair comes out identical for any permutation of the listing |
| SelectionLaws.ReconcileForgetsOrder | src/commands.ts:300-336 | so does a re-resolved selection, up to which stopped container it names |
| SelectionRuns.SelectionForRests | src/commands.ts:231-278 | a derived selection names a container of its entry in that container's own state, and a discovered configuration if any |
| SelectionRuns.UseIsWhatWasAsked | src/commands.ts:534-645 | `use` selects exactly the workspace and container asked for, and nothing if the choice is unknown or cancelled; the configuration asked for travels with the container, so it is dropped where there is none |
| SelectionRuns.ContainsExactly | src/commands.ts:602-604 | a workspace answers to any part of its path |
| SelectionRuns.UseCarriesExactly | src/commands.ts:262-273 | a selection made with `--config` carries that configuration exactly when the workspace has a container |
| SelectionRuns.UseIsGrounded | src/commands.ts:534-645 | what `use` selects as valid is running, present and discovered, and the only running container unless the operator named or picked its id |
| SelectionRuns.ReconcileIsGrounded | src/commands.ts:289-348 | what a re-resolution selects as valid is the only running container of its workspace |
| SelectionRuns.AdoptIsGrounded | src/target-adoption.ts:34-55 | the same for an adoption |
| SelectionRuns.RepairIsGrounded | src/target-repair.ts:44-69 | the same for a repair |
| SelectionRuns.RunHasGround | src/target-store.ts:136-157 | in every run of use, re-resolve, adopt, repair and opt-out, with arbitrarily stale reads and any calls still queued, the selection is empty or grounded in a registry some step read |
| SelectionRuns.BindIsSafe | src/target-store.ts:136-157 | in every reachable state `bind` binds exactly the valid selections, never reaches its internal error, and binds a running container: the only running one, or one whose id the operator named or picked; what it refuses it refuses as what it is |
| SelectionRuns.StoreBindsSafely | src/target-store.ts:136-157 | the same of the store object, whatever it has committed of the calls a run made |
| Grounding.EveryInvocationIsGrounded | src/execution-service.ts:261-747 | over every interleaving of service calls with the commits of any run: an execution reached a container that was running, and alone or named by the operator, in a registry the session read, with a configuration discovered there; logs, stop and remove reached a container of such a registry |
| SelectionRuns.RunningWasListed | src/runtime/host-discovery.ts:337-404 | a running container of an entry was listed as `running` and labelled for that workspace |
| SelectionRuns.ConfigWasDiscovered | src/commands.ts:246-251 | a configuration that travels with a binding was discovered for that workspace |
| SelectionRuns.RepairBindsTheOnlyRunning | src/target-repair.ts:44-69 | exactly when a parked selection is repaired; every repair binds, to the only running container |
| SelectionRuns.ReconcileSettles | src/commands.ts:316-336 | re-resolving a selection again on an unchanged registry changes nothing, except exactly when a vanished configuration was asked for where one has to be named; then a second time settles it |
| SelectionRuns.UseThenReload | src/commands.ts:180-204 | use then reload on an unchanged registry gives the same selection if and only if the workspace is not ambiguous |
| SelectionRuns.NamedChoiceIsLost | src/commands.ts:316-320 | the failing run: one of two running containers is named and selected, and a reload finds the workspace ambiguous |
| UpConfig.PathResolvesToItself | src/commands.ts:447-459 | a configuration looked up by its own path is found, and names never shadow paths |
| UpConfig.ResolvesToFirst | src/commands.ts:447-459 | a requested configuration is the first that answers by path, by its directory's name, or as `default`; unknown exactly when none does |
| UpConfig.HandsOver | src/commands.ts:425-444 | without a selector `up` is given the configuration selected for this very workspace while it is discovered, else the preferred one that has to be named |
| UpConfig.UpUsesTheSelectedConfig | src/commands.ts:425-444 | `up` hands over the configuration the selection carries exactly when discovery prefers none that has to be named, or a container is selected and what was asked for is discovered |
| UpConfig.UpNamesAnotherConfig | src/commands.ts:320-336 | the failing input: a remembered configuration is gone, the restored selection carries none, `up` is given the named one, and re-resolving again selects it |
| UpConfig.ConfigIsCarriedExactly | src/commands.ts:655-711 | after `use --config X` and any starts, listings, adoptions and repairs, `up` is given X and a command binds X exactly when the workspace had a container then and every start found one to select, or X is preferred and has to be named |
| UpConfig.UseBeforeUpDropsTheConfig | src/commands.ts:262-273 | the failing input: a named configuration is asked for before the first `up`; neither `up` nor a later command is given it |
| UpConfig.UpCarriesItsConfigExactly | src/commands.ts:703-711 | after `up --config X` the selection carries X exactly when one container can be selected and X was already the selected configuration, or none was and X is preferred and has to be named; and exactly when the next `up` is given X |
| UpConfig.UpConfigIsForgotten | src/commands.ts:703-711 | the failing input: `up` is given a named configuration, and the next `up` and every command are not |
| TargetStore.Store.Select | src/target-store.ts:90-94 | enqueues; the selection changes at commit only |
| TargetStore.Store.SelectIfNone | src/target-store.ts:103-109 | enqueues the check together with the write |
| TargetStore.Store.ClearAll | src/target-store.ts:111-115 | enqueues the reset |
| TargetStore.Store.StartRefresh | src/target-store.ts:117-123 | enqueues the refresh mark |
| TargetStore.Store.FinishRefresh | src/target-store.ts:125-129 | enqueues the refreshed selection |
| TargetStore.Store.Commit | src/target-store.ts:167-172 | runs the oldest work; keeps the invariant that the selection is the fold of the committed calls in call order |
| TargetStore.Store.Snapshot | src/target-store.ts:72-80 | reads that fold |
| TargetStore.Store.BindNow | src/target-store.ts:136-157 | binds that fold |
| TargetStore.AdoptionsNeverReplace | src/target-store.ts:103-109 | no number of queued adoptions replaces a selection |
| TargetStore.ExplicitChoiceStands | src/target-store.ts:90-109 | an explicit choice beats adoptions called before and after it |
| TargetStore.FirstAdoptionWins | src/target-store.ts:103-115 | of adoptions racing for an emptied store the first called wins |
| TargetStore.EmptyExactly | src/target-store.ts:90-115 | in every history of calls the store is empty exactly when some position, the start or right behind a clear, is followed by nothing that selects |
| TargetStore.AdoptionTakesEffectExactly | src/target-store.ts:103-115 | an adoption takes effect exactly when nothing selected anything between the last clear and its call, and then it stands against every later adoption |
| TargetStore.SelectionHasOrigin | src/target-store.ts:65-172 | the selection is empty or the target of one of the calls, apart from the refresh mark |
| TargetStore.RefreshHolds | src/target-store.ts:117-129 | from the beginning of a refresh on, whatever adoptions are called, nothing binds and what was selected is kept; its end installs what it brings |
| Commands.CommandServices.ApplySelection | src/commands.ts:180-204 | commits the target behind everything enqueued before, records it, and reports it only if valid or stopped |
| Commands.CommandServices.UseTarget | src/commands.ts:534-645 | a request that selects nothing leaves store and log alone |
| Commands.CommandServices.ReconcileSelection | src/commands.ts:289-348 | commits the re-resolved selection for the hint and the store as read; a missing workspace is not recorded |
| Commands.CommandServices.Off | src/commands.ts:523-532 | clears the store, and the log's last readable record is the opt-out |
| Commands.CommandServices.AutoSelect | extensions/dsh/runtime.ts:159-175 | an adoption gives way to whatever was enqueued since the store was read; a repair does not |
| Session.RecoverSelectionIntent | src/selection-state.ts:144-154 | the loop returns the last readable record, and none exactly when there is none |
| Session.AppendedIsRecovered | src/selection-state.ts:64-113 | an appended record is recovered as written exactly when it names a workspace and no empty configuration |
| Session.NoiseIsIgnored | src/selection-state.ts:144-154 | foreign, unreadable and unknown-version entries change nothing |
| Session.IntentExactly | src/selection-state.ts:64-142 | which log entries mean an opt-out, which mean what selection, and that all others mean nothing |
| Session.LifecycleGuard.Begin | src/lifecycle.ts:36-51 | opens a new generation, which is then the current one |
| Session.LifecycleGuard.Invalidate | src/lifecycle.ts:36-51 | supersedes every generation opened so far |
| Session.Extension.SessionStart | extensions/index.ts:527-602 | the first segment of a start is its transition |
| Session.Extension.AfterProbe | extensions/index.ts:601-615 | a superseded start stops; a current one decides and registers |
| Session.Extension.SessionShutdown | extensions/index.ts:646-650 | invalidates and drops the runtime |
| Session.Extension.Engage | extensions/index.ts:811-824 | engages once, and invalidates starts in flight |
| Session.Extension.TurnOff | extensions/index.ts:755-760 | invalidates starts in flight and deactivates |
| Session.SupersededRegistersNothing | src/lifecycle.ts:36-51 | a start superseded by a newer start, an effective engage, an opt-out or a shutdown registers nothing in any continuation |
| Session.EveryActiveIsRegistered | extensions/index.ts:601-824 | in every run, a runtime that takes automatic targets has registered its surfaces, by its start or by a command |
| Session.OffHolds | extensions/index.ts:755-760 | after an opt-out the runtime's decision stays inactive in every continuation until a command engages it, so no automatic selection gets its permission |
| OptOut.OffEmptiesExactly | extensions/index.ts:244-277 | after `off` the store is empty exactly when no adoption, repair or restore enqueued a choice after the clear; once the permission is withdrawn, only one already in flight can |
| OptOut.StaysEmptyExactly | extensions/index.ts:244-277 | read off when `off` is done: the store stays empty in every continuation the operator does not steer exactly when nothing arrived meanwhile and no adoption, repair or restore is in flight |
| OptOut.LateAdoptionSelects | extensions/index.ts:248-277 | the failing run: an adoption reads its permission, `off` runs, and the adoption selects its target |
| OptOut.LateRestoreSelects | extensions/index.ts:625-640 | the failing run for the restore of a session start |
| Session.OptOutSurvivesReload | src/activation.ts:83-91 | a start whose last readable record is an opt-out is over at once, and active only under `always` |
| Session.OptedOutNeverRegisters | extensions/index.ts:587-615 | such a start never registers a surface, in any continuation |
| Session.FreshStartRegisters | src/activation.ts:83-91 | an undisturbed start registers exactly with evidence, and once; it restores exactly a remembered selection, and the reason it gives is the first that applies |
| Reload.HintRoundTrip | src/selection-state.ts:64-113 | a hint written to the log is read back as the same hint |
| Reload.UseSurvivesReload | src/commands.ts:180-204 | through the log and back: `use` survives a reload exactly when its workspace is not ambiguous |
| Reload.OffSurvivesReload | src/commands.ts:523-532 | and `off` survives it whatever was selected before |
| Service.ExecutionService.ClaimSlot | src/execution-service.ts:239-259 | claims a free slot and refuses a taken one |
| Service.ExecutionService.WriteRecord | src/execution-service.ts:862-900 | appends one audit record |
| Service.ExecutionService.BeginCall | src/execution-service.ts:261-283 | the first segment of every kind of call is its transition |
| Service.ExecutionService.AutoSelectReturned | src/execution-service.ts:281-297 | binds after the hook, or records its failure |
| Service.ExecutionService.BindThenGo | src/execution-service.ts:285-318 | binds the current selection once, or records the refusal |
| Service.ExecutionService.MappingReturned | src/execution-service.ts:309-342 | a failed read and a host path are recorded and refused |
| Service.ExecutionService.GuardAndLaunch | src/execution-service.ts:343-388 | the adapter gets the bound context, unless the request comes from another project |
| Service.ExecutionService.AdapterReturned | src/execution-service.ts:389-436 | records the outcome, or presents it first |
| Service.ExecutionService.PresentationReturned | src/execution-service.ts:411-436 | records the presented outcome; a failing presentation leaves no record |
| Service.ExecutionService.Release | src/execution-service.ts:256-258 | frees the slot if it still holds the same operation |
| Service.ExecutionService.Drive | src/execution-service.ts:261-747 | whatever order the scheduler picks, the service ends in the state the run of those events reaches, of which `ServiceLaws` speaks |
| ServiceCases.SlottedExactly | src/execution-service.ts:438-633 | `up`, `build` and `rebuild` are sent exactly when the workspace is free, policy allows and a rebuild is confirmed; what is claimed and recorded otherwise |
| ServiceCases.OnContainerExactly | src/execution-service.ts:634-747 | `logs`, `stop` and `remove` are sent exactly when policy allows and the container named is the selected one; else recorded as refused |
| ServiceCases.WaitsExactly | src/execution-service.ts:281-288 | a denied command is recorded as denied; an allowed one waits for the automatic selection exactly when the store is empty, stopped or missing, with nothing recorded, sent or bound yet, and else binds at once |
| ServiceCases.DecidesExactly | src/execution-service.ts:285-394 | when the selection decides: refused and recorded, waiting for the mapping, refused as another project's, or sent as bound |
| ServiceCases.MappingExactly | src/execution-service.ts:309-394 | a failed read and a host path are recorded, the latter as a denial; otherwise the bound command is sent unless it is another project's |
| ServiceCases.SettledExactly | src/execution-service.ts:389-436 | what is recorded when the adapter answers, with which container, and what still waits for presentation |
| ServiceCases.PresentedExactly | src/execution-service.ts:411-436 | a presented command is recorded with the container it bound; a failed presentation lets nothing out |
| ServiceCases.ReleasedExactly | src/execution-service.ts:256-258 | in every run a release frees exactly the slot its call holds |
| ServiceCases.AdoptedMeanwhileIsBound | src/execution-service.ts:281-297 | in every interleaving, a command begun with nothing to bind binds the selection that commits before its hook returns |
| ServiceLaws.EffectIsSound | src/execution-service.ts:261-747 | every segment, whatever it finds, accounts for its records, calls, slot and context |
| ServiceLaws.EveryRunHolds | src/execution-service.ts:227-747 | the slot and trail invariants hold in every state every interleaving reaches |
| ServiceLaws.OneOperationPerWorkspace | src/execution-service.ts:239-259 | never two lifecycle operations under way for one workspace; the slot map is exactly those under way |
| ServiceLaws.ReleaseSlots | src/execution-service.ts:256-258 | the release compares operations only, yet in every reachable state removes exactly its own slot |
| ServiceLaws.EverySlotIsFreed | src/execution-service.ts:438-633 | once every call has ended, whichever way, every slot is free |
| ServiceLaws.OneRecordPerCall | src/execution-service.ts:261-747 | told by what happened in the run: a finished call left no record if it was refused at the slot or its presentation failed, else exactly one; it reached an adapter once if some segment of it sent, else never |
| ServiceLaws.UnpresentedLeavesNoRecord | src/execution-service.ts:411-416 | the failing run: a command reaches the container, its presentation fails, and the audit stays empty |
| ServiceLaws.UnauthorizedNeverRan | src/execution-service.ts:839-900 | a call with a record marked unauthorized reached no adapter and never will |
| ServiceLaws.BoundIsWhatRuns | src/execution-service.ts:278-394 | the adapter gets exactly the workspace, container and configuration bound, whatever the store commits later |
| ServiceLaws.BoundIsTheSelection | src/execution-service.ts:765-782 | a context is bound from the selection of that moment; logs, stop and remove act on the selected container only |
| ServiceLaws.SendsOnlyWhenCleared | src/execution-service.ts:261-747 | nothing is sent past a failed authorization, confirmation, host-path guard or workspace check |
| PsListing.PushContainer | src/runtime/docker-adapter.ts:231-269 | decodes one group of seven lines, or reports it |
| PsListing.ParsePsAll | src/runtime/docker-adapter.ts:185-228 | the line loop computes the parse function, which `PsGrammar.ListingExactly` determines on every text |
| PsGrammar.DecodeExactly | src/runtime/docker-adapter.ts:247-255 | a line that opens with a quotation mark has a value exactly when a literal of the RFC 8259 grammar and white space are all of it, and then the value its pieces spell |
| PsGrammar.ListingExactly | src/runtime/docker-adapter.ts:205-269 | a group of lines that a blank line ends adds the container of its seven values or is reported by its first line; the last group of a truncated listing is not reported; blank lines between groups are skipped |
| PsListing.CutLiteralNeverDecodes | src/runtime/docker-adapter.ts:247-255 | a proper prefix of a JSON string literal, even torn inside a character, never decodes |
| PsListing.CutListingIsParsed | src/runtime/docker-adapter.ts:185-269 | for every cut of a well-formed listing the containers are exactly those whose seven lines lie before the cut |
| PsListing.WholeListing | src/runtime/docker-adapter.ts:185-269 | an uncut listing gives every container, in order, and no diagnostic |
| Capture.Stream.OnData | src/runtime/process-runner.ts:177-209 | after any chunks the capture is the prefix of min(total, cap) bytes, flagged exactly when bytes were lost or an empty chunk met a full cap |
| Capture.ProcessRun.OnError | src/runtime/process-runner.ts:166-175 | settles only if nothing did before |
| Capture.ProcessRun.OnAbort | src/runtime/process-runner.ts:211-216 | kills and settles only if nothing did before |
| Capture.ProcessRun.OnTimer | src/runtime/process-runner.ts:227-233 | kills and settles only if nothing did before |
| Capture.ProcessRun.OnClose | src/runtime/process-runner.ts:235-249 | the result holds both capped captures, marked truncated exactly when one lost bytes |
| Capture.LifecycleLogRun.OnOutput | src/lifecycle-log.ts:249-263 | over both streams together the file holds the prefix of min(total, cap) bytes, and a prefix of it after a failed write |
| Capture.LifecycleLogRun.WriteOutput | src/lifecycle-log.ts:287-300 | one chunk against the remaining budget, capping exactly when bytes are dropped |
| Capture.LifecycleLogRun.Finish | src/lifecycle-log.ts:269-285 | the outcome is reported once, marked truncated if the cap was hit, and adds no output |
| Capture.ResolveTimeoutMs | src/bash-router.ts:103-106 | one millisecond for requests of less than half of one, and within half a millisecond of any other request |
| Capture.TimedCommand.OnTimer | src/bash-router.ts:117-154 | the deadline aborts the command and ends the wait |
| Capture.TimedCommand.OnCallerAbort | src/bash-router.ts:117-154 | the caller's abort reaches the command while linked and never ends the wait itself |
| Capture.TimedCommand.OnReturn | src/bash-router.ts:117-154 | the first ending wins; no timer or listener is left behind |
| ToolOutput.FormatToolOutput | src/tool-output.ts:65-124 | the whole output within both budgets; else the longest suffix of lines that fits the charged budget, starting at line 2 or later; else the head |
| ToolOutput.OneView | src/tool-output.ts:65-124 | that description leaves one view for each output and pair of budgets |
| ToolOutput.FewestBytes | src/tool-output.ts:93-96 | a character counts with the fewest bytes that have room for it in UTF-8 (section 3 of RFC 3629) |
| ToolOutput.LosesALineExactly | src/tool-output.ts:91-97 | more lines would have been within the announced budgets exactly when the output is over a budget and some suffix of lines uses the byte budget up |
| ToolOutput.LosesALine | src/tool-output.ts:91-97 | a concrete output and budget at which a line is lost |
| ToolOutput.HeadExactly | src/tool-output.ts:98-109 | the head is shown exactly when an output over a budget has a last line that does not fit; with a line break in it, exactly when that line has `maxBytes` bytes or more or no line is allowed |
| ToolOutput.HeadOfTwoLines | src/tool-output.ts:98-109 | a two-line output of which the head is shown although its last line is within the budgets |
| ShortCache.Cache.Get | src/short-cache.ts:26-47 | the latest load of the key younger than the time to live, or a new one; the key is the most recent entry and the oldest are evicted |
| ShortCache.Cache.Start | src/short-cache.ts:35-46 | a new load replaces the key's entry; never more than `limit` entries, the new one always among them |
| ShortCache.Cache.LoadFailed | src/short-cache.ts:38-41 | a failed load removes its own entry and no other, even after later loads or a clear |
| ShortCache.Cache.Clear | src/short-cache.ts:49 | drops every entry |
| Policy.ProjectOnlyNarrows | src/config.ts:186-290 | no grant or ceiling of the merged configuration exceeds the global one |
| Policy.EveryCeilingHolds | src/config.ts:203-245 | each ceiling is at most every value a layer states, equals one of them, and is the shipped default, with the defaults 900, 51200, 3 and 90, when none is stated |
| Policy.CaptureIsLowered | src/config.ts:229-253 | either layer lowers what is captured of commands; fingerprints are the shipped default |
| Policy.AuthorizationIsMonotone | src/policy.ts:10-47 | what a narrower configuration authorizes, a wider one authorizes |
| Policy.ProjectNeverGrants | src/config.ts:186-290 | for every input, a project file never turns a denial into an authorization |
| Policy.HostNeedsAGrantingDefault | src/config.ts:277-286 | for host execution that holds exactly because the shipped default grants |
| Policy.AuthorizedExactly | src/policy.ts:10-47 | exactly what two layers authorize: both must agree on workspace, destruction and each variable; silence of both permits running on the host |
| Policy.DeniedFor | src/policy.ts:10-47 | which denial two layers give: the workspace before the operation, the operation before the environment |
| Policy.AllowedBySegments | src/policy.ts:55-58 | a workspace is allowed exactly when its real path resolves to a root's segments or below |
| Policy.BuildChildEnvironment | src/policy.ts:64-84 | delivers inherited values overridden by requested ones, or the first name that is not allowed |
| Policy.LastValueHolds | src/policy.ts:64-84 | each name has its last value, and an inherited one is there exactly if it is on the list and not reserved |
| Policy.DeliverAuthorized | src/policy.ts:64-84 | after an authorization the builder refuses nothing and delivers the requested map |

## Left out

- Text is a sequence of Unicode scalar values, not of UTF-16 code units; the default string order compares scalar values, and slices of tool output count them.
- Wording: messages, remedies, labels, status rendering and the detail strings of selections and records.
- `JSON.parse` beyond string literals, SHA-256, redaction patterns, and reading or writing real files, processes and Docker are parameters, results in events, or absent.
- Windows branches of the path functions, variable expansion in visible mount paths, and the parsing of `workspaceMount` and mount strings.
- Registry.BuildWorkspaceRegistry: container names, status texts and creation times are not carried into entries, and `discoveredFrom` is not recorded.
- Registry.GroupContainers: takes labels already parsed; splitting the label text is a function of the last field of a listing record.
- PsListing.ParsePsAll: diagnostics are the offending group's first line; a cut at a newline inside a record still reports one, as in the source.
- Commands.CommandServices.UseTarget: a picked row is given by its index; rendering labels and finding the row by its label are not modelled.
- Commands.CommandServices.ReconcileSelection: the two awaits around the registry read are one step here; the runs of `SelectionRuns` allow any stale read instead.
- Service.ExecutionService.BeginCall: the lifecycle transcript, durations, exit codes and the classification of failures are not part of a record.
- Service.ExecutionService.AdapterReturned: the confirmation inside the stop and remove adapter counts as a call that reached the adapter.
- Capture.LifecycleLogRun.OnOutput: a write either appends all of its text or nothing.
- Capture.ResolveTimeoutMs: seconds are real numbers, so rounding of floating-point products is not modelled.
- Policy.ProjectOnlyNarrows: the merge of excluded directories, audit enabling, activation and executable paths, which are not restrictions, and the rejection of invalid files.
- Policy.BuildChildEnvironment: the patterns for reserved and secret-looking names are one arbitrary predicate.
- The host-run ledger, diagnostics sink, capability probing, spawn-error mapping and CLI setup, which would only add easy members.
- OptOut.OffEmptiesExactly: commands that select while `off` runs or afterwards are excluded, being explicit choices; what a restore or repair selects is arbitrary.
- TargetStore.Store.StartRefresh: `beginRefresh` and `endRefresh` have no caller in the modelled code.
- UpConfig.ConfigIsCarriedExactly: the turns follow one another, as an operator's commands do; a reload or a second choice among them is the subject of `SelectionRuns.UseThenReload` and `SelectionRuns.UseIsWhatWasAsked`.
- Commands.CommandServices.AutoSelect: the shared shape of both entry points; the check in extensions/index.ts:258-259 that an empty session adopts for its own directory only is the caller's.
- The rest of the dsh entry point.
