/**
 * What a session remembers and when it takes over: persisted selection intent (src/selection-state.ts),
 * the activation decision (src/activation.ts), generations (src/lifecycle.ts), and the steps of a session
 * start and of the commands that change the session (extensions/index.ts).
 */
module Session {
  import opened Text

  // ---------- Persisted intent ----------

  /** The fields a reader looks at; a field of another type reads as absent. */
  datatype Payload =
    | Unreadable
    | Fields(
        version: nat, state: string, workspaceKey: Option<string>, candidateId: Option<string>,
        configPath: Option<string>)

  datatype LogEntry = LogEntry(kind: string, payload: Payload)

  datatype Intent = Selected(workspaceKey: string, candidateId: Option<string>, configPath: Option<string>) | Cleared

  const SELECTION_KIND := "devcontainer-manager:selection"
  const VERSION: nat := 2

  function NormalizeRecord(p: Payload): Option<Intent>
    requires p.Fields?
  {
    if p.workspaceKey.None? || p.workspaceKey.value == "" then None
    else
      var config := if p.configPath.Some? && p.configPath.value != "" then p.configPath else None;
      Some(Selected(p.workspaceKey.value, p.candidateId, config))
  }

  function NormalizeIntent(p: Payload): Option<Intent> {
    if p.Unreadable? then None
    else if p.version == 1 then NormalizeRecord(p)
    else if p.version != VERSION then None
    else if p.state == "cleared" then Some(Cleared)
    else if p.state != "selected" then None
    else NormalizeRecord(p)
  }

  function IntentOf(e: LogEntry): Option<Intent> {
    if e.kind != SELECTION_KIND then None else NormalizeIntent(e.payload)
  }

  /** The last readable record wins. */
  function Recovered(log: seq<LogEntry>): Option<Intent> {
    if log == [] then None
    else if IntentOf(log[|log| - 1]).Some? then IntentOf(log[|log| - 1])
    else Recovered(log[..|log| - 1])
  }

  predicate IsLastRecord(log: seq<LogEntry>, k: nat, intent: Intent) {
    k < |log| && IntentOf(log[k]) == Some(intent) && forall j :: k < j < |log| ==> IntentOf(log[j]).None?
  }

  method RecoverSelectionIntent(log: seq<LogEntry>) returns (latest: Option<Intent>)
    ensures latest.Some? ==> exists k: nat :: IsLastRecord(log, k, latest.value)
    ensures latest.None? ==> forall e :: e in log ==> IntentOf(e).None?
    ensures latest == Recovered(log)
  {
    latest := None;
    ghost var at: nat := 0;
    for i := 0 to |log|
      invariant latest == Recovered(log[..i])
      invariant latest.Some? ==> IsLastRecord(log[..i], at, latest.value)
      invariant latest.None? ==> forall j :: 0 <= j < i ==> IntentOf(log[j]).None?
    {
      assert log[..i + 1][..i] == log[..i];
      var entry := log[i];
      if entry.kind != SELECTION_KIND {
        continue;
      }
      var intent := NormalizeIntent(entry.payload);
      if intent.Some? {
        latest := intent;
        at := i;
      }
    }
    assert log[..|log|] == log;
  }

  /** What `use`, `up` and a reconcile append, and the tombstone `off` appends. */
  function Encoded(intent: Intent): LogEntry {
    match intent
    case Cleared => LogEntry(SELECTION_KIND, Fields(VERSION, "cleared", None, None, None))
    case Selected(key, id, config) => LogEntry(SELECTION_KIND, Fields(VERSION, "selected", Some(key), id, config))
  }

  /** A record comes back as written exactly when it names a workspace and its configuration, if any, is not empty. */
  lemma AppendedIsRecovered(log: seq<LogEntry>, intent: Intent)
    ensures Recovered(log + [Encoded(intent)]) == Some(intent) <==>
      (intent.Selected? ==> intent.workspaceKey != "" && intent.configPath != Some(""))
  {
    assert (log + [Encoded(intent)])[..|log|] == log;
    RecoveredIsReadable(log);
  }

  lemma {:induction false} RecoveredIsReadable(log: seq<LogEntry>)
    ensures var r := Recovered(log);
      r.Some? && r.value.Selected? ==> r.value.workspaceKey != "" && r.value.configPath != Some("")
  {
    if log != [] {
      RecoveredIsReadable(log[..|log| - 1]);
    }
  }

  /** A readable record of a selection: of version 1, or of version 2 and so marked; an empty configuration is none. */
  predicate RecordsSelection(p: Payload, key: string, id: Option<string>, config: Option<string>) {
    && p.Fields? && (p.version == 1 || (p.version == 2 && p.state == "selected"))
    && p.workspaceKey == Some(key) && key != "" && p.candidateId == id
    && config == (if p.configPath == Some("") then None else p.configPath)
  }

  /** Which entries of the log mean what; all others mean nothing. */
  lemma IntentExactly(e: LogEntry)
    ensures var ours, intent := e.kind == "devcontainer-manager:selection", IntentOf(e);
      && (intent == Some(Cleared) <==>
            ours && e.payload.Fields? && e.payload.version == 2 && e.payload.state == "cleared")
      && (forall key, id, config ::
            intent == Some(Selected(key, id, config)) <==> ours && RecordsSelection(e.payload, key, id, config))
  {
  }

  /** Entries of other kinds, unreadable ones and ones of unknown versions change nothing. */
  lemma {:induction false} NoiseIsIgnored(log: seq<LogEntry>, noise: seq<LogEntry>)
    requires forall e :: e in noise ==> IntentOf(e).None?
    ensures Recovered(log + noise) == Recovered(log)
  {
    if noise == [] {
      assert log + noise == log;
    } else {
      var n := |noise| - 1;
      assert noise[n] in noise;
      NoiseIsIgnored(log, noise[..n]);
      assert (log + noise)[..|log| + n] == log + noise[..n];
    }
  }

  // ---------- Activation ----------

  datatype Activation = Never | Auto | Always

  datatype Reason =
    | ConfigAlways | WorkspaceConfig | RunningContainer | ExplicitSelection
    | ConfigNever | OptedOut | NoEvidence

  datatype Decision = Decision(active: bool, reason: Reason)

  /** What a start knows about its workspace. */
  datatype Evidence = Evidence(activation: Activation, hasConfig: bool, hasRunning: bool, intent: Option<Intent>)

  function DecideActivation(e: Evidence): Decision {
    if e.activation == Never then Decision(false, ConfigNever)
    else if e.activation == Always then Decision(true, ConfigAlways)
    else if e.intent == Some(Cleared) then Decision(false, OptedOut)
    else if e.hasConfig then Decision(true, WorkspaceConfig)
    else if e.hasRunning then Decision(true, RunningContainer)
    else if e.intent.Some? then Decision(true, ExplicitSelection)
    else Decision(false, NoEvidence)
  }

  // ---------- Generations ----------

  /** The ownership rule of a session start: whoever is not current mutates nothing. */
  class LifecycleGuard {
    var generation: nat

    constructor ()
      ensures generation == 0
    {
      generation := 0;
    }

    method Begin() returns (mine: nat)
      modifies this
      ensures mine == generation == old(generation) + 1
    {
      generation := generation + 1;
      return generation;
    }

    method Invalidate()
      modifies this
      ensures generation == old(generation) + 1
    {
      generation := generation + 1;
    }

    predicate IsCurrent(candidate: nat)
      reads this
    {
      candidate == generation
    }
  }

  // ---------- The steps of a session ----------

  datatype Phase = Probing | Restoring | Over

  /** A start owns a runtime, named by its generation, with the runtime's own activation decision. */
  datatype Start = Start(evidence: Evidence, phase: Phase, decision: Decision)

  datatype Registration = ByStart(generation: nat) | ByCommand(generation: nat)

  datatype World = World(
    generation: nat, starts: map<nat, Start>, runtime: Option<nat>, log: seq<LogEntry>, registered: seq<Registration>)

  const FRESH := World(0, map[], None, [], [])

  /**
   * The segments between awaits. Commands name the runtime they captured when they began, which another
   * start may have replaced since; what the probe answers comes with the event.
   */
  datatype Event =
    | StartBegun(activation: Activation, hasConfig: bool)
    | ProbeReturned(generation: nat, running: bool)
    | RestoreReturned(generation: nat)
    | Shutdown
    | Appended(intent: Intent)
    | Engaged(generation: nat)
    | TurnedOff(generation: nat)

  /** From the decision to the end of the segment: register, then restore if there is something to restore. */
  function Settle(w: World, g: nat, evidence: Evidence, decision: Decision): World {
    var restores := decision.active && evidence.intent.Some? && evidence.intent.value.Selected?;
    w.(starts := w.starts[g := Start(evidence, if restores then Restoring else Over, decision)],
       registered := if decision.active then w.registered + [ByStart(g)] else w.registered)
  }

  function OnStart(w: World, activation: Activation, hasConfig: bool): World {
    var g := w.generation + 1;
    var evidence := Evidence(activation, hasConfig, false, Recovered(w.log));
    var decision := DecideActivation(evidence);
    var begun := w.(generation := g, runtime := Some(g));
    if !decision.active && decision.reason == NoEvidence
    then begun.(starts := w.starts[g := Start(evidence, Probing, decision)])
    else Settle(begun, g, evidence, decision)
  }

  function OnProbe(w: World, g: nat, running: bool): World
    requires g in w.starts
  {
    var s := w.starts[g];
    if g != w.generation then w.(starts := w.starts[g := s.(phase := Over)])
    else
      var evidence := s.evidence.(hasRunning := running);
      Settle(w, g, evidence, DecideActivation(evidence))
  }

  function OnEngage(w: World, g: nat): World
    requires g in w.starts
  {
    var s := w.starts[g];
    if s.evidence.activation == Never || s.decision.active then w
    else
      w.(generation := w.generation + 1,
         starts := w.starts[g := s.(decision := Decision(true, ExplicitSelection))],
         registered := w.registered + [ByCommand(g)])
  }

  function OnOff(w: World, g: nat): World
    requires g in w.starts
  {
    w.(generation := w.generation + 1, starts := w.starts[g := w.starts[g].(decision := Decision(false, OptedOut))])
  }

  function Step(w: World, e: Event): World {
    match e
    case StartBegun(activation, hasConfig) => OnStart(w, activation, hasConfig)
    case ProbeReturned(g, running) => if g in w.starts && w.starts[g].phase.Probing? then OnProbe(w, g, running) else w
    case RestoreReturned(g) =>
      if g in w.starts && w.starts[g].phase.Restoring? then
        w.(starts := w.starts[g := w.starts[g].(phase := Over)])
      else w
    case Shutdown => w.(generation := w.generation + 1, runtime := None)
    case Appended(intent) => w.(log := w.log + [Encoded(intent)])
    case Engaged(g) => if g in w.starts then OnEngage(w, g) else w
    case TurnedOff(g) => if g in w.starts then OnOff(w, g) else w
  }

  function Run(w: World, events: seq<Event>): World
    decreases |events|
  {
    if events == [] then w else Step(Run(w, events[..|events| - 1]), events[|events| - 1])
  }

  /** The extension's own variables, one method per segment. */
  class Extension {
    const guard: LifecycleGuard
    var starts: map<nat, Start>
    var runtime: Option<nat>
    var log: seq<LogEntry>
    var registered: seq<Registration>

    constructor ()
      ensures fresh(guard) && State() == FRESH
    {
      guard := new LifecycleGuard();
      starts, runtime, log, registered := map[], None, [], [];
    }

    function State(): World
      reads this, guard
    {
      World(guard.generation, starts, runtime, log, registered)
    }

    method SessionStart(activation: Activation, hasConfig: bool) returns (mine: nat)
      modifies this, guard
      ensures State() == Step(old(State()), StartBegun(activation, hasConfig)) && mine == guard.generation
    {
      mine := guard.Begin();
      var intent := RecoverSelectionIntent(log);
      var evidence := Evidence(activation, hasConfig, false, intent);
      runtime := Some(mine);
      var decision := DecideActivation(evidence);
      if !decision.active && decision.reason == NoEvidence {
        starts := starts[mine := Start(evidence, Probing, decision)];
        return;
      }
      Apply(mine, evidence, decision);
    }

    method Apply(mine: nat, evidence: Evidence, decision: Decision)
      modifies this
      ensures State() == Settle(old(State()), mine, evidence, decision)
    {
      var phase := Over;
      if decision.active {
        registered := registered + [ByStart(mine)];
        if evidence.intent.Some? && evidence.intent.value.Selected? {
          phase := Restoring;
        }
      }
      starts := starts[mine := Start(evidence, phase, decision)];
    }

    method AfterProbe(mine: nat, running: bool)
      requires mine in starts && starts[mine].phase.Probing?
      modifies this
      ensures State() == Step(old(State()), ProbeReturned(mine, running))
    {
      if !guard.IsCurrent(mine) {
        starts := starts[mine := starts[mine].(phase := Over)];
        return;
      }
      var evidence := starts[mine].evidence.(hasRunning := running);
      Apply(mine, evidence, DecideActivation(evidence));
    }

    method SessionShutdown()
      modifies this, guard
      ensures State() == Step(old(State()), Shutdown)
    {
      guard.Invalidate();
      runtime := None;
    }

    method Engage(captured: nat)
      requires captured in starts
      modifies this, guard
      ensures State() == Step(old(State()), Engaged(captured))
    {
      var s := starts[captured];
      if s.evidence.activation == Never || s.decision.active {
        return;
      }
      guard.Invalidate();
      starts := starts[captured := s.(decision := Decision(true, ExplicitSelection))];
      registered := registered + [ByCommand(captured)];
    }

    method TurnOff(captured: nat)
      requires captured in starts
      modifies this, guard
      ensures State() == Step(old(State()), TurnedOff(captured))
    {
      guard.Invalidate();
      starts := starts[captured := starts[captured].(decision := Decision(false, OptedOut))];
    }
  }

  // ---------- Superseded starts ----------

  /** Generations only grow, and a runtime belongs to a generation already opened. */
  ghost predicate Orderly(w: World) {
    forall g :: g in w.starts ==> g <= w.generation
  }

  function Count(registered: seq<Registration>, r: Registration): nat {
    if registered == [] then 0
    else Count(registered[..|registered| - 1], r) + if registered[|registered| - 1] == r then 1 else 0
  }

  lemma CountAppend(registered: seq<Registration>, last: Registration, r: Registration)
    ensures Count([], r) == 0
    ensures Count(registered + [last], r) == Count(registered, r) + if last == r then 1 else 0
  {
    assert (registered + [last])[..|registered|] == registered;
  }

  /** One step: a start registers only while it is the current generation. */
  lemma StepRegistersCurrentOnly(w: World, e: Event, g: nat)
    requires Orderly(w)
    ensures var next := Step(w, e);
      && Orderly(next) && next.generation >= w.generation
      && (g < w.generation ==> Count(next.registered, ByStart(g)) == Count(w.registered, ByStart(g)))
  {
    var next := Step(w, e);
    if next.registered != w.registered {
      var last := next.registered[|w.registered|];
      CountAppend(w.registered, last, ByStart(g));
    }
    hide Count, Recovered, DecideActivation;
  }

  lemma {:induction false} OldRegistersNothing(w: World, events: seq<Event>, g: nat)
    requires Orderly(w) && g < w.generation
    ensures var end := Run(w, events);
      && Orderly(end) && g < end.generation
      && Count(end.registered, ByStart(g)) == Count(w.registered, ByStart(g))
    decreases |events|
  {
    if events != [] {
      var before := events[..|events| - 1];
      OldRegistersNothing(w, before, g);
      StepRegistersCurrentOnly(Run(w, before), events[|events| - 1], g);
      hide Step, Orderly, Count;
    }
  }

  /** The steps that take the session surface away from every start begun so far. */
  predicate Supersedes(w: World, e: Event) {
    || e.StartBegun? || e.Shutdown? || (e.TurnedOff? && e.generation in w.starts)
    || (e.Engaged? && e.generation in w.starts
        && w.starts[e.generation].evidence.activation != Never && !w.starts[e.generation].decision.active)
  }

  /**
   * A start superseded by a newer start, an effective engage, an opt-out or a shutdown never registers anything
   * again, whatever happens afterwards.
   */
  lemma SupersededRegistersNothing(w: World, e: Event, events: seq<Event>, g: nat)
    requires Orderly(w) && g in w.starts && Supersedes(w, e)
    ensures Count(Run(Step(w, e), events).registered, ByStart(g)) == Count(w.registered, ByStart(g))
  {
    var next := Step(w, e);
    StepRegistersCurrentOnly(w, e, g);
    assert g < next.generation by {
      hide Recovered, DecideActivation;
    }
    OldRegistersNothing(next, events, g);
    if next.registered != w.registered {
      CountAppend(w.registered, next.registered[|w.registered|], ByStart(g));
    }
    hide Count, Recovered, DecideActivation;
  }

  // ---------- Who has registered ----------

  function Registrations(w: World, g: nat): nat {
    Count(w.registered, ByStart(g)) + Count(w.registered, ByCommand(g))
  }

  /** A command engages a runtime exactly when it is dormant and not forbidden; then, and only then, it registers. */
  lemma EngagesExactly(w: World, g: nat)
    requires g in w.starts
    ensures var next := Step(w, Engaged(g));
      var effective := w.starts[g].evidence.activation != Never && !w.starts[g].decision.active;
      && (next.registered == if effective then w.registered + [ByCommand(g)] else w.registered)
      && (next.starts[g].decision.active <==> w.starts[g].decision.active || effective)
      && (effective <==> next.generation != w.generation)
  {
  }

  /** Whoever is active has put its surfaces up. */
  ghost predicate ActiveIsRegistered(w: World) {
    forall g :: g in w.starts && w.starts[g].decision.active ==> Registrations(w, g) > 0
  }

  /** A segment registers at most once, and whoever it makes active is who it registers. */
  lemma StepRegisters(w: World, e: Event, g: nat)
    ensures var next := Step(w, e);
      && w.registered <= next.registered && |next.registered| <= |w.registered| + 1
      && (g in next.starts && next.starts[g].decision.active ==>
            || (g in w.starts && w.starts[g].decision.active)
            || next.registered == w.registered + [ByStart(g)]
            || next.registered == w.registered + [ByCommand(g)])
  {
    if e.Engaged? && e.generation in w.starts {
      EngagesExactly(w, e.generation);
    }
    hide Recovered, DecideActivation;
  }

  lemma StepKeepsRegistered(w: World, e: Event)
    requires ActiveIsRegistered(w)
    ensures ActiveIsRegistered(Step(w, e))
  {
    var next := Step(w, e);
    forall g | g in next.starts && next.starts[g].decision.active ensures Registrations(next, g) > 0 {
      StepRegisters(w, e, g);
      hide Step, Count;
      if next.registered != w.registered {
        var last := next.registered[|w.registered|];
        assert next.registered == w.registered + [last];
        CountAppend(w.registered, last, ByStart(g));
        CountAppend(w.registered, last, ByCommand(g));
      }
    }
  }

  /** In every run: a runtime that takes automatic targets has registered, by its start or by a command. */
  lemma {:induction false} EveryActiveIsRegistered(events: seq<Event>)
    ensures ActiveIsRegistered(Run(FRESH, events))
  {
    RunContinues(FRESH, [], Shutdown);
    if events != [] {
      var front, last := events[..|events| - 1], events[|events| - 1];
      EveryActiveIsRegistered(front);
      StepKeepsRegistered(Run(FRESH, front), last);
      RunContinues(FRESH, front, last);
      hide Run, Step, ActiveIsRegistered;
      assert events == front + [last];
    }
  }

  // ---------- Opting out ----------

  /** Turned off, with nothing of the start left that could decide otherwise. */
  predicate HeldOff(w: World, g: nat) {
    g in w.starts && !w.starts[g].decision.active && (w.starts[g].phase.Probing? ==> g < w.generation)
  }

  lemma StepKeepsOff(w: World, e: Event, g: nat)
    requires Orderly(w) && HeldOff(w, g) && e != Engaged(g)
    ensures HeldOff(Step(w, e), g)
  {
    hide Recovered, DecideActivation;
  }

  /**
   * After `off` the runtime's decision stays inactive until a command engages it, so no automatic selection gets
   * its permission. One that had it before can still select: `OptOut` says when.
   */
  lemma {:induction false} OffHolds(w: World, g: nat, events: seq<Event>)
    requires Orderly(w) && g in w.starts && Engaged(g) !in events
    ensures var end := Run(Step(w, TurnedOff(g)), events); HeldOff(end, g) && Orderly(end)
    decreases |events|
  {
    StepRegistersCurrentOnly(w, TurnedOff(g), g);
    if events != [] {
      var n := |events| - 1;
      assert events == events[..n] + [events[n]];
      OffHolds(w, g, events[..n]);
      StepRegistersCurrentOnly(Run(Step(w, TurnedOff(g)), events[..n]), events[n], g);
      StepKeepsOff(Run(Step(w, TurnedOff(g)), events[..n]), events[n], g);
      hide Step, Orderly, HeldOff;
    }
  }

  /** A start whose last readable record is an opt-out is over at once, and active only under `always`. */
  lemma OptOutSurvivesReload(w: World, activation: Activation, hasConfig: bool)
    requires Recovered(w.log) == Some(Cleared)
    ensures var next := Step(w, StartBegun(activation, hasConfig)); var g := next.generation;
      && next.starts[g].phase == Over
      && (next.starts[g].decision.active <==> activation == Always)
      && (next.registered == if activation == Always then w.registered + [ByStart(g)] else w.registered)
  {
  }

  /** From such a start on, that start never registers a surface, in any continuation. */
  lemma {:induction false} OptedOutNeverRegisters(w: World, activation: Activation, hasConfig: bool, events: seq<Event>)
    requires Orderly(w) && Recovered(w.log) == Some(Cleared) && activation != Always
    requires Count(w.registered, ByStart(w.generation + 1)) == 0
    ensures var end := Run(Step(w, StartBegun(activation, hasConfig)), events); var g := w.generation + 1;
      && Orderly(end) && g in end.starts && end.generation >= g && end.starts[g].phase == Over
      && Count(end.registered, ByStart(g)) == 0
    decreases |events|
  {
    var g := w.generation + 1;
    var first := Step(w, StartBegun(activation, hasConfig));
    StepRegistersCurrentOnly(w, StartBegun(activation, hasConfig), g);
    if events != [] {
      var before := events[..|events| - 1];
      OptedOutNeverRegisters(w, activation, hasConfig, before);
      OverStaysOver(Run(first, before), events[|events| - 1], g);
      hide Step, Orderly, Count;
    }
  }

  lemma OverStaysOver(w: World, e: Event, g: nat)
    requires Orderly(w) && g in w.starts && g <= w.generation && w.starts[g].phase == Over
    ensures var next := Step(w, e);
      && Orderly(next) && g in next.starts && g <= next.generation && next.starts[g].phase == Over
      && Count(next.registered, ByStart(g)) == Count(w.registered, ByStart(g))
  {
    var next := Step(w, e);
    if next.registered != w.registered {
      CountAppend(w.registered, next.registered[|w.registered|], ByStart(g));
    }
    hide Count, Recovered, DecideActivation;
  }

  /** One event after the others. */
  lemma RunContinues(w: World, events: seq<Event>, e: Event)
    ensures Run(w, []) == w && Run(w, events + [e]) == Step(Run(w, events), e)
  {
    assert (events + [e])[..|events|] == events;
    hide Step;
  }

  /** A restore that returns ends the start that was restoring, and changes nothing else. */
  lemma RestoreEnds(w: World, g: nat)
    ensures var next := Step(w, RestoreReturned(g));
      && next.generation == w.generation && next.registered == w.registered && next.starts.Keys == w.starts.Keys
      && (forall h :: h in w.starts ==>
            next.starts[h] == if h == g && w.starts[h].phase == Restoring then w.starts[h].(phase := Over)
                              else w.starts[h])
  {
  }

  /**
   * Exactly the starts with evidence register, and at most once each; of those, the ones that remember a selection
   * restore it. The reason given is the first that applies.
   */
  lemma FreshStartRegisters(w: World, activation: Activation, hasConfig: bool, running: bool)
    ensures var first := Step(w, StartBegun(activation, hasConfig)); var g := first.generation;
      var done := Step(first, ProbeReturned(g, running));
      var intent := Recovered(w.log);
      var evident := activation == Always
        || (activation == Auto && intent != Some(Cleared) && (hasConfig || running || intent.Some?));
      && done.starts[g].phase != Probing
      && (done.starts[g].decision.active <==> evident)
      && (evident <==> done.registered == w.registered + [ByStart(g)])
      && (!evident <==> done.registered == w.registered)
      && (done.starts[g].phase == Restoring <==> evident && intent.Some? && intent != Some(Cleared))
      && done.starts[g].decision.reason ==
           if activation == Never then ConfigNever
           else if activation == Always then ConfigAlways
           else if intent == Some(Cleared) then OptedOut
           else if hasConfig then WorkspaceConfig
           else if intent.Some? then ExplicitSelection
           else if running then RunningContainer
           else NoEvidence
  {
    hide Recovered;
  }
}
