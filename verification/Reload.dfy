/**
 * Selection intent across a reload: what `use` commits is written to the session log as text
 * (src/commands.ts, src/selection-state.ts), recovered by the next start and re-resolved (extensions/index.ts).
 */
module Reload {
  import opened Text
  import opened Discovery
  import opened Registry
  import opened Selection
  import opened SelectionLaws
  import opened SelectionRuns
  import opened Session
  import Paths

  function KeyOf(path: Option<Path>): Option<string> {
    if path.None? then None else Some(Key(path.value))
  }

  /** What is appended to the log for a committed selection. */
  function Recorded(hint: Hint): LogEntry {
    Encoded(Selected(Key(hint.workspaceKey), hint.candidateId, KeyOf(hint.configPath)))
  }

  /** The hint a start makes of a recovered selection; paths are read back as the segments they resolve to. */
  function HintOf(intent: Intent): Hint
    requires intent.Selected?
  {
    Hint(Paths.Resolve(intent.workspaceKey), intent.candidateId,
         if intent.configPath.None? then None else Some(Paths.Resolve(intent.configPath.value)))
  }

  ghost predicate Canonical(hint: Hint) {
    Paths.Resolved(hint.workspaceKey, true) && (hint.configPath.Some? ==> Paths.Resolved(hint.configPath.value, true))
  }

  /** Writing and recovering a hint gives it back, whatever unreadable or foreign entries follow it. */
  lemma HintRoundTrip(log: seq<LogEntry>, hint: Hint, noise: seq<LogEntry>)
    requires Canonical(hint) && forall e :: e in noise ==> IntentOf(e).None?
    ensures var r := Recovered(log + [Recorded(hint)] + noise);
      r.Some? && r.value.Selected? && HintOf(r.value) == hint
  {
    var intent := Selected(Key(hint.workspaceKey), hint.candidateId, KeyOf(hint.configPath));
    NoiseIsIgnored(log + [Recorded(hint)], noise);
    AppendedIsRecovered(log, intent);
    Paths.SpellResolves(hint.workspaceKey, true);
    if hint.configPath.Some? {
      Paths.SpellResolves(hint.configPath.value, true);
    }
  }

  ghost predicate CanonicalEntries(entries: seq<Entry>) {
    forall e :: e in entries ==>
      Paths.Resolved(e.workspacePath, true)
      && forall c :: c in ConfigsOfEntry(e) ==> Paths.Resolved(c.configPath, true)
  }

  lemma RestingIsCanonical(e: Entry, s: Selection)
    requires RestsOn(e, s) && CanonicalEntries([e])
    ensures Remembered(s).Some? && Canonical(Remembered(s).value)
  {
    assert e in [e];
    if s.candidate.Some? && s.candidate.value.configPath.Some? {
      assert Discovered(e, s.candidate.value.configPath.value);
    }
  }

  lemma RememberedIsCanonical(entries: seq<Entry>, request: Request)
    requires Coherent(entries) && CanonicalEntries(entries) && Use(entries, request).Some?
    ensures var hint := Remembered(Use(entries, request).value); hint.Some? && Canonical(hint.value)
  {
    var s := Use(entries, request).value;
    UseIsGrounded(entries, request);
    hide Use, Coherent, RestsOn, RunningOf, NamedBy;
    var e :| e in entries && Earned(e, UseAction(request), s);
    assert CanonicalEntries([e]);
    hide CanonicalEntries, Remembered, Canonical;
    RestingIsCanonical(e, s);
  }

  /** Through the log and back: `use` survives a reload exactly when its workspace is not ambiguous. */
  lemma UseSurvivesReload(entries: seq<Entry>, request: Request, log: seq<LogEntry>, noise: seq<LogEntry>)
    requires Coherent(entries) && CanonicalEntries(entries) && Use(entries, request).Some?
    requires forall e :: e in noise ==> IntentOf(e).None?
    ensures var s := Use(entries, request).value;
      && Remembered(s).Some? && Addressed(entries, request).Some?
      && var r := Recovered(log + [Recorded(Remembered(s).value)] + noise);
      && r.Some? && r.value.Selected?
      && (Reloaded(entries, HintOf(r.value)) == s <==> !Addressed(entries, request).value.ambiguous)
  {
    var s := Use(entries, request).value;
    RememberedIsCanonical(entries, request);
    UseThenReload(entries, request);
    HintRoundTrip(log, Remembered(s).value, noise);
    hide Use, Remembered, Reloaded, Recovered, HintOf, Recorded, Addressed;
  }

  /** And `off` survives it: whatever was selected before, the next start finds only the opt-out. */
  lemma OffSurvivesReload(log: seq<LogEntry>, noise: seq<LogEntry>)
    requires forall e :: e in noise ==> IntentOf(e).None?
    ensures Recovered(log + [Encoded(Cleared)] + noise) == Some(Cleared)
  {
    NoiseIsIgnored(log + [Encoded(Cleared)], noise);
    AppendedIsRecovered(log, Cleared);
  }
}
