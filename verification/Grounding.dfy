/**
 * The service over the store: whatever a session selects and however its commits interleave with the segments of
 * concurrent calls, every command that reaches a container can be traced to a registry the session read.
 */
module Grounding {
  import opened Discovery
  import opened Registry
  import opened Selection
  import opened SelectionRuns
  import opened Service
  import opened ServiceLaws
  import T = TargetStore

  /** What the store of this run shows when it has committed `done` of its calls. */
  function Shown(realpath: Path -> Path, run: seq<Deed>, done: nat): Selection
    requires done <= |OpsOf(realpath, run)|
  {
    T.Fold(OpsOf(realpath, run)[..done])
  }

  ghost predicate IsShown(realpath: Path -> Path, run: seq<Deed>, s: Selection) {
    exists done: nat :: done <= |OpsOf(realpath, run)| && Shown(realpath, run, done) == s
  }

  /** The commits the service sees are those of the run's store. */
  ghost predicate CommitsFrom(realpath: Path -> Path, run: seq<Deed>, events: seq<Event>) {
    forall e :: e in events && e.Committed? ==> IsShown(realpath, run, e.selection)
  }

  /** An execution binds a valid selection; logs, stop and remove name its container, running or stopped. */
  predicate Rests(s: Selection, kind: Operation, bound: Context) {
    if Executes(kind) then Bind(s) == Bound(bound) else BindContainer(s, bound.candidateId)
  }

  ghost predicate IsJustified(realpath: Path -> Path, run: seq<Deed>, call: Call) {
    call.bound.Some? ==>
      exists s :: IsShown(realpath, run, s) && Rests(s, call.request.kind, call.bound.value)
  }

  ghost predicate Justified(realpath: Path -> Path, run: seq<Deed>, w: World) {
    && IsShown(realpath, run, w.selection)
    && forall id :: id in w.calls ==> IsJustified(realpath, run, w.calls[id])
  }

  lemma EmptyIsShown(realpath: Path -> Path, run: seq<Deed>)
    ensures IsShown(realpath, run, NO_SELECTION)
  {
    hide OpsOf;
    assert Shown(realpath, run, 0) == NO_SELECTION;
  }

  /** A segment leaves the other calls alone, and its own call what it was asked to do. */
  lemma StepKeepsCalls(w: World, e: Event)
    requires CallsFit(w)
    ensures Step(w, e).selection == if e.Committed? then e.selection else w.selection
    ensures forall id :: id in Step(w, e).calls ==>
      (id in w.calls ==> Step(w, e).calls[id].request == w.calls[id].request)
      && (e.Committed? || id != e.id || !Due(w, e) ==> id in w.calls && Step(w, e).calls[id] == w.calls[id])
  {
    if Due(w, e) {
      EffectIsSound(w, e);
      hide EffectOf, Due, Accounts, SlotsRight, BindsSelection, CallFits;
    }
  }

  lemma StepJustifies(realpath: Path -> Path, run: seq<Deed>, w: World, e: Event)
    requires CallsFit(w) && Justified(realpath, run, w)
    requires e.Committed? ==> IsShown(realpath, run, e.selection)
    ensures Justified(realpath, run, Step(w, e))
  {
    var next := Step(w, e);
    StepKeepsCalls(w, e);
    StepOnlyAdds(w, e);
    forall id | id in next.calls ensures IsJustified(realpath, run, next.calls[id]) {
      if next.calls[id].bound.Some? && (id !in w.calls || w.calls[id].bound.None?) {
        BoundIsTheSelection(w, e, id);
        assert Rests(w.selection, next.calls[id].request.kind, next.calls[id].bound.value);
      } else if id in w.calls {
        assert IsJustified(realpath, run, w.calls[id]);
      }
    }
    hide Step, IsShown, Rests, Due, CallFits;
  }

  lemma {:induction false} EveryCallIsJustified(realpath: Path -> Path, run: seq<Deed>, events: seq<Event>)
    requires CommitsFrom(realpath, run, events)
    ensures Justified(realpath, run, Run(events))
  {
    if events == [] {
      EmptyIsShown(realpath, run);
    } else {
      var n := |events| - 1;
      assert events == events[..n] + [events[n]];
      assert events[n] in events;
      EveryCallIsJustified(realpath, run, events[..n]);
      EveryRunHolds(events[..n]);
      StepJustifies(realpath, run, Run(events[..n]), events[n]);
      hide Justified, IsShown, Step, CallsFit, TrailHolds, SlotsHold;
    }
  }

  /** A container of an entry of the registry this step read. */
  predicate Listed(deed: Deed, id: string) {
    deed.Deed? && exists e, c :: e in deed.entries && c in e.containers && c.id == id
  }

  /** A selection that names a container names one of a registry the run read. */
  lemma NamedIsListed(realpath: Path -> Path, run: seq<Deed>, s: Selection, id: string)
    requires forall d :: d in run ==> ReadsCoherently(d)
    requires IsShown(realpath, run, s) && BindContainer(s, id)
    ensures exists d :: d in run && Listed(d, id)
  {
    var done: nat :| done <= |OpsOf(realpath, run)| && Shown(realpath, run, done) == s;
    RunHasGround(realpath, run, done);
    hide OpsOf, T.Fold, ReadsCoherently, RunningOf, NamedBy;
    var i: nat :| ComesFrom(run, i, s);
    var e :| e in run[i].entries && Earned(e, run[i].action, s);
    assert Listed(run[i], id);
    assert run[i] in run;
  }

  /**
   * Every command that reached a container: an execution got a container that was running, and alone or named by
   * the operator, in a registry the session read, with a configuration discovered there; logs, stop and remove
   * got a container of such a registry.
   */
  lemma EveryInvocationIsGrounded(realpath: Path -> Path, run: seq<Deed>, events: seq<Event>, v: Invocation)
    requires forall d :: d in run ==> ReadsCoherently(d)
    requires CommitsFrom(realpath, run, events) && v in Run(events).adapter && !TakesSlot(v.kind)
    ensures v.containerId.Some?
    ensures Executes(v.kind) ==>
      exists d :: d in run && BindsIn(d, Context(v.workspace, v.containerId.value, v.configPath))
    ensures exists d :: d in run && Listed(d, v.containerId.value)
  {
    EveryCallIsJustified(realpath, run, events);
    EveryRunHolds(events);
    var w := Run(events);
    hide Run, SlotsHold, CallsFit, ReadsCoherently, BindsIn, Listed;
    assert InvocationTells(w, v);
    var call := w.calls[v.call];
    assert IsJustified(realpath, run, call);
    var s :| IsShown(realpath, run, s) && Rests(s, call.request.kind, call.bound.value);
    var done: nat :| done <= |OpsOf(realpath, run)| && Shown(realpath, run, done) == s;
    BindIsSafe(realpath, run, done);
    BoundNames(s);
    hide OpsOf, T.Fold, Bind;
    NamedIsListed(realpath, run, s, v.containerId.value);
  }

  lemma BoundNames(s: Selection)
    ensures Bind(s).Bound? ==> BindContainer(s, Bind(s).context.candidateId)
  {
  }
}
