/**
 * What an observer of the service sees after each segment: what was sent, what was recorded, who holds the slot.
 * And what comes of a command that waits for the automatic selection.
 */
module ServiceCases {
  import opened Text
  import opened Selection
  import opened Service
  import opened ServiceLaws
  import Paths

  /** The statuses the automatic selection may fix: an empty store, and the two parked by reality. */
  predicate IsFixable(status: Status) {
    status in {NothingSelected, Stopped, Missing}
  }

  // ---------- What each segment lets out ----------

  /** Waiting for the hook, with nothing bound. */
  predicate IsWaiting(w: World, id: nat, request: ServiceRequest) {
    id in w.calls && w.calls[id] == Call(request, AutoSelecting, None)
  }

  /** Nothing else has happened than this: these records, these invocations, and this phase of the one call. */
  ghost predicate LetsOut(w: World, next: World, id: nat, records: seq<Record>, sent: seq<Invocation>, phase: Phase) {
    && next.audit == w.audit + records && next.adapter == w.adapter + sent && next.selection == w.selection
    && id in next.calls && next.calls[id].phase == phase
    && (forall other :: other != id ==> (other in next.calls <==> other in w.calls))
    && (forall other :: other != id && other in w.calls ==> next.calls[other] == w.calls[other])
  }

  /**
   * `up`, `build` and `rebuild` are sent exactly when the workspace is free, policy allows them and a rebuild is
   * confirmed. A free workspace is claimed in any case; a claim that sends nothing is recorded and released.
   */
  lemma SlottedExactly(w: World, id: nat, request: ServiceRequest, seen: Surroundings)
    requires id !in w.calls && request.kind in {Up, Build, Rebuild}
    ensures var next := Step(w, Begin(id, request, seen));
      var free, sent := request.workspace !in w.slots, seen.authorized && (request.kind == Rebuild ==> seen.confirmed);
      && next.slots == (if free then w.slots[request.workspace := request.kind] else w.slots)
      && if !free then LetsOut(w, next, id, [], [], Finished(SlotTaken))
         else if sent then
           var v := Invocation(id, request.kind, request.workspace, None, request.configPath);
           LetsOut(w, next, id, [], [v], InAdapter(false))
         else
           var outcome := if seen.authorized then NotConfirmed else Denied;
           LetsOut(w, next, id, [Record(id, request.kind, seen.authorized, None)], [], Releasing(outcome))
  {
  }

  /**
   * `logs`, `stop` and `remove` are sent exactly when policy allows them and the container named is the one
   * selected, running or stopped; else they are recorded as refused. They take no slot.
   */
  lemma OnContainerExactly(w: World, id: nat, request: ServiceRequest, seen: Surroundings)
    requires id !in w.calls && request.kind in {Logs, Service.Stop, Remove}
    ensures var next := Step(w, Begin(id, request, seen));
      var s := w.selection;
      var selected := s.status in {Valid, Stopped} && s.candidate.Some? && s.candidate.value.id == request.containerId;
      && next.slots == w.slots
      && if seen.authorized && selected then
           var v := Invocation(id, request.kind, request.workspace, Some(request.containerId), None);
           LetsOut(w, next, id, [], [v], InAdapter(false))
         else
           var outcome := if seen.authorized then NoTarget else Denied;
           LetsOut(w, next, id, [Record(id, request.kind, seen.authorized, None)], [], Finished(outcome))
  {
  }

  /**
   * A command that policy denies is recorded as denied. One that it allows waits for the automatic selection exactly
   * when the store is empty or parked, and then nothing is recorded, sent or bound yet; otherwise the selection of
   * that moment is bound at once.
   */
  lemma WaitsExactly(w: World, id: nat, request: ServiceRequest, seen: Surroundings)
    requires id !in w.calls && request.kind in {RoutedExec, ContainerExec}
    ensures var next := Step(w, Begin(id, request, seen)); var waits := IsFixable(w.selection.status);
      && next.slots == w.slots && id in next.calls && next.calls[id].request == request
      && (!seen.authorized ==> LetsOut(w, next, id, [Record(id, request.kind, false, None)], [], Finished(Denied)))
      && (next.calls[id].phase == AutoSelecting <==> seen.authorized && waits)
      && (seen.authorized && waits ==> LetsOut(w, next, id, [], [], AutoSelecting))
      && next.calls[id].bound ==
           if seen.authorized && !waits && Bind(w.selection).Bound? then Some(Bind(w.selection).context) else None
  {
    hide Mismatched, Bind;
  }

  /** The request comes from another project: its real path lies outside the bound workspace's. */
  predicate FromAnotherProject(request: ServiceRequest, bound: Context, seen: Surroundings) {
    seen.isProject && !(seen.realpath(bound.workspaceKey) <= seen.realpath(request.workspace))
  }

  lemma MismatchBySegments(request: ServiceRequest, bound: Context, seen: Surroundings)
    requires forall p :: Paths.Resolved(seen.realpath(p), true)
    ensures Mismatched(request, bound, seen) <==> FromAnotherProject(request, bound, seen)
  {
    var asked, own := seen.realpath(request.workspace), seen.realpath(bound.workspaceKey);
    Paths.SpellResolves(asked, true);
    Paths.SpellResolves(own, true);
    Paths.UnderIsSegmentPrefix(Key(asked), Key(own));
  }

  /** The command of a bound execution. */
  function CommandOf(id: nat, kind: Operation, bound: Context): Invocation {
    Invocation(id, kind, bound.workspaceKey, Some(bound.candidateId), bound.configPath)
  }

  /** A due segment that neither claims nor frees a slot lets out what its effect says. */
  lemma StepLetsOut(w: World, e: Event)
    requires Due(w, e) && EffectOf(w, e).slotting == Keep
    ensures var effect := EffectOf(w, e); var next := Step(w, e);
      && next.slots == w.slots && next.calls[e.id] == effect.call
      && LetsOut(w, next, e.id, effect.records, effect.sent, effect.call.phase)
  {
    hide EffectOf;
  }

  /**
   * When the selection decides, at the beginning or after the hook: an unbindable one is recorded as refused, a
   * structured command that reads a mapping waits for it, and any other is sent, unless it comes from another
   * project.
   */
  lemma DecidesExactly(w: World, e: Event, request: ServiceRequest)
    requires request.kind in {RoutedExec, ContainerExec}
    requires e.Begin? || (e.AutoSelected? && e.ok && IsWaiting(w, e.id, request))
    requires e.Begin? ==>
      e.id !in w.calls && e.request == request && e.seen.authorized && !IsFixable(w.selection.status)
    requires forall p :: Paths.Resolved(e.seen.realpath(p), true)
    ensures var next, id := Step(w, e), e.id;
      && next.slots == w.slots
      && match Bind(w.selection) {
           case Refused(_) =>
             LetsOut(w, next, id, [Record(id, request.kind, true, None)], [], Finished(NoTarget))
           case Bound(bound) =>
             && id in next.calls && next.calls[id].bound == Some(bound)
             && if request.kind == ContainerExec && e.seen.readsMapping then
                  LetsOut(w, next, id, [], [], ReadingMapping)
                else if FromAnotherProject(request, bound, e.seen) then
                  LetsOut(w, next, id, [Record(id, request.kind, true, None)], [], Finished(NoTarget))
                else LetsOut(w, next, id, [], [CommandOf(id, request.kind, bound)], InAdapter(false))
         }
  {
    if Bind(w.selection).Bound? {
      MismatchBySegments(request, Bind(w.selection).context, e.seen);
    }
    hide Mismatched, FromAnotherProject, Bind;
    StepLetsOut(w, e);
    hide LetsOut, Step;
  }

  /**
   * When the mapping has been read: a failed read and a host path are recorded, the host path as a denial; the
   * command is sent otherwise, unless it comes from another project.
   */
  lemma MappingExactly(w: World, id: nat, answer: MappingAnswer, seen: Surroundings)
    requires id in w.calls && w.calls[id].phase == ReadingMapping && w.calls[id].bound.Some?
    requires forall p :: Paths.Resolved(seen.realpath(p), true)
    ensures var next, kind := Step(w, MappingRead(id, answer, seen)), w.calls[id].request.kind;
      var bound := w.calls[id].bound.value;
      && next.slots == w.slots
      && if answer == ReadFailed then
           LetsOut(w, next, id, [Record(id, kind, true, Some(bound.candidateId))], [], Finished(NoTarget))
         else if answer == HostPathFound then
           LetsOut(w, next, id, [Record(id, kind, false, Some(bound.candidateId))], [], Finished(Denied))
         else if FromAnotherProject(w.calls[id].request, bound, seen) then
           LetsOut(w, next, id, [Record(id, kind, true, None)], [], Finished(NoTarget))
         else LetsOut(w, next, id, [], [CommandOf(id, kind, bound)], InAdapter(answer == NoHostPath))
  {
    MismatchBySegments(w.calls[id].request, w.calls[id].bound.value, seen);
    hide Mismatched, FromAnotherProject;
  }

  /**
   * When the adapter has answered: a lifecycle operation is recorded, naming the container a successful `up` or
   * `rebuild` produced, and keeps its slot until its release; a successful command may still have to be presented;
   * everything else is recorded with the container it bound.
   */
  lemma SettledExactly(w: World, id: nat, ok: bool, produced: string, presents: bool)
    requires id in w.calls && w.calls[id].phase.InAdapter?
    ensures var next, call := Step(w, Settled(id, ok, produced, presents)), w.calls[id];
      var kind := call.request.kind;
      && next.slots == w.slots
      && if kind in {Up, Build, Rebuild} then
           var target := if ok && kind in {Up, Rebuild} then Some(produced) else None;
           LetsOut(w, next, id, [Record(id, kind, true, target)], [], Releasing(Ran))
         else if kind in {RoutedExec, ContainerExec} && ok && presents && !call.phase.mapped then
           LetsOut(w, next, id, [], [], Presenting)
         else
           var target := if call.bound.Some? then Some(call.bound.value.candidateId) else None;
           LetsOut(w, next, id, [Record(id, kind, true, target)], [], Finished(Ran))
  {
  }

  /** A presented command is recorded; one whose presentation failed ends without a record. */
  lemma PresentedExactly(w: World, id: nat, ok: bool)
    requires id in w.calls && w.calls[id].phase == Presenting && w.calls[id].bound.Some?
    ensures var next, call := Step(w, Presented(id, ok)), w.calls[id];
      var r := Record(id, call.request.kind, true, Some(call.bound.value.candidateId));
      && next.slots == w.slots
      && if ok then LetsOut(w, next, id, [r], [], Finished(Ran))
         else LetsOut(w, next, id, [], [], Finished(RanUnpresented))
  {
  }

  /** In every run, a release frees the slot its call holds and lets nothing out. */
  lemma ReleasedExactly(events: seq<Event>, id: nat)
    requires var w := Run(events); id in w.calls && w.calls[id].phase.Releasing?
    ensures var w, next := Run(events), Run(events + [Released(id)]);
      var key := w.calls[id].request.workspace;
      && key in w.slots && next.slots == w.slots - {key}
      && LetsOut(w, next, id, [], [], Finished(w.calls[id].phase.outcome))
  {
    EveryRunHolds(events);
    RunLast(events, Released(id));
    var w := Run(events);
    hide Run, TrailHolds;
    assert CallFits(w.calls[id]);
    assert HeldBy(w, w.calls[id].request.workspace, id);
  }

  // ---------- From the beginning to the hook's return ----------

  lemma StepKeepsWaiting(w: World, e: Event, id: nat, request: ServiceRequest)
    requires IsWaiting(w, id, request) && (e.AutoSelected? ==> e.id != id)
    ensures IsWaiting(Step(w, e), id, request)
  {
    hide EffectOf;
  }

  /** No event of other calls, and no commit, ends the wait. */
  lemma {:induction false} StillWaiting(before: seq<Event>, during: seq<Event>, id: nat, request: ServiceRequest)
    requires IsWaiting(Run(before), id, request)
    requires forall e :: e in during ==> e.AutoSelected? ==> e.id != id
    ensures IsWaiting(Run(before + during), id, request)
  {
    if during == [] {
      assert before + during == before;
    } else {
      var n := |during| - 1;
      assert during[n] in during && during == during[..n] + [during[n]];
      StillWaiting(before, during[..n], id, request);
      RunStep(before, during);
      StepKeepsWaiting(Run(before + during[..n]), during[n], id, request);
      hide Run, Step, IsWaiting;
    }
  }

  /** When the hook has returned, the selection of that moment is bound, or the refusal is recorded. */
  lemma ReturnBinds(w: World, id: nat, request: ServiceRequest, seen: Surroundings)
    requires IsWaiting(w, id, request) && request.kind in {RoutedExec, ContainerExec}
    ensures var next := Step(w, AutoSelected(id, true, seen)); var b := Bind(w.selection);
      && id in next.calls
      && (b.Bound? ==> next.calls[id].bound == Some(b.context))
      && (b.Refused? ==> next.calls[id] == Call(request, Finished(NoTarget), None) && next.adapter == w.adapter
                         && next.audit == w.audit + [Record(id, request.kind, true, None)])
    ensures var next := Step(w, AutoSelected(id, false, seen));
      && id in next.calls && next.calls[id] == Call(request, Finished(NoTarget), None) && next.adapter == w.adapter
      && next.audit == w.audit + [Record(id, request.kind, true, None)]
  {
    hide Mismatched, Bind;
  }

  /**
   * A command begun with nothing to bind, while any other segments run: whatever is selected when the hook returns
   * is what it binds. So an adoption that commits meanwhile is the target of the very command that caused it.
   */
  lemma AdoptedMeanwhileIsBound(
    before: seq<Event>, id: nat, request: ServiceRequest, seen: Surroundings,
    during: seq<Event>, adopted: Selection, later: seq<Event>, back: Surroundings)
    requires var w := Run(before); id !in w.calls && IsFixable(w.selection.status)
    requires request.kind in {RoutedExec, ContainerExec} && seen.authorized && Bind(adopted).Bound?
    requires forall e :: e in during + later ==> e.AutoSelected? ==> e.id != id
    requires forall e :: e in later ==> !e.Committed?
    ensures var begun := before + [Begin(id, request, seen)];
      var w := Run(begun + during + [Committed(adopted)] + later + [AutoSelected(id, true, back)]);
      id in w.calls && w.calls[id].bound == Some(Bind(adopted).context)
  {
    var begun := before + [Begin(id, request, seen)];
    var committed := begun + during + [Committed(adopted)];
    WaitsExactly(Run(before), id, request, seen);
    RunLast(before, Begin(id, request, seen));
    assert forall e :: e in during ==> e in during + later;
    assert forall e :: e in later ==> e in during + later;
    StillWaiting(begun, during, id, request);
    RunLast(begun + during, Committed(adopted));
    StepKeepsWaiting(Run(begun + during), Committed(adopted), id, request);
    StillWaiting(committed, later, id, request);
    SelectionStays(committed, later);
    RunLast(committed + later, AutoSelected(id, true, back));
    ReturnBinds(Run(committed + later), id, request, back);
    hide Run, Bind, IsWaiting, EffectOf, Due, Apply;
  }

  /** Only commits change what is selected. */
  lemma {:induction false} SelectionStays(before: seq<Event>, later: seq<Event>)
    requires forall e :: e in later ==> !e.Committed?
    ensures Run(before + later).selection == Run(before).selection
  {
    if later == [] {
      assert before + later == before;
    } else {
      var n := |later| - 1;
      assert later[n] in later && later == later[..n] + [later[n]];
      SelectionStays(before, later[..n]);
      RunStep(before, later);
      hide Run, Due, EffectOf;
    }
  }
}
