/**
 * The execution service (src/execution-service.ts) as interleaved calls.
 *
 * Each `await` of the source ends a segment. A segment runs atomically and is one event here; between two
 * segments of a call, segments of other calls and store commits may run in any order. What comes back
 * from an awaited collaborator is part of the event.
 */
module Service {
  import opened Text
  import opened Discovery
  import opened Selection
  import Paths

  datatype Operation = Up | Build | Rebuild | Stop | Remove | Logs | RoutedExec | ContainerExec

  datatype ServiceRequest = ServiceRequest(
    kind: Operation, workspace: Path, configPath: Option<Path>, containerId: string)

  datatype Outcome = SlotTaken | Denied | NoTarget | NotConfirmed | Ran | RanUnpresented

  /** Where a call is waiting, or how it ended. */
  datatype Phase =
    | AutoSelecting
    | ReadingMapping
    | InAdapter(mapped: bool)
    | Presenting
    | Releasing(outcome: Outcome)
    | Finished(outcome: Outcome)

  /** `bound` is the context (or verified container) the call committed to, once it has one. */
  datatype Call = Call(request: ServiceRequest, phase: Phase, bound: Option<Context>)

  datatype Record = Record(call: nat, kind: Operation, authorized: bool, targetId: Option<string>)

  datatype Invocation = Invocation(
    call: nat, kind: Operation, workspace: Path, containerId: Option<string>, configPath: Option<Path>)

  /** The slot map, the calls, the audit trail, what reached an adapter, and the store's selection. */
  datatype World = World(
    slots: map<Path, Operation>, calls: map<nat, Call>, audit: seq<Record>, adapter: seq<Invocation>,
    selection: Selection)

  const IDLE := World(map[], map[], [], [], NO_SELECTION)

  /** What the synchronous checks of a segment see. */
  datatype Surroundings = Surroundings(
    authorized: bool, confirmed: bool, readsMapping: bool, realpath: Path -> Path, isProject: bool)

  datatype MappingAnswer = ReadFailed | NoMapping | HostPathFound | NoHostPath

  datatype Event =
    | Begin(id: nat, request: ServiceRequest, seen: Surroundings)
    | AutoSelected(id: nat, ok: bool, seen: Surroundings)
    | MappingRead(id: nat, answer: MappingAnswer, seen: Surroundings)
    | Settled(id: nat, ok: bool, produced: string, presents: bool)
    | Presented(id: nat, ok: bool)
    | Released(id: nat)
    | Committed(selection: Selection)

  predicate TakesSlot(kind: Operation) {
    kind == Up || kind == Build || kind == Rebuild
  }

  predicate Executes(kind: Operation) {
    kind == RoutedExec || kind == ContainerExec
  }

  // ---------- The segments ----------

  datatype Slotting = Keep | Claim | Free

  /** What one segment does: the call it leaves, what it records, what it sends, and its slot. */
  datatype Effect = Effect(call: Call, records: seq<Record>, sent: seq<Invocation>, slotting: Slotting)

  function Waits(call: Call): Effect {
    Effect(call, [], [], Keep)
  }

  function Ends(id: nat, call: Call, authorized: bool, target: Option<string>, phase: Phase): Effect {
    Effect(call.(phase := phase), [Record(id, call.request.kind, authorized, target)], [], Keep)
  }

  function Sends(id: nat, call: Call, v: Invocation, mapped: bool): Effect {
    Effect(call.(phase := InAdapter(mapped)), [], [v], Keep)
  }

  /** `up`, `build` and `rebuild` up to the adapter call. */
  function BeginSlotted(taken: bool, id: nat, request: ServiceRequest, seen: Surroundings): Effect {
    var call := Call(request, Finished(SlotTaken), None);
    if taken then Waits(call)
    else if !seen.authorized then Ends(id, call, false, None, Releasing(Denied)).(slotting := Claim)
    else if request.kind == Rebuild && !seen.confirmed then
      Ends(id, call, true, None, Releasing(NotConfirmed)).(slotting := Claim)
    else
      Sends(id, call, Invocation(id, request.kind, request.workspace, None, request.configPath), false)
      .(slotting := Claim)
  }

  /** The container a `logs`, `stop` or `remove` request may act on. */
  predicate BindContainer(s: Selection, containerId: string) {
    (s.status == Valid || s.status == Stopped) && SnapshotOf(s).candidateId == Some(containerId)
  }

  function BeginOnContainer(s: Selection, id: nat, request: ServiceRequest, seen: Surroundings): Effect {
    var call := Call(request, Finished(Denied), None);
    if !seen.authorized then Ends(id, call, false, None, Finished(Denied))
    else if !BindContainer(s, request.containerId) then Ends(id, call, true, None, Finished(NoTarget))
    else
      Sends(id, call.(bound := Some(Context(request.workspace, request.containerId, None))),
            Invocation(id, request.kind, request.workspace, Some(request.containerId), None), false)
  }

  predicate Mismatched(request: ServiceRequest, bound: Context, seen: Surroundings) {
    !Paths.IsAtOrUnder(Key(seen.realpath(request.workspace)), Key(seen.realpath(bound.workspaceKey))) && seen.isProject
  }

  /** From the guard to the adapter call. */
  function Launch(id: nat, call: Call, bound: Context, mapped: bool, seen: Surroundings): Effect {
    if Mismatched(call.request, bound, seen) then Ends(id, call, true, None, Finished(NoTarget))
    else
      Sends(
        id, call, Invocation(id, call.request.kind, bound.workspaceKey, Some(bound.candidateId), bound.configPath),
        mapped)
  }

  function BindAndGo(s: Selection, id: nat, call: Call, seen: Surroundings): Effect {
    match Bind(s)
    case Refused(_) => Ends(id, call, true, None, Finished(NoTarget))
    case Bound(context) =>
      var bound := call.(bound := Some(context));
      if call.request.kind == ContainerExec && seen.readsMapping then Waits(bound.(phase := ReadingMapping))
      else Launch(id, bound, context, false, seen)
  }

  function BeginExec(s: Selection, id: nat, request: ServiceRequest, seen: Surroundings): Effect {
    var call := Call(request, AutoSelecting, None);
    if !seen.authorized then Ends(id, call, false, None, Finished(Denied))
    else if s.status == NothingSelected || s.status == Stopped || s.status == Missing then Waits(call)
    else BindAndGo(s, id, call, seen)
  }

  function OnMapping(id: nat, call: Call, bound: Context, answer: MappingAnswer, seen: Surroundings): Effect {
    match answer
    case ReadFailed => Ends(id, call, true, Some(bound.candidateId), Finished(NoTarget))
    case HostPathFound => Ends(id, call, false, Some(bound.candidateId), Finished(Denied))
    case NoMapping => Launch(id, call, bound, false, seen)
    case NoHostPath => Launch(id, call, bound, true, seen)
  }

  function TargetOf(call: Call): Option<string> {
    if call.bound.Some? then Some(call.bound.value.candidateId) else None
  }

  function OnSettled(id: nat, call: Call, mapped: bool, ok: bool, produced: string, presents: bool): Effect {
    var kind := call.request.kind;
    if TakesSlot(kind) then Ends(id, call, true, if ok && kind != Build then Some(produced) else None, Releasing(Ran))
    else if Executes(kind) && ok && !mapped && presents then Waits(call.(phase := Presenting))
    else Ends(id, call, true, TargetOf(call), Finished(Ran))
  }

  function OnPresented(id: nat, call: Call, ok: bool): Effect {
    if ok then Ends(id, call, true, TargetOf(call), Finished(Ran)) else Waits(call.(phase := Finished(RanUnpresented)))
  }

  /** The release compares the operation only, as the source does. */
  function ReleaseSlot(slots: map<Path, Operation>, key: Path, kind: Operation): map<Path, Operation> {
    if key in slots && slots[key] == kind then slots - {key} else slots
  }

  function SlotsAfter(slots: map<Path, Operation>, call: Call, slotting: Slotting): map<Path, Operation> {
    match slotting
    case Keep => slots
    case Claim => slots[call.request.workspace := call.request.kind]
    case Free => ReleaseSlot(slots, call.request.workspace, call.request.kind)
  }

  function Apply(w: World, id: nat, effect: Effect): World {
    World(
      SlotsAfter(w.slots, effect.call, effect.slotting), w.calls[id := effect.call],
      w.audit + effect.records, w.adapter + effect.sent, w.selection)
  }

  predicate Due(w: World, e: Event) {
    match e
    case Committed(_) => false
    case Begin(id, _, _) => id !in w.calls
    case AutoSelected(id, _, _) => id in w.calls && w.calls[id].phase.AutoSelecting?
    case MappingRead(id, _, _) => id in w.calls && w.calls[id].phase.ReadingMapping? && w.calls[id].bound.Some?
    case Settled(id, _, _, _) => id in w.calls && w.calls[id].phase.InAdapter?
    case Presented(id, _) => id in w.calls && w.calls[id].phase.Presenting?
    case Released(id) => id in w.calls && w.calls[id].phase.Releasing?
  }

  function EffectOf(w: World, e: Event): Effect
    requires Due(w, e)
  {
    match e
    case Begin(id, request, seen) =>
      if TakesSlot(request.kind) then BeginSlotted(request.workspace in w.slots, id, request, seen)
      else if Executes(request.kind) then BeginExec(w.selection, id, request, seen)
      else BeginOnContainer(w.selection, id, request, seen)
    case AutoSelected(id, ok, seen) =>
      if ok then BindAndGo(w.selection, id, w.calls[id], seen)
      else Ends(id, w.calls[id], true, None, Finished(NoTarget))
    case MappingRead(id, answer, seen) => OnMapping(id, w.calls[id], w.calls[id].bound.value, answer, seen)
    case Settled(id, ok, produced, presents) =>
      OnSettled(id, w.calls[id], w.calls[id].phase.mapped, ok, produced, presents)
    case Presented(id, ok) => OnPresented(id, w.calls[id], ok)
    case Released(id) =>
      Effect(w.calls[id].(phase := Finished(w.calls[id].phase.outcome)), [], [], Free)
  }

  /** One segment; an event that is not due changes nothing. */
  function Step(w: World, e: Event): World {
    if e.Committed? then w.(selection := e.selection)
    else if Due(w, e) then Apply(w, e.id, EffectOf(w, e))
    else w
  }

  function Run(events: seq<Event>): World {
    if events == [] then IDLE else Step(Run(events[..|events| - 1]), events[|events| - 1])
  }

  // ---------- The service as the source keeps it ----------

  class ExecutionService {
    var slots: map<Path, Operation>
    var calls: map<nat, Call>
    var audit: seq<Record>
    var adapter: seq<Invocation>
    var selection: Selection

    function State(): World
      reads this
    {
      World(slots, calls, audit, adapter, selection)
    }

    constructor ()
      ensures State() == IDLE
    {
      slots, calls, audit, adapter, selection := map[], map[], [], [], NO_SELECTION;
    }

    method WriteRecord(id: nat, kind: Operation, authorized: bool, target: Option<string>)
      modifies this`audit
      ensures audit == old(audit) + [Record(id, kind, authorized, target)]
    {
      audit := audit + [Record(id, kind, authorized, target)];
    }

    method ClaimSlot(key: Path, kind: Operation) returns (claimed: bool)
      modifies this`slots
      ensures claimed <==> key !in old(slots)
      ensures slots == if claimed then old(slots)[key := kind] else old(slots)
    {
      if key in slots {
        return false;
      }
      slots := slots[key := kind];
      return true;
    }

    method BeginCall(id: nat, request: ServiceRequest, seen: Surroundings)
      requires id !in calls
      modifies this
      ensures State() == Step(old(State()), Begin(id, request, seen))
    {
      var call := Call(request, Finished(Denied), None);
      if TakesSlot(request.kind) {
        var claimed := ClaimSlot(request.workspace, request.kind);
        if !claimed {
          calls := calls[id := call.(phase := Finished(SlotTaken))];
          return;
        }
        if !seen.authorized {
          WriteRecord(id, request.kind, false, None);
          calls := calls[id := call.(phase := Releasing(Denied))];
          return;
        }
        if request.kind == Rebuild && !seen.confirmed {
          WriteRecord(id, request.kind, true, None);
          calls := calls[id := call.(phase := Releasing(NotConfirmed))];
          return;
        }
        adapter := adapter + [Invocation(id, request.kind, request.workspace, None, request.configPath)];
        calls := calls[id := call.(phase := InAdapter(false))];
        return;
      }
      if !seen.authorized {
        WriteRecord(id, request.kind, false, None);
        calls := calls[id := call];
        return;
      }
      if Executes(request.kind) {
        if selection.status == NothingSelected || selection.status == Stopped || selection.status == Missing {
          calls := calls[id := call.(phase := AutoSelecting)];
        } else {
          BindThenGo(id, call.(phase := AutoSelecting), seen);
        }
        return;
      }
      if !BindContainer(selection, request.containerId) {
        WriteRecord(id, request.kind, true, None);
        calls := calls[id := call.(phase := Finished(NoTarget))];
        return;
      }
      adapter := adapter + [Invocation(id, request.kind, request.workspace, Some(request.containerId), None)];
      calls := calls[id := call.(
        phase := InAdapter(false), bound := Some(Context(request.workspace, request.containerId, None)))];
    }

    method BindThenGo(id: nat, call: Call, seen: Surroundings)
      modifies this
      ensures State() == Apply(old(State()), id, BindAndGo(old(selection), id, call, seen))
    {
      var binding := Bind(selection);
      if binding.Refused? {
        WriteRecord(id, call.request.kind, true, None);
        calls := calls[id := call.(phase := Finished(NoTarget))];
        return;
      }
      var bound := call.(bound := Some(binding.context));
      if call.request.kind == ContainerExec && seen.readsMapping {
        calls := calls[id := bound.(phase := ReadingMapping)];
        return;
      }
      GuardAndLaunch(id, bound, binding.context, false, seen);
    }

    method GuardAndLaunch(id: nat, call: Call, bound: Context, mapped: bool, seen: Surroundings)
      modifies this
      ensures State() == Apply(old(State()), id, Launch(id, call, bound, mapped, seen))
    {
      if Mismatched(call.request, bound, seen) {
        WriteRecord(id, call.request.kind, true, None);
        calls := calls[id := call.(phase := Finished(NoTarget))];
        return;
      }
      adapter := adapter
        + [Invocation(id, call.request.kind, bound.workspaceKey, Some(bound.candidateId), bound.configPath)];
      calls := calls[id := call.(phase := InAdapter(mapped))];
    }

    method AutoSelectReturned(id: nat, ok: bool, seen: Surroundings)
      requires id in calls && calls[id].phase.AutoSelecting?
      modifies this
      ensures State() == Step(old(State()), AutoSelected(id, ok, seen))
    {
      var call := calls[id];
      if ok {
        BindThenGo(id, call, seen);
      } else {
        WriteRecord(id, call.request.kind, true, None);
        calls := calls[id := call.(phase := Finished(NoTarget))];
      }
    }

    method MappingReturned(id: nat, answer: MappingAnswer, seen: Surroundings)
      requires id in calls && calls[id].phase.ReadingMapping? && calls[id].bound.Some?
      modifies this
      ensures State() == Step(old(State()), MappingRead(id, answer, seen))
    {
      var call := calls[id];
      var bound := call.bound.value;
      if answer == ReadFailed {
        WriteRecord(id, call.request.kind, true, Some(bound.candidateId));
        calls := calls[id := call.(phase := Finished(NoTarget))];
      } else if answer == HostPathFound {
        WriteRecord(id, call.request.kind, false, Some(bound.candidateId));
        calls := calls[id := call.(phase := Finished(Denied))];
      } else {
        GuardAndLaunch(id, call, bound, answer == NoHostPath, seen);
      }
    }

    method AdapterReturned(id: nat, ok: bool, produced: string, presents: bool)
      requires id in calls && calls[id].phase.InAdapter?
      modifies this
      ensures State() == Step(old(State()), Settled(id, ok, produced, presents))
    {
      var call := calls[id];
      var kind := call.request.kind;
      if TakesSlot(kind) {
        WriteRecord(id, kind, true, if ok && kind != Build then Some(produced) else None);
        calls := calls[id := call.(phase := Releasing(Ran))];
      } else if Executes(kind) && ok && !call.phase.mapped && presents {
        calls := calls[id := call.(phase := Presenting)];
      } else {
        WriteRecord(id, kind, true, TargetOf(call));
        calls := calls[id := call.(phase := Finished(Ran))];
      }
    }

    method PresentationReturned(id: nat, ok: bool)
      requires id in calls && calls[id].phase.Presenting?
      modifies this
      ensures State() == Step(old(State()), Presented(id, ok))
    {
      var call := calls[id];
      if ok {
        WriteRecord(id, call.request.kind, true, TargetOf(call));
        calls := calls[id := call.(phase := Finished(Ran))];
      } else {
        calls := calls[id := call.(phase := Finished(RanUnpresented))];
      }
    }

    /** The `finally` of `up`, `build` and `rebuild`. */
    method Release(id: nat)
      requires id in calls && calls[id].phase.Releasing?
      modifies this
      ensures State() == Step(old(State()), Released(id))
    {
      var call := calls[id];
      var key := call.request.workspace;
      if key in slots && slots[key] == call.request.kind {
        slots := slots - {key};
      }
      calls := calls[id := call.(phase := Finished(call.phase.outcome))];
    }

    /** The scheduler's next segment; one that is not due does nothing. */
    method Handle(e: Event)
      modifies this
      ensures State() == Step(old(State()), e)
    {
      if e.Committed? {
        StoreCommitted(e.selection);
        return;
      }
      var due := Due(State(), e);
      hide EffectOf, Apply, Due;
      if !due {
        return;
      }
      Perform(e);
    }

    method Perform(e: Event)
      requires !e.Committed? && Due(State(), e)
      modifies this
      ensures State() == Step(old(State()), e)
    {
      hide EffectOf, Apply;
      match e {
        case Begin(id, request, seen) => BeginCall(id, request, seen);
        case AutoSelected(id, ok, seen) => AutoSelectReturned(id, ok, seen);
        case MappingRead(id, answer, seen) => MappingReturned(id, answer, seen);
        case Settled(id, ok, produced, presents) => AdapterReturned(id, ok, produced, presents);
        case Presented(id, ok) => PresentationReturned(id, ok);
        case Released(id) => Release(id);
      }
    }

    /** Whatever order the scheduler chooses, the service is in the state the run of those events reaches. */
    method Drive(events: seq<Event>)
      requires State() == IDLE
      modifies this
      ensures State() == Run(events)
    {
      for i := 0 to |events|
        invariant State() == Run(events[..i])
      {
        assert events[..i + 1][..i] == events[..i];
        hide Step;
        Handle(events[i]);
      }
      assert events[..|events|] == events;
    }

    method StoreCommitted(next: Selection)
      modifies this`selection
      ensures State() == Step(old(State()), Committed(next))
    {
      selection := next;
    }
  }
}
