/**
 * What every interleaving of service calls keeps: one lifecycle operation per workspace, a slot map that is
 * exactly the operations under way, one audit record per call, no adapter call behind an unauthorized
 * record, and an execution that uses the context it bound whatever is selected later.
 */
module ServiceLaws {
  import opened Text
  import opened Discovery
  import opened Registry
  import opened Selection
  import opened Service

  // ---------- The trail ----------

  function Records(audit: seq<Record>, id: nat): nat {
    if audit == [] then 0
    else Records(audit[..|audit| - 1], id) + if audit[|audit| - 1].call == id then 1 else 0
  }

  function Invocations(adapter: seq<Invocation>, id: nat): nat {
    if adapter == [] then 0
    else Invocations(adapter[..|adapter| - 1], id) + if adapter[|adapter| - 1].call == id then 1 else 0
  }

  predicate IsDenied(phase: Phase) {
    phase == Releasing(Denied) || phase == Finished(Denied)
  }

  /** A call is recorded when it ends, unless it never got the slot or its result could not be presented. */
  function RecordsDue(phase: Phase): nat {
    match phase
    case Releasing(_) => 1
    case Finished(outcome) => if outcome == SlotTaken || outcome == RanUnpresented then 0 else 1
    case _ => 0
  }

  function InvocationsDue(phase: Phase): nat {
    match phase
    case InAdapter(_) => 1
    case Presenting => 1
    case Releasing(outcome) => if outcome == Ran then 1 else 0
    case Finished(outcome) => if outcome == Ran || outcome == RanUnpresented then 1 else 0
    case _ => 0
  }

  /** What reached the adapter is what the call asked for, or the context it bound. */
  predicate Faithful(v: Invocation, call: Call) {
    && v.kind == call.request.kind
    && if TakesSlot(v.kind) then
         v.workspace == call.request.workspace && v.containerId == None && v.configPath == call.request.configPath
       else
         v.containerId.Some? && call.bound == Some(Context(v.workspace, v.containerId.value, v.configPath))
  }

  predicate CountsDue(w: World, id: nat) {
    var call := PriorOf(w, id);
    Records(w.audit, id) == DueBefore(call).0 && Invocations(w.adapter, id) == DueBefore(call).1
  }

  /** The record names the identity the service bound, never one a caller supplied; a run names it always. */
  predicate TargetTells(target: Option<string>, call: Call) {
    !TakesSlot(call.request.kind) ==>
      && (target.Some? ==> target == TargetOf(call))
      && (call.phase == Finished(Ran) ==> call.bound.Some? && target == TargetOf(call))
  }

  /** What a record says of its call: who, whether policy allowed it, and which container. */
  predicate Tells(r: Record, id: nat, call: Call) {
    && r.call == id && r.kind == call.request.kind && r.authorized == !IsDenied(call.phase)
    && TargetTells(r.targetId, call)
  }

  predicate RecordTells(w: World, r: Record) {
    r.call in w.calls && Tells(r, r.call, w.calls[r.call])
  }

  predicate InvocationTells(w: World, v: Invocation) {
    v.call in w.calls && Faithful(v, w.calls[v.call])
  }

  ghost predicate TrailHolds(w: World) {
    && (forall id: nat :: CountsDue(w, id))
    && (forall r :: r in w.audit ==> RecordTells(w, r))
    && (forall v :: v in w.adapter ==> InvocationTells(w, v))
  }

  lemma RecordsAppend(audit: seq<Record>, more: seq<Record>, id: nat)
    requires |more| <= 1
    ensures Records(audit + more, id) == Records(audit, id) + if more != [] && more[0].call == id then 1 else 0
  {
    if more == [] {
      assert audit + more == audit;
    } else {
      assert (audit + more)[..|audit|] == audit;
    }
  }

  lemma InvocationsAppend(adapter: seq<Invocation>, more: seq<Invocation>, id: nat)
    requires |more| <= 1
    ensures Invocations(adapter + more, id)
      == Invocations(adapter, id) + if more != [] && more[0].call == id then 1 else 0
  {
    if more == [] {
      assert adapter + more == adapter;
    } else {
      assert (adapter + more)[..|adapter|] == adapter;
    }
  }

  lemma {:induction false} NoRecords(audit: seq<Record>, id: nat)
    ensures Records(audit, id) > 0 <==> exists r :: r in audit && r.call == id
  {
    if audit != [] {
      var n := |audit| - 1;
      NoRecords(audit[..n], id);
      assert audit == audit[..n] + [audit[n]];
    }
  }

  lemma {:induction false} NoInvocations(adapter: seq<Invocation>, id: nat)
    ensures Invocations(adapter, id) > 0 <==> exists v :: v in adapter && v.call == id
  {
    if adapter != [] {
      var n := |adapter| - 1;
      NoInvocations(adapter[..n], id);
      assert adapter == adapter[..n] + [adapter[n]];
    }
  }

  // ---------- One segment ----------

  predicate InReleasing(outcome: Outcome) {
    outcome == Denied || outcome == NotConfirmed || outcome == Ran
  }

  /** Which phases a kind of call can be in. */
  predicate CallFits(call: Call) {
    && (call.phase.AutoSelecting? ==> Executes(call.request.kind) && call.bound == None)
    && (call.phase.ReadingMapping? ==> Executes(call.request.kind) && call.bound.Some?)
    && (call.phase.Presenting? ==> Executes(call.request.kind) && call.bound.Some?)
    && (call.phase.InAdapter? ==> TakesSlot(call.request.kind) || call.bound.Some?)
    && (call.phase.Releasing? ==> TakesSlot(call.request.kind) && InReleasing(call.phase.outcome))
    && (call.phase.Finished? && call.phase.outcome == SlotTaken ==> TakesSlot(call.request.kind))
  }

  /** A lifecycle operation between its claim and its release. */
  predicate Holds(call: Call) {
    TakesSlot(call.request.kind) && !call.phase.Finished?
  }

  /** A segment continues its own call: same request, and a context once bound stays. */
  predicate Continues(prior: Option<Call>, call: Call) {
    prior.Some? ==>
      && call.request == prior.value.request
      && (prior.value.bound.Some? ==> call.bound == prior.value.bound)
      && (RecordsDue(prior.value.phase) > 0 ==>
            TakesSlot(call.request.kind) && IsDenied(prior.value.phase) == IsDenied(call.phase))
  }

  function DueBefore(prior: Option<Call>): (nat, nat) {
    if prior.Some? then (RecordsDue(prior.value.phase), InvocationsDue(prior.value.phase)) else (0, 0)
  }

  /** It records and sends exactly what its new phase is due beyond the old one, and tells the truth about it. */
  predicate Accounts(prior: Option<Call>, id: nat, effect: Effect) {
    && |effect.records| <= 1 && |effect.sent| <= 1
    && |effect.records| + DueBefore(prior).0 == RecordsDue(effect.call.phase)
    && |effect.sent| + DueBefore(prior).1 == InvocationsDue(effect.call.phase)
    && (effect.records != [] ==> Tells(effect.records[0], id, effect.call))
    && (effect.sent != [] ==> effect.sent[0].call == id && Faithful(effect.sent[0], effect.call))
  }

  predicate SlotsRight(slots: map<Path, Operation>, prior: Option<Call>, effect: Effect) {
    var held := prior.Some? && Holds(prior.value);
    match effect.slotting
    case Keep => held == Holds(effect.call)
    case Claim => prior.None? && Holds(effect.call) && effect.call.request.workspace !in slots
    case Free => held && !Holds(effect.call)
  }

  /** A context bound by this segment is the one the selection gives, or the selected container. */
  predicate BindsSelection(s: Selection, prior: Option<Call>, call: Call) {
    call.bound.Some? && (prior.None? || prior.value.bound.None?) ==>
      if Executes(call.request.kind) then Bind(s) == Bound(call.bound.value)
      else BindContainer(s, call.bound.value.candidateId)
  }

  predicate Sound(slots: map<Path, Operation>, s: Selection, prior: Option<Call>, id: nat, effect: Effect) {
    && CallFits(effect.call) && Continues(prior, effect.call) && Accounts(prior, id, effect)
    && SlotsRight(slots, prior, effect) && BindsSelection(s, prior, effect.call)
  }

  function PriorOf(w: World, id: nat): Option<Call> {
    if id in w.calls then Some(w.calls[id]) else None
  }

  lemma SlottedIsSound(w: World, id: nat, request: ServiceRequest, seen: Surroundings)
    requires TakesSlot(request.kind)
    ensures Sound(w.slots, w.selection, None, id, BeginSlotted(request.workspace in w.slots, id, request, seen))
  {
  }

  lemma OnContainerIsSound(w: World, id: nat, request: ServiceRequest, seen: Surroundings)
    requires !TakesSlot(request.kind) && !Executes(request.kind)
    ensures Sound(w.slots, w.selection, None, id, BeginOnContainer(w.selection, id, request, seen))
  {
    hide BindContainer;
  }

  /** An execution on its way to the adapter. */
  predicate Approaching(prior: Option<Call>, call: Call) {
    && Executes(call.request.kind)
    && (prior.Some? ==>
      && CallFits(prior.value) && prior.value.request == call.request && DueBefore(prior) == (0, 0)
      && (prior.value.bound.Some? ==> prior.value.bound == call.bound))
  }

  lemma LaunchIsSound(
    w: World, prior: Option<Call>, id: nat, call: Call, bound: Context, mapped: bool, seen: Surroundings)
    requires Approaching(prior, call) && call.bound == Some(bound)
    requires BindsSelection(w.selection, prior, call)
    ensures Sound(w.slots, w.selection, prior, id, Launch(id, call, bound, mapped, seen))
  {
    hide Mismatched, Bind;
  }

  lemma BindIsSound(w: World, prior: Option<Call>, id: nat, call: Call, seen: Surroundings)
    requires Approaching(prior, call) && call.bound == None && call.phase == AutoSelecting
    ensures Sound(w.slots, w.selection, prior, id, BindAndGo(w.selection, id, call, seen))
  {
    hide Mismatched, Bind, Launch;
    var b := Bind(w.selection);
    if b.Bound? {
      LaunchIsSound(w, prior, id, call.(bound := Some(b.context)), b.context, false, seen);
    }
  }

  lemma MappingIsSound(w: World, id: nat, call: Call, answer: MappingAnswer, seen: Surroundings)
    requires CallFits(call) && call.phase.ReadingMapping?
    ensures Sound(w.slots, w.selection, Some(call), id, OnMapping(id, call, call.bound.value, answer, seen))
  {
    hide Launch;
    LaunchIsSound(w, Some(call), id, call, call.bound.value, answer == NoHostPath, seen);
  }

  lemma SettledIsSound(w: World, id: nat, call: Call, ok: bool, produced: string, presents: bool)
    requires CallFits(call)
    ensures call.phase.InAdapter? ==>
      Sound(w.slots, w.selection, Some(call), id, OnSettled(id, call, call.phase.mapped, ok, produced, presents))
    ensures call.phase.Presenting? ==> Sound(w.slots, w.selection, Some(call), id, OnPresented(id, call, ok))
  {
  }

  lemma AbortedIsSound(w: World, id: nat, call: Call)
    requires CallFits(call) && call.phase.AutoSelecting?
    ensures Sound(w.slots, w.selection, Some(call), id, Ends(id, call, true, None, Finished(NoTarget)))
    ensures Approaching(Some(call), call) && call.bound == None
  {
  }

  lemma NewExecIsSound(w: World, id: nat, request: ServiceRequest)
    requires Executes(request.kind)
    ensures var call := Call(request, AutoSelecting, None);
      && Approaching(None, call)
      && Sound(w.slots, w.selection, None, id, Ends(id, call, false, None, Finished(Denied)))
      && Sound(w.slots, w.selection, None, id, Waits(call))
  {
  }

  lemma ReleasedIsSound(w: World, id: nat, call: Call)
    requires CallFits(call) && call.phase.Releasing?
    ensures var effect := Effect(call.(phase := Finished(call.phase.outcome)), [], [], Free);
      Sound(w.slots, w.selection, Some(call), id, effect)
  {
  }

  /** Every segment, from whatever it finds, is sound. */
  lemma EffectIsSound(w: World, e: Event)
    requires Due(w, e) && (e.id in w.calls ==> CallFits(w.calls[e.id]))
    ensures Sound(w.slots, w.selection, PriorOf(w, e.id), e.id, EffectOf(w, e))
  {
    hide Sound, Approaching, BeginSlotted, BeginOnContainer, BindAndGo;
    hide OnMapping, OnSettled, OnPresented, TakesSlot, Executes;
    match e {
      case Begin(id, request, seen) =>
        if TakesSlot(request.kind) {
          SlottedIsSound(w, id, request, seen);
        } else if Executes(request.kind) {
          NewExecIsSound(w, id, request);
          BindIsSound(w, None, id, Call(request, AutoSelecting, None), seen);
        } else {
          OnContainerIsSound(w, id, request, seen);
        }
      case AutoSelected(id, ok, seen) =>
        AbortedIsSound(w, id, w.calls[id]);
        if ok {
          BindIsSound(w, Some(w.calls[id]), id, w.calls[id], seen);
        }
      case MappingRead(id, answer, seen) => MappingIsSound(w, id, w.calls[id], answer, seen);
      case Settled(id, ok, produced, presents) => SettledIsSound(w, id, w.calls[id], ok, produced, presents);
      case Presented(id, ok) => SettledIsSound(w, id, w.calls[id], ok, "", true);
      case Released(id) => ReleasedIsSound(w, id, w.calls[id]);
    }
  }

  // ---------- The trail is kept ----------

  ghost predicate CallsFit(w: World) {
    forall id :: id in w.calls ==> CallFits(w.calls[id])
  }

  lemma ApplyChanges(w: World, id: nat, effect: Effect, k: nat)
    ensures PriorOf(Apply(w, id, effect), k) == if k == id then Some(effect.call) else PriorOf(w, k)
  {
  }

  lemma RecordsKept(w: World, id: nat, effect: Effect, k: nat)
    requires Records(w.audit, k) == DueBefore(PriorOf(w, k)).0 && |effect.records| <= 1
    requires |effect.records| + DueBefore(PriorOf(w, id)).0 == RecordsDue(effect.call.phase)
    requires effect.records != [] ==> effect.records[0].call == id
    ensures Records(w.audit + effect.records, k) == DueBefore(if k == id then Some(effect.call) else PriorOf(w, k)).0
  {
    RecordsAppend(w.audit, effect.records, k);
    hide Records, PriorOf, RecordsDue;
  }

  lemma InvocationsKept(w: World, id: nat, effect: Effect, k: nat)
    requires Invocations(w.adapter, k) == DueBefore(PriorOf(w, k)).1 && |effect.sent| <= 1
    requires |effect.sent| + DueBefore(PriorOf(w, id)).1 == InvocationsDue(effect.call.phase)
    requires effect.sent != [] ==> effect.sent[0].call == id
    ensures Invocations(w.adapter + effect.sent, k) == DueBefore(if k == id then Some(effect.call) else PriorOf(w, k)).1
  {
    InvocationsAppend(w.adapter, effect.sent, k);
    hide Invocations, PriorOf, InvocationsDue;
  }

  lemma ApplyKeepsCounts(w: World, id: nat, effect: Effect, k: nat)
    requires CountsDue(w, k) && Accounts(PriorOf(w, id), id, effect)
    ensures CountsDue(Apply(w, id, effect), k)
  {
    hide Records, Invocations, Faithful, TargetTells, IsDenied;
    hide SlotsAfter, PriorOf, RecordsDue, InvocationsDue, DueBefore;
    RecordsKept(w, id, effect, k);
    InvocationsKept(w, id, effect, k);
    ApplyChanges(w, id, effect, k);
  }

  lemma ApplyKeepsRecord(w: World, id: nat, effect: Effect, r: Record)
    requires TrailHolds(w) && Continues(PriorOf(w, id), effect.call) && Accounts(PriorOf(w, id), id, effect)
    requires r in Apply(w, id, effect).audit
    ensures RecordTells(Apply(w, id, effect), r)
  {
    hide SlotsAfter;
    if r in w.audit {
      assert RecordTells(w, r);
      NoRecords(w.audit, r.call);
      assert CountsDue(w, r.call);
    }
    hide Records, Invocations;
  }

  lemma ApplyKeepsTrail(w: World, id: nat, effect: Effect)
    requires TrailHolds(w) && Continues(PriorOf(w, id), effect.call) && Accounts(PriorOf(w, id), id, effect)
    ensures TrailHolds(Apply(w, id, effect))
  {
    var next := Apply(w, id, effect);
    forall k: nat ensures CountsDue(next, k) {
      ApplyKeepsCounts(w, id, effect, k);
    }
    forall r | r in next.audit ensures RecordTells(next, r) {
      ApplyKeepsRecord(w, id, effect, r);
    }
    hide SlotsAfter, Records, Invocations, CountsDue;
    forall v | v in next.adapter ensures InvocationTells(next, v) {
      if v in w.adapter {
        assert InvocationTells(w, v);
      }
    }
  }

  lemma CommitKeepsTrail(w: World, selection: Selection)
    requires TrailHolds(w)
    ensures TrailHolds(w.(selection := selection))
  {
    var next := w.(selection := selection);
    hide Records, Invocations;
    forall id: nat ensures CountsDue(next, id) {
      assert CountsDue(w, id);
    }
    forall r | r in next.audit ensures RecordTells(next, r) {
      assert RecordTells(w, r);
    }
    forall v | v in next.adapter ensures InvocationTells(next, v) {
      assert InvocationTells(w, v);
    }
  }

  // ---------- The slots ----------

  predicate HeldBy(w: World, key: Path, id: nat) {
    id in w.calls && Holds(w.calls[id]) && w.calls[id].request.workspace == key
  }

  /** The slot map is exactly the set of operations under way, at most one per workspace. */
  ghost predicate SlotsHold(w: World) {
    && (forall key, id: nat :: HeldBy(w, key, id) ==> key in w.slots && w.slots[key] == w.calls[id].request.kind)
    && (forall key :: key in w.slots ==> exists id: nat :: HeldBy(w, key, id))
    && (forall key, i: nat, j: nat :: HeldBy(w, key, i) && HeldBy(w, key, j) ==> i == j)
  }

  lemma StaySlots(w: World, id: nat, effect: Effect)
    requires SlotsHold(w) && Continues(PriorOf(w, id), effect.call) && SlotsRight(w.slots, PriorOf(w, id), effect)
    requires effect.slotting == Keep
    ensures SlotsHold(Apply(w, id, effect))
  {
    forall key, k: nat ensures HeldBy(Apply(w, id, effect), key, k) == HeldBy(w, key, k) {
    }
  }

  lemma ClaimSlots(w: World, id: nat, effect: Effect)
    requires SlotsHold(w) && SlotsRight(w.slots, PriorOf(w, id), effect)
    requires effect.slotting == Claim
    ensures SlotsHold(Apply(w, id, effect))
  {
    var next, own := Apply(w, id, effect), effect.call.request.workspace;
    forall key, k: nat ensures HeldBy(next, key, k) <==> HeldBy(w, key, k) || (k == id && key == own) {
    }
    assert HeldBy(next, own, id);
    forall key | key in next.slots ensures exists k: nat :: HeldBy(next, key, k) {
      if key != own {
        var k: nat :| HeldBy(w, key, k);
        assert HeldBy(next, key, k);
      }
    }
  }

  /** The release is guarded by the operation only, but it can only ever remove its own slot. */
  lemma ReleaseSlots(w: World, id: nat, effect: Effect)
    requires SlotsHold(w) && Continues(PriorOf(w, id), effect.call) && SlotsRight(w.slots, PriorOf(w, id), effect)
    requires effect.slotting == Free
    ensures SlotsHold(Apply(w, id, effect))
    ensures Apply(w, id, effect).slots == w.slots - {effect.call.request.workspace}
  {
    var next := Apply(w, id, effect);
    assert HeldBy(w, effect.call.request.workspace, id);
    forall key, k: nat ensures HeldBy(next, key, k) <==> HeldBy(w, key, k) && k != id {
    }
    forall key | key in next.slots ensures exists k: nat :: HeldBy(next, key, k) {
      var k: nat :| HeldBy(w, key, k);
      assert HeldBy(next, key, k);
    }
  }

  lemma CommitKeepsSlots(w: World, selection: Selection)
    requires SlotsHold(w)
    ensures SlotsHold(w.(selection := selection))
  {
    var next := w.(selection := selection);
    forall key, k: nat ensures HeldBy(next, key, k) == HeldBy(w, key, k) {
    }
    forall key | key in next.slots ensures exists k: nat :: HeldBy(next, key, k) {
      var k: nat :| HeldBy(w, key, k);
      assert HeldBy(next, key, k);
    }
  }

  // ---------- Every run ----------

  ghost predicate Holding(w: World) {
    TrailHolds(w) && SlotsHold(w) && CallsFit(w)
  }

  lemma StepKeeps(w: World, e: Event)
    requires Holding(w)
    ensures Holding(Step(w, e))
  {
    if e.Committed? {
      CommitKeepsTrail(w, e.selection);
      CommitKeepsSlots(w, e.selection);
    } else if Due(w, e) {
      var effect := EffectOf(w, e);
      EffectIsSound(w, e);
      hide TrailHolds, SlotsHold, EffectOf, Due, Accounts, SlotsRight, Continues, BindsSelection;
      ApplyKeepsTrail(w, e.id, effect);
      match effect.slotting
      case Keep => StaySlots(w, e.id, effect);
      case Claim => ClaimSlots(w, e.id, effect);
      case Free => ReleaseSlots(w, e.id, effect);
    }
  }

  lemma {:induction false} EveryRunHolds(events: seq<Event>)
    ensures Holding(Run(events))
  {
    if events != [] {
      var before := events[..|events| - 1];
      EveryRunHolds(before);
      StepKeeps(Run(before), events[|events| - 1]);
      hide Holding, Step;
    }
  }

  /** Never two lifecycle operations under way for one workspace; the slot map is exactly those under way. */
  lemma OneOperationPerWorkspace(events: seq<Event>, i: nat, j: nat)
    ensures var w := Run(events);
      && (HeldBoth(w, i, j) ==> i == j)
      && (forall key :: key in w.slots <==> exists id: nat :: HeldBy(w, key, id))
  {
    EveryRunHolds(events);
    var w := Run(events);
    hide Run, TrailHolds, CallsFit;
    if HeldBoth(w, i, j) {
      assert HeldBy(w, w.calls[i].request.workspace, i) && HeldBy(w, w.calls[i].request.workspace, j);
    }
  }

  predicate HeldBoth(w: World, i: nat, j: nat) {
    i in w.calls && j in w.calls && Holds(w.calls[i]) && Holds(w.calls[j])
    && w.calls[i].request.workspace == w.calls[j].request.workspace
  }

  /** Once everything has ended, whichever way, every slot is free again. */
  lemma EverySlotIsFreed(events: seq<Event>)
    requires var w := Run(events); forall id :: id in w.calls ==> w.calls[id].phase.Finished?
    ensures Run(events).slots == map[]
  {
    EveryRunHolds(events);
    var w := Run(events);
    hide Run, TrailHolds, CallsFit;
    forall key ensures key !in w.slots {
      assert forall id: nat :: !HeldBy(w, key, id);
    }
  }

  // ---------- What a run did, told by its events ----------

  /** Some segment of the run was of this sort, in the state it found. */
  ghost predicate Happened(events: seq<Event>, sort: (World, Event) -> bool) {
    exists k: nat :: k < |events| && sort(Run(events[..k]), events[k])
  }

  lemma HappenedStep(events: seq<Event>, sort: (World, Event) -> bool)
    requires events != []
    ensures var n := |events| - 1;
      Happened(events, sort) <==> Happened(events[..n], sort) || sort(Run(events[..n]), events[n])
  {
    hide Run;
    var n := |events| - 1;
    forall k: nat | k < n ensures events[..n][..k] == events[..k] && events[..n][k] == events[k] {
    }
    if Happened(events[..n], sort) {
      var k: nat :| k < n && sort(Run(events[..n][..k]), events[..n][k]);
      assert sort(Run(events[..k]), events[k]);
    }
    if Happened(events, sort) && !sort(Run(events[..n]), events[n]) {
      var k: nat :| k < |events| && sort(Run(events[..k]), events[k]);
      assert k < n && sort(Run(events[..n][..k]), events[..n][k]);
    }
  }

  /** The call began while another operation held its workspace's slot. */
  predicate IsSlotRefusal(id: nat, w: World, e: Event) {
    e.Begin? && e.id == id && Due(w, e) && TakesSlot(e.request.kind) && e.request.workspace in w.slots
  }

  /** The presentation hook rejected after the container command had run. */
  predicate IsFailedPresentation(id: nat, w: World, e: Event) {
    e == Presented(id, false) && Due(w, e)
  }

  predicate IsSend(id: nat, w: World, e: Event) {
    !e.Committed? && e.id == id && Due(w, e) && EffectOf(w, e).sent != []
  }

  function PhaseIn(w: World, id: nat): Option<Phase> {
    if id in w.calls then Some(w.calls[id].phase) else None
  }

  lemma StepTellsEndings(w: World, e: Event, id: nat)
    requires CallsFit(w)
    ensures var was, now := PhaseIn(w, id), PhaseIn(Step(w, e), id);
      && (now == Some(Finished(SlotTaken)) <==> was == Some(Finished(SlotTaken)) || IsSlotRefusal(id, w, e))
      && (now == Some(Finished(RanUnpresented)) <==>
            was == Some(Finished(RanUnpresented)) || IsFailedPresentation(id, w, e))
  {
    if Due(w, e) && e.id == id {
      EndingsOfEffect(w, e);
    }
    hide EffectOf, CallFits;
  }

  lemma EndingsOfEffect(w: World, e: Event)
    requires Due(w, e) && CallsFit(w)
    ensures var now := EffectOf(w, e).call.phase;
      && (now == Finished(SlotTaken) <==> IsSlotRefusal(e.id, w, e))
      && (now == Finished(RanUnpresented) <==> IsFailedPresentation(e.id, w, e))
  {
    hide Mismatched, Bind, BindContainer;
    if e.id in w.calls {
      assert CallFits(w.calls[e.id]);
    }
  }

  lemma {:induction false} EndingsHappened(events: seq<Event>, id: nat)
    ensures var phase := PhaseIn(Run(events), id);
      && (phase == Some(Finished(SlotTaken)) <==> Happened(events, (w, e) => IsSlotRefusal(id, w, e)))
      && (phase == Some(Finished(RanUnpresented)) <==> Happened(events, (w, e) => IsFailedPresentation(id, w, e)))
  {
    if events != [] {
      var n := |events| - 1;
      EndingsHappened(events[..n], id);
      EveryRunHolds(events[..n]);
      HappenedStep(events, (w, e) => IsSlotRefusal(id, w, e));
      HappenedStep(events, (w, e) => IsFailedPresentation(id, w, e));
      StepTellsEndings(Run(events[..n]), events[n], id);
      hide Happened, Step, Due, EffectOf, Apply, TrailHolds, SlotsHold, CallsFit, IsSlotRefusal, IsFailedPresentation;
    }
  }

  lemma StepTellsSends(w: World, e: Event, id: nat)
    requires Holding(w)
    ensures Invocations(Step(w, e).adapter, id) > 0 <==> Invocations(w.adapter, id) > 0 || IsSend(id, w, e)
  {
    if Due(w, e) {
      EffectIsSound(w, e);
      InvocationsAppend(w.adapter, EffectOf(w, e).sent, id);
    }
    hide EffectOf, Due, Invocations, CallFits, Faithful, TargetTells, SlotsRight, BindsSelection, Continues;
  }

  lemma {:induction false} SendsHappened(events: seq<Event>, id: nat)
    ensures Invocations(Run(events).adapter, id) > 0 <==> Happened(events, (w, e) => IsSend(id, w, e))
  {
    if events != [] {
      var n := |events| - 1;
      SendsHappened(events[..n], id);
      EveryRunHolds(events[..n]);
      HappenedStep(events, (w, e) => IsSend(id, w, e));
      StepTellsSends(Run(events[..n]), events[n], id);
      hide Happened, Step, Due, EffectOf, Apply, Holding, IsSend, Invocations;
    }
  }

  /**
   * A finished call left exactly one record, unless it was refused at the slot or its presentation failed: then
   * it left none. It reached an adapter once if some segment of it sent something, and never otherwise.
   */
  lemma OneRecordPerCall(events: seq<Event>, id: nat)
    requires var w := Run(events); id in w.calls && w.calls[id].phase.Finished?
    ensures var refused := Happened(events, (w, e) => IsSlotRefusal(id, w, e));
      var unpresented := Happened(events, (w, e) => IsFailedPresentation(id, w, e));
      Records(Run(events).audit, id) == if refused || unpresented then 0 else 1
    ensures Invocations(Run(events).adapter, id) == if Happened(events, (w, e) => IsSend(id, w, e)) then 1 else 0
  {
    EveryRunHolds(events);
    assert CountsDue(Run(events), id);
    EndingsHappened(events, id);
    SendsHappened(events, id);
    hide Run, Happened, Records, Invocations;
  }

  /** Four segments: a target is selected, a command begins, its container command returns, presenting it fails. */
  function UnpresentedRun(key: Path): seq<Event> {
    [Committed(Selection(Valid, Some(Target("c", key, State.Running, None)), Some(key))),
     Begin(0, ServiceRequest(RoutedExec, key, None, ""), Surroundings(true, true, false, p => p, false)),
     Settled(0, true, "", true),
     Presented(0, false)]
  }

  /** A command that ran in the container and left no record. */
  lemma UnpresentedLeavesNoRecord(key: Path)
    ensures var w := Run(UnpresentedRun(key));
      && PhaseIn(w, 0) == Some(Finished(RanUnpresented))
      && w.adapter == [Invocation(0, RoutedExec, key, Some("c"), None)] && w.audit == []
  {
    var events := UnpresentedRun(key);
    var bound := Context(key, "c", None);
    var sent := [Invocation(0, RoutedExec, key, Some("c"), None)];
    var idle := IDLE.(selection := events[0].selection);
    BeginsRunning(idle, events[1], bound);
    var call := Call(events[1].request, InAdapter(false), Some(bound));
    var running := World(map[], map[0 := call], [], sent, idle.selection);
    FailsPresentation(running, 0);
    RunOfFour(events[0], events[1], events[2], events[3]);
    hide Run, EffectOf, Due;
    assert Step(IDLE, events[0]) == idle;
    assert Step(idle, events[1]) == running;
  }

  lemma BeginsRunning(w: World, e: Event, bound: Context)
    requires e.Begin? && e.id !in w.calls && e.request.kind == RoutedExec && e.seen.authorized && !e.seen.isProject
    requires w.selection.status == Valid && Bind(w.selection) == Bound(bound)
    ensures Due(w, e)
    ensures EffectOf(w, e) == Effect(
      Call(e.request, InAdapter(false), Some(bound)), [],
      [Invocation(e.id, RoutedExec, bound.workspaceKey, Some(bound.candidateId), bound.configPath)], Keep)
  {
  }

  lemma FailsPresentation(w: World, id: nat)
    requires id in w.calls && w.calls[id].phase == InAdapter(false) && Executes(w.calls[id].request.kind)
    ensures var next := Step(Step(w, Settled(id, true, "", true)), Presented(id, false));
      PhaseIn(next, id) == Some(Finished(RanUnpresented)) && next.adapter == w.adapter && next.audit == w.audit
  {
  }

  lemma RunOfFour(a: Event, b: Event, c: Event, d: Event)
    ensures Run([a, b, c, d]) == Step(Step(Step(Step(IDLE, a), b), c), d)
  {
    hide Run, Step, Due, EffectOf, Apply;
    RunLast([], a);
    RunLast([a], b);
    RunLast([a, b], c);
    RunLast([a, b, c], d);
    assert [] + [a] == [a] && [a] + [b] == [a, b] && [a, b] + [c] == [a, b, c] && [a, b, c] + [d] == [a, b, c, d];
  }

  lemma RunLast(events: seq<Event>, e: Event)
    ensures Run(events + [e]) == Step(Run(events), e) && Run([]) == IDLE
  {
    hide Step, Due, EffectOf, Apply;
    assert (events + [e])[..|events|] == events;
  }

  /** A record marked unauthorized means that call never reached an adapter, and never will. */
  lemma UnauthorizedNeverRan(events: seq<Event>, more: seq<Event>, r: Record, v: Invocation)
    requires r in Run(events).audit && !r.authorized
    requires v in Run(events + more).adapter
    ensures v.call != r.call
  {
    AuditOnlyGrows(events, more);
    EveryRunHolds(events + more);
    var w := Run(events + more);
    hide Run, SlotsHold, CallsFit;
    assert RecordTells(w, r);
    NoInvocations(w.adapter, v.call);
    assert CountsDue(w, v.call);
  }

  lemma FrontOfConcat(events: seq<Event>, more: seq<Event>)
    requires more != []
    ensures var all := events + more;
      all[..|all| - 1] == events + more[..|more| - 1] && all[|all| - 1] == more[|more| - 1]
  {
  }

  lemma RunStep(events: seq<Event>, more: seq<Event>)
    requires more != []
    ensures Run(events + more) == Step(Run(events + more[..|more| - 1]), more[|more| - 1])
  {
    hide Step, Due, EffectOf, Apply;
    FrontOfConcat(events, more);
  }

  /** A segment adds records, forgets no call, and never changes a context once bound. */
  predicate OnlyAdds(w: World, next: World) {
    && w.audit <= next.audit
    && forall id :: id in w.calls ==>
      id in next.calls && (w.calls[id].bound.Some? ==> next.calls[id].bound == w.calls[id].bound)
  }

  lemma StepOnlyAdds(w: World, e: Event)
    requires CallsFit(w)
    ensures OnlyAdds(w, Step(w, e))
  {
    if Due(w, e) {
      EffectIsSound(w, e);
      hide EffectOf, Due, Accounts, SlotsRight, BindsSelection, CallFits;
    }
  }

  lemma {:induction false} AuditOnlyGrows(events: seq<Event>, more: seq<Event>)
    ensures OnlyAdds(Run(events), Run(events + more))
  {
    if more == [] {
      assert events + more == events;
    } else {
      var last := |more| - 1;
      AuditOnlyGrows(events, more[..last]);
      RunStep(events, more);
      EveryRunHolds(events + more[..last]);
      StepOnlyAdds(Run(events + more[..last]), more[last]);
      hide Run, Step, TrailHolds, SlotsHold, CallsFit;
    }
  }

  /**
   * An execution that has bound a context hands the adapter exactly that workspace, container and
   * configuration, whatever the store commits before, between or after its segments.
   */
  lemma BoundIsWhatRuns(events: seq<Event>, more: seq<Event>, id: nat, v: Invocation)
    requires id in Run(events).calls && Run(events).calls[id].bound.Some?
    requires v in Run(events + more).adapter && v.call == id && !TakesSlot(v.kind)
    ensures v.containerId.Some?
    ensures Run(events).calls[id].bound.value == Context(v.workspace, v.containerId.value, v.configPath)
  {
    AuditOnlyGrows(events, more);
    EveryRunHolds(events + more);
    hide Run, SlotsHold, CallsFit;
    assert InvocationTells(Run(events + more), v);
  }

  /**
   * The context an execution binds is the one the store's selection gives at that moment; logs, stop and
   * remove act on the selected container only, running or stopped.
   */
  lemma BoundIsTheSelection(w: World, e: Event, id: nat)
    requires CallsFit(w) && id in Step(w, e).calls && Step(w, e).calls[id].bound.Some?
    requires id !in w.calls || w.calls[id].bound.None?
    ensures var call := Step(w, e).calls[id];
      if Executes(call.request.kind) then Bind(w.selection) == Bound(call.bound.value)
      else BindContainer(w.selection, call.bound.value.candidateId)
  {
    if Due(w, e) {
      EffectIsSound(w, e);
      hide EffectOf, Due, Accounts, SlotsRight, CallFits, Bind, BindContainer;
    }
  }

  /**
   * Nothing reaches an adapter past a check that failed: not without authorization, not an unconfirmed
   * rebuild, not past the host-path guard, and not from another project's workspace.
   */
  lemma SendsOnlyWhenCleared(w: World, e: Event)
    requires Due(w, e) && CallsFit(w) && EffectOf(w, e).sent != []
    ensures e.Begin? || e.AutoSelected? || e.MappingRead?
    ensures e.Begin? ==> e.seen.authorized && (e.request.kind == Rebuild ==> e.seen.confirmed)
    ensures e.MappingRead? ==> e.answer == NoMapping || e.answer == NoHostPath
    ensures var call := EffectOf(w, e).call;
      Executes(call.request.kind) ==>
        && call.bound.Some? && !Mismatched(call.request, call.bound.value, e.seen)
        && (call.request.kind == ContainerExec && !e.MappingRead? ==> !e.seen.readsMapping)
  {
    hide Mismatched, Bind, BindContainer;
    if e.Begin? {
      SendsFromBegin(w, e);
    }
  }

  lemma SendsFromBegin(w: World, e: Event)
    requires e.Begin? && Due(w, e) && EffectOf(w, e).sent != []
    ensures e.seen.authorized && (e.request.kind == Rebuild ==> e.seen.confirmed)
    ensures var call := EffectOf(w, e).call;
      Executes(call.request.kind) ==>
        && call.bound.Some? && !Mismatched(call.request, call.bound.value, e.seen)
        && (call.request.kind == ContainerExec ==> !e.seen.readsMapping)
  {
    hide Mismatched, Bind, BindContainer;
  }
}
