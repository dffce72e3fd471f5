/**
 * What `off` guarantees about the target, and what it does not: one runtime's session state
 * (extensions/index.ts) joined with its store (src/target-store.ts).
 *
 * An automatic selection reads its permission, awaits the registry and enqueues its choice without looking
 * again; so does the restore of a session start. `off` enqueues its clear first and withdraws the permission
 * when the clear has committed.
 */
module OptOut {
  import opened Text
  import opened Selection
  import opened TargetStore
  import S = Session

  /** What a proposal selects; the empty selection is not one. */
  type Chosen = s: Selection | s.status != NothingSelected witness Selection(Missing, None, None)

  datatype Task = Adoption | Repair

  /** The session, the automatic selections that have their permission and await the registry, and the store's calls. */
  datatype Joint = Joint(session: S.World, tasks: map<nat, Task>, ops: seq<Op>)

  const START := Joint(S.FRESH, map[], [])

  /** Segments that concern the runtime `g`; `TurnedOff(g)` is the second half of its `off`. */
  datatype Move =
    | InSession(event: S.Event)
    | AutoBegun(task: nat, kind: Task)
    | AutoReturned(task: nat, found: Option<Chosen>)
    | RestoreReturned(restored: Chosen)
    | OffBegun
    | Commanded(chosen: Chosen)

  predicate Allowed(j: Joint, g: nat) {
    g in j.session.starts && j.session.starts[g].decision.active
  }

  predicate IsRestoring(j: Joint, g: nat) {
    g in j.session.starts && j.session.starts[g].phase == S.Restoring
  }

  function OpsFor(kind: Task, found: Option<Chosen>): seq<Op> {
    if found.None? then [] else if kind == Adoption then [PutIfNone(found.value)] else [Put(found.value)]
  }

  function Next(g: nat, j: Joint, m: Move): Joint {
    match m
    case InSession(event) => j.(session := S.Step(j.session, event))
    case AutoBegun(task, kind) => if task !in j.tasks && Allowed(j, g) then j.(tasks := j.tasks[task := kind]) else j
    case AutoReturned(task, found) =>
      if task !in j.tasks then j else j.(tasks := j.tasks - {task}, ops := j.ops + OpsFor(j.tasks[task], found))
    case RestoreReturned(restored) =>
      if !IsRestoring(j, g) then j
      else Joint(S.Step(j.session, S.RestoreReturned(g)), j.tasks, j.ops + [Put(restored)])
    case OffBegun => j.(ops := j.ops + [Clear])
    case Commanded(chosen) => j.(ops := j.ops + [Put(chosen)])
  }

  function Run(g: nat, j: Joint, moves: seq<Move>): Joint
    decreases |moves|
  {
    if moves == [] then j else Next(g, Run(g, j, moves[..|moves| - 1]), moves[|moves| - 1])
  }

  lemma FrontOfConcat(a: seq<Move>, b: seq<Move>)
    requires b != []
    ensures var all := a + b; all[..|all| - 1] == a + b[..|b| - 1] && all[|all| - 1] == b[|b| - 1]
  {
  }

  lemma {:induction false} RunConcat(g: nat, j: Joint, a: seq<Move>, b: seq<Move>)
    ensures Run(g, j, a + b) == Run(g, Run(g, j, a), b)
    decreases |b|
  {
    hide Next;
    if b == [] {
      assert a + b == a;
    } else {
      FrontOfConcat(a, b);
      RunConcat(g, j, a, b[..|b| - 1]);
    }
  }

  lemma RunLast(g: nat, j: Joint, moves: seq<Move>, m: Move)
    ensures Run(g, j, moves + [m]) == Next(g, Run(g, j, moves), m)
  {
    hide Next;
    FrontOfConcat(moves, [m]);
    assert [m][..0] == [] && moves + [] == moves;
  }

  /** The choice of an automatic selection or of the restore reaches the store's queue. */
  predicate Enqueues(g: nat, j: Joint, m: Move) {
    (m.AutoReturned? && m.task in j.tasks && m.found.Some?) || (m.RestoreReturned? && IsRestoring(j, g))
  }

  ghost predicate SomeEnqueues(g: nat, j: Joint, moves: seq<Move>) {
    exists k: nat :: k < |moves| && Enqueues(g, Run(g, j, moves[..k]), moves[k])
  }

  /** Nothing the operator asks for: no command that selects, no further `off`, and no engaging of this runtime. */
  predicate Undisturbed(g: nat, moves: seq<Move>) {
    forall m :: m in moves ==> !m.Commanded? && !m.OffBegun? && m != InSession(S.Engaged(g))
  }

  /** What each move does to the selection the store comes to, and which automatic selections await the registry. */
  lemma MovesExactly(g: nat, j: Joint, m: Move)
    ensures var next, s := Next(g, j, m), Fold(j.ops); var now := Fold(next.ops);
      match m {
        case InSession(_) => now == s && next.tasks == j.tasks
        case AutoBegun(task, kind) =>
          && now == s
          && next.tasks == if g in j.session.starts && j.session.starts[g].decision.active && task !in j.tasks
                           then j.tasks[task := kind] else j.tasks
        case AutoReturned(task, found) =>
          && task !in next.tasks && (forall t :: t in j.tasks && t != task ==> t in next.tasks)
          && now == if task !in j.tasks || found.None? then s
                    else if j.tasks[task] == Adoption && s.status != NothingSelected then s
                    else found.value
        case RestoreReturned(restored) =>
          && next.tasks == j.tasks
          && now == if g in j.session.starts && j.session.starts[g].phase == S.Restoring then restored else s
        case OffBegun => now == NO_SELECTION && next.tasks == j.tasks
        case Commanded(chosen) => now == chosen && next.tasks == j.tasks
      }
  {
    var next := Next(g, j, m);
    if |next.ops| > |j.ops| {
      assert next.ops[..|next.ops| - 1] == j.ops;
    } else {
      assert next.ops == j.ops;
    }
    hide S.Step;
  }

  // ---------- When the store stays empty ----------

  lemma SomeEnqueuesStep(g: nat, j: Joint, moves: seq<Move>)
    requires moves != []
    ensures var n := |moves| - 1;
      SomeEnqueues(g, j, moves) <==> SomeEnqueues(g, j, moves[..n]) || Enqueues(g, Run(g, j, moves[..n]), moves[n])
  {
    hide Run, Enqueues;
    var n := |moves| - 1;
    forall k: nat | k < n ensures moves[..n][..k] == moves[..k] && moves[..n][k] == moves[k] {
    }
    if SomeEnqueues(g, j, moves[..n]) {
      var k: nat :| k < n && Enqueues(g, Run(g, j, moves[..n][..k]), moves[..n][k]);
      assert Enqueues(g, Run(g, j, moves[..k]), moves[k]);
    }
    if SomeEnqueues(g, j, moves) && !Enqueues(g, Run(g, j, moves[..n]), moves[n]) {
      var k: nat :| k < |moves| && Enqueues(g, Run(g, j, moves[..k]), moves[k]);
      assert k < n && Enqueues(g, Run(g, j, moves[..n][..k]), moves[..n][k]);
    }
  }

  lemma QuietAppend(ops: seq<Op>, op: Op)
    ensures Quiet(ops + [op]) <==> op.Clear? || (!Selects(op) && Quiet(ops))
    ensures ProperTargets(ops) && (Selects(op) ==> op.target.status != NothingSelected) ==> ProperTargets(ops + [op])
  {
    assert (ops + [op])[..|ops|] == ops;
  }

  lemma MoveKeepsQuiet(g: nat, j: Joint, m: Move)
    requires ProperTargets(j.ops)
    ensures ProperTargets(Next(g, j, m).ops)
    ensures !m.Commanded? && !m.OffBegun? ==> (Quiet(Next(g, j, m).ops) <==> Quiet(j.ops) && !Enqueues(g, j, m))
  {
    var next := Next(g, j, m);
    if next.ops != j.ops {
      var op := next.ops[|j.ops|];
      assert next.ops == j.ops + [op];
      QuietAppend(j.ops, op);
    }
    hide Quiet, ProperTargets;
  }

  lemma UndisturbedStep(g: nat, moves: seq<Move>)
    requires moves != [] && Undisturbed(g, moves)
    ensures var n := |moves| - 1;
      Undisturbed(g, moves[..n]) && !moves[n].Commanded? && !moves[n].OffBegun? && moves[n] != InSession(S.Engaged(g))
  {
    assert moves[|moves| - 1] in moves;
  }

  lemma {:induction false} RunKeepsQuiet(g: nat, j: Joint, moves: seq<Move>)
    requires ProperTargets(j.ops)
    ensures ProperTargets(Run(g, j, moves).ops)
    ensures Undisturbed(g, moves) ==> (Quiet(Run(g, j, moves).ops) <==> Quiet(j.ops) && !SomeEnqueues(g, j, moves))
    decreases |moves|
  {
    if moves != [] {
      var n := |moves| - 1;
      RunKeepsQuiet(g, j, moves[..n]);
      MoveKeepsQuiet(g, Run(g, j, moves[..n]), moves[n]);
      SomeEnqueuesStep(g, j, moves);
      if Undisturbed(g, moves) {
        UndisturbedStep(g, moves);
      }
      hide Quiet, ProperTargets, Next, SomeEnqueues, Enqueues, Undisturbed;
    }
  }

  // ---------- Whose choice can still arrive ----------

  /** Permission was read, or the restore begun, in this state. */
  predicate InFlight(g: nat, j: Joint, m: Move) {
    (m.AutoReturned? && m.task in j.tasks) || (m.RestoreReturned? && IsRestoring(j, g))
  }

  /** The permission is withdrawn, and no probe of the start can give it back. */
  ghost predicate Withdrawn(g: nat, j: Joint) {
    S.Orderly(j.session) && S.HeldOff(j.session, g)
  }

  /** Nothing new joins: the pending selections are some of the earlier ones, and a restore was already under way. */
  predicate OnlyFinishes(g: nat, j: Joint, next: Joint) {
    next.tasks.Keys <= j.tasks.Keys && (IsRestoring(next, g) ==> IsRestoring(j, g))
  }

  lemma SessionOnlyFinishes(g: nat, w: S.World, e: S.Event)
    requires S.Orderly(w) && S.HeldOff(w, g) && e != S.Engaged(g)
    ensures var next := S.Step(w, e);
      && S.Orderly(next) && S.HeldOff(next, g)
      && (next.starts[g].phase == S.Restoring ==> w.starts[g].phase == S.Restoring)
  {
    S.StepKeepsOff(w, e, g);
    S.StepRegistersCurrentOnly(w, e, g);
    if e.RestoreReturned? {
      S.RestoreEnds(w, e.generation);
    }
    hide S.Recovered, S.DecideActivation, S.Count;
  }

  lemma MoveOnlyFinishes(g: nat, j: Joint, m: Move)
    requires Withdrawn(g, j) && m != InSession(S.Engaged(g))
    ensures Withdrawn(g, Next(g, j, m)) && OnlyFinishes(g, j, Next(g, j, m))
  {
    if m.InSession? {
      SessionOnlyFinishes(g, j.session, m.event);
    } else if m.RestoreReturned? {
      SessionOnlyFinishes(g, j.session, S.RestoreReturned(g));
    }
    hide S.Step, S.Orderly;
  }

  lemma {:induction false} RunOnlyFinishes(g: nat, j: Joint, moves: seq<Move>)
    requires Withdrawn(g, j) && Undisturbed(g, moves)
    ensures Withdrawn(g, Run(g, j, moves)) && OnlyFinishes(g, j, Run(g, j, moves))
    decreases |moves|
  {
    if moves != [] {
      var n := |moves| - 1;
      UndisturbedStep(g, moves);
      RunOnlyFinishes(g, j, moves[..n]);
      MoveOnlyFinishes(g, Run(g, j, moves[..n]), moves[n]);
      hide Next, Withdrawn, Undisturbed;
    }
  }

  lemma {:induction false} RunIsOrderly(g: nat, moves: seq<Move>)
    ensures S.Orderly(Run(g, START, moves).session) && ProperTargets(Run(g, START, moves).ops)
    decreases |moves|
  {
    RunKeepsQuiet(g, START, moves);
    if moves != [] {
      var n := |moves| - 1;
      RunIsOrderly(g, moves[..n]);
      var j := Run(g, START, moves[..n]);
      if moves[n].InSession? {
        S.StepRegistersCurrentOnly(j.session, moves[n].event, g);
      } else {
        S.StepRegistersCurrentOnly(j.session, S.RestoreReturned(g), g);
      }
      hide S.Step, S.Orderly, S.Count, ProperTargets;
    }
  }

  /**
   * After `off` the store stays empty exactly when no adoption, repair or restore enqueues its choice after the
   * clear; and of those, only ones that had their permission before `off` withdrew it can still arrive.
   */
  lemma OffEmptiesExactly(g: nat, before: seq<Move>, during: seq<Move>, after: seq<Move>)
    requires g in Run(g, START, before).session.starts
    requires Undisturbed(g, during) && Undisturbed(g, after)
    ensures var cleared := Run(g, START, before + [OffBegun]);
      var off := Run(g, cleared, during + [InSession(S.TurnedOff(g))]);
      var end := Run(g, off, after);
      && (Fold(end.ops).status == NothingSelected <==>
            !SomeEnqueues(g, cleared, during) && !SomeEnqueues(g, off, after))
      && forall k: nat :: k < |after| && Enqueues(g, Run(g, off, after[..k]), after[k]) ==> InFlight(g, off, after[k])
  {
    var cleared, turned := Run(g, START, before + [OffBegun]), during + [InSession(S.TurnedOff(g))];
    var off := Run(g, cleared, turned);
    ClearedIsQuiet(g, before);
    TurningOffKeepsQuiet(g, cleared, during);
    RunKeepsQuiet(g, off, after);
    EmptyExactly(Run(g, off, after).ops);
    TurnedOffIsWithdrawn(g, before + [OffBegun], during);
    OnlyInFlightArrive(g, off, after);
    hide Run, Quiet, ProperTargets, Fold, SomeEnqueues, Withdrawn, IsRestoring, Undisturbed, Enqueues, InFlight;
  }

  /** A choice is still in flight: an adoption or repair awaits the registry, or a restore is under way. */
  predicate Pending(g: nat, j: Joint) {
    j.tasks != map[] || IsRestoring(j, g)
  }

  /** Whatever is in flight can arrive next, with any target it found. */
  lemma PendingArrives(g: nat, off: Joint, found: Chosen) returns (m: Move)
    requires Pending(g, off)
    ensures Undisturbed(g, [m]) && Fold(Run(g, off, [m]).ops).status != NothingSelected
  {
    if off.tasks != map[] {
      var task :| task in off.tasks;
      m := AutoReturned(task, Some(found));
    } else {
      m := RestoreReturned(found);
    }
    RunLast(g, off, [], m);
    assert [] + [m] == [m];
    MovesExactly(g, off, m);
    hide Next, Fold;
  }

  /**
   * What can be read off when `off` is done: whatever happens next that the operator does not ask for, the store
   * stays empty, exactly when nothing arrived meanwhile and nothing is in flight.
   */
  lemma StaysEmptyExactly(g: nat, before: seq<Move>, during: seq<Move>)
    requires g in Run(g, START, before).session.starts && Undisturbed(g, during)
    ensures var cleared := Run(g, START, before + [OffBegun]);
      var off := Run(g, cleared, during + [InSession(S.TurnedOff(g))]);
      (forall after :: Undisturbed(g, after) ==> Fold(Run(g, off, after).ops).status == NothingSelected)
        <==> !SomeEnqueues(g, cleared, during) && !Pending(g, off)
  {
    var cleared := Run(g, START, before + [OffBegun]);
    var off := Run(g, cleared, during + [InSession(S.TurnedOff(g))]);
    OffEmptiesExactly(g, before, during, []);
    if Pending(g, off) {
      var m := PendingArrives(g, off, Selection(Missing, None, None));
    } else if !SomeEnqueues(g, cleared, during) {
      forall after | Undisturbed(g, after) ensures Fold(Run(g, off, after).ops).status == NothingSelected {
        OffEmptiesExactly(g, before, during, after);
        hide Run, Fold, Undisturbed;
      }
    } else {
      assert !SomeEnqueues(g, off, []) && Undisturbed(g, []);
    }
    hide Run, Fold, IsRestoring, Enqueues;
  }

  lemma TurningOffKeepsQuiet(g: nat, cleared: Joint, during: seq<Move>)
    requires Quiet(cleared.ops) && ProperTargets(cleared.ops) && Undisturbed(g, during)
    ensures var off := Run(g, cleared, during + [InSession(S.TurnedOff(g))]);
      ProperTargets(off.ops) && (Quiet(off.ops) <==> !SomeEnqueues(g, cleared, during))
  {
    var turned := during + [InSession(S.TurnedOff(g))];
    RunKeepsQuiet(g, cleared, turned);
    SomeEnqueuesStep(g, cleared, turned);
    hide Run, Quiet, ProperTargets, SomeEnqueues, IsRestoring;
    assert turned[..|during|] == during && Undisturbed(g, turned);
  }

  lemma OnlyInFlightArrive(g: nat, off: Joint, after: seq<Move>)
    requires Withdrawn(g, off) && Undisturbed(g, after)
    ensures forall k: nat ::
      k < |after| && Enqueues(g, Run(g, off, after[..k]), after[k]) ==> InFlight(g, off, after[k])
  {
    forall k: nat | k < |after| && Enqueues(g, Run(g, off, after[..k]), after[k]) ensures InFlight(g, off, after[k]) {
      RunOnlyFinishes(g, off, after[..k]);
    }
    hide Run, Withdrawn, IsRestoring;
  }

  lemma ClearedIsQuiet(g: nat, before: seq<Move>)
    ensures var cleared := Run(g, START, before + [OffBegun]);
      Quiet(cleared.ops) && ProperTargets(cleared.ops) && cleared.session == Run(g, START, before).session
  {
    RunIsOrderly(g, before);
    assert (before + [OffBegun])[..|before|] == before;
    QuietAppend(Run(g, START, before).ops, Clear);
    hide Quiet, ProperTargets;
  }

  lemma {:induction false} StartsRemain(g: nat, j: Joint, moves: seq<Move>)
    requires g in j.session.starts
    ensures g in Run(g, j, moves).session.starts
    decreases |moves|
  {
    if moves != [] {
      StartsRemain(g, j, moves[..|moves| - 1]);
      hide S.Recovered, S.DecideActivation;
    }
  }

  lemma TurnedOffIsWithdrawn(g: nat, moves: seq<Move>, during: seq<Move>)
    requires g in Run(g, START, moves).session.starts
    ensures Withdrawn(g, Run(g, Run(g, START, moves), during + [InSession(S.TurnedOff(g))]))
  {
    var begun := Run(g, START, moves);
    var j := Run(g, begun, during);
    RunConcat(g, START, moves, during);
    RunIsOrderly(g, moves + during);
    StartsRemain(g, begun, during);
    RunLast(g, begun, during, InSession(S.TurnedOff(g)));
    S.StepRegistersCurrentOnly(j.session, S.TurnedOff(g), g);
    hide S.Count, S.Recovered, S.DecideActivation, Run;
  }

  // ---------- Runs in which a target outlives `off` ----------

  lemma FiveMoves(g: nat, a: Move, b: Move, c: Move, d: Move, e: Move)
    ensures Run(g, START, [a, b, c, d, e]) == Next(g, Next(g, Next(g, Next(g, Next(g, START, a), b), c), d), e)
  {
    RunNothing(g);
    RunLast(g, START, [], a);
    RunLast(g, START, [a], b);
    RunLast(g, START, [a, b], c);
    RunLast(g, START, [a, b, c], d);
    RunLast(g, START, [a, b, c, d], e);
    hide Run, Next;
    assert [] + [a] == [a] && [a] + [b] == [a, b] && [a, b] + [c] == [a, b, c] && [a, b, c] + [d] == [a, b, c, d];
    assert [a, b, c, d] + [e] == [a, b, c, d, e];
  }

  lemma RunNothing(g: nat)
    ensures Run(g, START, []) == START
  {
  }

  /**
   * The first half of `off` commits the clear, the second withdraws the permission; neither touches pending
   * selections.
   */
  lemma OffInTwo(j: Joint)
    requires 1 in j.session.starts && j.ops == []
    ensures var off := Next(1, Next(1, j, OffBegun), InSession(S.TurnedOff(1)));
      && off.tasks == j.tasks && off.ops == [Clear] && !Allowed(off, 1) && (IsRestoring(off, 1) <==> IsRestoring(j, 1))
  {
    hide S.Recovered, S.DecideActivation;
  }

  /** An adoption reads its permission, `off` runs, and the adoption selects its target. */
  lemma LateAdoptionSelects(found: Chosen)
    ensures var moves := [
        InSession(S.StartBegun(S.Auto, true)), AutoBegun(0, Adoption), OffBegun, InSession(S.TurnedOff(1)),
        AutoReturned(0, Some(found))];
      var end := Run(1, START, moves);
      end.ops == [Clear, PutIfNone(found)] && Fold(end.ops) == found && !Allowed(end, 1)
  {
    var start, adopt := InSession(S.StartBegun(S.Auto, true)), AutoBegun(0, Adoption);
    var late := AutoReturned(0, Some(found));
    FiveMoves(1, start, adopt, OffBegun, InSession(S.TurnedOff(1)), late);
    AdoptionBegins(adopt);
    var j := Next(1, Next(1, START, start), adopt);
    OffInTwo(j);
    FoldsTo(PutIfNone(found));
    hide Run, S.Step, Fold;
  }

  lemma AdoptionBegins(adopt: Move)
    requires adopt == AutoBegun(0, Adoption)
    ensures var j := Next(1, Next(1, START, InSession(S.StartBegun(S.Auto, true))), adopt);
      1 in j.session.starts && j.ops == [] && j.tasks == map[0 := Adoption]
  {
  }

  /** The restore of a remembered selection is under way, `off` runs, and the restore selects its target. */
  lemma LateRestoreSelects(found: Chosen)
    ensures var moves := [
        InSession(S.Appended(S.Selected("/w", None, None))), InSession(S.StartBegun(S.Auto, true)), OffBegun,
        InSession(S.TurnedOff(1)), RestoreReturned(found)];
      var end := Run(1, START, moves);
      end.ops == [Clear, Put(found)] && Fold(end.ops) == found && !Allowed(end, 1)
  {
    var record, start := InSession(S.Appended(S.Selected("/w", None, None))), InSession(S.StartBegun(S.Auto, true));
    FiveMoves(1, record, start, OffBegun, InSession(S.TurnedOff(1)), RestoreReturned(found));
    RestoreBegins();
    var j := Next(1, Next(1, START, record), start);
    OffInTwo(j);
    RestoreEnds(Next(1, Next(1, j, OffBegun), InSession(S.TurnedOff(1))), found);
    FoldsTo(Put(found));
    hide Run, S.Step, Next, Fold;
  }

  lemma RestoreBegins()
    ensures var j := Next(1, Next(1, START, InSession(S.Appended(S.Selected("/w", None, None)))),
                          InSession(S.StartBegun(S.Auto, true)));
      1 in j.session.starts && j.ops == [] && IsRestoring(j, 1)
  {
    S.AppendedIsRecovered([], S.Selected("/w", None, None));
    hide S.Recovered;
  }

  lemma RestoreEnds(j: Joint, found: Chosen)
    requires 1 in j.session.starts && IsRestoring(j, 1) && !Allowed(j, 1)
    ensures var end := Next(1, j, RestoreReturned(found));
      end.ops == j.ops + [Put(found)] && !Allowed(end, 1)
  {
    hide S.Recovered, S.DecideActivation;
  }

  lemma FoldsTo(op: Op)
    requires (op.Put? || op.PutIfNone?) && op.target.status != NothingSelected
    ensures Fold([Clear, op]) == op.target
  {
    assert [Clear, op][..1] == [Clear] && [Clear][..0] == [];
  }
}
