/**
 * The serialized target store (src/target-store.ts).
 *
 * A call enqueues its work on the promise queue and returns; each later `Commit` runs the oldest work.
 * The class invariant therefore holds under every interleaving of calls and commits.
 */
module TargetStore {
  import opened Selection

  datatype Op =
    | Put(target: Selection)
    | PutIfNone(target: Selection)
    | Clear
    | BeginRefresh
    | EndRefresh(target: Selection)

  function Apply(s: Selection, op: Op): Selection {
    match op
    case Put(target) => target
    case PutIfNone(target) => if s.status == NothingSelected then target else s
    case Clear => NO_SELECTION
    case BeginRefresh => if s.status == NothingSelected then s else s.(status := Refreshing)
    case EndRefresh(target) => target
  }

  /** The selection after some operations, run one after the other. */
  function Fold(ops: seq<Op>): Selection {
    if ops == [] then NO_SELECTION else Apply(Fold(ops[..|ops| - 1]), ops[|ops| - 1])
  }

  lemma FoldStep(ops: seq<Op>, n: nat)
    requires n < |ops|
    ensures Fold(ops[..n + 1]) == Apply(Fold(ops[..n]), ops[n])
  {
    assert ops[..n + 1][..n] == ops[..n];
  }

  class Store {
    var selection: Selection
    var queue: seq<Op>
    /** Every call so far, in call order, and how many of them have committed. */
    ghost var calls: seq<Op>
    ghost var done: nat

    /** The selection is the fold of the committed calls, in call order; the others wait in that order. */
    ghost predicate Valid()
      reads this
    {
      done <= |calls| && queue == calls[done..] && selection == Fold(calls[..done])
    }

    constructor ()
      ensures Valid() && calls == [] && done == 0 && selection == NO_SELECTION
    {
      selection, queue, calls, done := NO_SELECTION, [], [], 0;
    }

    method Enqueue(op: Op)
      requires Valid()
      modifies this
      ensures Valid() && calls == old(calls) + [op] && done == old(done) && selection == old(selection)
    {
      queue, calls := queue + [op], calls + [op];
      assert calls[..done] == old(calls)[..done];
    }

    method Select(target: Selection)
      requires Valid()
      modifies this
      ensures Valid() && calls == old(calls) + [Put(target)] && done == old(done) && selection == old(selection)
    {
      Enqueue(Put(target));
    }

    method SelectIfNone(target: Selection)
      requires Valid()
      modifies this
      ensures Valid() && calls == old(calls) + [PutIfNone(target)] && done == old(done) && selection == old(selection)
    {
      Enqueue(PutIfNone(target));
    }

    method ClearAll()
      requires Valid()
      modifies this
      ensures Valid() && calls == old(calls) + [Clear] && done == old(done) && selection == old(selection)
    {
      Enqueue(Clear);
    }

    method StartRefresh()
      requires Valid()
      modifies this
      ensures Valid() && calls == old(calls) + [BeginRefresh] && done == old(done) && selection == old(selection)
    {
      Enqueue(BeginRefresh);
    }

    method FinishRefresh(target: Selection)
      requires Valid()
      modifies this
      ensures Valid() && calls == old(calls) + [EndRefresh(target)] && done == old(done) && selection == old(selection)
    {
      Enqueue(EndRefresh(target));
    }

    /** Runs the oldest waiting work; the answer is what a `selectIfNone` call resolves to. */
    method Commit() returns (committed: bool)
      requires Valid() && done < |calls|
      modifies this
      ensures Valid() && calls == old(calls) && done == old(done) + 1
      ensures selection == Apply(old(selection), calls[old(done)])
      ensures committed <==> !(calls[old(done)].PutIfNone? && old(selection).status != NothingSelected)
    {
      var op := queue[0];
      committed := true;
      match op {
        case Put(target) => selection := target;
        case PutIfNone(target) =>
          if selection.status != NothingSelected {
            committed := false;
          } else {
            selection := target;
          }
        case Clear => selection := NO_SELECTION;
        case BeginRefresh =>
          if selection.status != NothingSelected {
            selection := selection.(status := Refreshing);
          }
        case EndRefresh(target) => selection := target;
      }
      queue := queue[1..];
      FoldStep(calls, done);
      done := done + 1;
    }

    method Snapshot() returns (s: Snapshot)
      requires Valid()
      ensures s == SnapshotOf(Fold(calls[..done]))
    {
      s := SnapshotOf(selection);
    }

    method BindNow() returns (b: Binding)
      requires Valid()
      ensures b == Bind(Fold(calls[..done]))
    {
      b := Bind(selection);
    }
  }

  // ---------- What the fold guarantees ----------

  lemma {:induction false} FoldConcat(before: seq<Op>, after: seq<Op>)
    requires after != []
    ensures Fold(before + after) == Apply(Fold(before + after[..|after| - 1]), after[|after| - 1])
  {
    assert (before + after)[..|before + after| - 1] == before + after[..|after| - 1];
  }

  predicate OnlyAdoptions(ops: seq<Op>) {
    forall op :: op in ops ==> op.PutIfNone?
  }

  /** Whatever is selected, no number of queued adoptions replaces it. */
  lemma {:induction false} AdoptionsNeverReplace(before: seq<Op>, after: seq<Op>)
    requires OnlyAdoptions(after) && Fold(before).status != NothingSelected
    ensures Fold(before + after) == Fold(before)
  {
    if after == [] {
      assert before + after == before;
    } else {
      assert after[|after| - 1] in after;
      AdoptionsNeverReplace(before, after[..|after| - 1]);
      FoldConcat(before, after);
    }
  }

  /** An explicit choice beats the adoptions called before it and the ones called after it. */
  lemma ExplicitChoiceStands(before: seq<Op>, choice: Selection, after: seq<Op>)
    requires OnlyAdoptions(after) && choice.status != NothingSelected
    ensures Fold(before + [Put(choice)] + after) == choice
  {
    assert (before + [Put(choice)])[..|before|] == before;
    AdoptionsNeverReplace(before + [Put(choice)], after);
  }

  /** Of the adoptions racing for an emptied store, the first called wins. */
  lemma FirstAdoptionWins(before: seq<Op>, choice: Selection, after: seq<Op>)
    requires OnlyAdoptions(after) && choice.status != NothingSelected
    ensures Fold(before + [Clear] + [PutIfNone(choice)] + after) == choice
  {
    var cleared := before + [Clear];
    assert cleared[..|before|] == before;
    assert (cleared + [PutIfNone(choice)])[..|cleared|] == cleared;
    AdoptionsNeverReplace(cleared + [PutIfNone(choice)], after);
  }

  /** A call that selects something, should it commit. */
  predicate Selects(op: Op) {
    op.Put? || op.PutIfNone? || op.EndRefresh?
  }

  /** Targets are selections; emptying the store is what `clear` is for. */
  predicate ProperTargets(ops: seq<Op>) {
    forall op :: op in ops ==> Selects(op) ==> op.target.status != NothingSelected
  }

  /** Everything since the last `clear`, or since the start, selects nothing. */
  predicate Quiet(ops: seq<Op>) {
    ops != [] && !ops[|ops| - 1].Clear? ==> !Selects(ops[|ops| - 1]) && Quiet(ops[..|ops| - 1])
  }

  /** From this position on nothing selects, and there the store was empty: at the start, or after a `clear`. */
  predicate QuietFrom(ops: seq<Op>, k: nat) {
    && k <= |ops| && (k == 0 || ops[k - 1].Clear?)
    && forall i :: k <= i < |ops| ==> !Selects(ops[i])
  }

  lemma {:induction false} QuietByPosition(ops: seq<Op>)
    ensures Quiet(ops) <==> exists k: nat :: QuietFrom(ops, k)
  {
    if ops == [] {
      assert QuietFrom(ops, 0);
    } else {
      var n := |ops| - 1;
      QuietByPosition(ops[..n]);
      assert ops[n].Clear? ==> QuietFrom(ops, n + 1);
      if k: nat :| k <= n && QuietFrom(ops, k) {
        assert QuietFrom(ops[..n], k);
      }
      if !Selects(ops[n]) && Quiet(ops[..n]) {
        var k: nat :| QuietFrom(ops[..n], k);
        assert QuietFrom(ops, k);
      }
    }
  }

  /**
   * The store is empty exactly when no call since the last `clear` selects anything: whether an adoption commits
   * is decided by the calls before it, never by when the work happens to run.
   */
  lemma {:induction false} EmptyExactly(ops: seq<Op>)
    requires ProperTargets(ops)
    ensures Fold(ops).status == NothingSelected <==> Quiet(ops)
    ensures Fold(ops).status == NothingSelected <==> exists k: nat :: QuietFrom(ops, k)
  {
    QuietByPosition(ops);
    if ops != [] {
      var n := |ops| - 1;
      assert ops[n] in ops && ProperTargets(ops[..n]);
      EmptyExactly(ops[..n]);
    }
  }

  /**
   * An adoption takes effect exactly when nothing selects anything between the last `clear` and its call, and then
   * it stands against every adoption called later.
   */
  lemma AdoptionTakesEffectExactly(before: seq<Op>, target: Selection, after: seq<Op>)
    requires ProperTargets(before) && target.status != NothingSelected && OnlyAdoptions(after)
    ensures Fold(before + [PutIfNone(target)] + after) == if Quiet(before) then target else Fold(before)
  {
    EmptyExactly(before);
    assert (before + [PutIfNone(target)])[..|before|] == before;
    AdoptionsNeverReplace(before + [PutIfNone(target)], after);
  }

  /**
   * From the beginning of a refresh until a choice, a `clear` or its end, whatever adoptions are called: what was
   * selected is marked and kept, and nothing binds. The end installs what it brings. An empty store stays empty.
   */
  lemma {:induction false} RefreshHolds(before: seq<Op>, during: seq<Op>, target: Selection)
    requires forall op :: op in during ==> op.PutIfNone? || op.BeginRefresh?
    ensures Fold(before).status != NothingSelected ==>
      var s, now := Fold(before), Fold(before + [BeginRefresh] + during);
      now == Selection(Refreshing, s.candidate, s.workspaceKey) && Bind(now) == Refused(TargetRefreshing)
    ensures Fold(before).status == NothingSelected ==> Fold(before + [BeginRefresh]) == Fold(before)
    ensures Fold(before + [BeginRefresh] + during + [EndRefresh(target)]) == target
  {
    var marked := before + [BeginRefresh];
    assert marked[..|before|] == before;
    assert (marked + during + [EndRefresh(target)])[..|marked + during|] == marked + during;
    if during == [] {
      assert marked + during == marked;
    } else {
      var n := |during| - 1;
      assert during[n] in during && forall op :: op in during[..n] ==> op in during;
      RefreshHolds(before, during[..n], target);
      FoldConcat(marked, during);
    }
  }

  /** The selection is always empty or the target of one of the calls, apart from the refresh mark. */
  lemma {:induction false} SelectionHasOrigin(ops: seq<Op>)
    ensures var s := Fold(ops);
      s == NO_SELECTION || exists i :: 0 <= i < |ops| && IsOrigin(ops[i], s)
  {
    if ops != [] {
      var n := |ops| - 1;
      SelectionHasOrigin(ops[..n]);
      if Fold(ops[..n]) != NO_SELECTION {
        var i :| 0 <= i < n && IsOrigin(ops[..n][i], Fold(ops[..n]));
        assert ops[i] == ops[..n][i];
      }
      assert IsOrigin(ops[n], Fold(ops)) || ops[n].BeginRefresh?
        || Fold(ops) == NO_SELECTION || Fold(ops[..n]) == Fold(ops);
    }
  }

  predicate IsOrigin(op: Op, s: Selection) {
    && (op.Put? || op.PutIfNone? || op.EndRefresh?)
    && (op.target == s || op.target.(status := Refreshing) == s)
  }
}
