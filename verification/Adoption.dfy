/**
 * What an automatic choice selects (src/target-adoption.ts, src/target-repair.ts), in terms of the containers that
 * run in the project.
 */
module Adoption {
  import opened Text
  import opened Discovery
  import opened Registry
  import opened Selection
  import opened SelectionLaws
  import opened SelectionRuns
  import Paths

  // ---------- How many containers run ----------

  predicate Runs(containers: seq<Candidate>, i: nat) {
    i < |containers| && containers[i].state == Running
  }

  /** Two different containers run. */
  ghost predicate SeveralRun(containers: seq<Candidate>) {
    exists i: nat, j: nat :: i < j && Runs(containers, i) && Runs(containers, j)
  }

  /** This container runs and no other does. */
  ghost predicate OnlyRuns(containers: seq<Candidate>, i: nat) {
    Runs(containers, i) && forall j: nat :: Runs(containers, j) ==> j == i
  }

  lemma {:induction false} NoneRuns(containers: seq<Candidate>)
    ensures RunningOf(containers) == [] <==> forall i: nat :: !Runs(containers, i)
  {
    if containers != [] {
      var n := |containers| - 1;
      NoneRuns(containers[..n]);
      assert forall i: nat :: i < n ==> Runs(containers, i) == Runs(containers[..n], i);
      assert Runs(containers, n) <==> containers[n].state == Running;
    }
  }

  lemma {:induction false} SeveralAreCounted(containers: seq<Candidate>)
    ensures IsAmbiguous(containers) <==> SeveralRun(containers)
  {
    if containers != [] {
      var n := |containers| - 1;
      var front := containers[..n];
      SeveralAreCounted(front);
      NoneRuns(front);
      assert forall i: nat :: i < n ==> Runs(containers, i) == Runs(front, i);
      assert Runs(containers, n) <==> containers[n].state == Running;
      if SeveralRun(front) {
        var i: nat, j: nat :| i < j && Runs(front, i) && Runs(front, j);
        assert Runs(containers, i) && Runs(containers, j);
      }
      if SeveralRun(containers) && !SeveralRun(front) {
        var i: nat, j: nat :| i < j && Runs(containers, i) && Runs(containers, j);
        assert j == n && Runs(front, i);
      }
      if containers[n].state == Running && RunningOf(front) != [] {
        var i: nat :| Runs(front, i);
        assert i < n && Runs(containers, i) && Runs(containers, n);
      }
    }
  }

  /** An entry is ambiguous exactly when two of its containers run; one that runs stands first. */
  lemma RunningStandsFirst(e: Entry)
    requires WellBuilt(e)
    ensures e.ambiguous <==> SeveralRun(e.containers)
    ensures forall i: nat :: OnlyRuns(e.containers, i) ==> i == 0
    ensures (forall i: nat :: !Runs(e.containers, i)) || Runs(e.containers, 0)
  {
    SeveralAreCounted(e.containers);
    forall i: nat | Runs(e.containers, i) ensures Runs(e.containers, 0) {
      assert i > 0 ==> RunningFirst(e.containers[0], e.containers[i]);
    }
  }

  // ---------- What is adopted ----------

  /** The first configuration, if the command line tool does not look it up by itself. */
  function HasToBeNamed(e: Entry): Option<Path> {
    if e.ConfigEntry? && e.configs != [] && e.configs[0].configKind in {Named, RootPlain} then
      Some(e.configs[0].configPath)
    else None
  }

  /**
   * The choice without the operator for a project: its only running container, or a refusal to choose among
   * several, or, with none running, a stopped target that still names the first container there is.
   */
  ghost predicate Unassisted(e: Entry, s: Selection) {
    && s.workspaceKey == Some(e.workspacePath)
    && (SeveralRun(e.containers) ==> s.status == Status.Ambiguous && s.candidate == None)
    && (forall i: nat :: OnlyRuns(e.containers, i) ==>
          && s.status == Valid
          && Bind(s) == Bound(Context(e.workspacePath, e.containers[i].id, HasToBeNamed(e))))
    && ((forall i: nat :: !Runs(e.containers, i)) ==>
          && s.status == Stopped && Bind(s) == Refused(TargetStopped)
          && SnapshotOf(s).candidateId == (if e.containers == [] then None else Some(e.containers[0].id))
          && SnapshotOf(s).configPath == (if e.containers == [] then None else HasToBeNamed(e)))
  }

  lemma UnattendedIsUnassisted(e: Entry)
    requires WellBuilt(e)
    ensures Unassisted(e, SelectionFor(e, Unattended(e), None))
  {
    RunningStandsFirst(e);
    if !e.ambiguous {
      RunningIsPrimary(e);
    }
    NoneRuns(e.containers);
    hide RunningOf, IsAmbiguous, OnlyRuns, SeveralRun;
    if !e.ambiguous {
      forall i: nat | OnlyRuns(e.containers, i)
        ensures i == 0 && e.containers != [] && e.containers[0].state == Running
      {
        assert Runs(e.containers, i) by {
          OnlyIsOne(e.containers, i);
        }
      }
    }
  }

  lemma OnlyIsOne(containers: seq<Candidate>, i: nat)
    requires OnlyRuns(containers, i)
    ensures Runs(containers, i)
  {
  }

  /**
   * With nothing selected: something is adopted exactly when some project contains the request, and it is the
   * deepest such project, as the operator would have it.
   */
  lemma AdoptionExactly(entries: seq<Entry>, realpath: Path -> Path, request: Path, reach: Reach, now: Snapshot)
    requires Coherent(entries) && KeysResolved(entries) && Paths.Resolved(request, true)
    requires now.status == NothingSelected
    ensures var s := Adopt(entries, realpath, request, reach, now);
      && (s.Some? <==> exists e :: e in entries && Contained(request, e.workspacePath, reach))
      && (s.Some? ==> exists e :: IsDeepestProject(entries, request, reach, e) && Unassisted(e, s.value))
  {
    AdoptionFindsDeepest(entries, request, reach);
    var matches := Matches(entries, request, reach);
    if matches != [] {
      var e := Deepest(matches);
      hide Matches, Deepest, WellBuilt, Contained, Unassisted, SelectionFor;
      assert IsDeepestProject(entries, request, reach, e);
      UnattendedIsUnassisted(e);
    }
  }

  /**
   * With something selected: nothing happens unless it is parked, stopped or missing. Then the choice is made anew
   * exactly when the request lies in the parked workspace, which is found there with one container running; and
   * it binds that container, with the configuration selected before if that is still discovered.
   */
  lemma ParkedIsReplacedExactly(
    entries: seq<Entry>, realpath: Path -> Path, request: Path, reach: Reach, now: Snapshot)
    requires Coherent(entries) && now.status != NothingSelected
    requires forall p :: Paths.Resolved(realpath(p), true)
    ensures var s := Adopt(entries, realpath, request, reach, now);
      && (s.Some? <==>
            && (now.status == Stopped || now.status == Missing) && now.workspaceKey.Some?
            && realpath(now.workspaceKey.value) <= realpath(request)
            && exists e, i: nat ::
              e in entries && e.workspacePath == now.workspaceKey.value && OnlyRuns(e.containers, i))
      && (s.Some? ==>
            forall e, i: nat ::
              e in entries && e.workspacePath == now.workspaceKey.value && OnlyRuns(e.containers, i) ==>
              Bind(s.value) == Bound(Context(e.workspacePath, e.containers[i].id,
                if now.configPath.None? then HasToBeNamed(e)
                else if exists c :: c in ConfigsOfEntry(e) && Some(c.configPath) == now.configPath then now.configPath
                else None)))
  {
    if (now.status == Stopped || now.status == Missing) && now.workspaceKey.Some? {
      var key := now.workspaceKey.value;
      Paths.SpellResolves(realpath(request), true);
      Paths.SpellResolves(realpath(key), true);
      Paths.UnderIsSegmentPrefix(Key(realpath(request)), Key(realpath(key)));
      LookupMembers(entries, key);
      var found := Lookup(entries, key);
      if found.Some? {
        OnlyOneRepairs(found.value);
        hide OnlyRuns, Runs, SeveralRun;
        RepairBindsTheOnlyRunning(realpath, entries, request, now);
        hide Paths.IsAtOrUnder, RunningOf, Repair, WellBuilt;
      }
    }
  }

  lemma OnlyOneRepairs(e: Entry)
    requires WellBuilt(e)
    ensures (exists i: nat :: OnlyRuns(e.containers, i)) <==>
      !e.ambiguous && e.containers != [] && e.containers[0].state == Running
    ensures forall i: nat :: OnlyRuns(e.containers, i) ==> i == 0
  {
    RunningStandsFirst(e);
    FirstAlone(e.containers);
    assert e.containers != [] && e.containers[0].state == Running <==> Runs(e.containers, 0);
  }

  lemma FirstAlone(containers: seq<Candidate>)
    ensures Runs(containers, 0) ==> (OnlyRuns(containers, 0) <==> !SeveralRun(containers))
  {
    if Runs(containers, 0) && !OnlyRuns(containers, 0) {
      var j: nat :| Runs(containers, j) && j != 0;
      assert 0 < j;
    }
  }
}
