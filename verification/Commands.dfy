/**
 * The commands that change the target (src/commands.ts, extensions/index.ts), on the store and the session log.
 *
 * A command that awaits its own store operation sees everything enqueued before it committed first.
 */
module Commands {
  import opened Text
  import opened Discovery
  import opened Registry
  import opened Selection
  import opened SelectionRuns
  import opened TargetStore
  import opened Session
  import opened Reload

  /** The metadata that engages the session: a usable or a stopped target, nothing else. */
  function Established(s: Selection): Option<Path> {
    if s.status == Valid || s.status == Stopped then s.workspaceKey else None
  }

  class CommandServices {
    const store: Store
    var log: seq<LogEntry>

    ghost predicate Ready()
      reads this, store
    {
      store.Valid()
    }

    constructor ()
      ensures Ready() && fresh(store) && log == [] && store.calls == [] && store.done == 0
    {
      store := new Store();
      log := [];
    }

    /** Waits for the operation just enqueued. */
    method AwaitLast() returns (committed: bool)
      requires Ready() && store.done < |store.calls|
      modifies store
      ensures Ready() && store.calls == old(store.calls) && store.done == |store.calls|
      ensures store.selection == Fold(store.calls)
      ensures var n := |store.calls| - 1;
        committed <==> !(store.calls[n].PutIfNone? && Fold(store.calls[..n]).status != NothingSelected)
    {
      committed := false;
      while store.queue != []
        invariant Ready() && store.calls == old(store.calls) && store.done <= |store.calls|
        invariant store.done == |store.calls| ==>
          var n := |store.calls| - 1;
          (committed <==> !(store.calls[n].PutIfNone? && Fold(store.calls[..n]).status != NothingSelected))
        decreases |store.calls| - store.done
      {
        committed := store.Commit();
      }
      assert store.calls[..|store.calls|] == store.calls;
    }

    method ApplySelection(target: Selection) returns (established: Option<Path>)
      requires Ready()
      modifies this, store
      ensures Ready() && store.calls == old(store.calls) + [Put(target)] && store.done == |store.calls|
      ensures store.selection == target
      ensures established == if target.status in {Valid, Stopped} then target.workspaceKey else None
      ensures log == old(log) + if target.workspaceKey.Some? then [Recorded(Remembered(target).value)] else []
    {
      store.Select(target);
      assert store.calls[..|store.calls| - 1] == old(store.calls);
      var _ := AwaitLast();
      var snapshot := store.Snapshot();
      assert store.calls[..store.done] == store.calls;
      if snapshot.workspaceKey.None? {
        return None;
      }
      log := log + [Recorded(Hint(snapshot.workspaceKey.value, snapshot.candidateId, snapshot.configPath))];
      established := Established(target);
    }

    /** `use`: a request that selects nothing leaves the store and the log alone. */
    method UseTarget(entries: seq<Entry>, request: Request) returns (established: Option<Path>)
      requires Ready()
      modifies this, store
      ensures Ready()
      ensures var s := Use(entries, request);
        if s.None? then
          && established.None? && log == old(log)
          && store.calls == old(store.calls) && store.selection == old(store.selection)
        else
          && store.calls == old(store.calls) + [Put(s.value)] && store.selection == s.value
          && established == (if s.value.status in {Valid, Stopped} then s.value.workspaceKey else None)
          && log == old(log) + if s.value.workspaceKey.Some? then [Recorded(Remembered(s.value).value)] else []
    {
      var s := Use(entries, request);
      if s.None? {
        return None;
      }
      established := ApplySelection(s.value);
    }

    /** Restore, `list` and `up`: the store is read when the registry has answered; only a found target is recorded. */
    method ReconcileSelection(entries: seq<Entry>, hint: Hint, persists: bool) returns (s: Selection)
      requires Ready()
      modifies this, store
      ensures Ready() && s == Reconcile(entries, hint, SnapshotOf(old(store.selection)))
      ensures store.calls == old(store.calls) + [Put(s)] && store.selection == s
      ensures log == old(log) +
        if persists && s.status != Missing && s.workspaceKey.Some? then [Recorded(Remembered(s).value)] else []
    {
      var current := store.Snapshot();
      s := Reconcile(entries, hint, current);
      store.Select(s);
      assert store.calls[..|store.calls| - 1] == old(store.calls);
      var _ := AwaitLast();
      if s.status != Missing && persists && s.workspaceKey.Some? {
        log := log + [Recorded(Remembered(s).value)];
      }
    }

    /** `off`: nothing is selected, and the tombstone supersedes every earlier record. */
    method Off()
      requires Ready()
      modifies this, store
      ensures Ready() && store.selection == NO_SELECTION && log == old(log) + [Encoded(Cleared)]
      ensures Recovered(log) == Some(Cleared)
    {
      store.ClearAll();
      assert store.calls[..|store.calls| - 1] == old(store.calls);
      var _ := AwaitLast();
      log := log + [Encoded(Cleared)];
      AppendedIsRecovered(old(log), Cleared);
    }

    /**
     * An adoption commits with `selectIfNone` when the store looked empty, a repair with a plain `select`: only
     * the adoption gives way to whatever was enqueued since the store was read.
     */
    method AutoSelect(
      allowed: bool, entries: seq<Entry>, realpath: Path -> Path, request: Path, reach: Reach, seen: Snapshot)
      returns (committed: bool)
      requires Ready()
      modifies this, store
      ensures Ready() && log == old(log)
      ensures var s := Adopt(entries, realpath, request, reach, seen);
        if !allowed || s.None? then
          store.calls == old(store.calls) && store.selection == old(store.selection) && !committed
        else if seen.status != NothingSelected then store.selection == s.value && committed
        else
          var before := Fold(old(store.calls));
          store.selection == (if before.status == NothingSelected then s.value else before)
          && (committed <==> before.status == NothingSelected)
    {
      var s := Adopt(entries, realpath, request, reach, seen);
      if !allowed || s.None? {
        return false;
      }
      if seen.status == NothingSelected {
        store.SelectIfNone(s.value);
      } else {
        store.Select(s.value);
      }
      assert store.calls[..|store.calls| - 1] == old(store.calls);
      committed := AwaitLast();
    }
  }
}
