/**
 * The short-lived cache of registry reads (src/short-cache.ts).
 *
 * A started load is known by its number, which stands for the promise's identity. Entries are kept in the
 * insertion order of the source's `Map`, which a hit renews.
 */
module ShortCache {
  import opened Text

  datatype Load = Load(key: string, at: int)

  datatype Slot = Slot(key: string, load: nat, at: int)

  function Without(entries: seq<Slot>, key: string): seq<Slot> {
    if entries == [] then []
    else
      var last := entries[|entries| - 1];
      Without(entries[..|entries| - 1], key) + if last.key == key then [] else [last]
  }

  function Find(entries: seq<Slot>, key: string): Option<Slot> {
    if entries == [] then None
    else if entries[|entries| - 1].key == key then Some(entries[|entries| - 1])
    else Find(entries[..|entries| - 1], key)
  }

  predicate DistinctKeys(entries: seq<Slot>) {
    forall i, j :: 0 <= i < j < |entries| ==> entries[i].key != entries[j].key
  }

  lemma {:induction false} WithoutMembers(entries: seq<Slot>, key: string)
    ensures forall s :: s in Without(entries, key) <==> s in entries && s.key != key
    ensures |Without(entries, key)| <= |entries|
    ensures (forall s :: s in entries ==> s.key != key) ==> Without(entries, key) == entries
    ensures (exists s :: s in entries && s.key == key) ==> |Without(entries, key)| < |entries|
  {
    if entries != [] {
      var n := |entries| - 1;
      WithoutMembers(entries[..n], key);
      assert entries == entries[..n] + [entries[n]];
      assert forall s :: s in entries <==> s in entries[..n] || s == entries[n];
      assert Without(entries, key) == Without(entries[..n], key) + if entries[n].key == key then [] else [entries[n]];
      hide Without;
    }
  }

  lemma {:induction false} WithoutDistinct(entries: seq<Slot>, key: string)
    requires DistinctKeys(entries)
    ensures DistinctKeys(Without(entries, key))
  {
    if entries != [] {
      var n := |entries| - 1;
      WithoutDistinct(entries[..n], key);
      WithoutMembers(entries[..n], key);
      var front := Without(entries[..n], key);
      forall i | 0 <= i < |front| ensures front[i].key != entries[n].key {
        assert front[i] in entries[..n];
      }
    }
  }

  lemma {:induction false} FindFinds(entries: seq<Slot>, key: string)
    ensures var f := Find(entries, key);
      if f.Some? then f.value in entries && f.value.key == key else forall s :: s in entries ==> s.key != key
  {
    if entries != [] {
      var n := |entries| - 1;
      FindFinds(entries[..n], key);
      assert entries == entries[..n] + [entries[n]];
    }
  }

  /** The number of the latest load started for a key. */
  function Latest(loads: seq<Load>, key: string): Option<nat> {
    if loads == [] then None
    else if loads[|loads| - 1].key == key then Some(|loads| - 1)
    else Latest(loads[..|loads| - 1], key)
  }

  lemma LatestStep(loads: seq<Load>, load: Load, key: string)
    ensures Latest(loads + [load], key) == if load.key == key then Some(|loads|) else Latest(loads, key)
  {
    assert (loads + [load])[..|loads|] == loads;
  }

  predicate IsLatest(loads: seq<Load>, s: Slot) {
    Latest(loads, s.key) == Some(s.load) && s.load < |loads| && loads[s.load] == Load(s.key, s.at)
  }

  /** One entry per key, each holding the latest load of its key. */
  predicate Current(entries: seq<Slot>, loads: seq<Load>) {
    DistinctKeys(entries) && forall s :: s in entries ==> IsLatest(loads, s)
  }

  lemma AppendKeeps(front: seq<Slot>, loads: seq<Load>, s: Slot)
    requires Current(front, loads) && IsLatest(loads, s) && forall t :: t in front ==> t.key != s.key
    ensures Current(front + [s], loads)
  {
    var all := front + [s];
    hide IsLatest;
    forall i, j | 0 <= i < j < |all| ensures all[i].key != all[j].key {
      assert all[i] == front[i] && front[i] in front;
    }
  }

  lemma RenewKeeps(entries: seq<Slot>, loads: seq<Load>, s: Slot)
    requires Current(entries, loads) && IsLatest(loads, s)
    ensures Current(Without(entries, s.key) + [s], loads)
  {
    WithoutMembers(entries, s.key);
    WithoutDistinct(entries, s.key);
    hide Without, IsLatest, DistinctKeys;
    AppendKeeps(Without(entries, s.key), loads, s);
  }

  lemma StartKeeps(entries: seq<Slot>, loads: seq<Load>, load: Load)
    requires Current(entries, loads)
    ensures Current(Without(entries, load.key) + [Slot(load.key, |loads|, load.at)], loads + [load])
  {
    var front, more := Without(entries, load.key), loads + [load];
    WithoutMembers(entries, load.key);
    WithoutDistinct(entries, load.key);
    forall s | s in front ensures IsLatest(more, s) {
      assert IsLatest(loads, s);
      LatestStep(loads, load, s.key);
    }
    LatestStep(loads, load, load.key);
    hide Without, Latest, DistinctKeys;
    AppendKeeps(front, more, Slot(load.key, |loads|, load.at));
  }

  lemma SuffixKeeps(entries: seq<Slot>, loads: seq<Load>, n: nat)
    requires Current(entries, loads) && n < |entries|
    ensures Current(entries[n..], loads) && entries[n..] != []
    ensures entries[n..][|entries[n..]| - 1] == entries[|entries| - 1]
  {
  }

  class Cache {
    const ttlMs: int
    const limit: nat
    var entries: seq<Slot>
    /** Every load started so far; its index is its identity. */
    var loads: seq<Load>

    /** Each cached value is the latest load started for its key, and there are never more than `limit`. */
    ghost predicate Valid()
      reads this
    {
      limit >= 1 && |entries| <= limit && Current(entries, loads)
    }

    constructor (ttlMs: Option<int>, limit: Option<int>)
      ensures Valid() && entries == [] && loads == []
      ensures this.limit == (if limit.None? then 8 else if limit.value < 1 then 1 else limit.value)
      ensures this.ttlMs == (if ttlMs.None? then 500 else if ttlMs.value < 0 then 0 else ttlMs.value)
    {
      this.ttlMs := if ttlMs.None? then 500 else if ttlMs.value < 0 then 0 else ttlMs.value;
      this.limit := if limit.None? then 8 else if limit.value < 1 then 1 else limit.value;
      entries, loads := [], [];
    }

    /**
     * The latest load of the key while it is younger than the time to live, or a new one. The key just asked
     * for is the most recent entry; what the limit pushes out are the least recent ones.
     */
    method Get(key: string, now: int) returns (load: nat)
      requires Valid()
      modifies this
      ensures Valid() && entries != [] && load < |loads|
      ensures Latest(loads, key) == Some(load) && (now - loads[load].at < ttlMs || loads[load].at == now)
      ensures entries[|entries| - 1] == Slot(key, load, loads[load].at)
      ensures var hit := Find(old(entries), key);
        if hit.Some? && now - hit.value.at < ttlMs
        then loads == old(loads) && load == hit.value.load && entries == Without(old(entries), key) + [hit.value]
        else
          var all := Without(old(entries), key) + [Slot(key, load, now)];
          && loads == old(loads) + [Load(key, now)] && load == |old(loads)|
          && |entries| == (if |all| > limit then limit else |all|) && entries == all[|all| - |entries|..]
    {
      var hit := Find(entries, key);
      FindFinds(entries, key);
      hide Find, Without, Current;
      if hit.Some? && now - hit.value.at < ttlMs {
        Renew(hit.value);
        return hit.value.load;
      }
      load := Start(key, now);
    }

    /** A hit becomes the most recent entry. */
    method Renew(hit: Slot)
      requires Valid() && hit in entries
      modifies this`entries
      ensures Valid() && entries == Without(old(entries), hit.key) + [hit]
      ensures IsLatest(loads, hit)
    {
      RenewKeeps(entries, loads, hit);
      WithoutMembers(entries, hit.key);
      hide Without, DistinctKeys, IsLatest;
      entries := Without(entries, hit.key) + [hit];
    }

    method Start(key: string, now: int) returns (load: nat)
      requires Valid()
      modifies this
      ensures Valid() && entries != [] && entries[|entries| - 1] == Slot(key, load, now)
      ensures loads == old(loads) + [Load(key, now)] && load == |old(loads)| && Latest(loads, key) == Some(load)
      ensures var all := Without(old(entries), key) + [Slot(key, load, now)];
        |entries| == (if |all| > limit then limit else |all|) && entries == all[|all| - |entries|..]
    {
      StartKeeps(entries, loads, Load(key, now));
      LatestStep(loads, Load(key, now), key);
      hide Latest, Without, Current, DistinctKeys, IsLatest;
      load := |loads|;
      loads := loads + [Load(key, now)];
      entries := Without(entries, key) + [Slot(key, load, now)];
      ghost var all := entries;
      ghost var n := if |all| > limit then |all| - limit else 0;
      assert all[|all| - 1] == Slot(key, load, now);
      SuffixKeeps(all, loads, n);
      Evict();
      assert entries == all[n..];
    }

    method Evict()
      requires limit >= 1
      modifies this`entries
      ensures |entries| == (if |old(entries)| > limit then limit else |old(entries)|)
      ensures entries == old(entries)[|old(entries)| - |entries|..]
    {
      while |entries| > limit
        invariant |entries| <= |old(entries)| && entries == old(entries)[|old(entries)| - |entries|..]
        invariant |entries| >= limit || |entries| == |old(entries)|
      {
        entries := entries[1..];
      }
    }

    /** A rejected load removes the entry that holds it, and no other: not a later load of the same key. */
    method LoadFailed(load: nat)
      requires Valid() && load < |loads|
      modifies this
      ensures Valid() && loads == old(loads)
      ensures var key := loads[load].key;
        entries == if Latest(loads, key) == Some(load) then Without(old(entries), key) else old(entries)
    {
      var key := loads[load].key;
      var hit := Find(entries, key);
      FindFinds(entries, key);
      WithoutMembers(entries, key);
      WithoutDistinct(entries, key);
      hide Latest, Find, Without;
      if hit.Some? && hit.value.load == load {
        entries := Without(entries, key);
      }
    }

    method Clear()
      requires Valid()
      modifies this
      ensures Valid() && entries == [] && loads == old(loads)
    {
      entries := [];
    }
  }
}
