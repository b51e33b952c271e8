/**
The cache of object databases (git/repository.c). Slots keep opened odbs for reuse; all
slot accesses happen in critical sections under one mutex. This module models the critical
sections on the slot array; OdbProtocol puts them into concurrent runs.
 */
module OdbCache {
  import opened Bytes

  const SLOT_COUNT := 1024

  type Odb = nat

  /** What is recorded about the commit-graph file of an objects directory. */
  datatype GraphState = NoGraph | GraphFile(device: int, inode: int, size: int, mtime: int)

  datatype Slot = Slot(odb: Option<Odb>, path: string, state: GraphState, inUse: bool, used: u64)
  const EMPTY := Slot(None, "", NoGraph, false, 0)

  datatype Cache = Cache(slots: seq<Slot>, clock: u64)

  function Tick(clock: u64): u64 {
    (clock + 1) % (UW_MAX + 1)
  }

  // ---------- choosing a slot ----------

  predicate Idle(s: Slot) {
    s.odb.Some? && !s.inUse
  }

  predicate Reusable(s: Slot, path: string, state: GraphState) {
    Idle(s) && s.path == path && s.state == state
  }

  /** Free to be overwritten without a search for the oldest one. */
  predicate Preferred(s: Slot, path: string) {
    s.odb.None? || (!s.inUse && s.path == path)
  }

  /** The first slot that can be reused as it is. */
  function FindReusable(slots: seq<Slot>, path: string, state: GraphState): (r: Option<nat>)
    ensures r.Some? ==> r.value < |slots| && Reusable(slots[r.value], path, state)
    ensures r.Some? ==> forall i :: 0 <= i < r.value ==> !Reusable(slots[i], path, state)
    ensures r.None? ==> forall i :: 0 <= i < |slots| ==> !Reusable(slots[i], path, state)
  {
    if slots == [] then None
    else var front := slots[..|slots| - 1];
         var r := FindReusable(front, path, state);
         assert forall i :: 0 <= i < |front| ==> slots[i] == front[i];
         if r.Some? then r
         else if Reusable(slots[|front|], path, state) then Some(|front|) else None
  }

  function FindPreferred(slots: seq<Slot>, path: string): (r: Option<nat>)
    ensures r.Some? ==> r.value < |slots| && Preferred(slots[r.value], path)
    ensures r.None? ==> forall i :: 0 <= i < |slots| ==> !Preferred(slots[i], path)
  {
    if slots == [] then None
    else var front := slots[..|slots| - 1];
         var r := FindPreferred(front, path);
         assert forall i :: 0 <= i < |front| ==> slots[i] == front[i];
         if r.Some? then r
         else if Preferred(slots[|front|], path) then Some(|front|) else None
  }

  /** The idle slot with the smallest stamp. */
  function FindOldest(slots: seq<Slot>): (r: Option<nat>)
    ensures r.Some? ==> r.value < |slots| && Idle(slots[r.value])
    ensures r.Some? ==> forall i :: 0 <= i < |slots| && Idle(slots[i]) ==> slots[r.value].used <= slots[i].used
    ensures r.None? ==> forall i :: 0 <= i < |slots| ==> !Idle(slots[i])
  {
    if slots == [] then None
    else var front := slots[..|slots| - 1];
         var r := FindOldest(front);
         assert forall i :: 0 <= i < |front| ==> slots[i] == front[i];
         var last := slots[|front|];
         if Idle(last) && (r.None? || last.used < slots[r.value].used) then Some(|front|) else r
  }

  function FindReplacement(slots: seq<Slot>, path: string): (r: Option<nat>)
    ensures r.Some? ==> r.value < |slots|
  {
    var preferred := FindPreferred(slots, path);
    if preferred.Some? then preferred else FindOldest(slots)
  }

  /**
  The slot that is overwritten is empty or idle; when it is neither empty nor idle for the
  same path, no such slot exists and it has the smallest stamp among the idle ones. No
  slot is found exactly when every slot is in use.
   */
  lemma ReplacementIsSafe(slots: seq<Slot>, path: string)
    ensures var r := FindReplacement(slots, path);
            && (r.Some? ==> r.value < |slots| && (slots[r.value].odb.None? || Idle(slots[r.value])))
            && (r.Some? && slots[r.value].odb.Some? && slots[r.value].path != path ==>
                  forall i :: 0 <= i < |slots| ==>
                    && slots[i].odb.Some?
                    && (!slots[i].inUse ==> slots[i].path != path && slots[r.value].used <= slots[i].used))
            && (r.None? <==> forall i :: 0 <= i < |slots| ==> slots[i].odb.Some? && slots[i].inUse)
  {
    hide FindPreferred, FindOldest;
    var r := FindReplacement(slots, path);
    if r.None? {
      forall i | 0 <= i < |slots| ensures slots[i].odb.Some? && slots[i].inUse {
        assert !Preferred(slots[i], path) && !Idle(slots[i]);
      }
    }
  }

  // ---------- the critical sections, as functions ----------

  /** Take a reusable slot; when the repository refuses the odb the slot stays idle. */
  function Reserve(c: Cache, i: nat, accepted: bool): Cache
    requires i < |c.slots|
  {
    Cache(c.slots[i := c.slots[i].(inUse := accepted, used := Tick(c.clock))], Tick(c.clock))
  }

  function Store(c: Cache, i: nat, path: string, state: GraphState, odb: Odb): Cache
    requires i < |c.slots|
  {
    Cache(c.slots[i := Slot(Some(odb), path, state, true, Tick(c.clock))], Tick(c.clock))
  }

  function FindOdb(slots: seq<Slot>, odb: Odb): (r: Option<nat>)
    ensures r.Some? ==> r.value < |slots| && slots[r.value].odb == Some(odb)
    ensures r.Some? ==> forall i :: 0 <= i < r.value ==> slots[i].odb != Some(odb)
    ensures r.None? ==> forall i :: 0 <= i < |slots| ==> slots[i].odb != Some(odb)
  {
    if slots == [] then None
    else var front := slots[..|slots| - 1];
         var r := FindOdb(front, odb);
         assert forall i :: 0 <= i < |front| ==> slots[i] == front[i];
         if r.Some? then r
         else if slots[|front|].odb == Some(odb) then Some(|front|) else None
  }

  function Release(c: Cache, odb: Odb): Cache {
    var r := FindOdb(c.slots, odb);
    if r.None? then c
    else Cache(c.slots[r.value := c.slots[r.value].(inUse := false, used := Tick(c.clock))], Tick(c.clock))
  }

  /** An odb that was given back is found again by its own path and graph state. */
  lemma ReleasedIsReusable(c: Cache, odb: Odb, i: nat)
    requires FindOdb(c.slots, odb) == Some(i)
    ensures FindReusable(Release(c, odb).slots, c.slots[i].path, c.slots[i].state).Some?
  {
    hide FindOdb, FindReusable;
    var released := Release(c, odb).slots;
    assert Reusable(released[i], c.slots[i].path, c.slots[i].state);
  }

  // ---------- stamps ----------

  /** No slot carries a stamp that the clock has not reached. */
  ghost predicate Stamped(c: Cache) {
    forall i :: 0 <= i < |c.slots| ==> c.slots[i].used <= c.clock
  }

  /** The slot is the most recently used one, by its stamp. */
  ghost predicate Newest(c: Cache, i: nat) {
    i < |c.slots| && forall j :: 0 <= j < |c.slots| && j != i ==> c.slots[j].used < c.slots[i].used
  }

  /** Until the clock wraps, whatever is touched becomes the newest, so stamps order the uses. */
  lemma TouchedIsNewest(c: Cache, i: nat, accepted: bool, path: string, state: GraphState, odb: Odb)
    requires Stamped(c) && i < |c.slots| && c.clock < 18_446_744_073_709_551_615
    ensures Stamped(Reserve(c, i, accepted)) && Newest(Reserve(c, i, accepted), i)
    ensures Stamped(Store(c, i, path, state, odb)) && Newest(Store(c, i, path, state, odb), i)
    ensures Stamped(Release(c, odb))
    ensures FindOdb(c.slots, odb) == Some(i) ==> Newest(Release(c, odb), i)
    ensures Stamped(Clean(c))
  {
    hide FindOdb;
  }

  /** After that the stamps begin again with the smallest one. */
  lemma ClockWraps(c: Cache, i: nat)
    requires c.clock == 18_446_744_073_709_551_615 && i < |c.slots|
    ensures Reserve(c, i, true).slots[i].used == 0
  {
  }

  function Clean(c: Cache): Cache {
    Cache(seq(|c.slots|, _ => EMPTY), 0)
  }

  // ---------- the critical sections, as the C code runs them ----------

  class OdbCacheTable {
    const slots: array<Slot>
    var clock: u64

    constructor ()
      ensures Value() == Cache(seq(1024, _ => EMPTY), 0) && fresh(slots)
    {
      slots := new Slot[SLOT_COUNT](_ => EMPTY);
      clock := 0;
      new;
      assert slots[..] == seq(SLOT_COUNT, _ => EMPTY);
    }

    function Value(): Cache
      reads this, slots
    {
      Cache(slots[..], clock)
    }

    /** First critical section of repository_odb_cache_attach. */
    method TryReuse(path: string, state: GraphState, accepted: bool) returns (r: Option<nat>)
      modifies this, slots
      ensures r == FindReusable(old(slots[..]), path, state)
      ensures Value() == if r.Some? then Reserve(old(Value()), r.value, accepted) else old(Value())
    {
      hide FindReusable;
      var i := 0;
      while i < slots.Length
        invariant 0 <= i <= slots.Length
        invariant unchanged(this) && unchanged(slots)
        invariant forall j :: 0 <= j < i ==> !Reusable(slots[j], path, state)
      {
        if Reusable(slots[i], path, state) {
          clock := Tick(clock);
          slots[i] := slots[i].(inUse := true, used := clock);
          if !accepted {
            slots[i] := slots[i].(inUse := false);
          }
          assert slots[..] == old(slots[..])[i := slots[i]];
          return Some(i);
        }
        i := i + 1;
      }
      return None;
    }

    /**
    Second critical section of repository_odb_cache_attach: reuse, or pick a slot to
    overwrite in the same pass. Answers the slot that was reused, or else the one that
    was overwritten with what it held before.
     */
    method ReuseOrStore(path: string, state: GraphState, candidate: Odb, accepted: bool)
        returns (reused: Option<nat>, stored: Option<nat>, evicted: Option<Odb>)
      modifies this, slots
      ensures reused == FindReusable(old(slots[..]), path, state)
      ensures stored == if reused.Some? then None else FindReplacement(old(slots[..]), path)
      ensures evicted == if stored.Some? then old(slots[..])[stored.value].odb else None
      ensures Value() ==
              if reused.Some? then Reserve(old(Value()), reused.value, accepted)
              else if stored.Some?
              then Store(old(Value()), stored.value, path, state, candidate)
              else old(Value())
    {
      reused, stored, evicted := None, None, None;
      var replacement, oldest: Option<nat> := None, None;
      var i := 0;
      while i < slots.Length
        invariant 0 <= i <= slots.Length
        invariant unchanged(this) && unchanged(slots)
        invariant forall j :: 0 <= j < i ==> !Reusable(slots[j], path, state)
        invariant replacement == FindPreferred(slots[..i], path)
        invariant oldest == FindOldest(slots[..i])
      {
        hide FindReusable;
        var entry := slots[i];
        if Reusable(entry, path, state) {
          clock := Tick(clock);
          slots[i] := entry.(inUse := true, used := clock);
          if !accepted {
            slots[i] := slots[i].(inUse := false);
          }
          assert slots[..] == old(slots[..])[i := slots[i]];
          return Some(i), None, None;
        }
        assert slots[..i + 1][..i] == slots[..i];
        if entry.odb.None? && replacement.None? {
          replacement := Some(i);
        } else if !entry.inUse && entry.path == path && replacement.None? {
          replacement := Some(i);
        }
        if Idle(entry) && (oldest.None? || entry.used < slots[oldest.value].used) {
          oldest := Some(i);
        }
        i := i + 1;
      }
      hide FindPreferred, FindOldest, FindReusable;
      assert slots[..slots.Length] == slots[..];
      if replacement.None? {
        replacement := oldest;
      }
      if replacement.None? {
        return;
      }
      stored := replacement;
      evicted := slots[stored.value].odb;
      clock := Tick(clock);
      slots[stored.value] := Slot(Some(candidate), path, state, true, clock);
      assert slots[..] == old(slots[..])[stored.value := slots[stored.value]];
    }

    /** repository_odb_cache_release. */
    method ReleaseOdb(odb: Odb)
      modifies this, slots
      ensures Value() == Release(old(Value()), odb)
    {
      hide FindOdb;
      var i := 0;
      while i < slots.Length
        invariant 0 <= i <= slots.Length
        invariant unchanged(this) && unchanged(slots)
        invariant forall j :: 0 <= j < i ==> slots[j].odb != Some(odb)
      {
        if slots[i].odb == Some(odb) {
          clock := Tick(clock);
          slots[i] := slots[i].(inUse := false, used := clock);
          assert slots[..] == old(slots[..])[i := slots[i]];
          break;
        }
        i := i + 1;
      }
    }

    /** repository_odb_cache_clean: the odbs are handed out to be freed after the unlock. */
    method CleanAll() returns (odbs: seq<Option<Odb>>)
      modifies this, slots
      ensures Value() == Clean(old(Value()))
      ensures odbs == seq(slots.Length, i requires 0 <= i < slots.Length => old(slots[..])[i].odb)
    {
      odbs := [];
      var i := 0;
      while i < slots.Length
        invariant 0 <= i <= slots.Length && |odbs| == i
        invariant forall j :: 0 <= j < i ==> slots[j] == EMPTY && odbs[j] == old(slots[..])[j].odb
        invariant forall j :: i <= j < slots.Length ==> slots[j] == old(slots[..])[j]
      {
        odbs := odbs + [slots[i].odb];
        slots[i] := EMPTY;
        i := i + 1;
      }
      clock := 0;
      assert slots[..] == seq(slots.Length, _ => EMPTY);
    }
  }
}
