/**
 The full-prompt cache object: exact-match lookup, slot reservation with deferred eviction,
 registration under a disk budget, and restart from what the disk still holds.
*/
module FullCache {
  import opened Arithmetic
  import opened Wrappers
  import opened OrderedDict
  import opened FullCacheSpec

  /** Daemon slots, shared by the two pools. */
  const DAEMON_MAX_SLOTS := 8

  /** A slot handed out for a prompt that is not registered yet. */
  datatype Reservation = Reservation(slot: int, key: Key)

  /** The slot index `offset` places after `start`, around the ring. */
  function RingAt(start: nat, offset: nat, cap: nat): nat
    requires cap > 0
  {
    (start + offset) % cap
  }

  /** Going once around the ring visits every index. */
  lemma RingCovers(start: nat, cap: nat, visited: set<int>)
    requires start < cap && forall k | 0 <= k < cap :: RingAt(start, k, cap) in visited
    ensures forall idx | 0 <= idx < cap :: idx in visited
  {
    forall idx | 0 <= idx < cap
      ensures idx in visited
    {
      var k := if idx >= start then idx - start else idx + cap - start;
      WrapAround(start + k, cap);
      assert RingAt(start, k, cap) == idx;
    }
  }

  /** The pointer `to` is at the first free slot from the pointer `from` on, around the ring. */
  ghost predicate FirstFree(first: nat, cap: nat, occupied: set<int>, from: nat, to: nat)
    requires cap > 0
  {
    exists k: nat ::
      && k < cap && to == RingAt(from, k, cap) && first + to !in occupied
      && forall j: nat | j < k :: first + RingAt(from, j, cap) in occupied
  }

  lemma RegisteredNotEmpty(entries: Entries, pending: Option<Key>, e: Item<FullEntry>)
    ensures Registered(entries, pending, e) != []
  {
  }

  lemma FreeIsFree(first: nat, cap: nat, occupied: set<int>, from: nat, to: nat)
    requires cap > 0 && FirstFree(first, cap, occupied, from, to)
    ensures first + to !in occupied
  {
  }

  class Pool {
    const first: nat
    const cap: nat
    const budget: nat
    var entries: Entries
    var nextSlot: nat
    var pending: Option<Key>
    var disk: Disk
    ghost var reserved: Option<Reservation>

    /** The pool takes the slots after those of the prefix pool, as far as the daemon has them. */
    constructor (prefixCap: nat, fullCap: nat, budget: nat, disk: Disk)
      requires 0 < fullCap && prefixCap < 8
      ensures Valid() && entries == [] && reserved == None && this.budget == budget && this.disk == disk
      ensures first == prefixCap && first + cap <= 8
      ensures cap == if fullCap <= 8 - prefixCap then fullCap else 8 - prefixCap
    {
      first := prefixCap;
      cap := if fullCap > DAEMON_MAX_SLOTS - prefixCap then DAEMON_MAX_SLOTS - prefixCap else fullCap;
      this.budget, this.disk := budget, disk;
      entries, nextSlot, pending, reserved := [], 0, None, None;
    }

    /** A reserved slot is used by the entry it will replace, if any, and by no other. */
    ghost predicate ReservationOk()
      reads this
    {
      reserved.Some? ==>
        && first <= reserved.value.slot < first + cap && !Has(entries, reserved.value.key)
        && forall e | e in entries && e.value.slot == reserved.value.slot :: Some(e.key) == pending
    }

    ghost predicate Valid()
      reads this
    {
      cap > 0 && nextSlot < cap && DistinctKeys(entries) && SlotsOk(first, cap, entries) && ReservationOk()
    }

    ghost predicate PointsAtFree()
      reads this
    {
      (exists s :: first <= s < first + cap && s !in Occupied(entries)) ==> first + nextSlot !in Occupied(entries)
    }

    /** Moves the allocation pointer to the next free slot, if there is one. */
    method RecomputeNextSlot()
      requires cap > 0 && nextSlot < cap
      modifies this`nextSlot
      ensures nextSlot < cap
      ensures if exists s :: first <= s < first + cap && s !in Occupied(entries)
              then FirstFree(first, cap, Occupied(entries), old(nextSlot), nextSlot)
              else nextSlot == 0
      ensures PointsAtFree()
    {
      hide Occupied;
      var occupied := set i | 0 <= i < |entries| && first <= entries[i].value.slot < first + cap
                        :: entries[i].value.slot - first;
      OccupiedOffsets(occupied);
      for offset := 0 to cap
        invariant nextSlot == old(nextSlot)
        invariant forall k | 0 <= k < offset :: RingAt(nextSlot, k, cap) in occupied
      {
        var idx := RingAt(nextSlot, offset, cap);
        WrapAround(nextSlot + offset, cap);
        if idx !in occupied {
          nextSlot := idx;
          return;
        }
      }
      RingCovers(nextSlot, cap, occupied);
      forall s | first <= s < first + cap
        ensures s in Occupied(entries)
      {
        assert s - first in occupied;
      }
      nextSlot := 0;
    }

    lemma OccupiedOffsets(occupied: set<int>)
      requires occupied == set i | 0 <= i < |entries| && first <= entries[i].value.slot < first + cap
                             :: entries[i].value.slot - first
      ensures forall idx | 0 <= idx < cap :: idx in occupied <==> first + idx in Occupied(entries)
    {
      forall idx | 0 <= idx < cap
        ensures idx in occupied <==> first + idx in Occupied(entries)
      {
        if first + idx in Occupied(entries) {
          var i :| 0 <= i < |entries| && entries[i].value.slot == first + idx;
          assert entries[i].value.slot - first in occupied;
        }
      }
    }

    /** Below capacity a free slot is always found; the pointer moves past it. */
    method ReserveNextFreeSlot() returns (slot: Option<int>)
      requires cap > 0 && nextSlot < cap
      modifies this`nextSlot
      ensures nextSlot < cap
      ensures slot.Some? ==> first <= slot.value < first + cap && slot.value !in Occupied(entries)
      ensures slot == None ==> forall s | first <= s < first + cap :: s in Occupied(entries)
      ensures |entries| < cap ==> slot.Some?
      ensures slot.Some? ==>
        && FirstFree(first, cap, Occupied(entries), old(nextSlot), slot.value - first)
        && nextSlot == if slot.value - first + 1 == cap then 0 else slot.value - first + 1
    {
      hide Occupied, FirstFree;
      RecomputeNextSlot();
      ghost var pointer := nextSlot;
      var occupied := Occupied(entries);
      ghost var taken := set s | s in occupied && first <= s < first + cap :: s - first;
      for offset := 0 to cap
        invariant nextSlot < cap && nextSlot == pointer && (offset > 0 ==> first + pointer in occupied)
        invariant forall k | 0 <= k < offset :: RingAt(nextSlot, k, cap) in taken
      {
        var idx := RingAt(nextSlot, offset, cap);
        WrapAround(nextSlot + offset, cap);
        assert first + idx in occupied ==> first + idx - first in taken;
        if first + idx !in occupied {
          FreeIsFree(first, cap, occupied, old(nextSlot), pointer);
          WrapAround(idx + 1, cap);
          nextSlot := (idx + 1) % cap;
          return Some(first + idx);
        }
      }
      RingCovers(nextSlot, cap, taken);
      forall s | first <= s < first + cap
        ensures s in Occupied(entries)
      {
        assert s - first in taken;
      }
      if |entries| < cap {
        var free := FreeSlotExists(first, cap, entries);
        assert false;
      }
      slot := None;
    }

    /** The entry with the lowest score, the longest unused one of equals, and then the first. */
    method SelectVictim(live: seq<int>) returns (victim: Option<nat>)
      ensures victim == if entries == [] then None else Some(Victim(disk, live, entries))
    {
      hide Score;
      victim := None;
      var victimScore := 0.0;
      for k := 0 to |entries|
        invariant victim == if k == 0 then None else Some(Victim(disk, live, entries[..k]))
        invariant victim.Some? ==> victimScore == Score(disk, entries[victim.value], live)
      {
        assert entries[..k + 1][..k] == entries[..k];
        var score := Score(disk, entries[k], live);
        if victim == None
          || score < victimScore
          || (score == victimScore && entries[k].value.lastUsed < entries[victim.value].value.lastUsed)
        {
          victim, victimScore := Some(k), score;
        }
      }
      assert entries[..|entries|] == entries;
    }

    /** Drops an entry with its files. */
    method Retire(i: nat)
      requires i < |entries| && DistinctKeys(entries) && cap > 0 && nextSlot < cap
      modifies this`entries, this`disk, this`nextSlot
      ensures entries == RemoveAt(old(entries), i) && nextSlot < cap && PointsAtFree()
      ensures var key := old(entries[i].key); disk == Disk(old(disk).bins - {key}, old(disk).metas - {key})
    {
      var key := entries[i].key;
      PopIsRemoveAt(entries, i);
      entries := Pop(entries, key);
      disk := Disk(disk.bins - {key}, disk.metas - {key});
      RecomputeNextSlot();
    }

    /**
     Retires victims until the artifacts fit the budget (no budget: 0). The running total is
     the recomputed one throughout, so the result is that of recomputing it each time.
    */
    method EnforceBudget(live: seq<int>)
      requires DistinctKeys(entries) && cap > 0 && nextSlot < cap
      modifies this`entries, this`disk, this`nextSlot
      ensures entries == if budget == 0 then old(entries) else old(Trim(budget, disk, live, entries))
      ensures budget == 0 ==> disk == old(disk)
      ensures budget > 0 ==> entries == [] || TotalSize(disk, entries) <= budget
      ensures DistinctKeys(entries) && Subsequence(entries, old(entries)) && nextSlot < cap
      ensures SameArtifacts(disk, old(disk), entries)
      ensures disk == WithoutFiles(old(disk), Keys(old(entries)) - Keys(entries))
      ensures if budget == 0 || old(entries) == [] then nextSlot == old(nextSlot) else PointsAtFree()
    {
      FilesOfRetired(disk, entries, entries, |entries|);
      hide Keys, WithoutFiles, PointsAtFree;
      hide TotalSize, Victim, RemoveAt, ArtifactSize, Subsequence, Score, DistinctKeys;
      SubsequenceReflexive(entries);
      if budget == 0 || entries == [] {
        return;
      }
      TrimSubsequence(budget, disk, live, entries);
      var total := Sum();
      while total > budget && entries != []
        invariant total == TotalSize(disk, entries)
        invariant DistinctKeys(entries) && nextSlot < cap && Subsequence(entries, old(entries))
        invariant SameArtifacts(disk, old(disk), entries)
        invariant Trim(budget, old(disk), live, entries) == Trim(budget, old(disk), live, old(entries))
        invariant disk == WithoutFiles(old(disk), Keys(old(entries)) - Keys(entries))
        invariant Keys(entries) <= Keys(old(entries))
        decreases |entries|
      {
        var victim := SelectVictim(live);
        var i := victim.value;
        var victimSize := ArtifactSize(disk, entries[i].key);
        SameTotal(disk, old(disk), entries);
        SameVictim(disk, old(disk), live, entries);
        TotalWithout(disk, entries, i);
        RetireKeeps(disk, old(disk), entries, old(entries), i);
        FilesOfRetired(old(disk), old(entries), entries, i);
        Retire(i);
        total := if total >= victimSize then total - victimSize else 0;
      }
      SameTotal(disk, old(disk), entries);
      RecomputeNextSlot();
    }

    method Sum() returns (total: nat)
      ensures total == TotalSize(disk, entries)
    {
      total := 0;
      for k := 0 to |entries|
        invariant total == TotalSize(disk, entries[..k])
      {
        assert entries[..k + 1][..k] == entries[..k];
        total := total + ArtifactSize(disk, entries[k].key);
      }
      assert entries[..|entries|] == entries;
    }

    // -------------------------------------------------------------------
    // The protocol
    // -------------------------------------------------------------------

    /** A file may be deleted behind the cache's back. */
    method Vanish(key: Key)
      requires Valid()
      modifies this`disk
      ensures Valid() && disk == old(disk).(bins := old(disk).bins - {key})
    {
      disk := disk.(bins := disk.bins - {key});
    }

    /** Exact match; an entry whose file has gone is dropped instead. */
    method Lookup(ids: Key, now: int, metaSize: nat) returns (hit: Option<FullEntry>)
      requires Valid()
      modifies this`entries, this`disk
      ensures Valid()
      ensures hit.Some? <==> old(Has(entries, ids) && ids in disk.bins)
      ensures hit.Some? ==> hit == Some(old(Get(entries, ids)))
      ensures hit.Some? ==> entries == old(MoveToEnd(Put(entries, ids, Used(Get(entries, ids), now)), ids))
      ensures hit.Some? ==> disk == old(disk).(metas := old(disk).metas[ids := metaSize])
      ensures hit == None ==> entries == old(Pop(entries, ids))
      ensures hit == None ==>
        disk == old(if Has(entries, ids) then disk.(metas := disk.metas - {ids}) else disk)
    {
      hide Has, Get, Pop, Put, MoveToEnd;
      PopIfAbsent(entries, ids);
      if !Has(entries, ids) {
        return None;
      }
      var entry := Get(entries, ids);
      if ids !in disk.bins {
        PopKeepsSlots(first, cap, entries, ids);
        StillAbsent(ids);
        entries := Pop(entries, ids);
        disk := disk.(metas := disk.metas - {ids});
        return None;
      }
      UseKeepsSlots(first, cap, entries, ids, now);
      UseKeepsReservation(ids, now);
      entries := Put(entries, ids, Used(entry, now));
      entries := MoveToEnd(entries, ids);
      disk := disk.(metas := disk.metas[ids := metaSize]);
      return Some(entry);
    }

    /** Reserves a slot: a free one, or at capacity that of the victim, which stays for now. */
    method PrepareFullSnap(ids: Key) returns (slot: Option<int>)
      requires Valid()
      modifies this`entries, this`nextSlot, this`pending, this`reserved
      ensures Valid()
      ensures slot == None <==> old(Has(entries, ids))
      ensures slot == None ==> entries == old(MoveToEnd(entries, ids)) && reserved == None
      ensures slot.Some? ==> entries == old(entries) && reserved == Some(Reservation(slot.value, ids))
      ensures slot.Some? ==>
        if |entries| >= cap then
          var victim := entries[Victim(disk, ids, entries)];
          pending == Some(victim.key) && slot.value == victim.value.slot
        else pending == None && slot.value !in Occupied(entries)
      ensures slot == None || |entries| >= cap ==> nextSlot == old(nextSlot)
      ensures slot.Some? && |entries| < cap ==>
        && FirstFree(first, cap, Occupied(entries), old(nextSlot), slot.value - first)
        && nextSlot == if slot.value - first + 1 == cap then 0 else slot.value - first + 1
    {
      hide Has, MoveToEnd, Victim;
      if Has(entries, ids) {
        MoveKeepsSlots(first, cap, entries, ids);
        MoveToEndSameMap(entries, ids);
        reserved := None;
        entries := MoveToEnd(entries, ids);
        return None;
      }
      if |entries| >= cap {
        var victim := SelectVictim(ids);
        var reservedEntry := entries[victim.value];
        pending := Some(reservedEntry.key);
        reserved := Some(Reservation(reservedEntry.value.slot, ids));
        SlotsOkIs(first, cap, entries);
        return Some(reservedEntry.value.slot);
      }
      slot := ReserveNextFreeSlot();
      pending := None;
      reserved := Some(Reservation(slot.value, ids));
    }

    /**
     Registers the reserved slot. `copied` is the size of the copied file, if the copy
     succeeds; if it fails the old entry stays. Afterwards the budget is enforced.
    */
    method ConfirmFullSnap(slot: int, ids: Key, copied: Option<nat>, metaSize: nat, curIdsLen: nat, now: int)
      requires Valid() && reserved == Some(Reservation(slot, ids))
      modifies this`entries, this`nextSlot, this`pending, this`disk, this`reserved
      ensures Valid() && pending == None && reserved == None
      ensures copied == None ==> entries == old(entries) && disk == old(disk)
      ensures copied.Some? && budget == 0 ==>
        entries == old(Registered(entries, pending, Item(ids, FullEntry(slot, curIdsLen, |ids|, now, 0))))
      ensures copied.Some? && budget > 0 ==>
        entries == old(Trim(budget, Stored(disk, pending, ids, copied.value, metaSize), ids,
                            Registered(entries, pending, Item(ids, FullEntry(slot, curIdsLen, |ids|, now, 0)))))
      ensures copied.Some? && budget == 0 ==>
        disk == old(Stored(disk, pending, ids, copied.value, metaSize))
      ensures copied.Some? ==>
        Subsequence(entries, old(Registered(entries, pending, Item(ids, FullEntry(slot, curIdsLen, |ids|, now, 0)))))
      ensures copied.Some? && budget > 0 ==> entries == [] || TotalSize(disk, entries) <= budget
      ensures copied.Some? && budget > 0 ==>
        var registered := old(Registered(entries, pending, Item(ids, FullEntry(slot, curIdsLen, |ids|, now, 0))));
        disk == WithoutFiles(old(Stored(disk, pending, ids, copied.value, metaSize)), Keys(registered) - Keys(entries))
      ensures if copied == None || budget == 0 then nextSlot == old(nextSlot) else PointsAtFree()
    {
      hide PointsAtFree;
      hide Has, Registered, Stored, Subsequence, SlotsOk, TotalSize, Trim;
      reserved := None;
      if copied == None {
        pending := None;
        return;
      }
      ghost var e := Item(ids, FullEntry(slot, curIdsLen, |ids|, now, 0));
      ghost var registered := Registered(entries, pending, e);
      RegisteredSlotsIff(first, cap, entries, pending, e);
      Register(ids, FullEntry(slot, curIdsLen, |ids|, now, 0), copied.value, metaSize);
      RegisteredNotEmpty(old(entries), old(pending), e);
      EnforceBudget(ids);
      SubsequenceKeeps(entries, registered);
    }

    /** Evicts the entry that was to be replaced, with its files, and files the new one. */
    method Register(ids: Key, e: FullEntry, size: nat, metaSize: nat)
      modifies this`entries, this`pending, this`disk
      ensures pending == None && entries == old(Registered(entries, pending, Item(ids, e)))
      ensures disk == old(Stored(disk, pending, ids, size, metaSize))
    {
      hide Pop, Put;
      disk := disk.(bins := disk.bins[ids := size]);
      if pending != None {
        var evicted := pending.value;
        entries := Pop(entries, evicted);
        disk := Disk(disk.bins - {evicted}, disk.metas - {evicted});
        pending := None;
      }
      entries := Put(entries, ids, e);
      disk := disk.(metas := disk.metas[ids := metaSize]);
    }

    /** Cancels a reservation; no entry is lost. */
    method AbortFullSnap(slot: int)
      requires Valid()
      modifies this`pending, this`reserved
      ensures Valid() && pending == None && reserved == None
    {
      pending, reserved := None, None;
    }

    /** What the budget leaves of the entries found on disk. */
    method LoadPersisted(persisted: Entries) returns (kept: Entries)
      requires cap > 0 && nextSlot < cap && DistinctKeys(persisted) && SortedByUse(persisted)
      modifies this`entries, this`nextSlot, this`disk
      ensures nextSlot < cap && DistinctKeys(kept) && SortedByUse(kept)
      ensures kept == if budget == 0 then persisted else Trim(budget, old(disk), [], persisted)
      ensures disk == WithoutFiles(old(disk), Keys(persisted) - Keys(kept))
    {
      FilesOfRetired(disk, persisted, persisted, |persisted|);
      hide Trim, SortedByUse, DistinctKeys, Keys, WithoutFiles;
      kept := persisted;
      if persisted != [] && budget > 0 {
        entries := persisted;
        EnforceBudget([]);
        SubsequenceKeeps(entries, persisted);
        kept := entries;
        entries := [];
      } else {
        TrimNothing(budget, disk);
      }
    }

    /** Replays entries into consecutive slots, skipping those the daemon does not restore. */
    method Replay(kept: Entries, replayed: Key -> bool)
      modifies this`entries
      ensures entries == Restored(first, kept, replayed)
    {
      entries := [];
      var restored := 0;
      for k := 0 to |kept|
        invariant entries == Restored(first, kept[..k], replayed) && restored == |entries|
      {
        assert kept[..k + 1][..k] == kept[..k];
        if replayed(kept[k].key) {
          entries := entries + [kept[k].(value := kept[k].value.(slot := first + restored))];
          restored := restored + 1;
        }
      }
      assert kept[..|kept|] == kept;
    }

    /**
     Restart: `persisted` holds what the disk's metadata describes, least recently used first,
     and `replayed` tells which entries the daemon restores. What fits the budget, and of that
     the most recent that fit the pool, is replayed; restored entries take the slots in order.
    */
    method Rehydrate(persisted: Entries, replayed: Key -> bool) returns (restored: nat)
      requires Valid() && DistinctKeys(persisted) && SortedByUse(persisted)
      modifies this`entries, this`nextSlot, this`pending, this`disk, this`reserved
      ensures Valid() && reserved == None && restored == |entries|
      ensures
        var kept := if budget == 0 then persisted else Trim(budget, old(disk), [], persisted);
        && entries == Restored(first, MostRecent(cap, kept), replayed)
        && disk == WithoutFiles(old(disk), Keys(persisted) - Keys(kept))
        && if kept == [] then nextSlot == 0 else PointsAtFree()
    {
      hide PointsAtFree, Keys, WithoutFiles;
      hide Trim, SlotsOk, SortedByUse, DistinctKeys;
      reserved := None;
      var kept := LoadPersisted(persisted);
      MostRecentKeeps(cap, kept);
      RestoredKeeps(first, MostRecent(cap, kept), replayed);
      RestoredSlots(first, cap, MostRecent(cap, kept), replayed);
      if kept == [] {
        entries, nextSlot := [], 0;
        return 0;
      }
      if |kept| > cap {
        kept := kept[|kept| - cap..];
      }
      pending := None;
      Replay(kept, replayed);
      RecomputeNextSlot();
      restored := |entries|;
    }

    lemma StillAbsent(key: Key)
      requires Valid()
      ensures reserved.Some? ==> !Has(Pop(entries, key), reserved.value.key)
      ensures forall e | e in Pop(entries, key) :: e in entries
    {
      PopKeeps(entries, key);
      if reserved.Some? {
        HasIs(entries, reserved.value.key);
        HasIs(Pop(entries, key), reserved.value.key);
      }
    }

    lemma UseKeepsReservation(ids: Key, now: int)
      requires Valid() && Has(entries, ids)
      ensures
        var es := MoveToEnd(Put(entries, ids, Used(Get(entries, ids), now)), ids);
        && (reserved.Some? ==> !Has(es, reserved.value.key))
        && forall e | e in es :: exists x :: x in entries && x.key == e.key && x.value.slot == e.value.slot
    {
      var put := Put(entries, ids, Used(Get(entries, ids), now));
      PutKeeps(entries, ids, Used(Get(entries, ids), now));
      MoveToEndSameMap(put, ids);
      var i := Position(entries, ids);
      assert entries[i] in entries;
      if reserved.Some? {
        HasIs(entries, reserved.value.key);
        HasIs(MoveToEnd(put, ids), reserved.value.key);
      }
    }
  }

  // ---------------------------------------------------------------------
  // Runs
  // ---------------------------------------------------------------------

  datatype Op =
    | LookupOp(ids: Key, now: int, metaSize: nat)
    | PrepareOp(ids: Key)
    | ConfirmOp(copied: Option<nat>, metaSize: nat, curIdsLen: nat, now: int)
    | AbortOp
    | VanishOp(key: Key)
    | RestartOp(persisted: Entries, replayed: Key -> bool)

  /**
   Any interleaving of the operations, a confirmation being that of the latest reservation
   if it still stands: keys and slots stay distinct, and the slots are those that follow the
   prefix pool's, within what the daemon has.
  */
  method RunOps(prefixCap: nat, fullCap: nat, budget: nat, disk: Disk, ops: seq<Op>)
    returns (entries: Entries, cap: nat)
    requires 0 < fullCap && prefixCap < 8
    requires forall i | 0 <= i < |ops| && ops[i].RestartOp? ::
      DistinctKeys(ops[i].persisted) && SortedByUse(ops[i].persisted)
    ensures DistinctKeys(entries) && SlotsOk(prefixCap, cap, entries) && |entries| <= cap
    ensures cap <= fullCap && prefixCap + cap <= 8
  {
    var pool := new Pool(prefixCap, fullCap, budget, disk);
    var reserved: Option<Reservation> := None;
    hide DistinctKeys, SlotsOk, SortedByUse;
    for k := 0 to |ops|
      invariant fresh(pool) && pool.Valid() && pool.reserved == reserved && pool.first == prefixCap
      invariant pool.cap <= fullCap && prefixCap + pool.cap <= DAEMON_MAX_SLOTS
    {
      match ops[k]
      case LookupOp(ids, now, metaSize) =>
        var _ := pool.Lookup(ids, now, metaSize);
      case PrepareOp(ids) =>
        var slot := pool.PrepareFullSnap(ids);
        reserved := if slot == None then None else Some(Reservation(slot.value, ids));
      case ConfirmOp(copied, metaSize, curIdsLen, now) =>
        if reserved.Some? {
          pool.ConfirmFullSnap(reserved.value.slot, reserved.value.key, copied, metaSize, curIdsLen, now);
          reserved := None;
        }
      case AbortOp =>
        pool.AbortFullSnap(0);
        reserved := None;
      case VanishOp(key) =>
        pool.Vanish(key);
      case RestartOp(persisted, replayed) =>
        var _ := pool.Rehydrate(persisted, replayed);
        reserved := None;
    }
    SlotsBounded(prefixCap, pool.cap, pool.entries);
    entries, cap := pool.entries, pool.cap;
  }

  /** An entry after one more hit. */
  function Used(e: FullEntry, now: int): FullEntry {
    e.(hits := e.hits + 1, lastUsed := now)
  }

  /** A used entry moves to the end with one more hit. */
  lemma UsedIsLast(entries: Entries, key: Key, now: int)
    requires DistinctKeys(entries) && Has(entries, key)
    ensures
      var e := Get(entries, key);
      MoveToEnd(Put(entries, key, Used(e, now)), key)
      == Pop(entries, key) + [Item(key, e.(hits := e.hits + 1, lastUsed := now))]
  {
    var i := Position(entries, key);
    var before, after := entries[..i], entries[i + 1..];
    assert entries == before + [entries[i]] + after;
    OthersStay(before, entries[i], after, Used(Get(entries, key), now));
    PutKeeps(entries, key, Used(Get(entries, key), now));
    OthersStay(before, Item(key, Used(Get(entries, key), now)), after, Used(Get(entries, key), now));
  }

  function MostRecent(cap: nat, entries: Entries): Entries {
    if |entries| > cap then entries[|entries| - cap..] else entries
  }

  /** The entries the daemon restores, in consecutive slots. */
  function Restored(first: nat, kept: Entries, replayed: Key -> bool): (r: Entries)
    ensures |r| <= |kept|
  {
    if kept == [] then []
    else
      var n := |kept| - 1;
      var before := Restored(first, kept[..n], replayed);
      if replayed(kept[n].key) then before + [kept[n].(value := kept[n].value.(slot := first + |before|))]
      else before
  }

  lemma TrimNothing(budget: nat, disk: Disk)
    ensures Trim(budget, disk, [], []) == []
  {
  }

  lemma MostRecentKeeps(cap: nat, kept: Entries)
    requires DistinctKeys(kept) && SortedByUse(kept)
    ensures DistinctKeys(MostRecent(cap, kept)) && SortedByUse(MostRecent(cap, kept))
    ensures |MostRecent(cap, kept)| <= cap
  {
  }

  /** As many as fit, and none of those left out was used later than one of them. */
  lemma MostRecentFit(cap: nat, kept: Entries, i: nat, j: nat)
    requires SortedByUse(kept)
    ensures |MostRecent(cap, kept)| == if |kept| < cap then |kept| else cap
    ensures
      var r := MostRecent(cap, kept);
      i + |r| < |kept| && j < |r| ==>
        kept == kept[..|kept| - |r|] + r && kept[i].value.lastUsed <= r[j].value.lastUsed
  {
    var r := MostRecent(cap, kept);
    assert j < |r| ==> r[j] == kept[|kept| - |r| + j];
  }

  /** Restored entries are replayed ones of the list, in its order, with slots counted up from the first. */
  lemma {:induction false} RestoredKeeps(first: nat, kept: Entries, replayed: Key -> bool)
    requires DistinctKeys(kept) && SortedByUse(kept)
    ensures
      var r := Restored(first, kept, replayed);
      && DistinctKeys(r) && SortedByUse(r)
      && (forall i | 0 <= i < |r| :: r[i].value.slot == first + i && replayed(r[i].key))
      && (forall i | 0 <= i < |r| ::
            exists j :: 0 <= j < |kept| && kept[j].key == r[i].key && kept[j].value.lastUsed == r[i].value.lastUsed)
  {
    if kept != [] {
      var n := |kept| - 1;
      var before, r := Restored(first, kept[..n], replayed), Restored(first, kept, replayed);
      RestoredKeeps(first, kept[..n], replayed);
      forall i | 0 <= i < |before|
        ensures exists j ::
          0 <= j < n && kept[j].key == before[i].key && kept[j].value.lastUsed == before[i].value.lastUsed
      {
        var j :| 0 <= j < n && kept[..n][j].key == before[i].key
          && kept[..n][j].value.lastUsed == before[i].value.lastUsed;
        assert kept[j].key == before[i].key;
      }
    }
  }

  /** Every entry that the daemon restores is registered again, with all but its slot as it was. */
  lemma {:induction false} AllRestored(first: nat, kept: Entries, replayed: Key -> bool, j: nat)
    requires j < |kept| && replayed(kept[j].key)
    ensures exists e ::
              e in Restored(first, kept, replayed) && e.key == kept[j].key
              && e.value == kept[j].value.(slot := e.value.slot)
  {
    var n := |kept| - 1;
    if j < n {
      AllRestored(first, kept[..n], replayed, j);
      var e :| e in Restored(first, kept[..n], replayed) && e.key == kept[..n][j].key
        && e.value == kept[..n][j].value.(slot := e.value.slot);
      assert e in Restored(first, kept, replayed);
    } else {
      var r := Restored(first, kept, replayed);
      assert r[|r| - 1] in r;
    }
  }

  lemma RestoredSlots(first: nat, cap: nat, kept: Entries, replayed: Key -> bool)
    requires DistinctKeys(kept) && SortedByUse(kept) && |kept| <= cap
    ensures SlotsOk(first, cap, Restored(first, kept, replayed))
  {
    RestoredKeeps(first, kept, replayed);
  }

  lemma PopIfAbsent(entries: Entries, key: Key)
    ensures !Has(entries, key) ==> Pop(entries, key) == entries
  {
  }

  lemma PopKeepsSlots(first: nat, cap: nat, entries: Entries, key: Key)
    requires DistinctKeys(entries) && SlotsOk(first, cap, entries)
    ensures DistinctKeys(Pop(entries, key)) && SlotsOk(first, cap, Pop(entries, key))
  {
    hide Pop, SlotsOk;
    PopKeeps(entries, key);
    SlotsOkIs(first, cap, entries);
    SlotsOkIs(first, cap, Pop(entries, key));
  }

  lemma MoveKeepsSlots(first: nat, cap: nat, entries: Entries, key: Key)
    requires DistinctKeys(entries) && SlotsOk(first, cap, entries)
    ensures DistinctKeys(MoveToEnd(entries, key)) && SlotsOk(first, cap, MoveToEnd(entries, key))
  {
    hide MoveToEnd, SlotsOk;
    MoveToEndSameMap(entries, key);
    SlotsOkIs(first, cap, entries);
    SlotsOkIs(first, cap, MoveToEnd(entries, key));
  }

  lemma UseKeepsSlots(first: nat, cap: nat, entries: Entries, key: Key, now: int)
    requires DistinctKeys(entries) && SlotsOk(first, cap, entries) && Has(entries, key)
    ensures
      var es := MoveToEnd(Put(entries, key, Used(Get(entries, key), now)), key);
      DistinctKeys(es) && SlotsOk(first, cap, es)
  {
    var put := Put(entries, key, Used(Get(entries, key), now));
    PutKeeps(entries, key, Used(Get(entries, key), now));
    MoveKeepsSlots(first, cap, put, key);
  }

  /** What retiring entry `i` leaves as it was: keys, order, and the artifacts of the others. */
  lemma RetireKeeps(disk: Disk, disk0: Disk, entries: Entries, all: Entries, i: nat)
    requires i < |entries| && DistinctKeys(entries) && Subsequence(entries, all) && SameArtifacts(disk, disk0, entries)
    ensures
      var rest, key := RemoveAt(entries, i), entries[i].key;
      var disk' := Disk(disk.bins - {key}, disk.metas - {key});
      && |rest| == |entries| - 1 && DistinctKeys(rest) && Subsequence(rest, all)
      && SameArtifacts(disk', disk0, rest) && TotalSize(disk', rest) == TotalSize(disk, rest)
  {
    hide Subsequence, SlotsOk, SortedByUse, TotalSize, RemoveAt;
    var rest, key := RemoveAt(entries, i), entries[i].key;
    var disk' := Disk(disk.bins - {key}, disk.metas - {key});
    RemoveAtSubsequence(entries, i);
    SubsequenceKeeps(rest, entries);
    SubsequenceTransitive(rest, entries, all);
    RemoveAtIs(entries, i);
    forall j | 0 <= j < |rest|
      ensures rest[j] in entries && rest[j].key != key
      ensures ArtifactSize(disk', rest[j].key) == ArtifactSize(disk, rest[j].key)
      ensures ArtifactSize(disk0, rest[j].key) == ArtifactSize(disk, rest[j].key)
    {
      var j' := if j < i then j else j + 1;
      assert rest[j] == entries[j'];
    }
    SameTotal(disk', disk, rest);
  }
}
