/**
 The prefix cache together with the daemon whose slots it indexes: what every request keeps,
 whatever its outcome, and what that gives for whole runs.
*/
module SnapshotProtocol {
  import opened Wrappers
  import opened Sequences
  import opened ChatBoundaries
  import opened InlineSnapshots
  import opened OrderedDict

  /**
   What became of a request whose command was built. Either it ran to the point where its snapshot
   is confirmed or aborted, or it ended before: its command was never sent, or its stream was given
   up while the daemon went on. The daemon may have written the snapshot in each case; an
   acknowledgement means that it has.
  */
  datatype Outcome =
    | Unsettled(written: bool)
    | Ran(nTokens: nat, acked: bool, written: bool)

  ghost predicate Possible(outcome: Outcome) {
    outcome.Ran? && outcome.acked ==> outcome.written
  }

  predicate Confirms(outcome: Outcome) {
    outcome.Ran? && outcome.nTokens > 0 && outcome.acked
  }

  /** The index, and the prefix whose snapshot each daemon slot holds. */
  datatype System = System(index: Index, daemon: map<nat, Key>)

  datatype Event = Prompt(ids: seq<int>, outcome: Outcome) | AllCleared

  function Serve(cap: nat, m: Markers, sys: System, ids: seq<int>, outcome: Outcome): System
    requires cap > 0
  {
    var (ix, _, snap) := Command(cap, sys.index, ids, Cuts(ids, m));
    if snap == None then sys.(index := ix)
    else
      SnapInRange(cap, sys.index, ids, Cuts(ids, m));
      var key := ids[..snap.value.cut];
      System(if outcome.Unsettled? then ix
             else if Confirms(outcome) then Confirmed(ix, snap.value.slot, key)
             else Released(ix),
             if outcome.written then sys.daemon[snap.value.slot := key] else sys.daemon)
  }

  lemma SnapInRange(cap: nat, ix: Index, ids: seq<int>, cuts: seq<nat>)
    requires cap > 0 && forall i | 0 <= i < |cuts| :: cuts[i] <= |ids|
    ensures
      var (_, _, snap) := Command(cap, ix, ids, cuts);
      snap.Some? ==> cuts != [] && snap.value.cut == TargetCut(cuts) <= |ids|
  {
  }

  function Step(cap: nat, m: Markers, sys: System, ev: Event): System
    requires cap > 0
  {
    match ev
    case Prompt(ids, outcome) => Serve(cap, m, sys, ids, outcome)
    case AllCleared => System(CLEARED, map[])
  }

  function Run(cap: nat, m: Markers, events: seq<Event>): System
    requires cap > 0
  {
    if events == [] then System(CLEARED, map[])
    else Step(cap, m, Run(cap, m, events[..|events| - 1]), events[|events| - 1])
  }

  /** A request as the server performs it on the cache object. */
  method ServeRequest(pc: PrefixCache, ghost daemon: map<nat, Key>, ids: seq<int>, outcome: Outcome)
    returns (restore: Option<Hit>, snap: Option<Snap>)
    requires pc.Valid()
    modifies pc
    ensures pc.Valid() && pc.State() == Serve(pc.cap, pc.markers, System(old(pc.State()), daemon), ids, outcome).index
    ensures restore == LookupHit(old(pc.entries), ids, Cuts(ids, pc.markers))
  {
    hide Cuts, Prepared, LookupHit, TouchAll;
    SnapInRange(pc.cap, pc.State(), ids, Cuts(ids, pc.markers));
    restore, snap := pc.BuildCommand(ids);
    if snap == None || outcome.Unsettled? {
      return;
    }
    if outcome.nTokens > 0 {
      if outcome.acked {
        pc.ConfirmInlineSnap(snap.value.slot, snap.value.cut, ids);
      } else {
        pc.AbortInlineSnap(snap.value.slot);
      }
    } else {
      pc.AbortInlineSnap(snap.value.slot);
    }
  }

  // ---------------------------------------------------------------------
  // Invariants
  // ---------------------------------------------------------------------

  /** The index is a map of at most `cap` entries, and every key ends at one of its own cuts. */
  ghost predicate Inv(cap: nat, m: Markers, sys: System)
  {
    && DistinctKeys(sys.index.entries) && |sys.index.entries| <= cap
    && forall e | e in sys.index.entries :: |e.key| in Cuts(e.key, m)
  }

  /** Each key's slot holds that prefix's snapshot. */
  ghost predicate Agrees(entries: seq<Entry>, daemon: map<nat, Key>) {
    forall e | e in entries :: e.value in daemon && daemon[e.value] == e.key
  }

  /** Below capacity the entries fill the first slots and the next slot comes right after. */
  ghost predicate Packed(cap: nat, ix: Index) {
    |ix.entries| < cap ==>
      ix.nextSlot == |ix.entries| && forall e | e in ix.entries :: e.value < |ix.entries|
  }

  predicate Live(entries: seq<Entry>, slot: nat) {
    exists i | 0 <= i < |entries| :: entries[i].value == slot
  }

  /**
   The request writes a snapshot into a slot that an entry goes on using: at capacity the entry
   whose eviction was left unsettled, below capacity one that uses the next slot.
  */
  predicate Overwrites(cap: nat, m: Markers, ix: Index, ids: seq<int>, outcome: Outcome) {
    && outcome.written && NeedsSnap(ix, ids, Cuts(ids, m))
    && if |ix.entries| >= cap then outcome.Unsettled? else Live(ix.entries, ix.nextSlot)
  }

  lemma NoSharedSlots(entries: seq<Entry>, daemon: map<nat, Key>)
    requires DistinctKeys(entries) && Agrees(entries, daemon)
    ensures forall i, j | 0 <= i < j < |entries| :: entries[i].value != entries[j].value
  {
    forall i, j | 0 <= i < j < |entries|
      ensures entries[i].value != entries[j].value
    {
      assert entries[i] in entries && entries[j] in entries;
    }
  }

  lemma SameMapAgrees(entries: seq<Entry>, entries': seq<Entry>, daemon: map<nat, Key>)
    requires SameMap(entries, entries')
    ensures Agrees(entries, daemon) <==> Agrees(entries', daemon)
    ensures forall slot :: Live(entries, slot) <==> Live(entries', slot)
  {
    forall slot
      ensures Live(entries, slot) <==> Live(entries', slot)
    {
      LiveIs(entries, slot);
      LiveIs(entries', slot);
    }
  }

  lemma LiveIs(entries: seq<Entry>, slot: nat)
    ensures Live(entries, slot) <==> exists e :: e in entries && e.value == slot
  {
    if Live(entries, slot) {
      var i :| 0 <= i < |entries| && entries[i].value == slot;
      assert entries[i] in entries;
    }
  }

  // ---------------------------------------------------------------------
  // One request
  // ---------------------------------------------------------------------

  /** Giving a written slot to a new key, after its old entry (if any) has gone. */
  lemma WriteAgrees(entries: seq<Entry>, daemon: map<nat, Key>, slot: nat, key: Key)
    requires Agrees(entries, daemon) && !Has(entries, key)
    ensures Agrees(entries, daemon[slot := key]) <==> !Live(entries, slot)
    ensures Agrees(Put(entries, key, slot), daemon[slot := key]) <==> !Live(entries, slot)
  {
    LiveIs(entries, slot);
    HasIs(entries, key);
    forall e
      ensures e in Put(entries, key, slot) <==> e in entries || e == Item(key, slot)
    {
    }
    if Live(entries, slot) {
      var e :| e in entries && e.value == slot;
      assert e in Put(entries, key, slot) && e.key != key;
    }
  }

  /** At capacity the reserved slot is used by the least recently used entry only. */
  lemma EvictFrees(entries: seq<Entry>, daemon: map<nat, Key>)
    requires entries != [] && DistinctKeys(entries) && Agrees(entries, daemon)
    ensures Agrees(Pop(entries, entries[0].key), daemon)
    ensures !Live(Pop(entries, entries[0].key), entries[0].value)
  {
    NoSharedSlots(entries, daemon);
    assert Pop(entries, entries[0].key) == entries[1..];
    assert forall e | e in entries[1..] :: e in entries;
  }

  /** Index and daemon still agree after a request unless it overwrites a slot that stays in use. */
  lemma ServeAgreesIff(cap: nat, m: Markers, sys: System, ids: seq<int>, outcome: Outcome)
    requires cap > 0 && Inv(cap, m, sys) && Agrees(sys.index.entries, sys.daemon)
    requires Possible(outcome)
    ensures
      var sys' := Serve(cap, m, sys, ids, outcome);
      Agrees(sys'.index.entries, sys'.daemon) <==> !Overwrites(cap, m, sys.index, ids, outcome)
  {
    hide Cuts, TouchAll, Has, Pop, Put, MoveToEnd, LookupHit, Agrees, Live;
    var cuts := Cuts(ids, m);
    var touched := TouchAll(sys.index.entries, ids, cuts);
    TouchAllSameMap(sys.index.entries, ids, cuts);
    SameMapAgrees(sys.index.entries, touched, sys.daemon);
    if cuts != [] {
      var cut := TargetCut(cuts);
      var key := ids[..cut];
      SameMapLookups(sys.index.entries, touched, key);
      MoveToEndSameMap(touched, key);
      SameMapAgrees(touched, MoveToEnd(touched, key), sys.daemon);
      if !Has(touched, key) {
        if |touched| >= cap {
          var rest := Pop(touched, touched[0].key);
          EvictFrees(touched, sys.daemon);
          PopKeeps(touched, touched[0].key);
          StillAbsent(touched, rest, key);
          WriteAgrees(rest, sys.daemon, touched[0].value, key);
          WriteAgrees(touched, sys.daemon, touched[0].value, key);
          LiveIs(touched, touched[0].value);
        } else {
          WriteAgrees(touched, sys.daemon, sys.index.nextSlot, key);
        }
      }
    }
  }

  lemma StillAbsent(entries: seq<Entry>, fewer: seq<Entry>, key: Key)
    requires !Has(entries, key) && forall e | e in fewer :: e in entries
    ensures !Has(fewer, key)
  {
    HasIs(entries, key);
    HasIs(fewer, key);
  }

  /** The structural invariant survives every request. */
  lemma ServeKeepsInv(cap: nat, m: Markers, sys: System, ids: seq<int>, outcome: Outcome)
    requires cap > 0 && Inv(cap, m, sys)
    ensures Inv(cap, m, Serve(cap, m, sys, ids, outcome))
  {
    hide TouchAll, Has, Pop, Put, MoveToEnd, LookupHit, Cuts;
    var cuts := Cuts(ids, m);
    var touched := TouchAll(sys.index.entries, ids, cuts);
    TouchAllSameMap(sys.index.entries, ids, cuts);
    if cuts != [] {
      var key := ids[..TargetCut(cuts)];
      var i := if |cuts| >= 2 then |cuts| - 2 else |cuts| - 1;
      CutsRestrict(ids, m, i);
      assert Cuts(key, m)[i] == |key|;
      MoveToEndSameMap(touched, key);
      if !Has(touched, key) && outcome.Ran? {
        if |touched| >= cap {
          var rest := Pop(touched, touched[0].key);
          assert touched[0] in touched;
          HasIs(touched, touched[0].key);
          PopKeeps(touched, touched[0].key);
          StillAbsent(touched, rest, key);
          PutKeeps(rest, key, touched[0].value);
        } else {
          PutKeeps(touched, key, sys.index.nextSlot);
        }
      }
    }
  }

  /** The request either needs no snapshot or ends with a confirmed one. */
  predicate Undisturbed(m: Markers, ix: Index, ids: seq<int>, outcome: Outcome)
  {
    NeedsSnap(ix, ids, Cuts(ids, m)) ==> Confirms(outcome)
  }

  /** With the entries packed only an unsettled request at capacity can overwrite. */
  lemma PackedOverwritesIff(cap: nat, m: Markers, ix: Index, ids: seq<int>, outcome: Outcome)
    requires Packed(cap, ix)
    ensures
      Overwrites(cap, m, ix, ids, outcome)
      <==> outcome == Unsettled(true) && NeedsSnap(ix, ids, Cuts(ids, m)) && |ix.entries| >= cap
  {
    if Live(ix.entries, ix.nextSlot) {
      var i :| 0 <= i < |ix.entries| && ix.entries[i].value == ix.nextSlot;
      assert ix.entries[i] in ix.entries;
    }
  }

  lemma ServeKeepsPacked(cap: nat, m: Markers, sys: System, ids: seq<int>, outcome: Outcome)
    requires cap > 0 && Inv(cap, m, sys) && Packed(cap, sys.index)
    requires Undisturbed(m, sys.index, ids, outcome)
    ensures Packed(cap, Serve(cap, m, sys, ids, outcome).index)
  {
    hide TouchAll, Has, Pop, Put, MoveToEnd, LookupHit, Cuts;
    var cuts := Cuts(ids, m);
    var touched := TouchAll(sys.index.entries, ids, cuts);
    TouchAllSameMap(sys.index.entries, ids, cuts);
    if cuts != [] {
      var key := ids[..TargetCut(cuts)];
      SameMapLookups(sys.index.entries, touched, key);
      MoveToEndSameMap(touched, key);
      if !Has(touched, key) {
        if |touched| >= cap {
          var rest := Pop(touched, touched[0].key);
          assert touched[0] in touched;
          HasIs(touched, touched[0].key);
          PopKeeps(touched, touched[0].key);
          StillAbsent(touched, rest, key);
          PutKeeps(rest, key, touched[0].value);
        } else {
          PutKeeps(touched, key, sys.index.nextSlot);
        }
      }
    }
  }

  /** All slots that the index names or will name next lie below the capacity. */
  ghost predicate InPool(cap: nat, ix: Index) {
    ix.nextSlot < cap && forall e | e in ix.entries :: e.value < cap
  }

  lemma ServeKeepsInPool(cap: nat, m: Markers, sys: System, ids: seq<int>, outcome: Outcome)
    requires cap > 0 && Inv(cap, m, sys) && InPool(cap, sys.index)
    ensures InPool(cap, Serve(cap, m, sys, ids, outcome).index)
  {
    hide TouchAll, Has, Pop, Put, MoveToEnd, LookupHit, Cuts;
    var cuts := Cuts(ids, m);
    var touched := TouchAll(sys.index.entries, ids, cuts);
    TouchAllSameMap(sys.index.entries, ids, cuts);
    if cuts != [] {
      var key := ids[..TargetCut(cuts)];
      MoveToEndSameMap(touched, key);
      if !Has(touched, key) {
        if |touched| >= cap {
          assert touched[0] in touched;
          PopKeeps(touched, touched[0].key);
          PutKeeps(Pop(touched, touched[0].key), key, touched[0].value);
        } else {
          PutKeeps(touched, key, sys.index.nextSlot);
        }
      }
    }
  }

  /** On every run, aborts included, the prefix pool stays within its own slots. */
  lemma {:induction false} RunsStayInPool(cap: nat, m: Markers, events: seq<Event>)
    requires cap > 0
    ensures Inv(cap, m, Run(cap, m, events)) && InPool(cap, Run(cap, m, events).index)
    ensures cap == 1 ==> Packed(cap, Run(cap, m, events).index)
  {
    hide Serve, Inv;
    if events == [] {
      NothingCached(cap, m);
    } else {
      var n := |events| - 1;
      RunsStayInPool(cap, m, events[..n]);
      match events[n]
      case AllCleared => NothingCached(cap, m);
      case Prompt(ids, outcome) =>
        ServeKeepsInv(cap, m, Run(cap, m, events[..n]), ids, outcome);
        ServeKeepsInPool(cap, m, Run(cap, m, events[..n]), ids, outcome);
    }
  }

  // ---------------------------------------------------------------------
  // Lookups
  // ---------------------------------------------------------------------

  lemma {:induction false} DeepestIsDeepest(entries: seq<Entry>, ids: seq<int>, cuts: seq<nat>, cut: nat)
    requires forall i | 0 <= i < |cuts| :: cuts[i] <= |ids|
    requires Increasing(cuts)
    requires cut in cuts && Has(entries, ids[..cut])
    ensures DeepestCached(entries, ids, cuts).Some? && DeepestCached(entries, ids, cuts).value >= cut
  {
    hide Has;
    var n := |cuts| - 1;
    if cuts[n] != cut && !Has(entries, ids[..cuts[n]]) {
      DeepestIsDeepest(entries, ids, cuts[..n], cut);
    }
  }

  /** A hit leaves the entry it found most recently used. */
  lemma {:induction false} HitIsFreshest(entries: seq<Entry>, ids: seq<int>, cuts: seq<nat>)
    requires DistinctKeys(entries) && forall i | 0 <= i < |cuts| :: cuts[i] <= |ids|
    requires DeepestCached(entries, ids, cuts).Some?
    ensures
      var es, hit := TouchAll(entries, ids, cuts), LookupHit(entries, ids, cuts).value;
      es != [] && es[|es| - 1] == Item(ids[..hit.length], hit.slot)
  {
    hide Has, Pop;
    var n := |cuts| - 1;
    var key := ids[..cuts[n]];
    var before := TouchAll(entries, ids, cuts[..n]);
    TouchAllSameMap(entries, ids, cuts[..n]);
    SameMapLookups(entries, before, key);
    if !Has(entries, key) {
      HitIsFreshest(entries, ids, cuts[..n]);
    }
  }

  /**
   A cached prefix is found by every later prompt that extends it: the lookup hits a prefix of
   that prompt at least as long.
  */
  lemma LaterPromptsHit(cap: nat, m: Markers, sys: System, e: Entry, ids: seq<int>)
    requires PrefixStable(m) && Inv(cap, m, sys)
    requires e in sys.index.entries && e.key <= ids
    ensures
      var hit := LookupHit(sys.index.entries, ids, Cuts(ids, m));
      hit.Some? && |e.key| <= hit.value.length <= |ids|
  {
    hide Cuts, Has, DeepestCached;
    assert Cuts(e.key, m) <= Cuts(ids, m);
    GetIs(sys.index.entries, e);
    assert ids[..|e.key|] == e.key;
    DeepestIsDeepest(sys.index.entries, ids, Cuts(ids, m), |e.key|);
  }

  /** What a command restores is the prompt's own prefix. */
  lemma HitAgrees(m: Markers, sys: System, ids: seq<int>)
    requires Agrees(sys.index.entries, sys.daemon)
    requires LookupHit(sys.index.entries, ids, Cuts(ids, m)).Some?
    ensures
      var hit := LookupHit(sys.index.entries, ids, Cuts(ids, m)).value;
      && hit.length in Cuts(ids, m) && hit.length <= |ids|
      && hit.slot in sys.daemon && sys.daemon[hit.slot] == ids[..hit.length]
  {
    hide Cuts;
    var cut := DeepestCached(sys.index.entries, ids, Cuts(ids, m)).value;
    var i := Position(sys.index.entries, ids[..cut]);
    assert sys.index.entries[i] in sys.index.entries;
  }

  /**
   A request that needed a snapshot is in the index afterwards, at the slot that was handed out, if
   and only if it generated tokens and its snapshot was acknowledged.
  */
  lemma RegistersIff(cap: nat, m: Markers, sys: System, ids: seq<int>, outcome: Outcome)
    requires cap > 0 && Inv(cap, m, sys)
    ensures
      var (_, _, snap) := Command(cap, sys.index, ids, Cuts(ids, m));
      var sys' := Serve(cap, m, sys, ids, outcome);
      NeedsSnap(sys.index, ids, Cuts(ids, m)) ==>
        && snap.Some? && snap.value.cut <= |ids|
        && (Has(sys'.index.entries, ids[..snap.value.cut])
            <==> outcome.Ran? && outcome.nTokens > 0 && outcome.acked)
        && (outcome.Ran? && outcome.nTokens > 0 && outcome.acked ==>
              Item(ids[..snap.value.cut], snap.value.slot) in sys'.index.entries)
  {
    hide Cuts, TouchAll, Has, Pop, Put, MoveToEnd, LookupHit;
    var cuts := Cuts(ids, m);
    if !NeedsSnap(sys.index, ids, cuts) {
      return;
    }
    var key := ids[..TargetCut(cuts)];
    var touched := TouchAll(sys.index.entries, ids, cuts);
    TouchAllSameMap(sys.index.entries, ids, cuts);
    SameMapLookups(sys.index.entries, touched, key);
    if |touched| >= cap {
      var rest := Pop(touched, touched[0].key);
      PopKeeps(touched, touched[0].key);
      StillAbsent(touched, rest, key);
      PutRegisters(rest, key, touched[0].value);
    } else {
      PutRegisters(touched, key, sys.index.nextSlot);
    }
  }

  lemma PutRegisters(entries: seq<Entry>, key: Key, slot: nat)
    requires DistinctKeys(entries)
    ensures Item(key, slot) in Put(entries, key, slot) && Has(Put(entries, key, slot), key)
  {
    hide Has, Put;
    PutKeeps(entries, key, slot);
    HasIs(Put(entries, key, slot), key);
  }

  /** At capacity another slot is handed out if there is another; below it, if the next slot is another. */
  predicate OtherSlot(cap: nat, ix: Index, slot: nat) {
    if |ix.entries| >= cap then cap >= 2 else slot != ix.nextSlot
  }

  /**
   When a command both restores and snapshots, this is exactly when the two slots differ, in every
   state in which index and daemon agree and with one slot in any state.
  */
  lemma RestoreIsNotSnapshotIff(cap: nat, m: Markers, sys: System, ids: seq<int>)
    requires cap > 0 && Inv(cap, m, sys)
    requires cap == 1 || Agrees(sys.index.entries, sys.daemon)
    ensures
      var (_, hit, snap) := Command(cap, sys.index, ids, Cuts(ids, m));
      hit.Some? && snap.Some? ==>
        (hit.value.slot != snap.value.slot <==> OtherSlot(cap, sys.index, hit.value.slot))
  {
    hide Cuts, TouchAll, Has, MoveToEnd, DeepestCached, Agrees;
    var cuts := Cuts(ids, m);
    var touched := TouchAll(sys.index.entries, ids, cuts);
    TouchAllSameMap(sys.index.entries, ids, cuts);
    SameMapAgrees(sys.index.entries, touched, sys.daemon);
    var (_, hit, snap) := Command(cap, sys.index, ids, cuts);
    if hit.Some? && snap.Some? {
      HitIsFreshest(sys.index.entries, ids, cuts);
      if cap >= 2 {
        NoSharedSlots(touched, sys.daemon);
      }
    }
  }

  /** With the entries packed the next slot is not in use, so only their number counts. */
  lemma PackedOtherSlot(cap: nat, m: Markers, ix: Index, ids: seq<int>)
    requires cap > 0 && Packed(cap, ix) && LookupHit(ix.entries, ids, Cuts(ids, m)).Some?
    ensures OtherSlot(cap, ix, LookupHit(ix.entries, ids, Cuts(ids, m)).value.slot) <==> cap >= 2
  {
    hide Cuts;
    var cut := DeepestCached(ix.entries, ids, Cuts(ids, m)).value;
    assert ix.entries[Position(ix.entries, ids[..cut])] in ix.entries;
  }

  // ---------------------------------------------------------------------
  // Runs
  // ---------------------------------------------------------------------

  ghost predicate PossibleRun(events: seq<Event>) {
    forall i | 0 <= i < |events| :: events[i].Prompt? ==> Possible(events[i].outcome)
  }

  /** Every snapshot that a request of the run needed was confirmed. */
  ghost predicate AbortFree(cap: nat, m: Markers, events: seq<Event>)
    requires cap > 0
  {
    forall i | 0 <= i < |events| :: events[i].Prompt? ==>
      Undisturbed(m, Run(cap, m, events[..i]).index, events[i].ids, events[i].outcome)
  }

  /** No request of the run overwrites a slot that stays in use. */
  ghost predicate NoOverwrites(cap: nat, m: Markers, events: seq<Event>)
    requires cap > 0
  {
    forall i | 0 <= i < |events| :: Spares(cap, m, events, i)
  }

  ghost predicate Spares(cap: nat, m: Markers, events: seq<Event>, i: nat)
    requires cap > 0 && i < |events|
  {
    events[i].Prompt? ==>
      !Overwrites(cap, m, Run(cap, m, events[..i]).index, events[i].ids, events[i].outcome)
  }

  /** Index and daemon agree after the first `k` events. */
  ghost predicate AgreesAfter(cap: nat, m: Markers, events: seq<Event>, k: nat)
    requires cap > 0 && k <= |events|
  {
    var sys := Run(cap, m, events[..k]);
    Agrees(sys.index.entries, sys.daemon)
  }

  lemma AgreesNextIff(cap: nat, m: Markers, events: seq<Event>, k: nat)
    requires cap > 0 && PossibleRun(events) && k < |events| && AgreesAfter(cap, m, events, k)
    ensures AgreesAfter(cap, m, events, k + 1) <==> Spares(cap, m, events, k)
  {
    hide Serve, Inv, Overwrites, Agrees;
    var sys := Run(cap, m, events[..k]);
    assert events[..k + 1][..k] == events[..k];
    RunsStayInPool(cap, m, events[..k]);
    match events[k]
    case AllCleared => NothingCached(cap, m);
    case Prompt(ids, outcome) => ServeAgreesIff(cap, m, sys, ids, outcome);
  }

  /**
   On every run, with any number of slots, index and daemon agree all along if and only if no
   request overwrites a slot that stays in use.
  */
  lemma RunsAgreeIff(cap: nat, m: Markers, events: seq<Event>)
    requires cap > 0 && PossibleRun(events)
    ensures (forall k | 0 <= k <= |events| :: AgreesAfter(cap, m, events, k)) <==> NoOverwrites(cap, m, events)
  {
    hide Spares, AgreesAfter;
    if NoOverwrites(cap, m, events) {
      forall k | 0 <= k <= |events|
        ensures AgreesAfter(cap, m, events, k)
      {
        AgreesSoFar(cap, m, events, k);
      }
    }
    if forall k | 0 <= k <= |events| :: AgreesAfter(cap, m, events, k) {
      forall k | 0 <= k < |events|
        ensures Spares(cap, m, events, k)
      {
        AgreesNextIff(cap, m, events, k);
      }
    }
  }

  lemma {:induction false} AgreesSoFar(cap: nat, m: Markers, events: seq<Event>, k: nat)
    requires cap > 0 && PossibleRun(events) && NoOverwrites(cap, m, events) && k <= |events|
    ensures AgreesAfter(cap, m, events, k)
  {
    hide Spares, AgreesAfter;
    if k == 0 {
      AgreesAtStart(cap, m, events);
    } else {
      AgreesSoFar(cap, m, events, k - 1);
      AgreesNextIff(cap, m, events, k - 1);
    }
  }

  lemma AgreesAtStart(cap: nat, m: Markers, events: seq<Event>)
    requires cap > 0
    ensures AgreesAfter(cap, m, events, 0)
  {
    assert events[..0] == [];
  }

  /** No request of the run is left unsettled with its snapshot written. */
  ghost predicate AllSettled(events: seq<Event>) {
    forall i | 0 <= i < |events| :: events[i].Prompt? ==> events[i].outcome != Unsettled(true)
  }

  /**
   Two families of runs overwrite nothing: with one slot all those whose written snapshots are
   settled, aborted and lost ones included; with any number of slots those that abort nothing.
  */
  lemma SettledRunsSpare(cap: nat, m: Markers, events: seq<Event>)
    requires cap > 0
    requires (cap == 1 && AllSettled(events)) || AbortFree(cap, m, events)
    ensures NoOverwrites(cap, m, events)
  {
    hide Run, Undisturbed, Spares, Packed;
    forall i | 0 <= i < |events|
      ensures Spares(cap, m, events, i)
    {
      if cap == 1 {
        RunsStayInPool(cap, m, events[..i]);
      } else {
        AbortFreePrefix(cap, m, events, i);
        AbortFreePacked(cap, m, events[..i]);
      }
      SettledSpares(cap, m, events, i);
    }
  }

  lemma SettledSpares(cap: nat, m: Markers, events: seq<Event>, i: nat)
    requires cap > 0 && i < |events| && Packed(cap, Run(cap, m, events[..i]).index)
    requires (cap == 1 && AllSettled(events)) || AbortFree(cap, m, events)
    ensures Spares(cap, m, events, i)
  {
    hide Run, Packed, Cuts;
    if events[i].Prompt? {
      PackedOverwritesIff(cap, m, Run(cap, m, events[..i]).index, events[i].ids, events[i].outcome);
    }
  }

  lemma {:induction false} AbortFreePacked(cap: nat, m: Markers, events: seq<Event>)
    requires cap > 0 && AbortFree(cap, m, events)
    ensures Packed(cap, Run(cap, m, events).index)
  {
    hide Serve, Inv, Packed, Undisturbed;
    if events == [] {
      NothingCached(cap, m);
    } else {
      var n := |events| - 1;
      AbortFreePrefix(cap, m, events, n);
      AbortFreePacked(cap, m, events[..n]);
      match events[n]
      case AllCleared => NothingCached(cap, m);
      case Prompt(ids, outcome) =>
        RunsStayInPool(cap, m, events[..n]);
        ServeKeepsPacked(cap, m, Run(cap, m, events[..n]), ids, outcome);
    }
  }

  /**
   Each key's slot holds that prefix's snapshot: with one slot after every run whose written
   snapshots are settled, and with any number of slots after every abort-free run.
  */
  lemma RunsAgree(cap: nat, m: Markers, events: seq<Event>)
    requires cap > 0 && PossibleRun(events)
    requires (cap == 1 && AllSettled(events)) || AbortFree(cap, m, events)
    ensures Agrees(Run(cap, m, events).index.entries, Run(cap, m, events).daemon)
  {
    hide Run, NoOverwrites, AbortFree, Agrees;
    SettledRunsSpare(cap, m, events);
    AgreesSoFar(cap, m, events, |events|);
    assert events[..|events|] == events;
  }

  /**
   Whatever the run, a prefix that is still registered is found by every later prompt that
   extends it, at least as long; and what is restored is a prefix of that prompt on the runs
   that overwrite nothing.
  */
  lemma RegisteredIsFound(cap: nat, m: Markers, x: int, events: seq<Event>, e: Entry, ids: seq<int>)
    requires cap > 0 && e.key <= ids && m.sysRolePrefix != [] && Foreign(m, x) && Settled(m, x)
    ensures
      var sys := Run(cap, m, events);
      var hit := LookupHit(sys.index.entries, ids, Cuts(ids, m));
      e in sys.index.entries ==>
        && hit.Some? && |e.key| <= hit.value.length <= |ids|
        && (PossibleRun(events) && NoOverwrites(cap, m, events) ==>
              hit.value.slot in sys.daemon && sys.daemon[hit.value.slot] == ids[..hit.value.length])
  {
    hide Run, PossibleRun, NoOverwrites, LookupHit, Settled, PrefixStable;
    RunsStayInPool(cap, m, events);
    PrefixStableIff(m, x);
    if e in Run(cap, m, events).index.entries {
      LaterPromptsHit(cap, m, Run(cap, m, events), e, ids);
      if PossibleRun(events) && NoOverwrites(cap, m, events) {
        AgreesSoFar(cap, m, events, |events|);
        assert events[..|events|] == events;
        HitAgrees(m, Run(cap, m, events), ids);
      }
    }
  }

  /**
   After every run that overwrites nothing, and with one slot after every run: the slot a command
   restores and the slot it snapshots into differ exactly when another slot is handed out.
  */
  lemma CommandSlotsDifferIff(cap: nat, m: Markers, events: seq<Event>, ids: seq<int>)
    requires cap > 0 && (cap == 1 || (PossibleRun(events) && NoOverwrites(cap, m, events)))
    ensures
      var ix := Run(cap, m, events).index;
      var (_, hit, snap) := Command(cap, ix, ids, Cuts(ids, m));
      hit.Some? && snap.Some? ==>
        (hit.value.slot != snap.value.slot <==> OtherSlot(cap, ix, hit.value.slot))
  {
    hide Run, Command, NoOverwrites, PossibleRun, OtherSlot;
    RunsStayInPool(cap, m, events);
    if cap > 1 {
      AgreesSoFar(cap, m, events, |events|);
      assert events[..|events|] == events;
    }
    RestoreIsNotSnapshotIff(cap, m, Run(cap, m, events), ids);
  }

  /** After every abort-free run, and with one slot after every run, only the number of slots counts. */
  lemma CommandSlotsDiffer(cap: nat, m: Markers, events: seq<Event>, ids: seq<int>)
    requires cap > 0 && (cap == 1 || (PossibleRun(events) && AbortFree(cap, m, events)))
    ensures
      var (_, hit, snap) := Command(cap, Run(cap, m, events).index, ids, Cuts(ids, m));
      hit.Some? && snap.Some? ==> (hit.value.slot != snap.value.slot <==> cap >= 2)
  {
    hide Run, AbortFree, NoOverwrites, LookupHit, Prepared, TouchAll, OtherSlot;
    RunsStayInPool(cap, m, events);
    if cap > 1 {
      AbortFreePacked(cap, m, events);
      SettledRunsSpare(cap, m, events);
    }
    CommandSlotsDifferIff(cap, m, events, ids);
    var ix := Run(cap, m, events).index;
    if LookupHit(ix.entries, ids, Cuts(ids, m)).Some? {
      PackedOtherSlot(cap, m, ix, ids);
    }
  }

  lemma AbortFreePrefix(cap: nat, m: Markers, events: seq<Event>, n: nat)
    requires cap > 0 && n <= |events| && AbortFree(cap, m, events)
    ensures AbortFree(cap, m, events[..n])
  {
    hide Undisturbed, Run;
    forall i | 0 <= i < n && events[i].Prompt?
      ensures Undisturbed(m, Run(cap, m, events[..n][..i]).index, events[i].ids, events[i].outcome)
    {
      assert events[..n][..i] == events[..i];
    }
  }

  lemma NothingCached(cap: nat, m: Markers)
    ensures Inv(cap, m, System(CLEARED, map[])) && Agrees(CLEARED.entries, map[]) && Packed(cap, CLEARED)
  {
  }

  // ---------------------------------------------------------------------
  // The runs that are excluded, and a command that restores what it snapshots over
  // ---------------------------------------------------------------------

  const PLAIN_MARKERS := Markers([9], [[2]], [[7]])

  /** A prompt whose only cut is its end. */
  function PlainPrompt(x: int): seq<int> {
    [9, x, 2, 7]
  }

  lemma PlainNextCut(m: Markers, ids: seq<int>, cursor: nat)
    requires m == PLAIN_MARKERS && cursor + 2 < |ids|
    requires ids[cursor] != 2 && ids[cursor + 1] == 2 && ids[cursor + 2] == 7
    ensures NextCut(ids, m, cursor) == Some(cursor + 3)
  {
    assert ids[cursor..cursor + 1][0] != 2 && ids[cursor + 1..cursor + 2] == [2] && ids[cursor + 2..cursor + 3] == [7];
    assert !SeqAt(ids, cursor, m.endMsgSeqs[0]);
    FirstHere(ids, m.endMsgSeqs, cursor + 1, |ids|, 0);
    FirstHere(ids, m.nextRoleStarts, cursor + 2, cursor + 2 + MAX_SEPARATORS + 1, 0);
  }

  lemma PlainStart(m: Markers, ids: seq<int>)
    requires m == PLAIN_MARKERS && ids != [] && ids[0] == 9
    ensures Cuts(ids, m) == CutsFrom(ids, m, 1)
  {
    assert ids[0..1] == [9];
    FirstHere(ids, [m.sysRolePrefix], 0, |ids|, 0);
  }

  lemma PlainCuts(m: Markers, x: int)
    requires m == PLAIN_MARKERS && x != 2
    ensures Cuts(PlainPrompt(x), m) == [4]
  {
    hide NextCut, FirstMatch, Cuts;
    var ids := PlainPrompt(x);
    PlainStart(m, ids);
    PlainNextCut(m, ids, 1);
    NoCutAtEnd(ids, m);
  }

  function PlainEvent(x: int, outcome: Outcome): Event {
    Prompt(PlainPrompt(x), outcome)
  }

  const CONFIRMED := Ran(1, true, true)
  const FAILED := Ran(0, false, false)

  /** A plain prompt served below capacity: a failed one only advances the next slot. */
  function AfterPlain(cap: nat, sys: System, x: int, outcome: Outcome): System
    requires cap > 0
  {
    var slot, key := sys.index.nextSlot, PlainPrompt(x);
    if outcome == CONFIRMED then
      System(Index(sys.index.entries + [Item(key, slot)], (slot + 1) % cap, None), sys.daemon[slot := key])
    else System(Index(sys.index.entries, (slot + 1) % cap, None), sys.daemon)
  }

  lemma PlainTouch(entries: seq<Entry>, x: int)
    requires !Has(entries, PlainPrompt(x))
    ensures TouchAll(entries, PlainPrompt(x), [4]) == entries
    ensures PlainPrompt(x)[..4] == PlainPrompt(x)
  {
    hide Position, Pop;
    var key, cuts := PlainPrompt(x), [4];
    assert key[..4] == key && cuts[..0] == [];
    assert TouchAll(entries, key, []) == entries;
  }

  lemma PlainStep(cap: nat, m: Markers, sys: System, x: int, outcome: Outcome)
    requires cap > 0 && m == PLAIN_MARKERS && x != 2 && (outcome == CONFIRMED || outcome == FAILED)
    requires |sys.index.entries| < cap && !Has(sys.index.entries, PlainPrompt(x))
    ensures Step(cap, m, sys, PlainEvent(x, outcome)) == AfterPlain(cap, sys, x, outcome)
  {
    PlainCuts(m, x);
    PlainTouch(sys.index.entries, x);
    hide Cuts, Position, Pop, TouchAll;
  }

  lemma PlainRun(cap: nat, m: Markers, events: seq<Event>, sys: System, x: int, outcome: Outcome)
    requires cap > 0 && m == PLAIN_MARKERS && x != 2 && (outcome == CONFIRMED || outcome == FAILED)
    requires events != [] && events[|events| - 1] == PlainEvent(x, outcome)
    requires Run(cap, m, events[..|events| - 1]) == sys
    requires |sys.index.entries| < cap && !Has(sys.index.entries, PlainPrompt(x))
    ensures Run(cap, m, events) == AfterPlain(cap, sys, x, outcome)
  {
    hide Step, AfterPlain, Has, PlainEvent;
    PlainStep(cap, m, sys, x, outcome);
  }

  lemma NothingRun(cap: nat, m: Markers)
    requires cap > 0
    ensures Run(cap, m, []) == System(CLEARED, map[])
  {
  }

  lemma OnceRun(cap: nat, m: Markers, ev: Event, x: int, outcome: Outcome)
    requires cap > 0 && m == PLAIN_MARKERS && x != 2 && (outcome == CONFIRMED || outcome == FAILED)
    requires ev == PlainEvent(x, outcome)
    ensures Run(cap, m, [ev]) == AfterPlain(cap, System(CLEARED, map[]), x, outcome)
  {
    PlainAbsent(x, x + 1, 0);
    hide PlainPrompt, PlainEvent, Has, Run, AfterPlain;
    NothingRun(cap, m);
    assert [ev][..0] == [];
    PlainRun(cap, m, [ev], System(CLEARED, map[]), x, outcome);
  }

  // With one slot: a confirmed request, and one whose stream is given up after the daemon has
  // written its snapshot.

  lemma UnsettledStep(cap: nat, m: Markers, sys: System, x: int, y: int)
    requires cap == 1 && m == PLAIN_MARKERS && x != y && y != 2
    requires sys == System(Index([Item(PlainPrompt(x), 0)], 0, None), map[0 := PlainPrompt(x)])
    ensures
      Step(cap, m, sys, PlainEvent(y, Unsettled(true)))
      == System(sys.index.(pending := Some(PlainPrompt(x))), map[0 := PlainPrompt(y)])
  {
    PlainCuts(m, y);
    PlainAbsent(y, x, 0);
    PlainTouch(sys.index.entries, y);
    hide Cuts, Position, Pop, TouchAll;
  }

  /**
   With one slot, a stream that is given up after its snapshot was written leaves the index
   pointing at it: the next request for the first prompt restores the second one's state.
  */
  lemma UnsettledBreaksAgreement(cap: nat, m: Markers, events: seq<Event>, x: int, y: int)
    requires cap == 1 && m == PLAIN_MARKERS && x != y && x != 2 && y != 2
    requires |events| == 2 && events[0] == PlainEvent(x, CONFIRMED) && events[1] == PlainEvent(y, Unsettled(true))
    ensures PossibleRun(events) && Restores(m, Run(cap, m, events), PlainPrompt(x), PlainPrompt(y))
    ensures PlainPrompt(x) != PlainPrompt(y)
  {
    UnsettledIsPossible(events, x, y);
    PlainAbsent(y, x, 0);
    hide PlainEvent, Run, PossibleRun, Has, Restores;
    UnsettledRun(cap, m, events, x, y);
    UnsettledRestores(m, Run(cap, m, events), x, y);
  }

  lemma UnsettledIsPossible(events: seq<Event>, x: int, y: int)
    requires |events| == 2 && events[0] == PlainEvent(x, CONFIRMED) && events[1] == PlainEvent(y, Unsettled(true))
    ensures PossibleRun(events)
  {
  }

  /** All of the prompt is found in the cache, and what is restored for it is `key`. */
  ghost predicate Restores(m: Markers, sys: System, ids: seq<int>, key: Key) {
    var hit := LookupHit(sys.index.entries, ids, Cuts(ids, m));
    hit.Some? && hit.value.length == |ids| && hit.value.slot in sys.daemon && sys.daemon[hit.value.slot] == key
  }

  lemma UnsettledRestores(m: Markers, sys: System, x: int, y: int)
    requires m == PLAIN_MARKERS && x != 2
    requires sys.index.entries == [Item(PlainPrompt(x), 0)] && sys.daemon == map[0 := PlainPrompt(y)]
    ensures Restores(m, sys, PlainPrompt(x), PlainPrompt(y))
  {
    hide Cuts, LookupHit;
    PlainCuts(m, x);
    PlainHit(PlainPrompt(x), x, 0);
  }

  lemma UnsettledRun(cap: nat, m: Markers, events: seq<Event>, x: int, y: int)
    requires cap == 1 && m == PLAIN_MARKERS && x != y && x != 2 && y != 2
    requires |events| == 2 && events[0] == PlainEvent(x, CONFIRMED) && events[1] == PlainEvent(y, Unsettled(true))
    ensures
      Run(cap, m, events)
      == System(Index([Item(PlainPrompt(x), 0)], 0, Some(PlainPrompt(x))), map[0 := PlainPrompt(y)])
  {
    hide PlainPrompt, PlainEvent, Step;
    OnceRun(cap, m, events[0], x, CONFIRMED);
    assert events[..1] == [events[0]];
    hide Run;
    UnsettledStep(cap, m, Run(cap, m, [events[0]]), x, y);
    LastStep(cap, m, events);
  }

  lemma LastStep(cap: nat, m: Markers, events: seq<Event>)
    requires cap > 0 && events != []
    ensures var n := |events| - 1; Run(cap, m, events) == Step(cap, m, Run(cap, m, events[..n]), events[n])
  {
  }

  lemma PlainHit(ids: seq<int>, x: int, slot: nat)
    requires ids == PlainPrompt(x)
    ensures ids[..4] == ids
    ensures LookupHit([Item(PlainPrompt(x), slot)], ids, [4]) == Some(Hit(slot, 4))
  {
    assert ids[..4] == ids;
    GetIs([Item(PlainPrompt(x), slot)], Item(PlainPrompt(x), slot));
  }

  // A longer prompt that hits and is handed the slot it hits.

  function LongPrompt(x: int): seq<int> {
    [9, x, 2, 7, 14, 2, 7, 15, 2, 7]
  }

  lemma LongCuts(m: Markers, ids: seq<int>, x: int)
    requires m == PLAIN_MARKERS && ids == LongPrompt(x) && x != 2
    ensures Cuts(ids, m) == [4, 7, 10]
    ensures ids[..4] == PlainPrompt(x)
  {
    hide NextCut, FirstMatch, Cuts;
    PlainStart(m, ids);
    PlainNextCut(m, ids, 1);
    PlainNextCut(m, ids, 4);
    PlainNextCut(m, ids, 7);
    NoCutAtEnd(ids, m);
    assert CutsFrom(ids, m, 7) == [10];
    assert CutsFrom(ids, m, 4) == [7, 10];
  }

  lemma LongCommand(cap: nat, ix: Index, ids: seq<int>, key: Key, slot: nat, cuts: seq<nat>)
    requires cap > 0 && ix == Index([Item(key, slot)], slot, None)
    requires cuts == [4, 7, 10] && |ids| == 10 && key == ids[..4]
    ensures
      var (_, hit, snap) := Command(cap, ix, ids, cuts);
      hit == Some(Hit(slot, 4)) && snap == Some(Snap(slot, 7))
  {
    assert |ids[..7]| == 7 && |ids[..10]| == 10 && |key| == 4;
    SoleEntry(ix.entries, key, slot, ids[..7]);
    SoleEntry(ix.entries, key, slot, ids[..10]);
    SoleEntry(ix.entries, key, slot, ids[..4]);
    hide Has, Get, TouchAll;
    SoleTouched(ix.entries, key, slot, ids, cuts);
    assert cuts[..2] == [4, 7] && cuts[..2][..1] == [4];
    assert DeepestCached(ix.entries, ids, cuts[..2][..1]) == Some(4);
    assert DeepestCached(ix.entries, ids, cuts[..2]) == Some(4);
  }

  lemma SoleEntry(entries: seq<Entry>, key: Key, slot: nat, other: Key)
    requires entries == [Item(key, slot)]
    ensures Has(entries, other) <==> other == key
    ensures Has(entries, key) && Get(entries, key) == slot
    ensures MoveToEnd(entries, other) == entries
  {
    GetIs(entries, Item(key, slot));
    assert Has(entries, other) ==> Position(entries, other) == 0;
  }

  lemma {:induction false} SoleTouched(entries: seq<Entry>, key: Key, slot: nat, ids: seq<int>, cuts: seq<nat>)
    requires entries == [Item(key, slot)] && forall i | 0 <= i < |cuts| :: cuts[i] <= |ids|
    ensures TouchAll(entries, ids, cuts) == entries
  {
    hide MoveToEnd;
    if cuts != [] {
      var n := |cuts| - 1;
      SoleTouched(entries, key, slot, ids, cuts[..n]);
      SoleEntry(entries, key, slot, ids[..cuts[n]]);
    }
  }

  /** The next command for `ids` restores from slot `slot` and snapshots into it. */
  ghost predicate BothIn(cap: nat, m: Markers, ix: Index, ids: seq<int>, slot: nat)
    requires cap > 0
  {
    var (_, hit, snap) := Command(cap, ix, ids, Cuts(ids, m));
    hit == Some(Hit(slot, 4)) && snap == Some(Snap(slot, 7))
  }

  lemma LongBothIn(cap: nat, m: Markers, ix: Index, x: int, slot: nat)
    requires cap > 0 && m == PLAIN_MARKERS && x != 2
    requires ix == Index([Item(PlainPrompt(x), slot)], slot, None)
    ensures BothIn(cap, m, ix, LongPrompt(x), slot)
  {
    hide Command, Cuts;
    LongCuts(m, LongPrompt(x), x);
    LongCommand(cap, ix, LongPrompt(x), PlainPrompt(x), slot, [4, 7, 10]);
  }

  /** With one slot, a command after a confirmed snapshot can restore from the slot it snapshots into. */
  lemma OneSlotForBoth(cap: nat, m: Markers, events: seq<Event>, x: int)
    requires cap == 1 && m == PLAIN_MARKERS && x != 2
    requires |events| == 1 && events[0] == PlainEvent(x, CONFIRMED)
    ensures PossibleRun(events) && BothIn(cap, m, Run(cap, m, events).index, LongPrompt(x), 0)
  {
    SoleIsPossible(events, x);
    hide Run, PlainPrompt, PlainEvent, PossibleRun, BothIn, LongPrompt;
    assert events == [events[0]];
    OnceRun(cap, m, events[0], x, CONFIRMED);
    LongBothIn(cap, m, Run(cap, m, events).index, x, 0);
  }

  lemma SoleIsPossible(events: seq<Event>, x: int)
    requires |events| == 1 && events[0] == PlainEvent(x, CONFIRMED)
    ensures PossibleRun(events)
  {
  }

  // With two slots: failed requests around a confirmed one.

  ghost predicate FailConfirmFail(events: seq<Event>) {
    && |events| >= 3 && events[0] == PlainEvent(10, FAILED)
    && events[1] == PlainEvent(11, CONFIRMED) && events[2] == PlainEvent(12, FAILED)
  }

  lemma FailThenConfirm(cap: nat, m: Markers, events: seq<Event>, b: Entry)
    requires cap == 2 && m == PLAIN_MARKERS && b == Item(PlainPrompt(11), 1)
    requires FailConfirmFail(events)
    ensures Run(cap, m, events[..1]) == System(Index([], 1, None), map[])
    ensures Run(cap, m, events[..2]) == System(Index([b], 0, None), map[1 := b.key])
  {
    hide PlainPrompt, PlainEvent, Has, Run;
    OnceRun(cap, m, events[0], 10, FAILED);
    PlainAbsent(11, 10, 0);
    assert events[..1] == [events[0]] && events[..2][..1] == [events[0]];
    PlainRun(cap, m, events[..2], System(Index([], 1, None), map[]), 11, CONFIRMED);
  }

  lemma ThenFail(cap: nat, m: Markers, events: seq<Event>, b: Entry)
    requires cap == 2 && m == PLAIN_MARKERS && b == Item(PlainPrompt(11), 1)
    requires FailConfirmFail(events)
    ensures Run(cap, m, events[..3]) == System(Index([b], 1, None), map[1 := b.key])
  {
    hide PlainPrompt, PlainEvent, Has, Run;
    FailThenConfirm(cap, m, events, b);
    PlainAbsent(12, 11, 1);
    assert events[..3][..2] == events[..2];
    PlainRun(cap, m, events[..3], System(Index([b], 0, None), map[1 := b.key]), 12, FAILED);
  }

  lemma FailConfirmFailIsPossible(events: seq<Event>)
    requires FailConfirmFail(events) && |events| == 3
    ensures PossibleRun(events)
  {
  }

  lemma UnwrittenSpares(cap: nat, m: Markers, events: seq<Event>, i: nat)
    requires cap > 0 && i < |events| && (events[i].Prompt? ==> !events[i].outcome.written)
    ensures Spares(cap, m, events, i)
  {
    hide Run, Cuts, NeedsSnap;
  }

  lemma NothingToOverwrite(cap: nat, m: Markers, events: seq<Event>, i: nat)
    requires cap > 0 && i < |events| && Run(cap, m, events[..i]).index.entries == []
    ensures Spares(cap, m, events, i)
  {
    hide Run, Cuts, NeedsSnap;
  }

  lemma FailConfirmFailSpares(cap: nat, m: Markers, events: seq<Event>, i: nat)
    requires cap == 2 && m == PLAIN_MARKERS && FailConfirmFail(events) && i < 3
    ensures Spares(cap, m, events, i)
  {
    hide Run, PlainPrompt, Spares;
    if i == 1 {
      FailThenConfirm(cap, m, events, Item(PlainPrompt(11), 1));
      NothingToOverwrite(cap, m, events, i);
    } else {
      UnwrittenSpares(cap, m, events, i);
    }
  }

  /**
   With two slots, after a run that overwrites nothing, a command can restore from the slot it
   snapshots into: a failed request before a confirmed one and another after it.
  */
  lemma TwoSlotsForBoth(cap: nat, m: Markers, events: seq<Event>)
    requires cap == 2 && m == PLAIN_MARKERS && FailConfirmFail(events) && |events| == 3
    ensures PossibleRun(events) && NoOverwrites(cap, m, events)
    ensures BothIn(cap, m, Run(cap, m, events).index, LongPrompt(11), 1)
  {
    hide Run, PlainPrompt, PlainEvent, PossibleRun, BothIn, LongPrompt, Spares;
    var b := Item(PlainPrompt(11), 1);
    FailConfirmFailIsPossible(events);
    forall i | 0 <= i < |events|
      ensures Spares(cap, m, events, i)
    {
      FailConfirmFailSpares(cap, m, events, i);
    }
    ThenFail(cap, m, events, b);
    assert events[..3] == events;
    LongBothIn(cap, m, Run(cap, m, events).index, 11, 1);
  }

  /**
   With two slots, two failed requests around a confirmed one make the next slot one that is
   in use; the following snapshot then overwrites the one that is still indexed.
  */
  lemma AbortsBreakAgreement(cap: nat, m: Markers, events: seq<Event>, b: Entry)
    requires cap == 2 && m == PLAIN_MARKERS && b == Item(PlainPrompt(11), 1)
    requires FailConfirmFail(events) && |events| == 4 && events[3] == PlainEvent(13, CONFIRMED)
    ensures PossibleRun(events)
    ensures
      Run(cap, m, events)
      == System(Index([b, Item(PlainPrompt(13), 1)], 0, None), map[1 := PlainPrompt(13)])
    ensures PlainPrompt(13) != b.key
  {
    hide PlainPrompt, PlainEvent, Has, Run, PossibleRun;
    FailConfirmTwiceIsPossible(events);
    ThenFail(cap, m, events, b);
    PlainAbsent(13, 11, 1);
    PlainRun(cap, m, events, System(Index([b], 1, None), map[1 := b.key]), 13, CONFIRMED);
  }

  lemma FailConfirmTwiceIsPossible(events: seq<Event>)
    requires FailConfirmFail(events) && |events| == 4 && events[3] == PlainEvent(13, CONFIRMED)
    ensures PossibleRun(events)
  {
  }

  lemma PlainAbsent(x: int, y: int, slot: nat)
    requires x != y
    ensures PlainPrompt(x) != PlainPrompt(y)
    ensures !Has<nat>([], PlainPrompt(x)) && !Has([Item(PlainPrompt(y), slot)], PlainPrompt(x))
  {
    assert PlainPrompt(x)[1] != PlainPrompt(y)[1];
  }
}
