/**
 The index of the prefix cache over the daemon's snapshot slots: lookup, the
 prepare / confirm / abort protocol with deferred eviction, and clearing.
*/
module InlineSnapshots {
  import opened Wrappers
  import opened Sequences
  import opened ChatBoundaries
  import opened OrderedDict

  /** A prefix and the daemon slot that holds its snapshot. */
  type Entry = Item<nat>

  /** Entries from least to most recently used. */
  datatype Index = Index(entries: seq<Entry>, nextSlot: nat, pending: Option<Key>)

  datatype Hit = Hit(slot: nat, length: nat)
  datatype Snap = Snap(slot: nat, cut: nat)

  // ---------------------------------------------------------------------
  // What the operations do
  // ---------------------------------------------------------------------

  /** Each cached cut in turn becomes the most recently used. */
  function TouchAll(entries: seq<Entry>, ids: seq<int>, cuts: seq<nat>): seq<Entry>
    requires forall i | 0 <= i < |cuts| :: cuts[i] <= |ids|
  {
    if cuts == [] then entries
    else MoveToEnd(TouchAll(entries, ids, cuts[..|cuts| - 1]), ids[..cuts[|cuts| - 1]])
  }

  lemma {:induction false} TouchAllSameMap(entries: seq<Entry>, ids: seq<int>, cuts: seq<nat>)
    requires DistinctKeys(entries) && forall i | 0 <= i < |cuts| :: cuts[i] <= |ids|
    ensures SameMap(entries, TouchAll(entries, ids, cuts))
  {
    hide MoveToEnd;
    if cuts != [] {
      var n := |cuts| - 1;
      TouchAllSameMap(entries, ids, cuts[..n]);
      MoveToEndSameMap(TouchAll(entries, ids, cuts[..n]), ids[..cuts[n]]);
    }
  }

  /** No cut of the prompt cuts off `key`. */
  ghost predicate NotACut(key: Key, ids: seq<int>, cuts: seq<nat>)
    requires forall i | 0 <= i < |cuts| :: cuts[i] <= |ids|
  {
    forall i | 0 <= i < |cuts| :: key != ids[..cuts[i]]
  }

  /** What touching keeps and reaches, for one more cut. */
  lemma TouchLast(entries: seq<Entry>, ids: seq<int>, cuts: seq<nat>, key: Key)
    requires DistinctKeys(entries) && cuts != [] && forall i | 0 <= i < |cuts| :: cuts[i] <= |ids|
    ensures
      var n := |cuts| - 1;
      var before, last := TouchAll(entries, ids, cuts[..n]), ids[..cuts[n]];
      && TouchAll(entries, ids, cuts) == MoveToEnd(before, last) && DistinctKeys(before)
      && (Has(before, key) <==> Has(entries, key)) && (Has(before, last) <==> Has(entries, last))
  {
    var n := |cuts| - 1;
    TouchAllSameMap(entries, ids, cuts[..n]);
    SameMapLookups(entries, TouchAll(entries, ids, cuts[..n]), key);
    SameMapLookups(entries, TouchAll(entries, ids, cuts[..n]), ids[..cuts[n]]);
  }

  /** A touched prefix comes after every entry that is no prefix of the prompt. */
  lemma {:induction false} TouchedAfterOthers(entries: seq<Entry>, ids: seq<int>, cuts: seq<nat>, other: Key, j: nat)
    requires DistinctKeys(entries) && forall i | 0 <= i < |cuts| :: cuts[i] <= |ids|
    requires Has(entries, other) && NotACut(other, ids, cuts)
    requires j < |cuts| && Has(entries, ids[..cuts[j]])
    ensures
      var touched := TouchAll(entries, ids, cuts);
      Position(touched, other) < Position(touched, ids[..cuts[j]])
  {
    hide Has, MoveToEnd, TouchAll;
    var n := |cuts| - 1;
    var before, last := TouchAll(entries, ids, cuts[..n]), ids[..cuts[n]];
    TouchLast(entries, ids, cuts, other);
    TouchLast(entries, ids, cuts, ids[..cuts[j]]);
    if Has(before, last) {
      MoveOrders(before, last, other, ids[..cuts[j]]);
    } else {
      NothingMoves(before, last);
    }
    if j < n {
      TouchedAfterOthers(entries, ids, cuts[..n], other, j);
    }
  }

  /** Of two touched prefixes the longer one comes later. */
  lemma {:induction false} TouchedInOrder(entries: seq<Entry>, ids: seq<int>, cuts: seq<nat>, i: nat, j: nat)
    requires DistinctKeys(entries) && Increasing(cuts) && forall i | 0 <= i < |cuts| :: cuts[i] <= |ids|
    requires i < j < |cuts| && Has(entries, ids[..cuts[i]]) && Has(entries, ids[..cuts[j]])
    ensures
      var touched := TouchAll(entries, ids, cuts);
      Position(touched, ids[..cuts[i]]) < Position(touched, ids[..cuts[j]])
  {
    hide Has, MoveToEnd, TouchAll;
    var n := |cuts| - 1;
    var before, last := TouchAll(entries, ids, cuts[..n]), ids[..cuts[n]];
    assert |ids[..cuts[i]]| == cuts[i] < cuts[n] == |last|;
    TouchLast(entries, ids, cuts, ids[..cuts[i]]);
    TouchLast(entries, ids, cuts, ids[..cuts[j]]);
    if Has(before, last) {
      MoveOrders(before, last, ids[..cuts[i]], ids[..cuts[j]]);
    } else {
      NothingMoves(before, last);
    }
    if j < n {
      TouchedInOrder(entries, ids, cuts[..n], i, j);
      assert |ids[..cuts[j]]| == cuts[j] < cuts[n];
    }
  }

  /** Two entries that are no prefix of the prompt keep their order. */
  lemma {:induction false} OthersKeepOrder(entries: seq<Entry>, ids: seq<int>, cuts: seq<nat>, a: Key, b: Key)
    requires DistinctKeys(entries) && forall i | 0 <= i < |cuts| :: cuts[i] <= |ids|
    requires Has(entries, a) && NotACut(a, ids, cuts) && Has(entries, b) && NotACut(b, ids, cuts)
    ensures
      var touched := TouchAll(entries, ids, cuts);
      Position(touched, a) < Position(touched, b) <==> Position(entries, a) < Position(entries, b)
  {
    hide Has, MoveToEnd;
    if cuts != [] {
      var n := |cuts| - 1;
      var before, last := TouchAll(entries, ids, cuts[..n]), ids[..cuts[n]];
      OthersKeepOrder(entries, ids, cuts[..n], a, b);
      TouchLast(entries, ids, cuts, a);
      TouchLast(entries, ids, cuts, b);
      if Has(before, last) {
        MoveOrders(before, last, a, b);
      } else {
        NothingMoves(before, last);
      }
    }
  }

  /** The last cut in the list whose prefix is cached. */
  function DeepestCached(entries: seq<Entry>, ids: seq<int>, cuts: seq<nat>): (r: Option<nat>)
    requires forall i | 0 <= i < |cuts| :: cuts[i] <= |ids|
    ensures r.Some? ==> r.value in cuts && r.value <= |ids| && Has(entries, ids[..r.value])
  {
    if cuts == [] then None
    else if Has(entries, ids[..cuts[|cuts| - 1]]) then Some(cuts[|cuts| - 1])
    else DeepestCached(entries, ids, cuts[..|cuts| - 1])
  }

  function LookupHit(entries: seq<Entry>, ids: seq<int>, cuts: seq<nat>): Option<Hit>
    requires forall i | 0 <= i < |cuts| :: cuts[i] <= |ids|
  {
    match DeepestCached(entries, ids, cuts)
    case None => None
    case Some(cut) => Some(Hit(Get(entries, ids[..cut]), cut))
  }

  /** The end of the most recent completed message: the last cut but one. */
  function TargetCut(cuts: seq<nat>): nat
    requires cuts != []
  {
    if |cuts| >= 2 then cuts[|cuts| - 2] else cuts[|cuts| - 1]
  }

  predicate NeedsSnap(ix: Index, ids: seq<int>, cuts: seq<nat>)
    requires forall i | 0 <= i < |cuts| :: cuts[i] <= |ids|
  {
    cuts != [] && !Has(ix.entries, ids[..TargetCut(cuts)])
  }

  /** At capacity the least recently used slot is reserved without giving up its entry yet. */
  function Prepared(cap: nat, ix: Index, ids: seq<int>, cuts: seq<nat>): (Index, Option<Snap>)
    requires cap > 0 && forall i | 0 <= i < |cuts| :: cuts[i] <= |ids|
  {
    if cuts == [] then (ix, None)
    else
      var cut := TargetCut(cuts);
      if Has(ix.entries, ids[..cut]) then
        (ix.(entries := MoveToEnd(ix.entries, ids[..cut])), None)
      else if |ix.entries| >= cap then
        (ix.(pending := Some(ix.entries[0].key)), Some(Snap(ix.entries[0].value, cut)))
      else
        (ix.(nextSlot := (ix.nextSlot + 1) % cap, pending := None), Some(Snap(ix.nextSlot, cut)))
  }

  ghost function LargerCuts(cuts: seq<nat>, cut: nat): set<nat> {
    set c | c in cuts && c > cut
  }

  /** The end of the last message but one, if there are two, and otherwise of the only one. */
  ghost predicate EndsLastMessage(cuts: seq<nat>, cut: nat) {
    cut in cuts && |LargerCuts(cuts, cut)| == if |cuts| >= 2 then 1 else 0
  }

  lemma TargetEndsLastMessage(cuts: seq<nat>)
    requires cuts != [] && Increasing(cuts)
    ensures EndsLastMessage(cuts, TargetCut(cuts))
  {
    var n := |cuts| - 1;
    if n > 0 {
      assert LargerCuts(cuts, cuts[n - 1]) == {cuts[n]};
    } else {
      assert LargerCuts(cuts, cuts[0]) == {};
    }
  }

  /**
   A snapshot is taken at the end of the last message but one, in the slot of the least recently
   used entry at capacity and in the next slot below it, and only if that prefix is not cached yet.
  */
  lemma PreparedSnap(cap: nat, ix: Index, ids: seq<int>, cuts: seq<nat>)
    requires cap > 0 && Increasing(cuts) && forall i | 0 <= i < |cuts| :: cuts[i] <= |ids|
    ensures
      var (ix', snap) := Prepared(cap, ix, ids, cuts);
      && (snap.Some? ==>
            && EndsLastMessage(cuts, snap.value.cut) && snap.value.cut <= |ids|
            && !Has(ix.entries, ids[..snap.value.cut]) && ix'.entries == ix.entries
            && if |ix.entries| >= cap
               then snap.value.slot == ix.entries[0].value && ix'.pending == Some(ix.entries[0].key)
               else snap.value.slot == ix.nextSlot && ix'.pending == None)
      && (snap == None ==>
            cuts == [] || exists c: nat :: c <= |ids| && EndsLastMessage(cuts, c) && Has(ix.entries, ids[..c]))
  {
    hide Has, EndsLastMessage;
    if cuts != [] {
      TargetEndsLastMessage(cuts);
    }
  }

  function Released(ix: Index): Index {
    match ix.pending
    case None => ix
    case Some(key) => ix.(entries := Pop(ix.entries, key), pending := None)
  }

  function Confirmed(ix: Index, slot: nat, key: Key): Index {
    var ix' := Released(ix);
    ix'.(entries := Put(ix'.entries, key, slot))
  }

  const CLEARED := Index([], 0, None)

  // ---------------------------------------------------------------------
  // The cache object
  // ---------------------------------------------------------------------

  class PrefixCache {
    const cap: nat
    const markers: Markers
    var entries: seq<Entry>
    var nextSlot: nat
    var pendingEvictKey: Option<Key>

    constructor (cap: nat, markers: Markers)
      requires cap > 0 && Usable(markers)
      ensures this.cap == cap && this.markers == markers && State() == CLEARED && Valid()
    {
      this.cap, this.markers := cap, markers;
      entries, nextSlot, pendingEvictKey := [], 0, None;
    }

    ghost function State(): Index
      reads this
    {
      Index(entries, nextSlot, pendingEvictKey)
    }

    /** The keys of a dictionary are distinct. */
    ghost predicate Valid()
      reads this
    {
      cap > 0 && Usable(markers) && DistinctKeys(entries)
    }

    /** The longest cached prefix of the prompt. */
    method Lookup(ids: seq<int>) returns (best: Option<Hit>)
      requires Valid()
      modifies this`entries
      ensures Valid()
      ensures best == old(LookupHit(entries, ids, Cuts(ids, markers)))
      ensures State() == old(State()).(entries := old(TouchAll(entries, ids, Cuts(ids, markers))))
    {
      hide MoveToEnd, Position, Cuts;
      var candidates := FindAllBoundariesMarkers(ids, markers);
      best := None;
      for k := 0 to |candidates|
        invariant entries == TouchAll(old(entries), ids, candidates[..k])
        invariant best == LookupHit(old(entries), ids, candidates[..k])
        invariant DistinctKeys(entries)
      {
        assert candidates[..k + 1][..k] == candidates[..k];
        var key := ids[..candidates[k]];
        TouchAllSameMap(old(entries), ids, candidates[..k]);
        SameMapLookups(old(entries), entries, key);
        if Has(entries, key) {
          if best == None || candidates[k] > best.value.length {
            best := Some(Hit(Get(entries, key), candidates[k]));
          }
          MoveToEndSameMap(entries, key);
          entries := MoveToEnd(entries, key);
        } else {
          NothingMoves(entries, key);
        }
      }
      assert candidates[..|candidates|] == candidates;
    }

    method MarkAllCleared()
      requires Valid()
      modifies this
      ensures Valid()
      ensures State() == CLEARED
    {
      entries := [];
      nextSlot := 0;
      pendingEvictKey := None;
    }

    method PrepareInlineSnap(ids: seq<int>) returns (snap: Option<Snap>)
      requires Valid()
      modifies this
      ensures Valid()
      ensures (State(), snap) == old(Prepared(cap, State(), ids, Cuts(ids, markers)))
      ensures snap.Some? ==>
        EndsLastMessage(Cuts(ids, markers), snap.value.cut) && snap.value.cut <= |ids|
        && !Has(entries, ids[..snap.value.cut])
    {
      hide MoveToEnd, Position, Cuts, EndsLastMessage;
      PreparedSnap(cap, State(), ids, Cuts(ids, markers));
      var candidates := FindAllBoundariesMarkers(ids, markers);
      if candidates == [] {
        return None;
      }
      var targetCut := if |candidates| >= 2 then candidates[|candidates| - 2] else candidates[|candidates| - 1];
      var targetKey := ids[..targetCut];
      if Has(entries, targetKey) {
        MoveToEndSameMap(entries, targetKey);
        entries := MoveToEnd(entries, targetKey);
        return None;
      }
      var slot;
      if |entries| >= cap {
        var oldKey := entries[0].key;
        slot := entries[0].value;
        pendingEvictKey := Some(oldKey);
      } else {
        slot := nextSlot;
        nextSlot := (nextSlot + 1) % cap;
        pendingEvictKey := None;
      }
      return Some(Snap(slot, targetCut));
    }

    method ConfirmInlineSnap(slot: nat, targetCut: nat, ids: seq<int>)
      requires Valid() && targetCut <= |ids|
      modifies this
      ensures Valid()
      ensures State() == old(Confirmed(State(), slot, ids[..targetCut]))
    {
      if pendingEvictKey != None {
        PopKeeps(entries, pendingEvictKey.value);
        entries := Pop(entries, pendingEvictKey.value);
        pendingEvictKey := None;
      }
      PutKeeps(entries, ids[..targetCut], slot);
      entries := Put(entries, ids[..targetCut], slot);
    }

    method AbortInlineSnap(slot: nat)
      requires Valid()
      modifies this
      ensures Valid()
      ensures State() == old(Released(State()))
    {
      if pendingEvictKey != None {
        PopKeeps(entries, pendingEvictKey.value);
        entries := Pop(entries, pendingEvictKey.value);
        pendingEvictKey := None;
      }
    }

    /** Looks up a prompt and reserves a slot for it, as one command line is built. */
    method BuildCommand(ids: seq<int>) returns (restore: Option<Hit>, snap: Option<Snap>)
      requires Valid()
      modifies this
      ensures Valid()
      ensures (State(), restore, snap) == old(Command(cap, State(), ids, Cuts(ids, markers)))
    {
      restore := Lookup(ids);
      snap := PrepareInlineSnap(ids);
    }
  }

  /** Lookup and then reservation: the new index, the slot to restore, the slot to snapshot. */
  function Command(cap: nat, ix: Index, ids: seq<int>, cuts: seq<nat>): (Index, Option<Hit>, Option<Snap>)
    requires cap > 0 && forall i | 0 <= i < |cuts| :: cuts[i] <= |ids|
  {
    var hit := LookupHit(ix.entries, ids, cuts);
    var (ix', snap) := Prepared(cap, ix.(entries := TouchAll(ix.entries, ids, cuts)), ids, cuts);
    (ix', hit, snap)
  }

}
