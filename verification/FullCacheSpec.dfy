/**
 The second slot pool of the prefix cache, which keeps whole compressed prompts: which slots
 are free, which entry goes first, and what a disk budget leaves.
*/
module FullCacheSpec {
  import opened Wrappers
  import opened OrderedDict

  datatype FullEntry = FullEntry(slot: int, curIdsLen: nat, rawPromptLen: nat, lastUsed: int, hits: nat)

  type Entries = seq<Item<FullEntry>>

  /** Sizes of the files present: the cached prompt and the metadata of each key. */
  datatype Disk = Disk(bins: map<Key, nat>, metas: map<Key, nat>)

  // ---------------------------------------------------------------------
  // Slots
  // ---------------------------------------------------------------------

  ghost predicate SlotsOk(first: nat, cap: nat, entries: Entries) {
    && (forall i | 0 <= i < |entries| :: first <= entries[i].value.slot < first + cap)
    && (forall i, j | 0 <= i < j < |entries| :: entries[i].value.slot != entries[j].value.slot)
  }

  function Occupied(entries: Entries): set<int> {
    set i | 0 <= i < |entries| :: entries[i].value.slot
  }

  lemma {:induction false} OccupiedSize(entries: Entries)
    ensures |Occupied(entries)| <= |entries|
    ensures (forall i, j | 0 <= i < j < |entries| :: entries[i].value.slot != entries[j].value.slot)
            ==> |Occupied(entries)| == |entries|
  {
    if entries != [] {
      var n := |entries| - 1;
      OccupiedSize(entries[..n]);
      assert Occupied(entries) == Occupied(entries[..n]) + {entries[n].value.slot};
      if entries[n].value.slot in Occupied(entries[..n]) {
        var i :| 0 <= i < n && entries[..n][i].value.slot == entries[n].value.slot;
        assert entries[i].value.slot == entries[n].value.slot;
      }
    }
  }

  function Range(first: int, cap: nat): (r: set<int>)
    ensures |r| == cap && forall x :: x in r <==> first <= x < first + cap
  {
    if cap == 0 then {} else Range(first, cap - 1) + {first + cap - 1}
  }

  lemma SubsetSize(a: set<int>, b: set<int>)
    requires a <= b
    ensures |a| <= |b|
  {
    assert b == a + (b - a);
  }

  /** Distinct slots in a range of `cap` are at most `cap` many. */
  lemma SlotsBounded(first: nat, cap: nat, entries: Entries)
    requires SlotsOk(first, cap, entries)
    ensures |entries| <= cap
  {
    OccupiedSize(entries);
    SubsetSize(Occupied(entries), Range(first, cap));
  }

  /** Fewer entries than slots leave a slot free. */
  lemma FreeSlotExists(first: nat, cap: nat, entries: Entries) returns (slot: int)
    requires |entries| < cap
    ensures first <= slot < first + cap && slot !in Occupied(entries)
  {
    OccupiedSize(entries);
    if Range(first, cap) <= Occupied(entries) {
      SubsetSize(Range(first, cap), Occupied(entries));
    }
    slot :| slot in Range(first, cap) && slot !in Occupied(entries);
  }

  /** Entry `e` in place of the reserved entry and of an older entry for its key. */
  function Registered(entries: Entries, pending: Option<Key>, e: Item<FullEntry>): Entries {
    Put(if pending == None then entries else Pop(entries, pending.value), e.key, e.value)
  }

  /** The files after that: the new prompt's own, and none of the reserved entry's. */
  function Stored(disk: Disk, pending: Option<Key>, key: Key, size: nat, metaSize: nat): Disk {
    var evicted := if pending == None then {} else {pending.value};
    Disk(disk.bins[key := size] - evicted, (disk.metas - evicted)[key := metaSize])
  }

  lemma SlotsOkIs(first: nat, cap: nat, entries: Entries)
    requires DistinctKeys(entries)
    ensures SlotsOk(first, cap, entries) <==>
      (forall e | e in entries :: first <= e.value.slot < first + cap) &&
      (forall e, e' | e in entries && e' in entries && e.value.slot == e'.value.slot :: e.key == e'.key)
  {
    if SlotsOk(first, cap, entries) {
      forall e, e' | e in entries && e' in entries && e.value.slot == e'.value.slot
        ensures e.key == e'.key
      {
        var i :| 0 <= i < |entries| && entries[i] == e;
        var j :| 0 <= j < |entries| && entries[j] == e';
      }
    }
    if (forall e | e in entries :: first <= e.value.slot < first + cap) &&
       (forall e, e' | e in entries && e' in entries && e.value.slot == e'.value.slot :: e.key == e'.key) {
      forall i, j | 0 <= i < j < |entries|
        ensures entries[i].value.slot != entries[j].value.slot
      {
        assert entries[i] in entries && entries[j] in entries;
      }
      forall i | 0 <= i < |entries|
        ensures first <= entries[i].value.slot < first + cap
      {
        assert entries[i] in entries;
      }
    }
  }

  /**
   Registering an entry keeps the slots distinct and in range exactly when its slot is in
   range and no entry that stays uses it.
  */
  lemma RegisteredSlotsIff(first: nat, cap: nat, entries: Entries, pending: Option<Key>, e: Item<FullEntry>)
    requires DistinctKeys(entries) && SlotsOk(first, cap, entries)
    ensures DistinctKeys(Registered(entries, pending, e))
    ensures SlotsOk(first, cap, Registered(entries, pending, e)) <==>
      && first <= e.value.slot < first + cap
      && forall x | x in entries && x.value.slot == e.value.slot :: x.key == e.key || Some(x.key) == pending
  {
    hide Pop, Put, Has, SlotsOk;
    var kept := if pending == None then entries else Pop(entries, pending.value);
    if pending != None {
      PopKeeps(entries, pending.value);
    }
    PutKeeps(kept, e.key, e.value);
    SlotsOkIs(first, cap, entries);
    var result := Registered(entries, pending, e);
    SlotsOkIs(first, cap, result);
    assert e in result;
    forall x | x in entries && x.key != e.key && Some(x.key) != pending
      ensures x in result
    {
    }
  }

  // ---------------------------------------------------------------------
  // Sizes and scores
  // ---------------------------------------------------------------------

  function FileSize(files: map<Key, nat>, key: Key): nat {
    if key in files then files[key] else 0
  }

  function ArtifactSize(disk: Disk, key: Key): nat {
    FileSize(disk.bins, key) + FileSize(disk.metas, key)
  }

  function TotalSize(disk: Disk, entries: Entries): nat {
    if entries == [] then 0
    else TotalSize(disk, entries[..|entries| - 1]) + ArtifactSize(disk, entries[|entries| - 1].key)
  }

  /** The entry's prompt is a proper, non-empty prefix of the live prompt. */
  predicate IsLivePrefix(e: Item<FullEntry>, live: seq<int>) {
    0 < e.value.rawPromptLen < |live| && live[..e.value.rawPromptLen] == e.key
  }

  /** The tokens an entry saves: those of its prompt, or of the compressed one if that is not known. */
  function Tokens(e: FullEntry): nat {
    if e.rawPromptLen > 0 then e.rawPromptLen else e.curIdsLen
  }

  /** Tokens served per byte. */
  function Worth(hits: nat, tokens: nat, size: nat): real
    requires size > 0
  {
    (hits as real + 1.0) * tokens as real / size as real
  }

  /** What is left of the worth of a prefix of the live prompt. */
  function Discount(hits: nat, tokens: nat, liveLength: nat): real
    requires liveLength > 0
  {
    (if hits > 0 then 0.25 else 0.02) * (tokens as real / liveLength as real)
  }

  function Product(a: real, b: real): real {
    a * b
  }

  /** Tokens served per byte, lower for a prefix of the live prompt; no live prompt is empty. */
  function Score(disk: Disk, e: Item<FullEntry>, live: seq<int>): real {
    var size, hits, tokens := ArtifactSize(disk, e.key), e.value.hits, Tokens(e.value);
    if size == 0 then 0.0
    else if live != [] && IsLivePrefix(e, live) then
      Product(Worth(hits, tokens, size), Discount(hits, tokens, |live|))
    else Worth(hits, tokens, size)
  }

  /** `a` goes before `b`: a lower score, or the same score and an older use. */
  predicate Precedes(disk: Disk, live: seq<int>, a: Item<FullEntry>, b: Item<FullEntry>) {
    Score(disk, a, live) < Score(disk, b, live)
    || (Score(disk, a, live) == Score(disk, b, live) && a.value.lastUsed < b.value.lastUsed)
  }

  /** The first entry that no other one precedes. */
  function Victim(disk: Disk, live: seq<int>, entries: Entries): (v: nat)
    requires entries != []
    ensures v < |entries|
    ensures forall i | 0 <= i < |entries| :: !Precedes(disk, live, entries[i], entries[v])
    ensures forall i | 0 <= i < v :: Precedes(disk, live, entries[v], entries[i])
  {
    var n := |entries| - 1;
    if n == 0 then 0
    else
      var v := Victim(disk, live, entries[..n]);
      assert forall i | 0 <= i < n :: entries[..n][i] == entries[i];
      if Precedes(disk, live, entries[n], entries[v]) then n else v
  }

  // ---------------------------------------------------------------------
  // The budget
  // ---------------------------------------------------------------------

  function RemoveAt(entries: Entries, i: nat): Entries
    requires i < |entries|
  {
    entries[..i] + entries[i + 1..]
  }

  /** Retires one victim after another until the artifacts fit the budget. */
  function Trim(budget: nat, disk: Disk, live: seq<int>, entries: Entries): (kept: Entries)
    ensures kept == [] || TotalSize(disk, kept) <= budget
    ensures |kept| <= |entries|
    decreases |entries|
  {
    if entries == [] || TotalSize(disk, entries) <= budget then entries
    else Trim(budget, disk, live, RemoveAt(entries, Victim(disk, live, entries)))
  }

  /** After `k` victims have gone in turn, or all entries. */
  function Retired(disk: Disk, live: seq<int>, entries: Entries, k: nat): Entries {
    if k == 0 || entries == [] then entries
    else Retired(disk, live, RemoveAt(entries, Victim(disk, live, entries)), k - 1)
  }

  /** Trimming retires no more victims than the budget takes. */
  lemma {:induction false} TrimIsShortest(budget: nat, disk: Disk, live: seq<int>, entries: Entries) returns (k: nat)
    ensures k <= |entries| && Trim(budget, disk, live, entries) == Retired(disk, live, entries, k)
    ensures forall j | 0 <= j < k :: TotalSize(disk, Retired(disk, live, entries, j)) > budget
    decreases |entries|
  {
    hide TotalSize, Victim;
    if entries == [] || TotalSize(disk, entries) <= budget {
      k := 0;
    } else {
      var fewer := RemoveAt(entries, Victim(disk, live, entries));
      var k' := TrimIsShortest(budget, disk, live, fewer);
      k := k' + 1;
      forall j | 0 <= j < k
        ensures TotalSize(disk, Retired(disk, live, entries, j)) > budget
      {
        if j > 0 {
          assert Retired(disk, live, entries, j) == Retired(disk, live, fewer, j - 1);
        }
      }
    }
  }

  /** `some` can be had from `all` by leaving entries out. */
  predicate Subsequence(some: Entries, all: Entries) {
    if some == [] then true
    else if all == [] then false
    else if some[|some| - 1] == all[|all| - 1] then Subsequence(some[..|some| - 1], all[..|all| - 1])
    else Subsequence(some, all[..|all| - 1])
  }

  lemma {:induction false} SubsequenceReflexive(all: Entries)
    ensures Subsequence(all, all)
  {
    if all != [] {
      SubsequenceReflexive(all[..|all| - 1]);
    }
  }

  lemma {:induction false} SubsequenceDropped(some: Entries, all: Entries)
    requires some != [] && Subsequence(some, all)
    ensures Subsequence(some[..|some| - 1], all)
  {
    if some[|some| - 1] == all[|all| - 1] {
      if |some| > 1 {
        if some[|some| - 2] == all[|all| - 1] {
          SubsequenceDropped(some[..|some| - 1], all[..|all| - 1]);
        }
      }
    } else {
      SubsequenceDropped(some, all[..|all| - 1]);
      if |some| > 1 && some[|some| - 2] == all[|all| - 1] {
        SubsequenceDropped(some[..|some| - 1], all[..|all| - 1]);
      }
    }
  }

  lemma {:induction false} SubsequenceTransitive(a: Entries, b: Entries, c: Entries)
    requires Subsequence(a, b) && Subsequence(b, c)
    ensures Subsequence(a, c)
    decreases |b| + |c|
  {
    if a != [] {
      var b', c' := b[..|b| - 1], c[..|c| - 1];
      if b[|b| - 1] == c[|c| - 1] {
        if a[|a| - 1] == b[|b| - 1] {
          SubsequenceTransitive(a[..|a| - 1], b', c');
        } else {
          SubsequenceTransitive(a, b', c');
        }
      } else {
        SubsequenceTransitive(a, b, c');
        if a[|a| - 1] == c[|c| - 1] {
          SubsequenceDropped(a, c');
        }
      }
    }
  }

  lemma {:induction false} RemoveAtSubsequence(entries: Entries, i: nat)
    requires i < |entries|
    ensures Subsequence(RemoveAt(entries, i), entries)
  {
    var n, rest := |entries| - 1, RemoveAt(entries, i);
    if i == n {
      assert rest == entries[..n];
      SubsequenceReflexive(entries[..n]);
      if rest != [] && rest[|rest| - 1] == entries[n] {
        SubsequenceDropped(rest, entries[..n]);
      }
    } else {
      RemoveAtSubsequence(entries[..n], i);
      assert rest[..|rest| - 1] == RemoveAt(entries[..n], i);
    }
  }

  /** What a budget leaves is in the order it was. */
  lemma {:induction false} TrimSubsequence(budget: nat, disk: Disk, live: seq<int>, entries: Entries)
    ensures Subsequence(Trim(budget, disk, live, entries), entries)
    decreases |entries|
  {
    hide Subsequence, TotalSize, RemoveAt;
    SubsequenceReflexive(entries);
    if entries != [] && TotalSize(disk, entries) > budget {
      var v := Victim(disk, live, entries);
      var fewer := RemoveAt(entries, v);
      assert |fewer| < |entries| by {
        RemoveAtIs(entries, v);
      }
      TrimSubsequence(budget, disk, live, fewer);
      RemoveAtSubsequence(entries, v);
      SubsequenceTransitive(Trim(budget, disk, live, fewer), fewer, entries);
    }
  }

  lemma RemoveAtIs(entries: Entries, i: nat)
    requires i < |entries|
    ensures |RemoveAt(entries, i)| == |entries| - 1
    ensures forall j | 0 <= j < |entries| - 1 :: RemoveAt(entries, i)[j] == entries[if j < i then j else j + 1]
  {
  }

  ghost predicate SortedByUse(entries: Entries) {
    forall i, j | 0 <= i < j < |entries| :: entries[i].value.lastUsed <= entries[j].value.lastUsed
  }

  /** Where an entry that was kept comes from. */
  lemma {:induction false} KeptFrom(some: Entries, all: Entries, i: nat) returns (i': nat)
    requires Subsequence(some, all) && i < |some|
    ensures i' < |all| && all[i'] == some[i]
  {
    var n, m := |some| - 1, |all| - 1;
    if some[n] == all[m] {
      if i == n {
        i' := m;
      } else {
        i' := KeptFrom(some[..n], all[..m], i);
      }
    } else {
      i' := KeptFrom(some, all[..m], i);
    }
  }

  lemma {:induction false} KeptInOrder(some: Entries, all: Entries, i: nat, j: nat) returns (i': nat, j': nat)
    requires Subsequence(some, all) && i < j < |some|
    ensures i' < j' < |all| && all[i'] == some[i] && all[j'] == some[j]
  {
    var n, m := |some| - 1, |all| - 1;
    if some[n] == all[m] {
      if j == n {
        i' := KeptFrom(some[..n], all[..m], i);
        j' := m;
      } else {
        i', j' := KeptInOrder(some[..n], all[..m], i, j);
      }
    } else {
      i', j' := KeptInOrder(some, all[..m], i, j);
    }
  }

  /** Leaving entries out keeps keys and slots distinct, and the order of use. */
  lemma SubsequenceKeeps(some: Entries, all: Entries)
    requires Subsequence(some, all) && DistinctKeys(all)
    ensures DistinctKeys(some)
    ensures forall first: nat, cap: nat :: SlotsOk(first, cap, all) ==> SlotsOk(first, cap, some)
    ensures SortedByUse(all) ==> SortedByUse(some)
  {
    hide Subsequence;
    forall i, j | 0 <= i < j < |some|
      ensures some[i].key != some[j].key
      ensures SortedByUse(all) ==> some[i].value.lastUsed <= some[j].value.lastUsed
    {
      var i', j' := KeptInOrder(some, all, i, j);
    }
    forall first: nat, cap: nat | SlotsOk(first, cap, all)
      ensures SlotsOk(first, cap, some)
    {
      KeptSlots(first, cap, some, all);
    }
  }

  lemma KeptSlots(first: nat, cap: nat, some: Entries, all: Entries)
    requires Subsequence(some, all) && SlotsOk(first, cap, all)
    ensures SlotsOk(first, cap, some)
  {
    hide Subsequence;
    forall i | 0 <= i < |some|
      ensures first <= some[i].value.slot < first + cap
    {
      var i' := KeptFrom(some, all, i);
    }
    forall i, j | 0 <= i < j < |some|
      ensures some[i].value.slot != some[j].value.slot
    {
      var i', j' := KeptInOrder(some, all, i, j);
    }
  }

  lemma {:induction false} TotalWithout(disk: Disk, entries: Entries, i: nat)
    requires i < |entries|
    ensures TotalSize(disk, entries) == TotalSize(disk, RemoveAt(entries, i)) + ArtifactSize(disk, entries[i].key)
  {
    hide ArtifactSize;
    var n, rest := |entries| - 1, RemoveAt(entries, i);
    if i == n {
      assert rest == entries[..n];
    } else {
      TotalWithout(disk, entries[..n], i);
      assert rest[..|rest| - 1] == RemoveAt(entries[..n], i);
    }
  }

  function Keys(entries: Entries): set<Key> {
    set i | 0 <= i < |entries| :: entries[i].key
  }

  /** The files that are left once the entries `gone` have lost theirs. */
  function WithoutFiles(disk: Disk, gone: set<Key>): Disk {
    Disk(disk.bins - gone, disk.metas - gone)
  }

  /** Nothing is gone of entries that are all there; one that goes takes its files with it. */
  lemma FilesOfRetired(disk0: Disk, all: Entries, entries: Entries, i: nat)
    requires DistinctKeys(entries) && Keys(entries) <= Keys(all)
    ensures WithoutFiles(disk0, Keys(all) - Keys(all)) == disk0
    ensures i < |entries| ==>
      var rest, key := RemoveAt(entries, i), entries[i].key;
      var disk := WithoutFiles(disk0, Keys(all) - Keys(entries));
      && Keys(rest) <= Keys(all)
      && Disk(disk.bins - {key}, disk.metas - {key}) == WithoutFiles(disk0, Keys(all) - Keys(rest))
  {
    assert disk0.bins - (Keys(all) - Keys(all)) == disk0.bins;
    assert disk0.metas - (Keys(all) - Keys(all)) == disk0.metas;
    if i < |entries| {
      var key := entries[i].key;
      KeysWithoutOne(entries, i);
      var gone := Keys(all) - Keys(entries);
      assert Keys(all) - (Keys(entries) - {key}) == gone + {key};
      assert disk0.bins - gone - {key} == disk0.bins - (gone + {key});
      assert disk0.metas - gone - {key} == disk0.metas - (gone + {key});
    }
  }

  lemma KeysWithoutOne(entries: Entries, i: nat)
    requires i < |entries| && DistinctKeys(entries)
    ensures Keys(RemoveAt(entries, i)) == Keys(entries) - {entries[i].key}
  {
    var rest, key := RemoveAt(entries, i), entries[i].key;
    RemoveAtIs(entries, i);
    forall k | k in Keys(entries) - {key}
      ensures k in Keys(rest)
    {
      var j :| 0 <= j < |entries| && entries[j].key == k;
      assert rest[if j < i then j else j - 1].key == k;
    }
  }

  lemma PopIsRemoveAt(entries: Entries, i: nat)
    requires i < |entries| && DistinctKeys(entries)
    ensures Pop(entries, entries[i].key) == RemoveAt(entries, i)
  {
    assert Position(entries, entries[i].key) == i;
  }

  /** Two disks hold the same artifacts for these entries. */
  ghost predicate SameArtifacts(disk: Disk, disk': Disk, entries: Entries) {
    forall i | 0 <= i < |entries| :: ArtifactSize(disk, entries[i].key) == ArtifactSize(disk', entries[i].key)
  }

  lemma {:induction false} SameTotal(disk: Disk, disk': Disk, entries: Entries)
    requires SameArtifacts(disk, disk', entries)
    ensures TotalSize(disk, entries) == TotalSize(disk', entries)
  {
    hide ArtifactSize;
    if entries != [] {
      SameTotal(disk, disk', entries[..|entries| - 1]);
    }
  }

  lemma SameScore(disk: Disk, disk': Disk, live: seq<int>, e: Item<FullEntry>)
    requires ArtifactSize(disk, e.key) == ArtifactSize(disk', e.key)
    ensures Score(disk, e, live) == Score(disk', e, live)
  {
  }

  lemma SameVictim(disk: Disk, disk': Disk, live: seq<int>, entries: Entries)
    requires entries != [] && SameArtifacts(disk, disk', entries)
    ensures Victim(disk, live, entries) == Victim(disk', live, entries)
  {
    hide Score, Victim, ArtifactSize;
    forall i | 0 <= i < |entries|
      ensures Score(disk, entries[i], live) == Score(disk', entries[i], live)
    {
      SameScore(disk, disk', live, entries[i]);
    }
    VictimUnique(disk', live, entries, Victim(disk, live, entries));
  }

  lemma VictimUnique(disk: Disk, live: seq<int>, entries: Entries, v: nat)
    requires v < |entries| && forall i | 0 <= i < |entries| :: !Precedes(disk, live, entries[i], entries[v])
    requires forall i | 0 <= i < v :: Precedes(disk, live, entries[v], entries[i])
    ensures Victim(disk, live, entries) == v
  {
    hide Precedes, Victim;
    var u := Victim(disk, live, entries);
    assert !Precedes(disk, live, entries[u], entries[v]) && !Precedes(disk, live, entries[v], entries[u]);
  }

  // ---------------------------------------------------------------------
  // What the choice of the victim prefers
  // ---------------------------------------------------------------------

  /** The live prompt goes on where the prompt of this entry ends. */
  ghost predicate LiveGoesOn(e: Item<FullEntry>, live: seq<int>) {
    0 < e.value.rawPromptLen < |live| && live[..e.value.rawPromptLen] == e.key
  }

  lemma ArtifactIs(disk: Disk, key: Key)
    ensures
      ArtifactSize(disk, key)
      == (if key in disk.bins then disk.bins[key] else 0) + (if key in disk.metas then disk.metas[key] else 0)
  {
  }

  lemma ProductSigns(x: real, y: real)
    ensures x >= 0.0 && y >= 0.0 ==> Product(x, y) >= 0.0
    ensures x > 0.0 && y > 0.0 ==> Product(x, y) > 0.0
    ensures x < 0.0 && y > 0.0 ==> Product(x, y) < 0.0
    ensures x == 0.0 ==> Product(x, y) == 0.0
  {
  }

  lemma ProductDifference(a: real, b: real, x: real, y: real)
    ensures Product(b, y) - Product(a, x) == Product(b - a, y) - Product(a, x - y)
  {
  }

  lemma ProductIs(a: real, x: real)
    ensures Product(a, x) == Product(x, a) == a * x
    ensures x != 0.0 ==> Product(a / x, x) == a
    ensures Product(a, 1.0) == a
  {
  }

  lemma Factors(a: real, b: real, x: real, y: real)
    requires 0.0 < a <= b && 0.0 <= x <= y
    ensures 0.0 <= Product(a, x) <= Product(b, y)
    ensures 0.0 < y && (a < b || x < y) ==> Product(a, x) < Product(b, y)
  {
    hide Product;
    ProductSigns(a, x);
    ProductSigns(b - a, y);
    ProductSigns(a, y - x);
    ProductDifference(a, b, x, y);
    ProductDifference(a, a, x, y);
    ProductDifference(a, a, y, x);
    ProductSigns(a - a, x);
    ProductSigns(a - a, y);
  }

  lemma Quotients(a: real, b: real, x: real, y: real)
    requires 0.0 <= a <= b && 0.0 < y <= x
    ensures 0.0 <= a / x <= b / y
    ensures a < b || (0.0 < b && y < x) ==> a / x < b / y
  {
    var p, q := a / x, b / y;
    ProductIs(a, x);
    ProductIs(b, y);
    hide Product;
    ProductSigns(p, x);
    ProductSigns(p, x - y);
    ProductSigns(q - p, y);
    ProductDifference(p, q, x, y);
  }

  /** Worth grows with hits and tokens and falls with the size. */
  lemma WorthOrders(h: nat, h': nat, t: nat, t': nat, size: nat, size': nat)
    requires h <= h' && t <= t' && 0 < t' && 0 < size' <= size
    requires h < h' || t < t' || size' < size
    ensures 0.0 <= Worth(h, t, size) < Worth(h', t', size')
  {
    var a, b, x, y := h as real + 1.0, h' as real + 1.0, t as real, t' as real;
    WorthIs(h, t, size);
    WorthIs(h', t', size');
    hide Product, Worth;
    Factors(a, b, x, y);
    Factors(1.0, b, 0.0, y);
    Quotients(Product(a, x), Product(b, y), size as real, size' as real);
  }

  lemma WorthIs(h: nat, t: nat, size: nat)
    requires size > 0
    ensures Worth(h, t, size) == Product(h as real + 1.0, t as real) / size as real
  {
  }

  lemma WorthPositive(h: nat, t: nat, size: nat)
    requires 0 < t && 0 < size
    ensures Worth(h, t, size) > 0.0
  {
    WorthOrders(h, h, 0, t, size, size);
  }

  lemma DiscountOrders(h: nat, t: nat, n: nat)
    requires 0 < t < n
    ensures 0.0 < Discount(0, t, n) <= Discount(h, t, n) < 1.0
  {
    var depth := t as real / n as real;
    Quotients(t as real, n as real, n as real, n as real);
    Quotients(0.0, t as real, n as real, n as real);
    assert 0.0 < depth < 1.0;
  }

  lemma Discounted(w: real, d: real)
    requires 0.0 < w && 0.0 < d < 1.0
    ensures 0.0 < Product(w, d) < w
  {
    ProductIs(w, 1.0);
    hide Product;
    ProductSigns(w, d);
    Factors(w, w, d, 1.0);
  }

  lemma DiscountedOrders(w: real, w': real, d: real, d': real)
    requires 0.0 <= w < w' && 0.0 < d <= d'
    ensures Product(w, d) < Product(w', d')
  {
    ProductIs(w, d);
    ProductIs(w', d');
    hide Product;
    Factors(d, d', w, w');
  }

  /** An entry counts the tokens of its prompt, or those it was compressed to if the former are not known. */
  lemma TokensAre(e: FullEntry)
    ensures e.rawPromptLen > 0 ==> Tokens(e) == e.rawPromptLen
    ensures e.rawPromptLen == 0 ==> Tokens(e) == e.curIdsLen
  {
  }

  /** Used at least as often, worth at least as many tokens and no larger, and better in one of these. */
  ghost predicate Better(disk: Disk, a: Item<FullEntry>, b: Item<FullEntry>) {
    var size, size' := ArtifactSize(disk, a.key), ArtifactSize(disk, b.key);
    && 0 < size <= size' && a.value.hits >= b.value.hits
    && Tokens(a.value) >= Tokens(b.value) && Tokens(a.value) > 0
    && (size < size' || a.value.hits > b.value.hits || Tokens(a.value) > Tokens(b.value))
  }

  /** An entry that is better than another one, neither of them going on into the live prompt, outlives it. */
  lemma BetterOutlives(disk: Disk, live: seq<int>, entries: Entries, i: nat, j: nat)
    requires i < |entries| && j < |entries| && Better(disk, entries[i], entries[j])
    requires !LiveGoesOn(entries[i], live) && !LiveGoesOn(entries[j], live)
    ensures Victim(disk, live, entries) != i
  {
    hide Victim, Worth, ArtifactSize, Tokens;
    var a, b := entries[i], entries[j];
    WorthOrders(b.value.hits, a.value.hits, Tokens(b.value), Tokens(a.value),
                ArtifactSize(disk, b.key), ArtifactSize(disk, a.key));
    assert Precedes(disk, live, b, a);
  }

  /** Alike in use, tokens and size. */
  ghost predicate Alike(disk: Disk, a: Item<FullEntry>, b: Item<FullEntry>) {
    && a.value.hits == b.value.hits && Tokens(a.value) == Tokens(b.value) > 0
    && ArtifactSize(disk, a.key) == ArtifactSize(disk, b.key) > 0
  }

  /** Of two entries that are alike the one that the live prompt goes on from goes first. */
  lemma LivePrefixGoesFirst(disk: Disk, live: seq<int>, entries: Entries, i: nat, j: nat)
    requires i < |entries| && j < |entries| && Alike(disk, entries[i], entries[j])
    requires LiveGoesOn(entries[i], live) && !LiveGoesOn(entries[j], live)
    ensures Victim(disk, live, entries) != j
  {
    var a, b := entries[i], entries[j];
    var w, t := Worth(a.value.hits, Tokens(a.value), ArtifactSize(disk, a.key)), Tokens(a.value);
    WorthPositive(a.value.hits, t, ArtifactSize(disk, a.key));
    DiscountOrders(a.value.hits, t, |live|);
    hide Victim, Worth, ArtifactSize, Discount, Product;
    Discounted(w, Discount(a.value.hits, t, |live|));
    assert Precedes(disk, live, a, b);
  }

  /** Of two such entries of the same tokens and size, one without hits goes before one with hits. */
  lemma UnusedPrefixGoesFirst(disk: Disk, live: seq<int>, entries: Entries, i: nat, j: nat)
    requires i < |entries| && j < |entries| && entries[i].value.hits == 0 < entries[j].value.hits
    requires Tokens(entries[i].value) == Tokens(entries[j].value)
    requires ArtifactSize(disk, entries[i].key) == ArtifactSize(disk, entries[j].key) > 0
    requires LiveGoesOn(entries[i], live) && LiveGoesOn(entries[j], live)
    ensures Victim(disk, live, entries) != j
  {
    var a, b := entries[i], entries[j];
    var t, size, h := Tokens(a.value), ArtifactSize(disk, a.key), b.value.hits;
    WorthOrders(0, h, t, t, size, size);
    DiscountOrders(h, t, |live|);
    hide Victim, Worth, ArtifactSize, Discount, Product;
    DiscountedOrders(Worth(0, t, size), Worth(h, t, size), Discount(0, t, |live|), Discount(h, t, |live|));
    assert Precedes(disk, live, a, b);
  }

  /** An entry without files goes before one that has files and tokens. */
  lemma EmptyGoesFirst(disk: Disk, live: seq<int>, entries: Entries, i: nat, j: nat)
    requires i < |entries| && j < |entries|
    requires ArtifactSize(disk, entries[i].key) == 0 < ArtifactSize(disk, entries[j].key)
    requires Tokens(entries[j].value) > 0
    ensures Victim(disk, live, entries) != j
  {
    var a, b := entries[i], entries[j];
    var t, size, h := Tokens(b.value), ArtifactSize(disk, b.key), b.value.hits;
    WorthPositive(h, t, size);
    if IsLivePrefix(b, live) {
      DiscountOrders(h, t, |live|);
      Discounted(Worth(h, t, size), Discount(h, t, |live|));
    }
    hide Victim, Worth, ArtifactSize, Discount, Product;
    assert Precedes(disk, live, a, b);
  }

  /** Of two entries that are alike, both or neither going on into the live prompt, the longer unused goes first. */
  lemma LongerUnusedGoesFirst(disk: Disk, live: seq<int>, entries: Entries, i: nat, j: nat)
    requires i < |entries| && j < |entries| && Alike(disk, entries[i], entries[j])
    requires LiveGoesOn(entries[i], live) <==> LiveGoesOn(entries[j], live)
    requires entries[i].value.lastUsed < entries[j].value.lastUsed
    ensures Victim(disk, live, entries) != j
  {
    hide Victim, Worth, ArtifactSize, Discount, Product;
    assert Precedes(disk, live, entries[i], entries[j]);
  }

  /** The worth of a live prefix falls to a quarter, or to a fiftieth if never used, times its share of the prompt. */
  lemma LiveShare(disk: Disk, live: seq<int>, e: Item<FullEntry>)
    requires LiveGoesOn(e, live) && ArtifactSize(disk, e.key) > 0
    ensures
      Score(disk, e, live)
      == Score(disk, e, []) * ((if e.value.hits > 0 then 0.25 else 0.02) * (|e.key| as real / |live| as real))
  {
    hide Worth, ArtifactSize;
    assert |e.key| == e.value.rawPromptLen;
  }

  // What is filed and what goes

  /** The new prompt has its files, the entry it replaces has none, and all other files stay. */
  lemma StoredFiles(disk: Disk, replaced: Key, key: Key, size: nat, metaSize: nat)
    requires replaced != key
    ensures
      var after := Stored(disk, Some(replaced), key, size, metaSize);
      && key in after.bins && after.bins[key] == size && key in after.metas && after.metas[key] == metaSize
      && replaced !in after.bins && replaced !in after.metas
      && (forall k | k != key && k != replaced ::
            && (k in after.bins <==> k in disk.bins) && (k in disk.bins ==> after.bins[k] == disk.bins[k])
            && (k in after.metas <==> k in disk.metas) && (k in disk.metas ==> after.metas[k] == disk.metas[k]))
  {
  }
}
