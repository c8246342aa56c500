/**
 A dictionary that remembers insertion order, as the caches use it: items from least to most
 recently used, looked up by key. A prefix of token ids is its own key.
*/
module OrderedDict {

  type Key = seq<int>

  datatype Item<+V> = Item(key: Key, value: V)

  ghost predicate DistinctKeys<V>(entries: seq<Item<V>>) {
    forall i, j | 0 <= i < j < |entries| :: entries[i].key != entries[j].key
  }

  /** The position of `key`, or the length. */
  function Position<V>(entries: seq<Item<V>>, key: Key): (i: nat)
    ensures i <= |entries|
    ensures i < |entries| ==> entries[i].key == key
    ensures forall j | 0 <= j < i :: entries[j].key != key
  {
    if entries == [] || entries[0].key == key then 0 else 1 + Position(entries[1..], key)
  }

  predicate Has<V>(entries: seq<Item<V>>, key: Key) {
    Position(entries, key) < |entries|
  }

  function Get<V>(entries: seq<Item<V>>, key: Key): V
    requires Has(entries, key)
  {
    entries[Position(entries, key)].value
  }

  function Pop<V>(entries: seq<Item<V>>, key: Key): seq<Item<V>> {
    var i := Position(entries, key);
    if i < |entries| then entries[..i] + entries[i + 1..] else entries
  }

  function MoveToEnd<V>(entries: seq<Item<V>>, key: Key): seq<Item<V>> {
    if Has(entries, key) then Pop(entries, key) + [Item(key, Get(entries, key))] else entries
  }

  function Put<V>(entries: seq<Item<V>>, key: Key, value: V): seq<Item<V>> {
    var i := Position(entries, key);
    if i < |entries| then entries[i := Item(key, value)] else entries + [Item(key, value)]
  }

  lemma HasIs<V(!new)>(entries: seq<Item<V>>, key: Key)
    ensures Has(entries, key) <==> exists e :: e in entries && e.key == key
  {
  }

  lemma GetIs<V>(entries: seq<Item<V>>, e: Item<V>)
    requires DistinctKeys(entries) && e in entries
    ensures Has(entries, e.key) && Get(entries, e.key) == e.value
  {
  }

  lemma PopKeeps<V(!new)>(entries: seq<Item<V>>, key: Key)
    requires DistinctKeys(entries)
    ensures DistinctKeys(Pop(entries, key)) && !Has(Pop(entries, key), key)
    ensures forall e :: e in Pop(entries, key) <==> e in entries && e.key != key
    ensures |Pop(entries, key)| == |entries| - if Has(entries, key) then 1 else 0
  {
    var i, rest := Position(entries, key), Pop(entries, key);
    if i < |entries| {
      RemovedItems(entries, i, rest);
    }
    hide Position;
    assert forall e | e in entries && i == |entries| :: e.key != key;
  }

  lemma RemovedItems<V(!new)>(entries: seq<Item<V>>, i: nat, rest: seq<Item<V>>)
    requires DistinctKeys(entries) && i < |entries| && rest == entries[..i] + entries[i + 1..]
    ensures DistinctKeys(rest)
    ensures forall e :: e in rest <==> e in entries && e.key != entries[i].key
  {
    forall j | 0 <= j < |rest|
      ensures rest[j] == entries[if j < i then j else j + 1]
    {
    }
    forall e | e in entries && e.key != entries[i].key
      ensures e in rest
    {
      var j :| 0 <= j < |entries| && entries[j] == e;
      assert rest[if j < i then j else j - 1] == e;
    }
  }

  lemma PutKeeps<V(!new)>(entries: seq<Item<V>>, key: Key, value: V)
    requires DistinctKeys(entries)
    ensures DistinctKeys(Put(entries, key, value))
    ensures forall e :: e in Put(entries, key, value) <==> (e in entries && e.key != key) || e == Item(key, value)
    ensures |Put(entries, key, value)| == |entries| + if Has(entries, key) then 0 else 1
  {
    var i, put := Position(entries, key), Put(entries, key, value);
    if i < |entries| {
      assert put[i] == Item(key, value);
      forall e | e in entries && e.key != key
        ensures e in put
      {
        var j :| 0 <= j < |entries| && entries[j] == e;
        assert put[j] == e;
      }
    }
  }

  /** Two lists of entries hold the same map. */
  ghost predicate SameMap<V(!new)>(entries: seq<Item<V>>, entries': seq<Item<V>>) {
    && DistinctKeys(entries) && DistinctKeys(entries') && |entries| == |entries'|
    && forall e :: e in entries <==> e in entries'
  }

  lemma SameMapLookups<V(!new)>(entries: seq<Item<V>>, entries': seq<Item<V>>, key: Key)
    requires SameMap(entries, entries')
    ensures Has(entries', key) <==> Has(entries, key)
    ensures Has(entries, key) ==> Get(entries', key) == Get(entries, key)
  {
    HasIs(entries, key);
    HasIs(entries', key);
    if Has(entries, key) {
      GetIs(entries', entries[Position(entries, key)]);
    }
  }

  lemma NothingMoves<V>(entries: seq<Item<V>>, key: Key)
    requires !Has(entries, key)
    ensures MoveToEnd(entries, key) == entries
  {
  }

  lemma MoveToEndSameMap<V(!new)>(entries: seq<Item<V>>, key: Key)
    requires DistinctKeys(entries)
    ensures SameMap(entries, MoveToEnd(entries, key))
  {
    PopKeeps(entries, key);
  }

  // ---------------------------------------------------------------------
  // Order
  // ---------------------------------------------------------------------

  lemma PositionIs<V>(entries: seq<Item<V>>, i: nat)
    requires DistinctKeys(entries) && i < |entries|
    ensures Position(entries, entries[i].key) == i && Has(entries, entries[i].key)
  {
  }

  /** Taking an item out, moving it to the end and replacing its value leave the others where they are. */
  lemma OthersStay<V>(before: seq<Item<V>>, e: Item<V>, after: seq<Item<V>>, value: V)
    requires DistinctKeys(before + [e] + after)
    ensures
      var entries := before + [e] + after;
      && Pop(entries, e.key) == before + after
      && MoveToEnd(entries, e.key) == before + after + [e]
      && Put(entries, e.key, value) == before + [Item(e.key, value)] + after
  {
    var entries := before + [e] + after;
    assert entries[|before|] == e;
    PositionIs(entries, |before|);
    assert entries[..|before|] == before && entries[|before| + 1..] == after;
  }

  /** A new key comes last. */
  lemma NewKeyLast<V>(entries: seq<Item<V>>, key: Key, value: V)
    requires !Has(entries, key)
    ensures Put(entries, key, value) == entries + [Item(key, value)] && Pop(entries, key) == entries
  {
  }

  /** A key that moves comes last, and any two others keep their order. */
  lemma MoveOrders<V(!new)>(entries: seq<Item<V>>, key: Key, a: Key, b: Key)
    requires DistinctKeys(entries) && Has(entries, key)
    requires Has(entries, a) && a != key
    ensures
      var moved := MoveToEnd(entries, key);
      && Position(moved, a) < Position(moved, key)
      && (b != key && Has(entries, b) ==>
            (Position(moved, a) < Position(moved, b) <==> Position(entries, a) < Position(entries, b)))
  {
    var i, moved := Position(entries, key), MoveToEnd(entries, key);
    MoveToEndSameMap(entries, key);
    MovedIndex(entries, key, a);
    PositionIs(moved, |moved| - 1);
    if b != key && Has(entries, b) {
      MovedIndex(entries, key, b);
    }
  }

  lemma MovedIndex<V(!new)>(entries: seq<Item<V>>, key: Key, a: Key)
    requires DistinctKeys(entries) && Has(entries, key) && Has(entries, a) && a != key
    ensures
      var i, j := Position(entries, key), Position(entries, a);
      i != j && Position(MoveToEnd(entries, key), a) == if j < i then j else j - 1
  {
    hide Position;
    var i, j, moved := Position(entries, key), Position(entries, a), MoveToEnd(entries, key);
    MoveToEndSameMap(entries, key);
    assert moved == entries[..i] + entries[i + 1..] + [Item(key, Get(entries, key))];
    hide MoveToEnd, SameMap;
    assert i != j && entries[i].key == key && entries[j].key == a;
    var j' := if j < i then j else j - 1;
    assert moved[j'] == entries[j];
    assert DistinctKeys(moved) by { MovedDistinct(entries, key); }
    PositionIs(moved, j');
  }

  lemma MovedDistinct<V(!new)>(entries: seq<Item<V>>, key: Key)
    requires DistinctKeys(entries)
    ensures DistinctKeys(MoveToEnd(entries, key))
  {
    MoveToEndSameMap(entries, key);
  }
}
