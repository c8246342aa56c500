/**
 What the tool-call memory stands for: a plain map from call ids to texts with a recency
 list, bounded in entries and in bytes of distinct text.
*/
module ToolMemorySpec {

  import opened Wrappers

  /** Ids from least to most recently used. */
  datatype Memory = Memory(texts: map<string, string>, recency: seq<string>)

  datatype Bounds = Bounds(maxEntries: nat, maxBytes: nat)

  const EMPTY := Memory(map[], [])

  // ---------------------------------------------------------------------
  // Sizes
  // ---------------------------------------------------------------------

  function CharSize(c: char): nat {
    var code := c as int;
    if code < 0x80 then 1 else if code < 0x800 then 2 else if code < 0x1_0000 then 3 else 4
  }

  /** The length of the text in UTF-8. */
  function TextSize(s: string): (n: nat)
    ensures n >= |s|
  {
    if s == "" then 0 else TextSize(s[..|s| - 1]) + CharSize(s[|s| - 1])
  }

  ghost function SumSizes(texts: set<string>): (n: nat)
    ensures texts == {} ==> n == 0
  {
    if texts == {} then 0
    else
      var t :| t in texts;
      TextSize(t) + SumSizes(texts - {t})
  }

  /** The sum does not depend on the order in which texts are taken out. */
  lemma {:induction false} SumWithout(texts: set<string>, t: string)
    requires t in texts
    ensures SumSizes(texts) == TextSize(t) + SumSizes(texts - {t})
    decreases texts
  {
    hide TextSize;
    var first :| first in texts && SumSizes(texts) == TextSize(first) + SumSizes(texts - {first});
    if first != t {
      SumWithout(texts - {first}, t);
      SumWithout(texts - {t}, first);
      assert texts - {first} - {t} == texts - {t} - {first};
    }
  }

  lemma SumWith(texts: set<string>, t: string)
    requires t !in texts
    ensures SumSizes(texts + {t}) == TextSize(t) + SumSizes(texts)
  {
    SumWithout(texts + {t}, t);
    assert texts + {t} - {t} == texts;
  }

  // ---------------------------------------------------------------------
  // Operations
  // ---------------------------------------------------------------------

  ghost predicate Distinct(ids: seq<string>) {
    forall i, j | 0 <= i < j < |ids| :: ids[i] != ids[j]
  }

  ghost predicate Valid(mem: Memory) {
    && Distinct(mem.recency)
    && (forall id :: id in mem.recency <==> id in mem.texts)
  }

  function Without(ids: seq<string>, id: string): (rest: seq<string>)
    ensures id !in rest
    ensures forall x :: x in rest <==> x in ids && x != id
  {
    if ids == [] then []
    else if ids[0] == id then Without(ids[1..], id)
    else [ids[0]] + Without(ids[1..], id)
  }

  function Touch(mem: Memory, id: string): Memory {
    mem.(recency := Without(mem.recency, id) + [id])
  }

  function TouchAll(mem: Memory, ids: seq<string>): Memory {
    if ids == [] then mem else Touch(TouchAll(mem, ids[..|ids| - 1]), ids[|ids| - 1])
  }

  function Bind(mem: Memory, id: string, text: string): Memory {
    Touch(mem.(texts := mem.texts[id := text]), id)
  }

  /** The memory without `id`. */
  function Unbound(mem: Memory, id: string): Memory {
    Memory(mem.texts - {id}, Without(mem.recency, id))
  }

  lemma BindUnbound(mem: Memory, id: string, text: string)
    ensures Bind(Unbound(mem, id), id, text) == Bind(mem, id, text)
  {
    WithoutAbsent(Without(mem.recency, id), id);
  }

  lemma UnboundAbsent(mem: Memory, id: string)
    requires Valid(mem) && id !in mem.texts
    ensures Unbound(mem, id) == mem
  {
    WithoutAbsent(mem.recency, id);
    assert mem.texts - {id} == mem.texts;
  }

  function BindAll(mem: Memory, ids: seq<string>, text: string): Memory {
    if ids == [] then mem else Bind(BindAll(mem, ids[..|ids| - 1], text), ids[|ids| - 1], text)
  }

  /** The non-empty ids, each at its first occurrence. */
  function Unique(ids: seq<string>): (unique: seq<string>)
    ensures forall x :: x in unique <==> x in ids && x != ""
    ensures Distinct(unique)
  {
    if ids == [] then []
    else
      var before, id := Unique(ids[..|ids| - 1]), ids[|ids| - 1];
      if id == "" || id in before then before else before + [id]
  }

  ghost predicate Within(bounds: Bounds, mem: Memory) {
    |mem.texts| <= bounds.maxEntries && SumSizes(mem.texts.Values) <= bounds.maxBytes
  }

  /** The memory without its `k` least recently used ids. */
  function DropOldest(mem: Memory, k: nat): Memory
    requires k <= |mem.recency|
  {
    Memory(mem.texts - (set id | id in mem.recency[..k]), mem.recency[k..])
  }

  /** Removes least recently used ids until both bounds hold or nothing is left. */
  ghost function Prune(bounds: Bounds, mem: Memory): Memory
    decreases |mem.recency|
  {
    if mem.recency == [] || Within(bounds, mem) then mem
    else Prune(bounds, DropOldest(mem, 1))
  }

  predicate Disabled(bounds: Bounds) {
    bounds.maxEntries == 0 || bounds.maxBytes == 0
  }

  ghost function Remember(bounds: Bounds, mem: Memory, callIds: seq<string>, text: string): Memory {
    if Disabled(bounds) || text == "" || Unique(callIds) == [] then mem
    else Prune(bounds, BindAll(mem, Unique(callIds), text))
  }

  /** All calls are known and share one text. */
  predicate Replays(mem: Memory, calls: seq<string>, text: string) {
    calls != [] && forall i | 0 <= i < |calls| ::
      calls[i] != "" && calls[i] in mem.texts && mem.texts[calls[i]] == text
  }

  // ---------------------------------------------------------------------
  // The operations keep the memory well formed
  // ---------------------------------------------------------------------

  lemma {:induction false} WithoutDistinct(ids: seq<string>, id: string)
    requires Distinct(ids)
    ensures Distinct(Without(ids, id))
    ensures |Without(ids, id)| == |ids| - if id in ids then 1 else 0
  {
    if ids != [] {
      WithoutDistinct(ids[1..], id);
      if ids[0] != id {
        PrependDistinct(ids[0], Without(ids[1..], id));
      } else {
        assert id !in ids[1..];
      }
    }
  }

  lemma {:induction false} WithoutAppend(ids: seq<string>, more: seq<string>, id: string)
    ensures Without(ids + more, id) == Without(ids, id) + Without(more, id)
  {
    hide Without;
    WithoutStep(ids, id);
    WithoutStep(ids + more, id);
    if ids == [] {
      assert ids + more == more;
    } else {
      WithoutAppend(ids[1..], more, id);
      var head := if ids[0] == id then [] else [ids[0]];
      assert (ids + more)[1..] == ids[1..] + more;
      assert Without(ids + more, id) == head + (Without(ids[1..], id) + Without(more, id));
    }
  }

  lemma WithoutStep(ids: seq<string>, id: string)
    ensures
      Without(ids, id)
      == if ids == [] then [] else (if ids[0] == id then [] else [ids[0]]) + Without(ids[1..], id)
  {
  }

  lemma {:induction false} WithoutAbsent(ids: seq<string>, id: string)
    requires id !in ids
    ensures Without(ids, id) == ids
  {
    if ids != [] {
      WithoutAbsent(ids[1..], id);
    }
  }

  /** A touched id comes last and only there; leaving it out shows the others as they were. */
  ghost predicate MovedToEnd(ids: seq<string>, touched: seq<string>, id: string) {
    && touched != [] && touched[|touched| - 1] == id && id !in touched[..|touched| - 1]
    && Without(touched, id) == Without(ids, id)
  }

  lemma TouchedIsLast(ids: seq<string>, id: string)
    ensures MovedToEnd(ids, Without(ids, id) + [id], id)
  {
    WithoutAppend(Without(ids, id), [id], id);
    WithoutAbsent(Without(ids, id), id);
  }

  lemma PrependDistinct(id: string, ids: seq<string>)
    requires id !in ids && Distinct(ids)
    ensures Distinct([id] + ids)
  {
  }

  lemma TouchKeepsValid(mem: Memory, id: string)
    requires Distinct(mem.recency)
    requires id in mem.texts && forall x | x != id :: x in mem.recency <==> x in mem.texts
    ensures Valid(Touch(mem, id))
  {
    WithoutDistinct(mem.recency, id);
  }

  lemma BindKeepsValid(mem: Memory, id: string, text: string)
    requires Valid(mem)
    ensures Valid(Bind(mem, id, text))
  {
    TouchKeepsValid(mem.(texts := mem.texts[id := text]), id);
  }

  lemma {:induction false} BindAllKeepsValid(mem: Memory, ids: seq<string>, text: string)
    requires Valid(mem)
    ensures Valid(BindAll(mem, ids, text))
  {
    hide Valid;
    if ids != [] {
      BindAllKeepsValid(mem, ids[..|ids| - 1], text);
      BindKeepsValid(BindAll(mem, ids[..|ids| - 1], text), ids[|ids| - 1], text);
    }
  }

  lemma {:induction false} TouchAllKeepsValid(mem: Memory, ids: seq<string>)
    requires Valid(mem) && forall i | 0 <= i < |ids| :: ids[i] in mem.texts
    ensures Valid(TouchAll(mem, ids)) && TouchAll(mem, ids).texts == mem.texts
  {
    if ids != [] {
      TouchAllKeepsValid(mem, ids[..|ids| - 1]);
      TouchKeepsValid(TouchAll(mem, ids[..|ids| - 1]), ids[|ids| - 1]);
    }
  }

  lemma DropKeepsValid(mem: Memory, k: nat)
    requires Valid(mem) && k <= |mem.recency|
    ensures Valid(DropOldest(mem, k)) && |DropOldest(mem, k).recency| == |mem.recency| - k
  {
    var rest := DropOldest(mem, k);
    forall id
      ensures id in rest.recency <==> id in rest.texts
    {
      if id in mem.recency {
        var i :| 0 <= i < |mem.recency| && mem.recency[i] == id;
        assert i < k ==> mem.recency[..k][i] == id;
        assert i >= k ==> mem.recency[k..][i - k] == id;
      }
    }
  }

  /** Pruning removes the shortest least recently used run of ids that restores both bounds. */
  lemma {:induction false} PruneIsShortest(bounds: Bounds, mem: Memory) returns (k: nat)
    requires Valid(mem)
    ensures k <= |mem.recency| && Prune(bounds, mem) == DropOldest(mem, k)
    ensures Valid(Prune(bounds, mem)) && Within(bounds, Prune(bounds, mem))
    ensures forall j | 0 <= j < k :: !Within(bounds, DropOldest(mem, j))
    decreases |mem.recency|
  {
    hide Within, Valid, DropOldest;
    DropNone(mem);
    if mem.recency == [] || Within(bounds, mem) {
      k := 0;
      if mem.recency == [] {
        NothingWithin(bounds, mem);
      }
    } else {
      DropKeepsValid(mem, 1);
      var k' := PruneIsShortest(bounds, DropOldest(mem, 1));
      k := k' + 1;
      DropTwice(mem, k');
      forall j | 0 <= j < k
        ensures !Within(bounds, DropOldest(mem, j))
      {
        if j > 0 {
          DropTwice(mem, j - 1);
        }
      }
    }
  }

  lemma DropNone(mem: Memory)
    ensures DropOldest(mem, 0) == mem
  {
    assert mem.recency[..0] == [] && mem.texts - {} == mem.texts;
  }

  lemma NothingWithin(bounds: Bounds, mem: Memory)
    requires Valid(mem) && mem.recency == []
    ensures Within(bounds, mem)
  {
    assert mem.texts == map[] by {
      assert forall id :: id !in mem.texts;
    }
    assert mem.texts.Values == {};
  }

  lemma DropTwice(mem: Memory, j: nat)
    requires 1 + j <= |mem.recency|
    ensures |DropOldest(mem, 1).recency| == |mem.recency| - 1
    ensures DropOldest(DropOldest(mem, 1), j) == DropOldest(mem, j + 1)
  {
    var r := mem.recency;
    assert r[..j + 1] == [r[0]] + r[1..][..j] && r[1..][j..] == r[j + 1..];
    assert r[..1] == [r[0]];
  }

  /** After a remember both bounds hold. */
  lemma RememberKeepsBounds(bounds: Bounds, mem: Memory, callIds: seq<string>, text: string)
    requires Valid(mem) && Within(bounds, mem)
    ensures
      var mem' := Remember(bounds, mem, callIds, text);
      Valid(mem') && |mem'.texts| <= bounds.maxEntries && SumSizes(mem'.texts.Values) <= bounds.maxBytes
  {
    if !(Disabled(bounds) || text == "" || Unique(callIds) == []) {
      BindAllKeepsValid(mem, Unique(callIds), text);
      var _ := PruneIsShortest(bounds, BindAll(mem, Unique(callIds), text));
    }
  }

  // ---------------------------------------------------------------------
  // Runs: what survives is what was remembered last
  // ---------------------------------------------------------------------

  datatype Event = Remembered(callIds: seq<string>, text: string) | LookedUp(calls: seq<string>)

  ghost function Run(bounds: Bounds, events: seq<Event>): Memory {
    if events == [] then EMPTY
    else
      var mem := Run(bounds, events[..|events| - 1]);
      match events[|events| - 1]
      case Remembered(callIds, text) => Remember(bounds, mem, callIds, text)
      case LookedUp(calls) => if exists text :: Replays(mem, calls, text) then TouchAll(mem, calls) else mem
  }

  /** The text of the latest event that remembered `id`; a disabled memory remembers nothing. */
  function Latest(bounds: Bounds, events: seq<Event>, id: string): Option<string> {
    if events == [] then None
    else
      var ev := events[|events| - 1];
      if ev.Remembered? && !Disabled(bounds) && ev.text != "" && id in Unique(ev.callIds) then Some(ev.text)
      else Latest(bounds, events[..|events| - 1], id)
  }

  lemma {:induction false} BindAllTexts(mem: Memory, ids: seq<string>, text: string, id: string)
    ensures id in BindAll(mem, ids, text).texts <==> id in mem.texts || id in ids
    ensures id in BindAll(mem, ids, text).texts ==>
      BindAll(mem, ids, text).texts[id] == if id in ids then text else mem.texts[id]
  {
    if ids != [] {
      var n := |ids| - 1;
      BindAllTexts(mem, ids[..n], text, id);
      assert id in ids <==> id in ids[..n] || id == ids[n];
    }
  }

  /** On every run, a surviving id maps to the text that was remembered for it last. */
  lemma {:induction false} SurvivorsAreLatest(bounds: Bounds, events: seq<Event>, id: string)
    ensures Valid(Run(bounds, events)) && Within(bounds, Run(bounds, events))
    ensures id in Run(bounds, events).texts ==> Latest(bounds, events, id) == Some(Run(bounds, events).texts[id])
  {
    hide Within, Prune, Valid;
    if events == [] {
      EmptyIsValid(bounds);
    } else {
      var n := |events| - 1;
      var mem := Run(bounds, events[..n]);
      SurvivorsAreLatest(bounds, events[..n], id);
      match events[n]
      case LookedUp(calls) =>
        if exists text :: Replays(mem, calls, text) {
          TouchAllKeepsValid(mem, calls);
          TouchKeepsWithin(bounds, mem, TouchAll(mem, calls));
        }
      case Remembered(callIds, text) =>
        RememberKeepsBounds(bounds, mem, callIds, text);
        var ids := Unique(callIds);
        if !(Disabled(bounds) || text == "" || ids == []) {
          BindAllTexts(mem, ids, text, id);
          BindAllKeepsValid(mem, ids, text);
          var _ := PruneIsShortest(bounds, BindAll(mem, ids, text));
        }
    }
  }

  /** After any run there are no more ids and no more bytes of text than the bounds say. */
  lemma BoundsHold(bounds: Bounds, events: seq<Event>)
    ensures
      var mem := Run(bounds, events);
      |mem.texts| <= bounds.maxEntries && SumSizes(mem.texts.Values) <= bounds.maxBytes
  {
    SurvivorsAreLatest(bounds, events, "");
  }

  /**
   A lookup after any run returns a text exactly when there are calls, all of them survive, and
   that text is what was remembered last for every one of them.
  */
  lemma ReplaysLatest(bounds: Bounds, events: seq<Event>, calls: seq<string>, text: string)
    ensures
      Replays(Run(bounds, events), calls, text)
      <==> calls != [] && forall i | 0 <= i < |calls| ::
             calls[i] != "" && calls[i] in Run(bounds, events).texts && Latest(bounds, events, calls[i]) == Some(text)
  {
    hide Run, Latest;
    forall i | 0 <= i < |calls| && calls[i] in Run(bounds, events).texts
      ensures Latest(bounds, events, calls[i]) == Some(Run(bounds, events).texts[calls[i]])
    {
      SurvivorsAreLatest(bounds, events, calls[i]);
    }
  }

  lemma EmptyIsValid(bounds: Bounds)
    ensures Valid(EMPTY) && Within(bounds, EMPTY)
  {
    assert EMPTY.texts.Values == {};
  }

  lemma TouchKeepsWithin(bounds: Bounds, mem: Memory, mem': Memory)
    requires Within(bounds, mem) && mem'.texts == mem.texts
    ensures Within(bounds, mem')
  {
  }

  // ---------------------------------------------------------------------
  // Sizes are those of UTF-8
  // ---------------------------------------------------------------------

  /** The UTF-8 bytes of a character: a lead byte and continuation bytes of six bits each. */
  function Utf8(c: char): (bytes: seq<int>) {
    var code := c as int;
    var c1, c2 := code / 0x40, code / 0x40 / 0x40;
    if code < 0x80 then [code]
    else if code < 0x800 then [0xC0 + c1, 0x80 + code % 0x40]
    else if code < 0x1_0000 then [0xE0 + c2, 0x80 + c1 % 0x40, 0x80 + code % 0x40]
    else [0xF0 + c2 / 0x40, 0x80 + c2 % 0x40, 0x80 + c1 % 0x40, 0x80 + code % 0x40]
  }

  /** What a number of bytes stands for: the bits of the lead byte and six of each other one. */
  function FromUtf8(b: seq<int>): int
    requires 1 <= |b| <= 4
  {
    if |b| == 1 then b[0]
    else if |b| == 2 then (b[0] - 0xC0) * 0x40 + (b[1] - 0x80)
    else if |b| == 3 then ((b[0] - 0xE0) * 0x40 + (b[1] - 0x80)) * 0x40 + (b[2] - 0x80)
    else (((b[0] - 0xF0) * 0x40 + (b[1] - 0x80)) * 0x40 + (b[2] - 0x80)) * 0x40 + (b[3] - 0x80)
  }

  /** The size of a character is the number of its bytes, and those stand for it. */
  lemma SizeIsUtf8(c: char)
    ensures |Utf8(c)| == CharSize(c) && FromUtf8(Utf8(c)) == c as int
    ensures forall i | 0 <= i < |Utf8(c)| :: 0 <= Utf8(c)[i] < 0x100
  {
    var code := c as int;
    var c1 := code / 0x40;
    var c2 := c1 / 0x40;
    assert code == c1 * 0x40 + code % 0x40 && c1 == c2 * 0x40 + c1 % 0x40 && c2 == c2 / 0x40 * 0x40 + c2 % 0x40;
    assert code < 0x11_0000;
  }

  /** The size of a text is that of its characters, one after another. */
  lemma {:induction false} TextSizeAdds(s: string, t: string, c: char)
    ensures TextSize(s + t) == TextSize(s) + TextSize(t) && TextSize([c]) == |Utf8(c)| && TextSize("") == 0
  {
    SizeIsUtf8(c);
    hide Utf8, CharSize;
    assert [c][..0] == "";
    if t == "" {
      assert s + t == s;
    } else {
      TextSizeAdds(s, t[..|t| - 1], c);
      assert (s + t)[..|s + t| - 1] == s + t[..|t| - 1];
    }
  }

  // ---------------------------------------------------------------------
  // The order of use
  // ---------------------------------------------------------------------

  /** The ids of a turn become the most recently used, in the order of its calls. */
  lemma {:induction false} TouchedLast(mem: Memory, ids: seq<string>)
    requires Distinct(ids)
    ensures
      var recency := TouchAll(mem, ids).recency;
      |ids| <= |recency| && recency[|recency| - |ids|..] == ids
  {
    hide Distinct, Without;
    if ids != [] {
      var n := |ids| - 1;
      DistinctLast(ids);
      TouchedLast(mem, ids[..n]);
      EndsStay(TouchAll(mem, ids[..n]).recency, ids[..n], ids[n]);
      assert ids == ids[..n] + [ids[n]];
    }
  }

  lemma {:induction false} BoundLast(mem: Memory, ids: seq<string>, text: string)
    requires Distinct(ids)
    ensures
      var recency := BindAll(mem, ids, text).recency;
      |ids| <= |recency| && recency[|recency| - |ids|..] == ids
  {
    hide Distinct, Without;
    if ids != [] {
      var n := |ids| - 1;
      DistinctLast(ids);
      BoundLast(mem, ids[..n], text);
      EndsStay(BindAll(mem, ids[..n], text).recency, ids[..n], ids[n]);
      assert ids == ids[..n] + [ids[n]];
    }
  }

  lemma DistinctLast(ids: seq<string>)
    requires Distinct(ids) && ids != []
    ensures Distinct(ids[..|ids| - 1]) && ids[|ids| - 1] !in ids[..|ids| - 1]
  {
  }

  /** Touching an id that is not among the last ones leaves those where they are, before it. */
  lemma EndsStay(recency: seq<string>, last: seq<string>, id: string)
    requires |last| <= |recency| && recency[|recency| - |last|..] == last && id !in last
    ensures
      var touched := Without(recency, id) + [id];
      |last| + 1 <= |touched| && touched[|touched| - (|last| + 1)..] == last + [id]
  {
    var front := recency[..|recency| - |last|];
    assert recency == front + last;
    WithoutAppend(front, last, id);
    WithoutAbsent(last, id);
  }

  // ---------------------------------------------------------------------
  // The ids of a turn
  // ---------------------------------------------------------------------

  /** Ids that are neither empty nor repeated are all taken, as they come. */
  lemma {:induction false} UniqueKeepsAll(ids: seq<string>)
    requires Distinct(ids) && "" !in ids
    ensures Unique(ids) == ids
  {
    if ids != [] {
      var n := |ids| - 1;
      UniqueKeepsAll(ids[..n]);
      assert ids == ids[..n] + [ids[n]];
      assert ids[n] in ids;
    }
  }

  /** More ids come after those that were there. */
  lemma {:induction false} UniqueGrows(ids: seq<string>, more: seq<string>)
    ensures Unique(ids) <= Unique(ids + more)
  {
    if more == [] {
      assert ids + more == ids;
    } else {
      var n := |more| - 1;
      UniqueGrows(ids, more[..n]);
      assert (ids + more)[..|ids| + n] == ids + more[..n];
    }
  }

  // ---------------------------------------------------------------------
  // What was just remembered is there
  // ---------------------------------------------------------------------

  /** Nothing is remembered without room, without text or without ids. */
  lemma NothingRemembered(bounds: Bounds, mem: Memory, callIds: seq<string>, text: string)
    requires bounds.maxEntries == 0 || bounds.maxBytes == 0 || text == "" || forall id | id in callIds :: id == ""
    ensures Remember(bounds, mem, callIds, text) == mem
  {
    if forall id | id in callIds :: id == "" {
      var unique := Unique(callIds);
      assert unique != [] ==> unique[0] in unique;
    }
  }

  /** A text that fits the bounds on its own survives with all its ids, whatever else has to go. */
  lemma RememberedSurvives(bounds: Bounds, mem: Memory, callIds: seq<string>, text: string, id: string)
    requires Valid(mem) && bounds.maxEntries > 0 && bounds.maxBytes > 0 && text != ""
    requires |Unique(callIds)| <= bounds.maxEntries && TextSize(text) <= bounds.maxBytes
    requires id in callIds && id != ""
    ensures
      var after := Remember(bounds, mem, callIds, text);
      id in after.texts && after.texts[id] == text
  {
    hide TextSize, Within, BindAll, Prune, DropOldest, Valid, Unique, Distinct;
    var ids := Unique(callIds);
    var bound := BindAll(mem, ids, text);
    assert id in ids;
    BindAllKeepsValid(mem, ids, text);
    BindAllTexts(mem, ids, text, id);
    BoundLast(mem, ids, text);
    var k := PruneIsShortest(bounds, bound);
    var most := |bound.recency| - |ids|;
    if k > most {
      OnlyJustRemembered(bounds, mem, ids, text);
    }
    var i :| 0 <= i < |ids| && ids[i] == id;
    assert bound.recency[most..][i] == bound.recency[most + i];
    KeptIfLate(bound, k, most + i);
  }

  lemma KeptIfLate(mem: Memory, k: nat, i: nat)
    requires Valid(mem) && k <= i < |mem.recency|
    ensures mem.recency[i] in DropOldest(mem, k).texts
    ensures DropOldest(mem, k).texts[mem.recency[i]] == mem.texts[mem.recency[i]]
  {
    assert mem.recency[i] !in mem.recency[..k];
  }

  /** When only the ids just bound are left, the text fits. */
  lemma OnlyJustRemembered(bounds: Bounds, mem: Memory, ids: seq<string>, text: string)
    requires Valid(mem) && Distinct(ids) && ids != []
    requires |ids| <= bounds.maxEntries && TextSize(text) <= bounds.maxBytes
    ensures
      var bound := BindAll(mem, ids, text);
      |ids| <= |bound.recency| && Within(bounds, DropOldest(bound, |bound.recency| - |ids|))
  {
    hide TextSize;
    var bound := BindAll(mem, ids, text);
    BindAllKeepsValid(mem, ids, text);
    BoundLast(mem, ids, text);
    var k := |bound.recency| - |ids|;
    var rest := DropOldest(bound, k);
    DropKeepsValid(bound, k);
    assert rest.recency == ids;
    forall id
      ensures id in rest.texts <==> id in ids
      ensures id in rest.texts ==> rest.texts[id] == text
    {
      BindAllTexts(mem, ids, text, id);
    }
    OneText(rest.texts, ids, text);
  }

  lemma OneText(texts: map<string, string>, ids: seq<string>, text: string)
    requires Distinct(ids) && ids != [] && forall id :: id in texts <==> id in ids
    requires forall id | id in texts :: texts[id] == text
    ensures |texts| <= |ids| && SumSizes(texts.Values) == TextSize(text)
  {
    hide TextSize;
    assert ids[0] in texts;
    assert texts.Values == {text};
    SumWithout({text}, text);
    assert {text} - {text} == {};
    KeysBounded(texts.Keys, ids);
    assert |texts| == |texts.Keys|;
  }

  lemma {:induction false} KeysBounded(keys: set<string>, ids: seq<string>)
    requires forall id | id in keys :: id in ids
    ensures |keys| <= |ids|
  {
    if ids == [] {
      assert keys == {};
    } else {
      var n := |ids| - 1;
      assert ids == ids[..n] + [ids[n]];
      KeysBounded(keys - {ids[n]}, ids[..n]);
      assert |keys| <= |keys - {ids[n]}| + 1;
    }
  }
}
