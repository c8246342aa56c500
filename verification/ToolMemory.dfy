/**
 Exact assistant-text memory for tool-calling turns: blocks of text shared between call ids
 by reference counting, evicted least recently used first under an entry and a byte bound.
*/
module ToolMemoryStore {
  import opened Wrappers
  import opened ToolMemorySpec

  class Block {
    const rawText: string
    const sizeBytes: nat
    var refs: nat

    constructor (rawText: string)
      ensures this.rawText == rawText && sizeBytes == TextSize(rawText) && refs == 0
    {
      this.rawText := rawText;
      sizeBytes := TextSize(rawText);
      refs := 0;
    }
  }

  function Users(texts: map<string, string>, text: string): set<string> {
    set id | id in texts && texts[id] == text
  }

  lemma UsersAfterDrop(texts: map<string, string>, id: string, text: string)
    requires id in texts
    ensures
      |Users(texts - {id}, text)| == |Users(texts, text)| - if texts[id] == text then 1 else 0
  {
    if texts[id] == text {
      assert Users(texts - {id}, text) == Users(texts, text) - {id};
    } else {
      assert Users(texts - {id}, text) == Users(texts, text);
    }
  }

  lemma UsersAfterBind(texts: map<string, string>, id: string, bound: string, text: string)
    requires id !in texts
    ensures
      |Users(texts[id := bound], text)| == |Users(texts, text)| + if bound == text then 1 else 0
  {
    if bound == text {
      assert Users(texts[id := bound], text) == Users(texts, text) + {id};
    } else {
      assert Users(texts[id := bound], text) == Users(texts, text);
    }
  }

  class ToolMemory {
    const bounds: Bounds
    var byId: map<string, Block>
    var byBlock: map<string, Block>
    var lru: seq<string>
    var totalBytes: int

    constructor (maxEntries: nat, maxBytes: nat)
      ensures Consistent() && Abs() == EMPTY && bounds == Bounds(maxEntries, maxBytes) && byBlock == map[]
    {
      bounds := Bounds(maxEntries, maxBytes);
      byId, byBlock, lru, totalBytes := map[], map[], [], 0;
    }

    ghost function Texts(): map<string, string>
      reads this`byId
    {
      map id | id in byId :: byId[id].rawText
    }

    /** The memory this object stands for. */
    ghost function Abs(): Memory
      reads this
    {
      Memory(Texts(), lru)
    }

    /** Blocks are filed under their text, and the byte total is that of all blocks. */
    ghost predicate Filed()
      reads this`byBlock, this`totalBytes
    {
      && (forall t | t in byBlock :: byBlock[t].rawText == t && byBlock[t].sizeBytes == TextSize(t))
      && totalBytes == SumSizes(byBlock.Keys)
    }

    /** Ids map to filed blocks. */
    ghost predicate Linked()
      reads this`byId, this`byBlock
    {
      forall id | id in byId :: byId[id].rawText in byBlock && byBlock[byId[id].rawText] == byId[id]
    }

    /** Each block counts the ids mapped to it; only the text `pinned` may have none. */
    ghost predicate Counted(texts: map<string, string>, pinned: Option<string>)
      reads this`byBlock, byBlock.Values
    {
      forall t | t in byBlock ::
        byBlock[t].refs == |Users(texts, t)| && (Some(t) == pinned || byBlock[t].refs > 0)
    }

    ghost predicate Consistent()
      reads this, byBlock.Values
    {
      Filed() && Linked() && Counted(Texts(), None) && Valid(Abs())
    }

    /** The blocks are exactly the referenced texts, and their sizes add up to the total. */
    lemma ConsistentTotals()
      requires Consistent()
      ensures byBlock.Keys == Texts().Values
      ensures totalBytes == SumSizes(Texts().Values)
    {
      forall t
        ensures t in byBlock <==> t in Texts().Values
      {
        if t in byBlock {
          assert |Users(Texts(), t)| > 0;
          assert Users(Texts(), t) != {};
          var id :| id in Users(Texts(), t);
          assert Texts()[id] == t;
        }
        if t in Texts().Values {
          var id :| id in Texts() && Texts()[id] == t;
          assert byId[id].rawText == t;
        }
      }
    }

    method TouchId(callId: string)
      modifies this`lru
      ensures lru == Without(old(lru), callId) + [callId]
      ensures MovedToEnd(old(lru), lru, callId)
    {
      TouchedIsLast(lru, callId);
      lru := Without(lru, callId) + [callId];
    }

    /** Gives up one reference to a block, and the block with its last reference. */
    method Release(block: Block, ghost texts: map<string, string>, ghost callId: string, ghost pinned: Option<string>)
      requires Filed() && Counted(texts, pinned) && pinned != Some(block.rawText)
      requires block.rawText in byBlock && byBlock[block.rawText] == block
      requires callId in texts && texts[callId] == block.rawText
      modifies this`byBlock, this`totalBytes, block
      ensures Filed() && Counted(texts - {callId}, pinned)
      ensures forall t ::
        t in byBlock <==> t in old(byBlock) && (t != block.rawText || Users(texts - {callId}, t) != {})
      ensures forall t | t in byBlock :: byBlock[t] == old(byBlock[t])
    {
      hide TextSize, SumSizes, Users;
      forall t
        ensures |Users(texts - {callId}, t)| == |Users(texts, t)| - if block.rawText == t then 1 else 0
      {
        UsersAfterDrop(texts, callId, t);
      }
      SumWithout(byBlock.Keys, block.rawText);
      if block.refs > 0 {
        block.refs := block.refs - 1;
      }
      if block.refs == 0 {
        byBlock := byBlock - {block.rawText};
        totalBytes := NotNegative(totalBytes - block.sizeBytes);
        assert byBlock.Keys == old(byBlock.Keys) - {block.rawText};
      }
    }

    method DropEntry(callId: string, block: Block, ghost pinned: Option<string>)
      requires Filed() && Linked() && Counted(Texts(), pinned)
      requires callId in byId && byId[callId] == block && pinned != Some(block.rawText)
      modifies this, block
      ensures Filed() && Linked() && Counted(Texts(), pinned)
      ensures Abs() == old(Memory(Texts() - {callId}, Without(lru, callId)))
      ensures byId == old(byId) - {callId}
      ensures forall t | t in byBlock :: t in old(byBlock) && byBlock[t] == old(byBlock[t])
      ensures pinned.Some? && pinned.value in old(byBlock) ==> pinned.value in byBlock
    {
      hide TextSize, SumSizes, Users, Counted, Filed;
      ghost var texts := Texts();
      byId := byId - {callId};
      assert Texts() == texts - {callId};
      lru := Without(lru, callId);
      Release(block, texts, callId, pinned);
      assert Texts() == texts - {callId};
      forall id | id in byId
        ensures byId[id].rawText in byBlock
      {
        InUse(Texts(), id);
      }
    }

    /** The non-empty call ids, each once. */
    static method UniqueIds(callIds: seq<string>) returns (unique: seq<string>)
      ensures unique == Unique(callIds)
    {
      unique := [];
      var seen: set<string> := {};
      for k := 0 to |callIds|
        invariant unique == Unique(callIds[..k]) && seen == set id | id in unique
      {
        assert callIds[..k + 1][..k] == callIds[..k];
        var callId := callIds[k];
        if callId == "" || callId in seen {
          continue;
        }
        seen := seen + {callId};
        unique := unique + [callId];
      }
      assert callIds[..|callIds|] == callIds;
    }

    /** Maps an unmapped id to a block. */
    method Attach(callId: string, block: Block, ghost pinned: Option<string>)
      requires Filed() && Linked() && Counted(Texts(), pinned) && callId !in byId
      requires block.rawText in byBlock && byBlock[block.rawText] == block
      modifies this`byId, block
      ensures Linked() && Counted(Texts(), pinned) && block.refs > 0
      ensures Texts() == old(Texts()[callId := block.rawText])
    {
      hide TextSize, SumSizes, Users;
      ghost var texts := Texts();
      forall t
        ensures |Users(texts[callId := block.rawText], t)| == |Users(texts, t)| + if block.rawText == t then 1 else 0
      {
        UsersAfterBind(texts, callId, block.rawText, t);
      }
      byId := byId[callId := block];
      assert Texts() == texts[callId := block.rawText];
      block.refs := block.refs + 1;
    }

    /** An id mapped to another block is mapped to another text. */
    lemma TellsApart(callId: string, block: Block, text: string)
      requires Filed() && Linked() && Counted(Texts(), Some(text))
      requires text in byBlock && byBlock[text] == block
      ensures block.rawText == text
      ensures callId in byId ==> (byId[callId] == block <==> byId[callId].rawText == text)
      ensures callId in byId ==> byId[callId] in byBlock.Values
      ensures callId in byId && byId[callId] == block ==> block.refs > 0
    {
      InUseIfBound(Texts(), callId);
    }

    /** Maps one id to the block of `text`, which may be new and unused. */
    method BindId(callId: string, block: Block, ghost text: string)
      requires Filed() && Linked() && Counted(Texts(), Some(text)) && Valid(Abs())
      requires text in byBlock && byBlock[text] == block
      modifies this, byBlock.Values
      ensures Filed() && Linked() && Counted(Texts(), Some(text)) && Valid(Abs())
      ensures text in byBlock && byBlock[text] == block && block.refs > 0
      ensures forall t | t in byBlock :: t in old(byBlock) && byBlock[t] == old(byBlock[t])
      ensures Abs() == old(Bind(Abs(), callId, text))
    {
      hide TextSize, SumSizes, Users, Valid, Filed, Linked, Counted, Without, MovedToEnd;
      TellsApart(callId, block, text);
      BindKeepsValid(Abs(), callId, text);
      ghost var texts := Texts();
      if callId in byId && byId[callId] == block {
        assert texts[callId := text] == texts;
        TouchId(callId);
        return;
      }
      BindUnbound(Abs(), callId, text);
      Unbind(callId, text);
      Attach(callId, block, Some(text));
      TouchId(callId);
    }

    /** Gives up what an id is mapped to, if anything, and not the text it is about to get. */
    method Unbind(callId: string, ghost text: string)
      requires Filed() && Linked() && Counted(Texts(), Some(text)) && Valid(Abs())
      requires callId in byId ==> byId[callId].rawText != text && byId[callId] in byBlock.Values
      modifies this, byBlock.Values
      ensures Filed() && Linked() && Counted(Texts(), Some(text)) && callId !in byId
      ensures Abs() == old(Unbound(Abs(), callId))
      ensures forall t | t in byBlock :: t in old(byBlock) && byBlock[t] == old(byBlock[t])
      ensures text in old(byBlock) ==> text in byBlock
    {
      hide TextSize, SumSizes, Users, Filed, Linked, Counted, Without, MovedToEnd;
      if callId in byId {
        DropEntry(callId, byId[callId], Some(text));
      } else {
        UnboundAbsent(Abs(), callId);
      }
    }

    /** The loop guard of pruning asks whether ids are left and a bound is exceeded. */
    lemma OverBounds()
      requires Consistent()
      ensures |byId| > bounds.maxEntries || totalBytes > bounds.maxBytes <==> !Within(bounds, Abs())
      ensures byId == map[] <==> lru == []
      ensures lru != [] ==> lru[0] in byId && byId[lru[0]] in byBlock.Values
    {
      ConsistentTotals();
      assert Texts().Keys == byId.Keys;
      assert |Texts()| == |Texts().Keys| && |byId| == |byId.Keys|;
      assert lru != [] ==> lru[0] in Texts();
      if byId != map[] {
        var id :| id in byId;
        assert id in Texts();
      }
    }

    lemma OldestDropped()
      requires Consistent() && lru != []
      ensures DropOldest(Abs(), 1) == Memory(Texts() - {lru[0]}, Without(lru[1..], lru[0]))
    {
      WithoutAbsent(lru[1..], lru[0]);
      assert (set id | id in lru[..1]) == {lru[0]};
    }

    method DropFirst()
      requires Consistent() && lru != []
      modifies this, byBlock.Values
      ensures Consistent() && Abs() == DropOldest(old(Abs()), 1)
      ensures byBlock.Values <= old(byBlock.Values) && |lru| < |old(lru)|
    {
      hide SumSizes, TextSize, Users, Without, Valid, DropOldest, Counted, Filed, Linked;
      OverBounds();
      OldestDropped();
      DropKeepsValid(Abs(), 1);
      var oldest := lru[0];
      lru := lru[1..];
      DropEntry(oldest, byId[oldest], None);
    }

    method PruneOldest()
      requires Consistent() && !Disabled(bounds)
      modifies this, byBlock.Values
      ensures Consistent() && Abs() == Prune(bounds, old(Abs()))
      ensures byBlock.Values <= old(byBlock.Values)
    {
      hide Consistent, Within, DropOldest;
      OverBounds();
      while byId != map[] && (
          (bounds.maxEntries > 0 && |byId| > bounds.maxEntries)
          || (bounds.maxBytes > 0 && totalBytes > bounds.maxBytes))
        invariant Consistent() && Prune(bounds, Abs()) == Prune(bounds, old(Abs()))
        invariant byBlock.Values <= old(byBlock.Values)
        invariant |byId| > bounds.maxEntries || totalBytes > bounds.maxBytes <==> !Within(bounds, Abs())
        invariant byId == map[] <==> lru == []
        decreases |lru|
      {
        DropFirst();
        OverBounds();
      }
    }

    method BlockFor(rawText: string) returns (block: Block)
      requires Consistent()
      modifies this`byBlock, this`totalBytes
      ensures Filed() && Linked() && Counted(Texts(), Some(rawText))
      ensures rawText in byBlock && byBlock[rawText] == block
      ensures fresh(byBlock.Values - old(byBlock.Values))
    {
      hide TextSize, SumSizes, Users;
      if rawText in byBlock {
        block := byBlock[rawText];
      } else {
        block := new Block(rawText);
        FileBlock(block);
      }
    }

    /** Maps all the ids to the block of `text`. */
    method BindEach(ids: seq<string>, block: Block, ghost text: string)
      requires Filed() && Linked() && Counted(Texts(), Some(text)) && Valid(Abs()) && ids != []
      requires text in byBlock && byBlock[text] == block
      modifies this, byBlock.Values
      ensures Consistent() && byBlock.Values <= old(byBlock.Values)
      ensures Abs() == BindAll(old(Abs()), ids, text)
    {
      hide Filed, Linked, Valid, Bind, Users;
      for k := 0 to |ids|
        invariant Filed() && Linked() && Counted(Texts(), Some(text)) && Valid(Abs())
        invariant text in byBlock && byBlock[text] == block && (k > 0 ==> block.refs > 0)
        invariant forall t | t in byBlock :: t in old(byBlock) && byBlock[t] == old(byBlock[t])
        invariant Abs() == BindAll(old(Abs()), ids[..k], text)
      {
        assert ids[..k + 1][..k] == ids[..k];
        BindId(ids[k], block, text);
      }
      assert ids[..|ids|] == ids;
    }

    /** Remembers `rawText` as what produced the calls, and forgets the oldest ids to stay in bounds. */
    method Remember(callIds: seq<string>, rawText: string)
      requires Consistent()
      modifies this, byBlock.Values
      ensures Consistent() && fresh(byBlock.Values - old(byBlock.Values))
      ensures Abs() == ToolMemorySpec.Remember(bounds, old(Abs()), callIds, rawText)
    {
      if Disabled(bounds) || rawText == "" {
        return;
      }
      var uniqueIds := UniqueIds(callIds);
      if uniqueIds == [] {
        return;
      }
      hide Filed, Linked, Counted, Valid, Prune, BindAll;
      var block := BlockFor(rawText);
      BindEach(uniqueIds, block, rawText);
      PruneOldest();
    }

    /** Adds a block that no id uses yet. */
    method FileBlock(block: Block)
      requires Consistent() && block.rawText !in byBlock
      requires block.sizeBytes == TextSize(block.rawText) && block.refs == 0
      modifies this`byBlock, this`totalBytes
      ensures Filed() && Linked() && Counted(Texts(), Some(block.rawText))
      ensures byBlock == old(byBlock)[block.rawText := block]
    {
      hide TextSize, SumSizes, Valid;
      SumWith(byBlock.Keys, block.rawText);
      ConsistentTotals();
      assert Users(Texts(), block.rawText) == {};
      byBlock := byBlock[block.rawText := block];
      assert byBlock.Keys == old(byBlock.Keys) + {block.rawText};
      totalBytes := totalBytes + block.sizeBytes;
    }

    /** The text all calls share, if every one of them is known. */
    method SharedText(calls: seq<string>) returns (r: Option<string>)
      ensures forall text :: r == Some(text) <==> Replays(Abs(), calls, text)
    {
      r := None;
      for k := 0 to |calls|
        invariant r == None <==> k == 0
        invariant forall i | 0 <= i < k :: calls[i] != "" && calls[i] in Texts() && r == Some(Texts()[calls[i]])
      {
        var callId := calls[k];
        if callId == "" {
          return None;
        }
        if callId !in byId {
          return None;
        }
        var block := byId[callId];
        assert Texts()[callId] == block.rawText;
        if r == None {
          r := Some(block.rawText);
        } else if r.value != block.rawText {
          assert r == Some(Texts()[calls[0]]);
          return None;
        }
      }
    }

    /** Replays the text of a turn, and only then makes its calls the most recently used. */
    method LookupMessage(calls: seq<string>) returns (r: Option<string>)
      requires Consistent()
      modifies this`lru
      ensures Consistent()
      ensures forall text :: r == Some(text) <==> old(Replays(Abs(), calls, text))
      ensures Abs() == if r.Some? then TouchAll(old(Abs()), calls) else old(Abs())
    {
      hide Filed, Linked, Counted, Valid, TouchAll;
      r := SharedText(calls);
      if r == None {
        return;
      }
      assert Replays(Abs(), calls, r.value);
      TouchAllKeepsValid(Abs(), calls);
      TouchEach(calls);
    }

    method TouchEach(calls: seq<string>)
      modifies this`lru
      ensures Abs() == TouchAll(old(Abs()), calls)
    {
      for k := 0 to |calls|
        invariant Abs() == TouchAll(old(Abs()), calls[..k])
      {
        assert calls[..k + 1][..k] == calls[..k];
        TouchId(calls[k]);
      }
      assert calls[..|calls|] == calls;
    }
  }

  /** What lookup number `i` of a run returns: the text its calls share at that point. */
  ghost predicate Answers(bounds: Bounds, events: seq<Event>, i: nat, out: Option<string>)
    requires i < |events|
  {
    match events[i]
    case Remembered(_, _) => out == None
    case LookedUp(calls) => forall text :: out == Some(text) <==> Replays(Run(bounds, events[..i]), calls, text)
  }

  /** One operation on the plain map: its answer and the memory after it. */
  ghost predicate Performed(bounds: Bounds, before: Memory, ev: Event, out: Option<string>, after: Memory) {
    match ev
    case Remembered(callIds, text) =>
      out == None && after == ToolMemorySpec.Remember(bounds, before, callIds, text)
    case LookedUp(calls) =>
      && (forall text :: out == Some(text) <==> Replays(before, calls, text))
      && after == if out.Some? then TouchAll(before, calls) else before
  }

  method Perform(memory: ToolMemory, ev: Event) returns (out: Option<string>)
    requires memory.Consistent()
    modifies memory, memory.byBlock.Values
    ensures memory.Consistent() && fresh(memory.byBlock.Values - old(memory.byBlock.Values))
    ensures Performed(memory.bounds, old(memory.Abs()), ev, out, memory.Abs())
  {
    hide ToolMemorySpec.Remember, Replays, TouchAll, ToolMemory.Consistent;
    match ev {
      case Remembered(callIds, text) =>
        memory.Remember(callIds, text);
        out := None;
      case LookedUp(calls) =>
        out := memory.LookupMessage(calls);
    }
  }

  /** Any sequence of operations on a new memory: the state and all answers are those of the plain map. */
  method RunEvents(bounds: Bounds, events: seq<Event>) returns (outs: seq<Option<string>>, ghost mem: Memory)
    ensures mem == Run(bounds, events) && |outs| == |events|
    ensures forall i | 0 <= i < |outs| :: Answers(bounds, events, i, outs[i])
  {
    hide Answers, Performed, Run, ToolMemory.Consistent, ToolMemory.Abs;
    var memory := new ToolMemory(bounds.maxEntries, bounds.maxBytes);
    NothingRun(bounds, events);
    outs := [];
    for k := 0 to |events|
      invariant fresh(memory) && fresh(memory.byBlock.Values) && memory.Consistent() && memory.bounds == bounds
      invariant memory.Abs() == Run(bounds, events[..k]) && |outs| == k
      invariant forall i | 0 <= i < k :: Answers(bounds, events, i, outs[i])
    {
      var out := Perform(memory, events[k]);
      Answered(bounds, events, k, out, memory.Abs());
      outs := outs + [out];
    }
    assert events[..|events|] == events;
    mem := memory.Abs();
  }

  lemma NothingRun(bounds: Bounds, events: seq<Event>)
    ensures Run(bounds, events[..0]) == EMPTY
  {
    assert events[..0] == [];
  }

  lemma Answered(bounds: Bounds, events: seq<Event>, k: nat, out: Option<string>, mem: Memory)
    requires k < |events| && Performed(bounds, Run(bounds, events[..k]), events[k], out, mem)
    ensures Answers(bounds, events, k, out) && mem == Run(bounds, events[..k + 1])
  {
    hide Remember, Replays, TouchAll;
    assert events[..k + 1][..k] == events[..k];
    if events[k].LookedUp? && out.Some? {
      assert Replays(Run(bounds, events[..k]), events[k].calls, out.value);
    }
  }

  lemma InUseIfBound(texts: map<string, string>, id: string)
    ensures id in texts ==> |Users(texts, texts[id])| > 0
  {
    if id in texts {
      InUse(texts, id);
    }
  }

  lemma InUse(texts: map<string, string>, id: string)
    requires id in texts
    ensures Users(texts, texts[id]) != {}
  {
    assert id in Users(texts, texts[id]);
  }

  function NotNegative(n: int): nat {
    if n < 0 then 0 else n
  }
}
