/**
 The int32 token pipe that successive requests share. The daemon answers every framed
 command with a run of values and one sentinel; a request must leave the pipe between
 two frames, also when its client stops early or goes away.
*/
module TokenPipe {

  const SENTINEL := -1

  // ---------------------------------------------------------------------
  // What a consumer may see of one frame
  // ---------------------------------------------------------------------

  /** Vocabulary size (0 switches the range check off) and the ids that end generation. */
  datatype Vocabulary = Vocabulary(size: nat, stopIds: set<int>) {
    predicate Known(id: int) {
      size == 0 || 0 <= id < size
    }
  }

  function KnownIds(vocab: Vocabulary, values: seq<int>): (ids: seq<int>)
    ensures |ids| <= |values|
  {
    if values == [] then []
    else
      var before := KnownIds(vocab, values[..|values| - 1]);
      if vocab.Known(values[|values| - 1]) then before + [values[|values| - 1]] else before
  }

  /** The position of the first stop id, or the length. */
  function FirstStop(vocab: Vocabulary, ids: seq<int>): (k: nat)
    ensures k <= |ids|
    ensures forall i | 0 <= i < k :: ids[i] !in vocab.stopIds
    ensures k < |ids| ==> ids[k] in vocab.stopIds
  {
    if ids == [] || ids[0] in vocab.stopIds then 0 else 1 + FirstStop(vocab, ids[1..])
  }

  function Least(a: nat, b: nat): nat {
    if a < b then a else b
  }

  /**
   The tokens a request may receive from a frame: its known ids up to the first stop id
   and up to `nGen`. The bound is tested after a token went out, so one always may.
  */
  function Yielded(vocab: Vocabulary, nGen: int, values: seq<int>): seq<int> {
    var ids := KnownIds(vocab, values);
    ids[..Least(FirstStop(vocab, ids), if nGen < 1 then 1 else nGen)]
  }

  lemma FirstStopIs(vocab: Vocabulary, ids: seq<int>, k: nat)
    requires k <= |ids| && (forall i | 0 <= i < k :: ids[i] !in vocab.stopIds)
    requires k < |ids| ==> ids[k] in vocab.stopIds
    ensures FirstStop(vocab, ids) == k
  {
  }

  /** One more value: what it adds, and whether the stream has ended for good. */
  lemma YieldedStep(vocab: Vocabulary, nGen: int, values: seq<int>, v: int)
    ensures
      var toks, toks' := Yielded(vocab, nGen, values), Yielded(vocab, nGen, values + [v]);
      toks' == if vocab.Known(v) && !Ended(vocab, nGen, values) && v !in vocab.stopIds then toks + [v] else toks
    ensures
      var toks' := Yielded(vocab, nGen, values + [v]);
      Ended(vocab, nGen, values + [v])
      == (Ended(vocab, nGen, values) || (vocab.Known(v) && v in vocab.stopIds) || (|toks'| > 0 && |toks'| >= nGen))
  {
    hide KnownIds, FirstStop;
    KnownStep(vocab, values, v);
    var ids := KnownIds(vocab, values);
    assert forall k | 0 <= k <= |ids| :: (ids + [v])[..k] == ids[..k];
  }

  lemma KnownStep(vocab: Vocabulary, values: seq<int>, v: int)
    ensures
      var ids, ids' := KnownIds(vocab, values), KnownIds(vocab, values + [v]);
      var k := FirstStop(vocab, ids);
      if vocab.Known(v) then
        ids' == ids + [v]
        && FirstStop(vocab, ids') == if k < |ids| || v in vocab.stopIds then k else |ids| + 1
      else ids' == ids
  {
    assert (values + [v])[..|values|] == values;
    var ids := KnownIds(vocab, values);
    var k := FirstStop(vocab, ids);
    if vocab.Known(v) {
      FirstStopIs(vocab, ids + [v], if k < |ids| || v in vocab.stopIds then k else |ids| + 1);
    }
  }

  /** A stop id has passed, or the bound has been reached. */
  predicate Ended(vocab: Vocabulary, nGen: int, values: seq<int>) {
    var ids := KnownIds(vocab, values);
    FirstStop(vocab, ids) < |ids| || (|Yielded(vocab, nGen, values)| > 0 && |Yielded(vocab, nGen, values)| >= nGen)
  }

  lemma NothingYielded(vocab: Vocabulary, nGen: int)
    ensures Yielded(vocab, nGen, []) == [] && !Ended(vocab, nGen, [])
  {
  }

  /** A request that reads only part of its frame receives a prefix of its full answer. */
  lemma {:induction false} PartialAnswer(vocab: Vocabulary, nGen: int, values: seq<int>, n: nat)
    requires n <= |values|
    ensures Yielded(vocab, nGen, values[..n]) <= Yielded(vocab, nGen, values)
  {
    hide Yielded, Ended;
    var last := |values| - 1;
    if n == |values| {
      assert values[..n] == values;
    } else {
      PartialAnswer(vocab, nGen, values[..last], n);
      assert values[..last][..n] == values[..n];
      assert values[..last] + [values[last]] == values;
      YieldedStep(vocab, nGen, values[..last], values[last]);
    }
  }

  // ---------------------------------------------------------------------
  // What a request receives
  // ---------------------------------------------------------------------

  lemma {:induction false} KnownIdIsValue(vocab: Vocabulary, values: seq<int>, i: nat)
    requires i < |KnownIds(vocab, values)|
    ensures
      var id := KnownIds(vocab, values)[i];
      id in values && (vocab.size == 0 || 0 <= id < vocab.size)
  {
    var n := |values| - 1;
    if i < |KnownIds(vocab, values[..n])| {
      KnownIdIsValue(vocab, values[..n], i);
      assert values == values[..n] + [values[n]];
    }
  }

  /** Every token is a value of the frame, in the vocabulary, no stop id, and there are no more than asked for. */
  lemma TokensAreValid(vocab: Vocabulary, nGen: int, values: seq<int>)
    ensures
      var toks := Yielded(vocab, nGen, values);
      && (forall t | t in toks :: t in values && t !in vocab.stopIds)
      && (vocab.size > 0 ==> forall t | t in toks :: 0 <= t < vocab.size)
      && |toks| <= if nGen < 1 then 1 else nGen
  {
    var ids, toks := KnownIds(vocab, values), Yielded(vocab, nGen, values);
    hide KnownIds;
    forall t | t in toks
      ensures t in values && t !in vocab.stopIds && (vocab.size > 0 ==> 0 <= t < vocab.size)
    {
      var i :| 0 <= i < |toks| && toks[i] == t;
      assert ids[i] == t;
      KnownIdIsValue(vocab, values, i);
    }
  }

  lemma {:induction false} AllKnown(vocab: Vocabulary, values: seq<int>)
    requires vocab.size == 0 || forall i | 0 <= i < |values| :: 0 <= values[i] < vocab.size
    ensures KnownIds(vocab, values) == values
  {
    if values != [] {
      var n := |values| - 1;
      AllKnown(vocab, values[..n]);
      assert values == values[..n] + [values[n]];
    }
  }

  /** A frame of ordinary tokens is received as it is, up to the number asked for. */
  lemma OrdinaryFrame(vocab: Vocabulary, nGen: int, values: seq<int>)
    requires vocab.size == 0 || forall i | 0 <= i < |values| :: 0 <= values[i] < vocab.size
    requires forall i | 0 <= i < |values| :: values[i] !in vocab.stopIds
    ensures
      var most := if nGen < 1 then 1 else nGen;
      Yielded(vocab, nGen, values) == values[..if |values| < most then |values| else most]
  {
    AllKnown(vocab, values);
    FirstStopIs(vocab, values, |values|);
  }

  lemma {:induction false} KnownIdsAppend(vocab: Vocabulary, before: seq<int>, after: seq<int>)
    ensures KnownIds(vocab, before + after) == KnownIds(vocab, before) + KnownIds(vocab, after)
  {
    if after == [] {
      assert before + after == before;
    } else {
      var n := |after| - 1;
      KnownIdsAppend(vocab, before, after[..n]);
      assert (before + after)[..|before| + n] == before + after[..n];
    }
  }

  /** A value outside the vocabulary adds nothing and ends nothing. */
  lemma OutsiderSkipped(vocab: Vocabulary, nGen: int, before: seq<int>, v: int, after: seq<int>)
    requires vocab.size > 0 && !(0 <= v < vocab.size)
    ensures Yielded(vocab, nGen, before + [v] + after) == Yielded(vocab, nGen, before + after)
  {
    KnownIdsAppend(vocab, before, [v]);
    KnownIdsAppend(vocab, before + [v], after);
    KnownIdsAppend(vocab, before, after);
    assert [v][..0] == [];
  }

  /** From the first stop id of the vocabulary on nothing is received. */
  lemma NothingAfterStop(vocab: Vocabulary, nGen: int, before: seq<int>, v: int, after: seq<int>)
    requires v in vocab.stopIds && (vocab.size == 0 || 0 <= v < vocab.size)
    requires forall u | u in before :: u !in vocab.stopIds
    ensures Yielded(vocab, nGen, before + [v] + after) == Yielded(vocab, nGen, before)
  {
    KnownIdsAppend(vocab, before, [v]);
    KnownIdsAppend(vocab, before + [v], after);
    AllKnown(vocab, [v]);
    var ids := KnownIds(vocab, before);
    forall i | 0 <= i < |ids|
      ensures ids[i] !in vocab.stopIds
    {
      KnownIdIsValue(vocab, before, i);
    }
    hide KnownIds;
    CutAtStop(vocab, nGen, ids, v, KnownIds(vocab, after));
  }

  lemma CutAtStop(vocab: Vocabulary, nGen: int, ids: seq<int>, v: int, rest: seq<int>)
    requires v in vocab.stopIds && forall i | 0 <= i < |ids| :: ids[i] !in vocab.stopIds
    ensures FirstStop(vocab, ids) == |ids| == FirstStop(vocab, ids + [v] + rest)
    ensures forall k | 0 <= k <= |ids| :: (ids + [v] + rest)[..k] == ids[..k]
  {
    FirstStopIs(vocab, ids, |ids|);
    FirstStopIs(vocab, ids + [v] + rest, |ids|);
  }

  // ---------------------------------------------------------------------
  // The pipe
  // ---------------------------------------------------------------------

  function Framed(frames: seq<seq<int>>): seq<int> {
    if frames == [] then [] else frames[0] + [SENTINEL] + Framed(frames[1..])
  }

  lemma {:induction false} FramedAppend(frames: seq<seq<int>>, frame: seq<int>)
    ensures Framed(frames + [frame]) == Framed(frames) + frame + [SENTINEL]
  {
    if frames == [] {
      assert frames + [frame] == [frame] && [frame][1..] == [];
    } else {
      FramedAppend(frames[1..], frame);
      assert (frames + [frame])[1..] == frames[1..] + [frame];
      assert (frames + [frame])[0] == frames[0];
    }
  }

  ghost predicate SentinelFree(frames: seq<seq<int>>) {
    forall i | 0 <= i < |frames| :: SENTINEL !in frames[i]
  }

  lemma SentinelSplits(frame: seq<int>, rest: seq<int>)
    requires frame != []
    ensures (frame + [SENTINEL] + rest)[0] == frame[0]
    ensures (frame + [SENTINEL] + rest)[1..] == frame[1..] + [SENTINEL] + rest
  {
  }

  datatype ReadResult = Value(v: int) | WouldBlock

  class Pipe {
    /** What the daemon writes for its n-th framed command, before the sentinel. */
    const reply: nat -> seq<int>
    const vocab: Vocabulary
    /** Unread values. */
    var data: seq<int>
    /** Framed commands sent, and sentinels read. */
    var sent: nat
    var acked: nat
    /** The unread values by frame; the first frame may be partly read. */
    ghost var pending: seq<seq<int>>

    constructor (reply: nat -> seq<int>, vocab: Vocabulary)
      requires forall n :: SENTINEL !in reply(n)
      ensures Valid() && pending == [] && this.reply == reply && this.vocab == vocab && sent == 0
    {
      this.reply, this.vocab := reply, vocab;
      data, sent, acked, pending := [], 0, 0, [];
    }

    ghost predicate Valid()
      reads this
    {
      && (forall n :: SENTINEL !in reply(n))
      && data == Framed(pending) && SentinelFree(pending)
      && sent == acked + |pending|
    }

    /** Nothing unread: as many sentinels read as framed commands sent. */
    ghost predicate OnBoundary()
      reads this
    {
      Valid() && pending == []
    }

    /** Sends one framed command. */
    method Send()
      requires Valid()
      modifies this
      ensures Valid() && sent == old(sent) + 1 && acked == old(acked)
      ensures pending == old(pending) + [reply(old(sent))]
      ensures data == old(data) + reply(old(sent)) + [-1]
    {
      FramedAppend(pending, reply(sent));
      data := data + reply(sent) + [SENTINEL];
      pending := pending + [reply(sent)];
      sent := sent + 1;
    }

    /** Reads one value; with nothing to read and no frame to come, the read never returns. */
    method Read() returns (r: ReadResult)
      requires Valid()
      modifies this
      ensures Valid() && sent == old(sent)
      ensures old(pending) == [] ==> r == WouldBlock && pending == [] && acked == old(acked)
      ensures old(pending) != [] && old(pending)[0] != [] ==>
        r == Value(old(pending)[0][0]) && r.v != SENTINEL && acked == old(acked)
        && pending == [old(pending)[0][1..]] + old(pending)[1..]
      ensures old(pending) != [] && old(pending)[0] == [] ==>
        r == Value(SENTINEL) && acked == old(acked) + 1 && pending == old(pending)[1..]
    {
      if data == [] {
        return WouldBlock;
      }
      r := Value(data[0]);
      if pending[0] != [] {
        SentinelSplits(pending[0], Framed(pending[1..]));
        pending := [pending[0][1..]] + pending[1..];
        assert pending[1..] == old(pending)[1..];
        assert SENTINEL !in old(pending)[0];
      } else {
        pending := pending[1..];
      }
      if r.v == SENTINEL {
        acked := acked + 1;
      }
      data := data[1..];
    }

    /** Reads up to and including the next sentinel. */
    method DrainUntilSentinel() returns (values: seq<int>, done: bool)
      requires Valid()
      modifies this
      ensures Valid() && sent == old(sent)
      ensures done == (old(pending) != [])
      ensures done ==> values == old(pending)[0] && pending == old(pending)[1..]
      ensures !done ==> values == [] && pending == []
    {
      values := [];
      while true
        invariant Valid() && sent == old(sent)
        invariant old(pending) == [] ==> pending == [] && values == []
        invariant old(pending) != [] ==>
          pending != [] && pending[1..] == old(pending)[1..] && values + pending[0] == old(pending)[0]
        decreases if pending == [] then 0 else |pending[0]|
      {
        var r := Read();
        if r == WouldBlock {
          return values, false;
        }
        if r.v == SENTINEL {
          return values, true;
        }
        values := values + [r.v];
      }
    }

    /** Sends a command whose frame carries nothing of interest, and consumes it. */
    method SendAndAck()
      requires OnBoundary()
      modifies this
      ensures OnBoundary() && sent == old(sent) + 1
    {
      Send();
      var _, _ := DrainUntilSentinel();
    }

    /** Consumes a whole frame: the tokens are the frame's own, cut at a stop id or at `nGen`. */
    method TokenStream(nGen: int) returns (toks: seq<int>)
      requires Valid() && pending != []
      modifies this
      ensures Valid() && sent == old(sent)
      ensures toks == Yielded(vocab, nGen, old(pending)[0]) && pending == old(pending)[1..]
    {
      var done;
      toks, done := StreamTokens(nGen, NoLimit);
    }

    /**
     The token loop, left after `limit` values if there is a limit: the tokens are those of
     the values read, and the unread rest of the frame stays in the pipe.
    */
    method StreamTokens(nGen: int, limit: Limit) returns (toks: seq<int>, done: bool)
      requires Valid() && pending != []
      modifies this
      ensures Valid() && sent == old(sent)
      ensures done == (limit == NoLimit || limit.n > |old(pending)[0]|)
      ensures done ==> toks == Yielded(vocab, nGen, old(pending)[0]) && pending == old(pending)[1..]
      ensures !done ==>
        && toks == Yielded(vocab, nGen, old(pending)[0][..limit.n])
        && pending == [old(pending)[0][limit.n..]] + old(pending)[1..]
    {
      hide Yielded, Framed, KnownIds, FirstStop;
      NothingYielded(vocab, nGen);
      var generated, hitStop := 0, false;
      toks := [];
      var taken := 0;
      ghost var seen: seq<int> := [];
      ghost var frame := pending[0];
      while limit == NoLimit || taken < limit.n
        invariant Valid() && sent == old(sent) && pending != [] && pending[1..] == old(pending)[1..]
        invariant taken == |seen| <= |frame| && seen == frame[..taken] && pending[0] == frame[taken..]
        invariant limit != NoLimit ==> taken <= limit.n
        invariant toks == Yielded(vocab, nGen, seen) && generated == |toks|
        invariant hitStop == Ended(vocab, nGen, seen)
        decreases |frame| - taken
      {
        var r := Read();
        if r == WouldBlock {
          return toks, false;
        }
        if r.v == SENTINEL {
          assert seen == frame;
          return toks, true;
        }
        taken := taken + 1;
        YieldedStep(vocab, nGen, seen, r.v);
        seen := seen + [r.v];
        if !vocab.Known(r.v) {
          continue;
        }
        if hitStop {
          continue;
        }
        if r.v in vocab.stopIds {
          hitStop := true;
          continue;
        }
        generated := generated + 1;
        toks := toks + [r.v];
        if generated >= nGen {
          hitStop := true;
        }
      }
      done := false;
      assert pending == [pending[0]] + pending[1..];
    }
  }

  datatype Limit = NoLimit | After(n: nat)

  // ---------------------------------------------------------------------
  // Requests
  // ---------------------------------------------------------------------

  datatype Compression = NoCompression | Compress(skipPark: bool)

  /**
   How a request ends. `n` counts the values read so far: a stop sequence in the text breaks
   the token loop; a client may leave before the loop, while it holds a token (or, with more than
   the frame's values read, at a later yield), or while the next value is being read. That read
   goes on in its own thread beside the one that drains the pipe, and nothing orders the two: it
   takes the value `later` places after the next one, which may be the sentinel or, when the drain
   is done before it, lie in the next frame. A client may also leave while a thread compresses its
   prompt: `acked` of that thread's commands are done then, the next one may be on its way, and the
   thread goes on.
  */
  datatype Ending =
    | Complete
    | StopMatched(n: nat)
    | LeftInCompression(acked: nat, sentNext: bool)
    | LeftBeforeLoop
    | LeftAtYield(n: nat)
    | LeftInRead(n: nat, later: nat)

  datatype Request = Request(compression: Compression, nGen: int, ending: Ending)

  function LimitOf(ending: Ending): Limit {
    match ending
    case Complete => NoLimit
    case LeftInCompression(_, _) => After(0)
    case LeftBeforeLoop => After(0)
    case StopMatched(n) => After(n)
    case LeftAtYield(n) => After(n)
    case LeftInRead(n, _) => After(n)
  }

  /** The token loop has consumed the whole frame, sentinel included. */
  predicate ReadsToEnd(ending: Ending, frame: seq<int>) {
    LimitOf(ending) == NoLimit || LimitOf(ending).n > |frame|
  }

  function CompressionCommands(compression: Compression): nat {
    match compression
    case NoCompression => 0
    case Compress(skipPark) => if skipPark then 1 else 6
  }

  /** The request gives the pipe back between two frames, with no thread still at work on it. */
  predicate Clean(req: Request, frame: seq<int>) {
    && req.ending != LeftBeforeLoop
    && (req.ending.LeftInCompression? ==> req.ending.acked >= CompressionCommands(req.compression))
    && (req.ending.LeftInRead? && !ReadsToEnd(req.ending, frame) ==> req.ending.n + req.ending.later < |frame|)
  }

  /** Framed commands before the one that generates. */
  function CommandsBefore(lazyDraft: bool, req: Request): nat {
    CompressionCommands(req.compression) + if lazyDraft then 1 else 0
  }

  /** Only a request that comes to its own end parks the draft model again. */
  predicate Parks(lazyDraft: bool, ending: Ending) {
    lazyDraft && (ending.Complete? || ending.StopMatched?)
  }

  /** Framed commands that a request has sent when it ends. */
  function CommandsIn(lazyDraft: bool, req: Request): nat {
    if req.ending.LeftInCompression? then
      if req.ending.acked >= CompressionCommands(req.compression) then CompressionCommands(req.compression)
      else req.ending.acked + if req.ending.sentNext then 1 else 0
    else CommandsBefore(lazyDraft, req) + 1 + if Parks(lazyDraft, req.ending) then 1 else 0
  }

  /** The commands of a request, counted by how it ends. */
  lemma CommandsCounted(lazyDraft: bool, req: Request)
    ensures
      var compression := match req.compression case NoCompression => 0 case Compress(skip) => if skip then 1 else 6;
      match req.ending
      case Complete => CommandsIn(lazyDraft, req) == compression + if lazyDraft then 3 else 1
      case StopMatched(_) => CommandsIn(lazyDraft, req) == compression + if lazyDraft then 3 else 1
      case LeftInCompression(acked, sentNext) =>
        CommandsIn(lazyDraft, req) ==
          if acked >= compression then compression else acked + if sentNext then 1 else 0
      case _ => CommandsIn(lazyDraft, req) == compression + if lazyDraft then 2 else 1
  {
  }

  /** The command that generates comes after those that compress and the one that wakes a lazy draft model. */
  lemma FrameCounted(lazyDraft: bool, req: Request)
    ensures
      var compression := match req.compression case NoCompression => 0 case Compress(skip) => if skip then 1 else 6;
      CommandsBefore(lazyDraft, req) == if lazyDraft then compression + 1 else compression
  {
  }

  /** Which requests give the pipe back, by how they end. */
  lemma CleanCounted(req: Request, frame: seq<int>)
    ensures
      var compression := match req.compression case NoCompression => 0 case Compress(skip) => if skip then 1 else 6;
      match req.ending
      case Complete => Clean(req, frame)
      case StopMatched(_) => Clean(req, frame)
      case LeftAtYield(_) => Clean(req, frame)
      case LeftBeforeLoop => !Clean(req, frame)
      case LeftInCompression(acked, _) => Clean(req, frame) <==> acked >= compression
      case LeftInRead(n, later) => Clean(req, frame) <==> n > |frame| || n + later < |frame|
  {
  }

  /** What of its frame a request has seen, by how it ends. */
  lemma SeenCounted(ending: Ending, frame: seq<int>)
    ensures
      match ending
      case Complete => SeenOf(ending, frame) == frame
      case LeftInCompression(_, _) => SeenOf(ending, frame) == []
      case LeftBeforeLoop => SeenOf(ending, frame) == []
      case StopMatched(n) => SeenOf(ending, frame) == frame[..Least(n, |frame|)]
      case LeftAtYield(n) => SeenOf(ending, frame) == frame[..Least(n, |frame|)]
      case LeftInRead(n, _) => SeenOf(ending, frame) == frame[..Least(n, |frame|)]
  {
    assert frame[..|frame|] == frame;
  }

  /** The values of its frame that a request has read when it ends. */
  function SeenOf(ending: Ending, frame: seq<int>): seq<int> {
    if ReadsToEnd(ending, frame) then frame else frame[..LimitOf(ending).n]
  }

  /** Parks the models around a compression unless told not to, and returns the compressed ids. */
  method CompressTextViaDaemon(p: Pipe, skipPark: bool) returns (ids: seq<int>)
    requires p.OnBoundary()
    modifies p
    ensures p.OnBoundary() && p.sent == old(p.sent) + if skipPark then 1 else 6
    ensures ids == p.reply(old(p.sent) + if skipPark then 0 else 2)
  {
    if !skipPark {
      p.SendAndAck();
      p.SendAndAck();
    }
    p.Send();
    var done;
    ids, done := p.DrainUntilSentinel();
    if !skipPark {
      p.SendAndAck();
      p.SendAndAck();
      p.SendAndAck();
    }
  }

  /**
   One request. Its tokens are always those of its own frame; the pipe is back between two
   frames exactly when the client does not leave while its prompt is being compressed or before
   the token loop starts, and a read it has abandoned takes one of the frame's values. `finished`
   is false when a thread is left at work: the one that compresses, the drain, waiting for the
   sentinel that the abandoned read took, or the abandoned read itself.
  */
  method Serve(p: Pipe, lazyDraft: bool, req: Request) returns (toks: seq<int>, finished: bool)
    requires p.OnBoundary()
    modifies p
    ensures p.Valid()
    ensures
      var frame := p.reply(old(p.sent) + CommandsBefore(lazyDraft, req));
      && (finished && p.OnBoundary() <==> Clean(req, frame))
      && toks == Yielded(p.vocab, req.nGen, SeenOf(req.ending, frame))
      && p.sent == old(p.sent) + CommandsIn(lazyDraft, req)
      && (req.ending == LeftBeforeLoop ==> finished && p.pending == [frame])
      && (req.ending.LeftInRead? && !Clean(req, frame) ==> !finished && p.pending == [])
  {
    hide Yielded, Framed, ReadsToEnd, LimitOf, Parks;
    if req.ending.LeftInCompression? {
      NothingSeen(p.vocab, req, p.reply(p.sent + CommandsBefore(lazyDraft, req)));
      finished := CompressPart(p, CompressionCommands(req.compression), req.ending.acked, req.ending.sentNext);
      return [], finished;
    }
    if req.compression.Compress? {
      var _ := CompressTextViaDaemon(p, req.compression.skipPark);
    }
    if lazyDraft {
      p.SendAndAck();
    }
    toks, finished := Generate(p, lazyDraft, req);
  }

  lemma NothingSeen(vocab: Vocabulary, req: Request, frame: seq<int>)
    requires req.ending.LeftInCompression? || req.ending.LeftBeforeLoop?
    ensures Yielded(vocab, req.nGen, SeenOf(req.ending, frame)) == []
  {
    assert frame[..0] == [];
  }

  /** The generate command, and what the request reads of its frame. */
  method Generate(p: Pipe, lazyDraft: bool, req: Request) returns (toks: seq<int>, finished: bool)
    requires p.OnBoundary() && !req.ending.LeftInCompression?
    modifies p
    ensures p.Valid()
    ensures
      var frame := p.reply(old(p.sent));
      && (finished && p.OnBoundary() <==> Clean(req, frame))
      && toks == Yielded(p.vocab, req.nGen, SeenOf(req.ending, frame))
      && p.sent == old(p.sent) + 1 + (if Parks(lazyDraft, req.ending) then 1 else 0)
      && (req.ending == LeftBeforeLoop ==> finished && p.pending == [frame])
      && (req.ending.LeftInRead? && !Clean(req, frame) ==> !finished && p.pending == [])
  {
    hide Yielded, Framed;
    ghost var frame := p.reply(p.sent);
    p.Send();
    if req.ending == LeftBeforeLoop {
      NothingSeen(p.vocab, req, frame);
      return [], true;
    }
    var done;
    toks, done := p.StreamTokens(req.nGen, LimitOf(req.ending));
    if done {
      if Parks(lazyDraft, req.ending) {
        p.SendAndAck();
      }
      return toks, true;
    }
    finished := Leave(p, lazyDraft, req.ending);
  }

  /** A request leaves the loop with part of its frame unread. */
  method Leave(p: Pipe, lazyDraft: bool, ending: Ending) returns (finished: bool)
    requires p.Valid() && |p.pending| == 1
    modifies p
    ensures p.OnBoundary()
    ensures p.sent == old(p.sent) + if Parks(lazyDraft, ending) then 1 else 0
    ensures finished == (ending.LeftInRead? ==> ending.later < |old(p.pending)[0]|)
  {
    if Parks(lazyDraft, ending) {
      // the park command goes out before the rest of the generated frame is consumed
      p.Send();
      var _, _ := p.DrainUntilSentinel();
    }
    if ending.LeftInRead? {
      finished := DrainBeside(p, ending.later);
      return;
    }
    var _, drained := p.DrainUntilSentinel();
    return drained;
  }

  /** The part of a compression that is done when the client leaves; `finished` if that is all of it. */
  method CompressPart(p: Pipe, total: nat, acked: nat, sentNext: bool) returns (finished: bool)
    requires p.OnBoundary()
    modifies p
    ensures p.Valid() && finished == (acked >= total)
    ensures finished ==> p.OnBoundary()
    ensures p.sent == old(p.sent) + if finished then total else acked + if sentNext then 1 else 0
  {
    for k := 0 to Least(acked, total)
      invariant p.OnBoundary() && p.sent == old(p.sent) + k
    {
      p.SendAndAck();
    }
    if acked >= total {
      return true;
    }
    if sentNext {
      p.Send();
    }
    finished := false;
  }

  /** Drains a frame while another read takes the value `later` places on. */
  method DrainBeside(p: Pipe, later: nat) returns (finished: bool)
    requires p.Valid() && |p.pending| == 1
    modifies p
    ensures p.OnBoundary() && p.sent == old(p.sent)
    ensures finished == (later < |old(p.pending)[0]|)
  {
    for taken := 0 to later
      invariant p.Valid() && p.sent == old(p.sent) && |p.pending| == 1
      invariant taken <= |old(p.pending)[0]| && p.pending[0] == old(p.pending)[0][taken..]
    {
      var r := p.Read();
      if r == Value(SENTINEL) {
        // the drain is done and the abandoned read still waits
        return false;
      }
    }
    var _ := p.Read();
    var _, drained := p.DrainUntilSentinel();
    return drained;
  }

  // ---------------------------------------------------------------------
  // Runs of requests
  // ---------------------------------------------------------------------

  /** Framed commands sent by a run of requests. */
  function CommandsOf(lazyDraft: bool, reqs: seq<Request>): nat {
    if reqs == [] then 0
    else CommandsOf(lazyDraft, reqs[..|reqs| - 1]) + CommandsIn(lazyDraft, reqs[|reqs| - 1])
  }

  lemma {:induction false} CommandsAdd(lazyDraft: bool, reqs: seq<Request>, more: seq<Request>, req: Request)
    ensures CommandsOf(lazyDraft, reqs + more) == CommandsOf(lazyDraft, reqs) + CommandsOf(lazyDraft, more)
    ensures CommandsOf(lazyDraft, [req]) == CommandsIn(lazyDraft, req)
  {
    hide CommandsIn;
    assert [req][..0] == [];
    if more == [] {
      assert reqs + more == reqs;
    } else {
      var n := |more| - 1;
      CommandsAdd(lazyDraft, reqs, more[..n], req);
      assert (reqs + more)[..|reqs| + n] == reqs + more[..n];
    }
  }

  /** The frame that answers the generate command of request `i` of a run. */
  function FrameOf(reply: nat -> seq<int>, lazyDraft: bool, reqs: seq<Request>, i: nat): seq<int>
    requires i < |reqs|
  {
    reply(CommandsOf(lazyDraft, reqs[..i]) + CommandsBefore(lazyDraft, reqs[i]))
  }

  ghost predicate CleanRun(reply: nat -> seq<int>, lazyDraft: bool, reqs: seq<Request>) {
    forall i | 0 <= i < |reqs| :: Clean(reqs[i], FrameOf(reply, lazyDraft, reqs, i))
  }

  /** `out` is what request `i` of the run receives: the tokens of the part of its frame it has seen. */
  predicate OwnTokens(reply: nat -> seq<int>, vocab: Vocabulary, lazyDraft: bool,
                      reqs: seq<Request>, i: nat, out: seq<int>)
    requires i < |reqs|
  {
    out == Yielded(vocab, reqs[i].nGen, SeenOf(reqs[i].ending, FrameOf(reply, lazyDraft, reqs, i)))
  }

  method ServeNext(p: Pipe, lazyDraft: bool, reqs: seq<Request>, k: nat) returns (toks: seq<int>, inStep: bool)
    requires k < |reqs| && p.OnBoundary() && p.sent == CommandsOf(lazyDraft, reqs[..k])
    modifies p
    ensures OwnTokens(p.reply, p.vocab, lazyDraft, reqs, k, toks)
    ensures inStep == Clean(reqs[k], FrameOf(p.reply, lazyDraft, reqs, k))
    ensures inStep ==> p.OnBoundary() && p.sent == CommandsOf(lazyDraft, reqs[..k + 1])
  {
    hide Yielded, Framed, Clean, SeenOf, CommandsBefore, CommandsIn;
    var finished;
    toks, finished := Serve(p, lazyDraft, reqs[k]);
    assert reqs[..k + 1][..k] == reqs[..k];
    FramedNonempty(p.pending);
    inStep := finished && p.data == [];
  }

  /**
   Any run of requests, served until the pipe is out of step: every request served receives
   the tokens of its own frame, and the pipe is between two frames after every request
   exactly when every request is clean.
  */
  method ServeAll(reply: nat -> seq<int>, vocab: Vocabulary, lazyDraft: bool, reqs: seq<Request>)
    returns (outs: seq<seq<int>>, inStep: bool)
    requires forall n :: SENTINEL !in reply(n)
    ensures inStep <==> CleanRun(reply, lazyDraft, reqs)
    ensures |outs| <= |reqs| && (inStep ==> |outs| == |reqs|)
    ensures forall i | 0 <= i < |outs| :: OwnTokens(reply, vocab, lazyDraft, reqs, i, outs[i])
  {
    hide OwnTokens, Clean, FrameOf;
    var p := new Pipe(reply, vocab);
    outs := [];
    for k := 0 to |reqs|
      invariant |outs| == k && fresh(p) && p.OnBoundary() && p.reply == reply && p.vocab == vocab
      invariant p.sent == CommandsOf(lazyDraft, reqs[..k])
      invariant forall i | 0 <= i < k :: Clean(reqs[i], FrameOf(reply, lazyDraft, reqs, i))
      invariant forall i | 0 <= i < k :: OwnTokens(reply, vocab, lazyDraft, reqs, i, outs[i])
    {
      var toks;
      toks, inStep := ServeNext(p, lazyDraft, reqs, k);
      outs := outs + [toks];
      if !inStep {
        return;
      }
    }
    inStep := true;
  }

  lemma FramedNonempty(frames: seq<seq<int>>)
    ensures Framed(frames) == [] <==> frames == []
  {
  }
}
