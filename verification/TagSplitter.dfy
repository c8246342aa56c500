/**
 The streaming splitter that separates reasoning, visible text and tool calls while the
 text arrives in pieces, and the one-pass scanner over the whole text that it refines.
*/
module TagSplitter {

  const THINK_OPEN := "<think>"
  const THINK_CLOSE := "</think>"
  const TOOL_START_TAGS: seq<string> := ["<tool_call>", "<function=", "<tool_code>"]

  datatype Mode = Reasoning | Content | ToolBuffer

  /** `thinking`: the request may enter reasoning mode; `tools`: the request declares tools. */
  datatype Config = Config(thinking: bool, tools: bool)

  datatype Output = Output(mode: Mode, text: string, reasoning: string, tool: string)

  function ToolTags(cfg: Config): seq<string> {
    if cfg.tools then TOOL_START_TAGS else []
  }

  /** The tags that end or redirect the text of each mode. */
  function TagsFor(cfg: Config, mode: Mode): seq<string> {
    match mode
    case Reasoning => [THINK_CLOSE]
    case Content => [THINK_OPEN, THINK_CLOSE] + ToolTags(cfg)
    case ToolBuffer => []
  }

  function MaxLength(tags: seq<string>): (n: nat)
    ensures forall tag | tag in tags :: |tag| <= n
    ensures tags != [] ==> exists tag :: tag in tags && |tag| == n
  {
    if tags == [] then 0
    else
      var rest := MaxLength(tags[1..]);
      assert tags[0] in tags;
      if |tags[0]| < rest then
        var tag :| tag in tags[1..] && |tag| == rest;
        assert tag in tags;
        rest
      else |tags[0]|
  }

  /** How much of the window is held back: the longest tag that could still complete. */
  function Holdback(cfg: Config): nat {
    MaxLength([THINK_OPEN, THINK_CLOSE] + ToolTags(cfg))
  }

  predicate OccursAt(tag: string, w: string, i: int) {
    0 <= i && i + |tag| <= |w| && w[i..i + |tag|] == tag
  }

  // ---------------------------------------------------------------------
  // One-pass scanner
  // ---------------------------------------------------------------------

  function Emit(out: Output, s: string): Output {
    match out.mode
    case Reasoning => out.(reasoning := out.reasoning + s)
    case Content => out.(text := out.text + s)
    case ToolBuffer => out.(tool := out.tool + s)
  }

  predicate ToolStarts(cfg: Config, text: string) {
    exists tag | tag in ToolTags(cfg) :: OccursAt(tag, text, 0)
  }

  /** Reads `text` from the left, one tag or one character at a time. */
  function Scan(cfg: Config, out: Output, text: string): Output
    decreases |text|
  {
    if text == "" || out.mode == ToolBuffer then
      Emit(out, text)
    else if OccursAt(THINK_CLOSE, text, 0) then
      Scan(cfg, out.(mode := Content), text[|THINK_CLOSE|..])
    else if out.mode == Content && OccursAt(THINK_OPEN, text, 0) then
      var rest := text[|THINK_OPEN|..];
      if cfg.thinking then Scan(cfg, out.(mode := Reasoning), rest)
      else Scan(cfg, Emit(out, THINK_OPEN), rest)
    else if out.mode == Content && ToolStarts(cfg, text) then
      out.(mode := ToolBuffer, tool := text)
    else
      Scan(cfg, Emit(out, text[..1]), text[1..])
  }

  /** Reasoning that was never closed may still yield visible text, as `fallback` decides. */
  function Finish(fallback: string -> string, out: Output): Output {
    if out.mode == Reasoning then out.(text := out.text + fallback(out.reasoning)) else out
  }

  function Start(inThinking: bool): Output {
    Output(if inThinking then Reasoning else Content, "", "", "")
  }

  function Concat(pieces: seq<string>): string {
    if pieces == [] then "" else Concat(pieces[..|pieces| - 1]) + pieces[|pieces| - 1]
  }

  // ---------------------------------------------------------------------
  // Why holding back is enough
  // ---------------------------------------------------------------------

  ghost predicate NoTagBefore(cfg: Config, mode: Mode, w: string, n: int) {
    forall tag, i | tag in TagsFor(cfg, mode) && 0 <= i < n :: !OccursAt(tag, w, i)
  }

  lemma TagShape(cfg: Config, mode: Mode, tag: string)
    requires tag in TagsFor(cfg, mode)
    ensures 0 < |tag| <= Holdback(cfg) && tag[0] == '<'
    ensures forall i | 1 <= i < |tag| :: tag[i] != '<'
  {
    assert tag in [THINK_OPEN, THINK_CLOSE] + ToolTags(cfg);
    BracketsOpenTags(tag);
  }

  lemma BracketsOpenTags(tag: string)
    requires tag == THINK_OPEN || tag == THINK_CLOSE || tag in TOOL_START_TAGS
    ensures |tag| > 0 && tag[0] == '<'
    ensures forall i | 1 <= i < |tag| :: tag[i] != '<'
  {
  }

  /** A tag inside a prefix of the text is a tag of the text, and only later text adds more. */
  lemma OccursInPrefix(tag: string, w: string, f: string, i: int)
    ensures OccursAt(tag, w, i) ==> OccursAt(tag, w + f, i)
    ensures OccursAt(tag, w + f, i) && i + |tag| <= |w| ==> OccursAt(tag, w, i)
  {
    if 0 <= i && i + |tag| <= |w| {
      assert (w + f)[i..i + |tag|] == w[i..i + |tag|];
    }
  }

  /**
   No tag can start before the first complete one: it would have to run over the opening
   bracket of that tag, and brackets only open tags.
  */
  lemma FirstHitIsFirst(cfg: Config, mode: Mode, w: string, n: nat, hit: string, f: string)
    requires hit in TagsFor(cfg, mode) && OccursAt(hit, w, n) && NoTagBefore(cfg, mode, w, n)
    ensures NoTagBefore(cfg, mode, w + f, n)
  {
    TagShape(cfg, mode, hit);
    assert w[n] == w[n..n + |hit|][0] == '<';
    forall tag, i | tag in TagsFor(cfg, mode) && 0 <= i < n
      ensures !OccursAt(tag, w + f, i)
    {
      TagShape(cfg, mode, tag);
      OccursInPrefix(tag, w, f, i);
      assert i + |tag| <= |w + f| && n < i + |tag| ==> (w + f)[i..i + |tag|][n - i] == '<';
    }
  }

  /** With no complete tag in the window, none can start outside the part that is held back. */
  lemma HoldbackIsEnough(cfg: Config, mode: Mode, w: string, f: string)
    requires NoTagBefore(cfg, mode, w, |w|)
    ensures NoTagBefore(cfg, mode, w + f, |w| - Holdback(cfg))
  {
    forall tag, i | tag in TagsFor(cfg, mode) && 0 <= i < |w| - Holdback(cfg)
      ensures !OccursAt(tag, w + f, i)
    {
      TagShape(cfg, mode, tag);
      OccursInPrefix(tag, w, f, i);
    }
  }

  lemma NoTagInRest(cfg: Config, mode: Mode, w: string, k: nat, n: nat)
    requires k <= n <= |w| && NoTagBefore(cfg, mode, w, n)
    ensures NoTagBefore(cfg, mode, w[k..], n - k)
  {
    forall tag, i | tag in TagsFor(cfg, mode) && 0 <= i < n - k
      ensures !OccursAt(tag, w[k..], i)
    {
      assert !OccursAt(tag, w, k + i);
      if i + |tag| <= |w[k..]| {
        assert w[k..][i..i + |tag|] == w[k + i..k + i + |tag|];
      }
    }
  }

  /** Text without a tag passes through the scanner unchanged. */
  lemma {:induction false} ScanPlain(cfg: Config, out: Output, w: string, n: nat)
    requires out.mode != ToolBuffer && n <= |w| && NoTagBefore(cfg, out.mode, w, n)
    ensures Scan(cfg, out, w) == Scan(cfg, Emit(out, w[..n]), w[n..])
    decreases n
  {
    hide Scan, NoTagBefore;
    if n == 0 {
      assert w[0..] == w && w[..0] == "";
      assert Emit(out, "") == out;
    } else {
      PlainHead(cfg, out, w, n);
      NoTagInRest(cfg, out.mode, w, 1, n);
      ScanPlain(cfg, Emit(out, w[..1]), w[1..], n - 1);
      assert w[1..][n - 1..] == w[n..];
      EmitTwice(out, w[..1], w[1..][..n - 1]);
      assert w[..1] + w[1..][..n - 1] == w[..n];
    }
  }

  lemma EmitTwice(out: Output, s: string, t: string)
    ensures Emit(Emit(out, s), t) == Emit(out, s + t)
  {
    assert out.text + s + t == out.text + (s + t);
    assert out.reasoning + s + t == out.reasoning + (s + t);
    assert out.tool + s + t == out.tool + (s + t);
  }

  lemma PlainHead(cfg: Config, out: Output, w: string, n: nat)
    requires out.mode != ToolBuffer && 0 < n <= |w| && NoTagBefore(cfg, out.mode, w, n)
    ensures Scan(cfg, out, w) == Scan(cfg, Emit(out, w[..1]), w[1..])
  {
    var tags := TagsFor(cfg, out.mode);
    assert THINK_CLOSE in tags;
    assert out.mode == Content ==> THINK_OPEN in tags && forall tag | tag in ToolTags(cfg) :: tag in tags;
  }

  // ---------------------------------------------------------------------
  // What one turn of the splitter's loop preserves
  // ---------------------------------------------------------------------

  /** Two decided outputs with an undecided window each scan alike, whatever text follows. */
  ghost predicate SameMeaning(cfg: Config, out: Output, w: string, out': Output, w': string) {
    forall f: string :: Scan(cfg, out, w + f) == Scan(cfg, out', w' + f)
  }

  lemma Chained(cfg: Config, out: Output, w: string, out': Output, w': string, out'': Output, w'': string)
    requires SameMeaning(cfg, out, w, out', w') && SameMeaning(cfg, out', w', out'', w'')
    ensures SameMeaning(cfg, out, w, out'', w'')
  {
    hide Scan;
  }

  lemma ScanSkips(cfg: Config, out: Output, w: string, n: nat, f: string)
    requires out.mode != ToolBuffer && n <= |w| && NoTagBefore(cfg, out.mode, w + f, n)
    ensures Scan(cfg, out, w + f) == Scan(cfg, Emit(out, w[..n]), w[n..] + f)
  {
    hide Scan, NoTagBefore;
    ScanPlain(cfg, out, w + f, n);
    assert (w + f)[..n] == w[..n] && (w + f)[n..] == w[n..] + f;
  }

  /** Everything but the held back part of a window without a complete tag can go out. */
  lemma ReleaseKeepsMeaning(cfg: Config, out: Output, w: string, n: nat)
    requires out.mode != ToolBuffer && NoTagBefore(cfg, out.mode, w, |w|)
    requires n == |w| - Holdback(cfg)
    ensures SameMeaning(cfg, Emit(out, w[..n]), w[n..], out, w)
    ensures NoTagBefore(cfg, out.mode, w[n..], |w[n..]|)
  {
    forall f: string
      ensures Scan(cfg, Emit(out, w[..n]), w[n..] + f) == Scan(cfg, out, w + f)
    {
      hide Scan, NoTagBefore;
      HoldbackIsEnough(cfg, out.mode, w, f);
      ScanSkips(cfg, out, w, n, f);
    }
    NoTagInRest(cfg, out.mode, w, n, |w|);
  }

  lemma BufferKeepsMeaning(cfg: Config, out: Output, w: string)
    requires out.mode == ToolBuffer
    ensures SameMeaning(cfg, Emit(out, w), "", out, w)
  {
    forall f: string
      ensures Scan(cfg, Emit(out, w), "" + f) == Scan(cfg, out, w + f)
    {
      EmitTwice(out, w, f);
      assert "" + f == f;
    }
  }

  /** What the splitter does with the first tag, found at `n`. */
  function AfterHit(cfg: Config, out: Output, w: string, n: nat, tag: string): (Output, string)
    requires OccursAt(tag, w, n)
  {
    var out', rest := Emit(out, w[..n]), w[n + |tag|..];
    if tag == THINK_CLOSE then (out'.(mode := Content), rest)
    else if tag == THINK_OPEN && cfg.thinking then (out'.(mode := Reasoning), rest)
    else if tag == THINK_OPEN then (Emit(out', tag), rest)
    else (out'.(mode := ToolBuffer, tool := w[n..]), "")
  }

  /** The tag that stands at the front is the one the scanner takes. */
  lemma ScanTag(cfg: Config, out: Output, text: string, tag: string)
    requires tag in TagsFor(cfg, out.mode) && OccursAt(tag, text, 0)
    ensures
      Scan(cfg, out, text)
      == if tag == THINK_CLOSE then Scan(cfg, out.(mode := Content), text[|tag|..])
         else if tag == THINK_OPEN && cfg.thinking then Scan(cfg, out.(mode := Reasoning), text[|tag|..])
         else if tag == THINK_OPEN then Scan(cfg, Emit(out, tag), text[|tag|..])
         else out.(mode := ToolBuffer, tool := text)
  {
    TagsExclusive(cfg, text);
    TagShape(cfg, out.mode, tag);
    assert tag == THINK_CLOSE || tag == THINK_OPEN || tag in ToolTags(cfg);
  }

  lemma ScanHit(cfg: Config, out: Output, w: string, tag: string, f: string)
    requires tag in TagsFor(cfg, out.mode) && OccursAt(tag, w, 0)
    ensures
      var (out', w') := AfterHit(cfg, out, w, 0, tag);
      Scan(cfg, out, w + f) == Scan(cfg, out', w' + f)
  {
    hide Scan;
    OccursInPrefix(tag, w, f, 0);
    ScanTag(cfg, out, w + f, tag);
    assert (w + f)[|tag|..] == w[|tag|..] + f;
    assert w[..0] == "" && Emit(out, "") == out && w[0..] == w;
    if tag != THINK_CLOSE && tag != THINK_OPEN {
      var out' := out.(mode := ToolBuffer, tool := w);
      ScanBuffer(cfg, out', "" + f);
      assert "" + f == f;
    }
  }

  lemma ScanBuffer(cfg: Config, out: Output, text: string)
    requires out.mode == ToolBuffer
    ensures Scan(cfg, out, text) == out.(tool := out.tool + text)
  {
  }

  lemma HitKeepsMeaning(cfg: Config, out: Output, w: string, n: nat, tag: string)
    requires tag in TagsFor(cfg, out.mode) && OccursAt(tag, w, n) && NoTagBefore(cfg, out.mode, w, n)
    ensures
      var (out', w') := AfterHit(cfg, out, w, n, tag);
      SameMeaning(cfg, out', w', out, w)
  {
    var (out', w') := AfterHit(cfg, out, w, n, tag);
    var out0, w0 := Emit(out, w[..n]), w[n..];
    assert w0[..|tag|] == w[n..n + |tag|];
    assert w0[|tag|..] == w[n + |tag|..];
    assert Emit(out0, w0[..0]) == out0 && w0[0..] == w0;
    forall f: string
      ensures Scan(cfg, out', w' + f) == Scan(cfg, out, w + f)
    {
      hide Scan, NoTagBefore;
      FirstHitIsFirst(cfg, out.mode, w, n, tag, f);
      ScanSkips(cfg, out, w, n, f);
      ScanHit(cfg, out0, w0, tag, f);
    }
  }

  /** At most one tag starts at any position. */
  lemma TagsExclusive(cfg: Config, w: string)
    ensures OccursAt(THINK_OPEN, w, 0) ==> !OccursAt(THINK_CLOSE, w, 0)
    ensures ToolStarts(cfg, w) ==> !OccursAt(THINK_CLOSE, w, 0) && !OccursAt(THINK_OPEN, w, 0)
  {
    if OccursAt(THINK_OPEN, w, 0) {
      assert w[..|THINK_OPEN|][1] == 't' && w[..|THINK_OPEN|][2] == 'h';
    }
    if OccursAt(THINK_CLOSE, w, 0) {
      assert w[..|THINK_CLOSE|][1] == '/';
    }
    if ToolStarts(cfg, w) {
      var tag :| tag in ToolTags(cfg) && OccursAt(tag, w, 0);
      assert w[..|tag|][1] == tag[1] && w[..|tag|][2] == tag[2];
    }
  }

  // ---------------------------------------------------------------------
  // The splitter
  // ---------------------------------------------------------------------

  /** The position of the first occurrence of `tag`, or -1. */
  method Find(w: string, tag: string) returns (idx: int)
    ensures idx == -1 ==> forall i :: !OccursAt(tag, w, i)
    ensures idx != -1 ==> OccursAt(tag, w, idx) && forall i | i < idx :: !OccursAt(tag, w, i)
    ensures idx >= -1
  {
    idx := 0;
    while idx + |tag| <= |w|
      invariant 0 <= idx && forall i | i < idx :: !OccursAt(tag, w, i)
      decreases |w| - idx
    {
      if w[idx..idx + |tag|] == tag {
        return;
      }
      idx := idx + 1;
    }
    idx := -1;
  }

  /** The first tag of content mode: its position and which tag it is. */
  method FirstHit(cfg: Config, w: string) returns (idx: int, tag: string)
    ensures idx == -1 ==> NoTagBefore(cfg, Content, w, |w|)
    ensures idx != -1 ==> tag in TagsFor(cfg, Content) && OccursAt(tag, w, idx)
    ensures idx != -1 ==> NoTagBefore(cfg, Content, w, idx)
    ensures idx >= -1
  {
    var tags := TagsFor(cfg, Content);
    idx, tag := -1, "";
    for k := 0 to |tags|
      invariant idx >= -1
      invariant idx == -1 ==> forall j, i | 0 <= j < k :: !OccursAt(tags[j], w, i)
      invariant idx != -1 ==> tag in tags && OccursAt(tag, w, idx)
      invariant idx != -1 ==> forall j, i | 0 <= j < k && i < idx :: !OccursAt(tags[j], w, i)
    {
      var at := Find(w, tags[k]);
      if at != -1 && (idx == -1 || at < idx) {
        idx, tag := at, tags[k];
      }
    }
  }

  class Splitter {
    const cfg: Config
    var mode: Mode
    var window: string
    var text: string
    var reasoning: string
    var toolBuffer: string

    constructor (cfg: Config, inThinking: bool)
      ensures this.cfg == cfg && Now() == Start(inThinking) && window == "" && Settled()
    {
      this.cfg := cfg;
      mode := if inThinking then Reasoning else Content;
      window, text, reasoning, toolBuffer := "", "", "", "";
      new;
      assert forall tag | tag in TagsFor(cfg, mode) :: |tag| > 0 by {
        forall tag | tag in TagsFor(cfg, mode) {
          TagShape(cfg, mode, tag);
        }
      }
    }

    /** What has been decided so far; the window is still undecided. */
    ghost function Now(): Output
      reads this
    {
      Output(mode, text, reasoning, toolBuffer)
    }

    /** Between pieces the window is short and holds no complete tag of the current mode. */
    ghost predicate Settled()
      reads this
    {
      if mode == ToolBuffer then window == ""
      else |window| <= Holdback(cfg) && NoTagBefore(cfg, mode, window, |window|)
    }

    /** Whatever follows, the decided output and the window still scan to the same result. */
    method Feed(piece: string)
      modifies this
      ensures Settled()
      ensures SameMeaning(cfg, Now(), window, old(Now()), old(window) + piece)
    {
      hide NoTagBefore, SameMeaning, Holdback;
      window := window + piece;
      ghost var out0, w0 := Now(), window;
      Same(cfg, out0, w0);
      while true
        invariant SameMeaning(cfg, Now(), window, out0, w0)
        decreases |window|, mode != ToolBuffer
      {
        ghost var out, w := Now(), window;
        if mode == ToolBuffer {
          toolBuffer := toolBuffer + window;
          window := "";
          BufferKeepsMeaning(cfg, out, w);
          Chained(cfg, Now(), window, out, w, out0, w0);
          break;
        } else if mode == Reasoning {
          var idx := Find(window, THINK_CLOSE);
          if idx != -1 {
            reasoning := reasoning + window[..idx];
            window := window[idx + |THINK_CLOSE|..];
            mode := Content;
            OnlyCloseBefore(cfg, w, idx);
            HitKeepsMeaning(cfg, out, w, idx, THINK_CLOSE);
            Chained(cfg, Now(), window, out, w, out0, w0);
            continue;
          }
          OnlyCloseBefore(cfg, w, |w|);
          if |window| > Holdback(cfg) {
            reasoning := reasoning + window[..|window| - Holdback(cfg)];
            window := window[|window| - Holdback(cfg)..];
            ReleaseKeepsMeaning(cfg, out, w, |w| - Holdback(cfg));
            Chained(cfg, Now(), window, out, w, out0, w0);
          }
          break;
        } else {
          var idx, tag := FirstHit(cfg, window);
          if idx != -1 {
            TagShape(cfg, Content, tag);
            HitKeepsMeaning(cfg, out, w, idx, tag);
            text := text + window[..idx];
            if tag == THINK_OPEN && cfg.thinking {
              window := window[idx + |THINK_OPEN|..];
              mode := Reasoning;
            } else if tag == THINK_OPEN {
              text := text + THINK_OPEN;
              window := window[idx + |THINK_OPEN|..];
            } else if tag == THINK_CLOSE {
              window := window[idx + |THINK_CLOSE|..];
            } else {
              toolBuffer := window[idx..];
              window := "";
              mode := ToolBuffer;
            }
            Chained(cfg, Now(), window, out, w, out0, w0);
            continue;
          }
          if |window| > Holdback(cfg) {
            text := text + window[..|window| - Holdback(cfg)];
            window := window[|window| - Holdback(cfg)..];
            ReleaseKeepsMeaning(cfg, out, w, |w| - Holdback(cfg));
            Chained(cfg, Now(), window, out, w, out0, w0);
          }
          break;
        }
      }
    }

    /** End of the stream: the window is plain text of its mode. */
    method Flush(fallback: string -> string)
      requires Settled()
      modifies this
      ensures window == "" && Now() == old(Finish(fallback, Scan(cfg, Now(), window)))
    {
      FlushScan(cfg, Now(), window);
      if mode == Reasoning {
        reasoning := reasoning + window;
        text := text + fallback(reasoning);
      } else if mode == Content {
        text := text + window;
      } else {
        toolBuffer := toolBuffer + window;
      }
      window := "";
    }
  }

  lemma Same(cfg: Config, out: Output, w: string)
    ensures SameMeaning(cfg, out, w, out, w)
  {
  }

  lemma OnlyCloseBefore(cfg: Config, w: string, n: int)
    requires forall i | i < n :: !OccursAt(THINK_CLOSE, w, i)
    ensures NoTagBefore(cfg, Reasoning, w, n)
  {
  }

  lemma FlushScan(cfg: Config, out: Output, w: string)
    requires out.mode != ToolBuffer ==> NoTagBefore(cfg, out.mode, w, |w|)
    ensures Scan(cfg, out, w) == Emit(out, w)
  {
    if out.mode != ToolBuffer {
      ScanPlain(cfg, out, w, |w|);
      assert w[..|w|] == w && Emit(Emit(out, w), "") == Emit(out, w);
    }
  }

  lemma ClosedThought(cfg: Config, thought: string)
    requires NoTagBefore(cfg, Reasoning, thought, |thought|)
    ensures OccursAt(THINK_CLOSE, thought + THINK_CLOSE, |thought|)
    ensures NoTagBefore(cfg, Reasoning, thought + THINK_CLOSE, |thought|)
  {
    var w, n := thought + THINK_CLOSE, |thought|;
    forall tag, i | tag in TagsFor(cfg, Reasoning) && 0 <= i < n
      ensures !OccursAt(tag, w, i)
    {
      TagShape(cfg, Reasoning, tag);
      OccursInPrefix(tag, thought, THINK_CLOSE, i);
      assert n < i + |tag| <= |w| ==> w[i..i + |tag|][n - i] == w[n] == '<';
    }
  }

  /** Reasoning, the closing tag and an answer come back apart, whatever the two texts are. */
  lemma ReasoningThenAnswer(cfg: Config, thought: string, answer: string)
    requires NoTagBefore(cfg, Reasoning, thought, |thought|) && NoTagBefore(cfg, Content, answer, |answer|)
    ensures Scan(cfg, Start(true), thought + THINK_CLOSE + answer) == Output(Content, answer, thought, "")
  {
    hide Scan, NoTagBefore;
    var w, out := thought + THINK_CLOSE, Output(Content, "", thought, "");
    ClosedThought(cfg, thought);
    HitKeepsMeaning(cfg, Start(true), w, |thought|, THINK_CLOSE);
    assert w[..|thought|] == thought && w[|w|..] == "" && "" + thought == thought;
    assert AfterHit(cfg, Start(true), w, |thought|, THINK_CLOSE) == (out, "");
    assert Scan(cfg, Start(true), w + answer) == Scan(cfg, out, "" + answer);
    assert "" + answer == answer;
    FlushScan(cfg, out, answer);
  }

  // ---------------------------------------------------------------------
  // Whole streams
  // ---------------------------------------------------------------------

  /** However a text is cut into pieces, the stream ends where one scan of the text ends. */
  method Stream(cfg: Config, inThinking: bool, pieces: seq<string>, fallback: string -> string)
    returns (out: Output)
    ensures out == Finish(fallback, Scan(cfg, Start(inThinking), Concat(pieces)))
  {
    var splitter := new Splitter(cfg, inThinking);
    hide Scan, NoTagBefore, SameMeaning, Holdback;
    assert Concat(pieces[..0]) == "";
    Same(cfg, Start(inThinking), "");
    for k := 0 to |pieces|
      invariant splitter.Settled() && fresh(splitter) && splitter.cfg == cfg
      invariant SameMeaning(cfg, splitter.Now(), splitter.window, Start(inThinking), Concat(pieces[..k]))
    {
      assert pieces[..k + 1][..k] == pieces[..k];
      ghost var out0, w0 := splitter.Now(), splitter.window;
      splitter.Feed(pieces[k]);
      Extend(cfg, splitter.Now(), splitter.window, out0, w0, Start(inThinking), Concat(pieces[..k]), pieces[k]);
    }
    assert pieces[..|pieces|] == pieces;
    SameScan(cfg, splitter.Now(), splitter.window, Start(inThinking), Concat(pieces));
    splitter.Flush(fallback);
    out := Output(splitter.mode, splitter.text, splitter.reasoning, splitter.toolBuffer);
  }

  /** Pieces come together in the order in which they come. */
  lemma {:induction false} PiecesJoin(pieces: seq<string>, more: seq<string>, piece: string)
    ensures Concat(pieces + more) == Concat(pieces) + Concat(more) && Concat([piece]) == piece
  {
    assert [piece][..0] == [];
    if more == [] {
      assert pieces + more == pieces;
    } else {
      var n := |more| - 1;
      PiecesJoin(pieces, more[..n], piece);
      assert (pieces + more)[..|pieces| + n] == pieces + more[..n];
    }
  }

  lemma SameScan(cfg: Config, out: Output, w: string, out': Output, w': string)
    requires SameMeaning(cfg, out, w, out', w')
    ensures Scan(cfg, out, w) == Scan(cfg, out', w')
  {
    hide Scan;
    assert w + "" == w && w' + "" == w';
  }

  lemma Extend(cfg: Config, out2: Output, w2: string, out1: Output, w1: string,
               out0: Output, w0: string, piece: string)
    requires SameMeaning(cfg, out1, w1, out0, w0)
    requires SameMeaning(cfg, out2, w2, out1, w1 + piece)
    ensures SameMeaning(cfg, out2, w2, out0, w0 + piece)
  {
    hide Scan;
    forall f: string
      ensures Scan(cfg, out2, w2 + f) == Scan(cfg, out0, w0 + piece + f)
    {
      assert w1 + piece + f == w1 + (piece + f);
      assert w0 + piece + f == w0 + (piece + f);
    }
  }

  // ---------------------------------------------------------------------
  // What a caller gets, tag by tag
  // ---------------------------------------------------------------------

  /** Text without an opening bracket. */
  predicate Plain(text: string) {
    '<' !in text
  }

  lemma TagNeedsBracket(cfg: Config, mode: Mode, tag: string, w: string, i: nat)
    requires tag in TagsFor(cfg, mode) && i < |w|
    ensures OccursAt(tag, w, i) ==> w[i] == '<'
  {
    TagShape(cfg, mode, tag);
    if OccursAt(tag, w, i) {
      assert w[i..i + |tag|][0] == w[i];
    }
  }

  lemma PlainPasses(cfg: Config, out: Output, text: string, rest: string)
    requires out.mode != ToolBuffer && Plain(text)
    ensures Scan(cfg, out, text + rest) == Scan(cfg, Emit(out, text), rest)
  {
    hide Scan, OccursAt, TagsFor;
    var w := text + rest;
    forall tag, i | tag in TagsFor(cfg, out.mode) && 0 <= i < |text|
      ensures !OccursAt(tag, w, i)
    {
      TagNeedsBracket(cfg, out.mode, tag, w, i);
      assert w[i] == text[i] != '<';
    }
    ScanPlain(cfg, out, w, |text|);
    assert w[..|text|] == text && w[|text|..] == rest;
  }

  lemma PlainEnds(cfg: Config, out: Output, text: string)
    requires Plain(text)
    ensures Scan(cfg, out, text) == Emit(out, text)
  {
    if out.mode != ToolBuffer {
      hide Scan;
      PlainPasses(cfg, out, text, "");
      assert text + "" == text;
      ScanNothing(cfg, Emit(out, text));
    }
  }

  lemma ScanNothing(cfg: Config, out: Output)
    ensures Scan(cfg, out, "") == out
  {
    assert Emit(out, "") == out;
  }

  lemma ScanFront(cfg: Config, out: Output, tag: string, rest: string)
    requires tag in TagsFor(cfg, out.mode)
    ensures
      Scan(cfg, out, tag + rest)
      == if tag == "</think>" then Scan(cfg, out.(mode := Content), rest)
         else if tag == "<think>" && cfg.thinking then Scan(cfg, out.(mode := Reasoning), rest)
         else if tag == "<think>" then Scan(cfg, Emit(out, tag), rest)
         else out.(mode := ToolBuffer, tool := tag + rest)
  {
    hide Scan;
    assert (tag + rest)[..|tag|] == tag && (tag + rest)[|tag|..] == rest;
    ScanTag(cfg, out, tag + rest, tag);
  }

  lemma AfterAnswer(cfg: Config, answer: string, rest: string)
    requires Plain(answer)
    ensures Scan(cfg, Start(false), answer + rest) == Scan(cfg, Output(Content, answer, "", ""), rest)
  {
    hide Scan;
    PlainPasses(cfg, Start(false), answer, rest);
    assert "" + answer == answer;
  }

  /** With tools declared, a tool call leaves the visible text and all that follows is buffered. */
  lemma ToolCallLeaves(cfg: Config, answer: string, tag: string, rest: string)
    requires cfg.tools && Plain(answer)
    requires tag == "<tool_call>" || tag == "<function=" || tag == "<tool_code>"
    ensures Scan(cfg, Start(false), answer + tag + rest) == Output(ToolBuffer, answer, "", tag + rest)
  {
    hide Scan;
    assert answer + tag + rest == answer + (tag + rest);
    AfterAnswer(cfg, answer, tag + rest);
    ScanFront(cfg, Output(Content, answer, "", ""), tag, rest);
  }

  /** Without tools it is text like any other. */
  lemma ToolCallStays(cfg: Config, answer: string, tag: string, rest: string)
    requires !cfg.tools && Plain(answer) && Plain(rest)
    requires tag == "<tool_call>" || tag == "<function=" || tag == "<tool_code>"
    ensures Scan(cfg, Start(false), answer + tag + rest) == Output(Content, answer + tag + rest, "", "")
  {
    assert answer + tag + rest == answer + (tag + rest);
    AfterAnswer(cfg, answer, tag + rest);
    NotATag(cfg, Content, tag, rest);
    LoneBracket(cfg, Output(Content, answer, "", ""), tag, rest);
  }

  /** The tag is none of those that the mode looks for. */
  lemma NotATag(cfg: Config, mode: Mode, tag: string, rest: string)
    requires !cfg.tools && mode == Content
    requires tag == "<tool_call>" || tag == "<function=" || tag == "<tool_code>"
    ensures forall t | t in TagsFor(cfg, mode) :: !OccursAt(t, tag + rest, 0)
  {
    var w := tag + rest;
    assert w[1] == tag[1] && w[2] == tag[2];
    forall t | t in TagsFor(cfg, mode)
      ensures !OccursAt(t, w, 0)
    {
      assert t == "<think>" || t == "</think>";
      assert |t| <= |w| ==> w[..|t|][1] == w[1] && w[..|t|][2] == w[2];
    }
  }

  /** A bracket that opens no tag of the mode passes with the plain text after it. */
  lemma LoneBracket(cfg: Config, out: Output, tag: string, rest: string)
    requires out.mode != ToolBuffer && |tag| > 0 && Plain(tag[1..]) && Plain(rest)
    requires forall t | t in TagsFor(cfg, out.mode) :: !OccursAt(t, tag + rest, 0)
    ensures Scan(cfg, out, tag + rest) == Emit(out, tag + rest)
  {
    hide Scan, OccursAt, TagsFor;
    var w := tag + rest;
    forall t, i | t in TagsFor(cfg, out.mode) && 0 <= i < |w|
      ensures !OccursAt(t, w, i)
    {
      TagNeedsBracket(cfg, out.mode, t, w, i);
      assert i > 0 ==> w[i] == (tag[1..] + rest)[i - 1] != '<';
    }
    FlushScan(cfg, out, w);
  }

  /** With thinking on, what stands between the thinking tags is reasoning and the rest is answer. */
  lemma ThoughtBetween(cfg: Config, before: string, thought: string, after: string)
    requires cfg.thinking && Plain(before) && Plain(thought) && Plain(after)
    ensures
      Scan(cfg, Start(false), before + "<think>" + thought + "</think>" + after)
      == Output(Content, before + after, thought, "")
  {
    hide Scan;
    var rest := thought + "</think>" + after;
    assert before + "<think>" + thought + "</think>" + after == before + ("<think>" + rest);
    AfterAnswer(cfg, before, "<think>" + rest);
    ScanFront(cfg, Output(Content, before, "", ""), "<think>", rest);
    assert rest == thought + ("</think>" + after);
    PlainPasses(cfg, Output(Reasoning, before, "", ""), thought, "</think>" + after);
    assert "" + thought == thought;
    ScanFront(cfg, Output(Reasoning, before, thought, ""), "</think>", after);
    PlainEnds(cfg, Output(Content, before, thought, ""), after);
  }

  /** With thinking off, an opening thinking tag is text. */
  lemma ThinkStays(cfg: Config, before: string, after: string)
    requires !cfg.thinking && Plain(before) && Plain(after)
    ensures
      Scan(cfg, Start(false), before + "<think>" + after)
      == Output(Content, before + "<think>" + after, "", "")
  {
    hide Scan;
    assert before + "<think>" + after == before + ("<think>" + after);
    AfterAnswer(cfg, before, "<think>" + after);
    ScanFront(cfg, Output(Content, before, "", ""), "<think>", after);
    PlainEnds(cfg, Output(Content, before + "<think>", "", ""), after);
  }

  /** A closing tag in the answer is dropped. */
  lemma StrayCloseDropped(cfg: Config, before: string, after: string)
    requires Plain(before) && Plain(after)
    ensures
      Scan(cfg, Start(false), before + "</think>" + after) == Output(Content, before + after, "", "")
  {
    hide Scan;
    assert before + "</think>" + after == before + ("</think>" + after);
    AfterAnswer(cfg, before, "</think>" + after);
    ScanFront(cfg, Output(Content, before, "", ""), "</think>", after);
    PlainEnds(cfg, Output(Content, before, "", ""), after);
  }

  lemma NotAClose(tag: string, rest: string)
    requires tag == "<think>" || tag == "<tool_call>" || tag == "<function=" || tag == "<tool_code>"
    ensures !OccursAt("</think>", tag + rest, 0) && Plain(tag[1..])
  {
    var w := tag + rest;
    assert w[1] == tag[1] != '/';
    assert |"</think>"| <= |w| ==> w[..|"</think>"|][1] == w[1];
  }

  /** In reasoning neither a tool call nor an opening thinking tag means anything. */
  lemma ReasoningIgnoresTags(cfg: Config, before: string, tag: string, after: string)
    requires Plain(before) && Plain(after)
    requires tag == "<think>" || tag == "<tool_call>" || tag == "<function=" || tag == "<tool_code>"
    ensures
      Scan(cfg, Start(true), before + tag + after) == Output(Reasoning, "", before + tag + after, "")
  {
    assert before + tag + after == before + (tag + after);
    hide Scan;
    PlainPasses(cfg, Start(true), before, tag + after);
    assert "" + before == before;
    NotAClose(tag, after);
    LoneBracket(cfg, Output(Reasoning, "", before, ""), tag, after);
  }

  /** Reasoning that is never closed is all reasoning, and what it yields as an answer is the fallback's. */
  lemma UnclosedThought(cfg: Config, fallback: string -> string, thought: string)
    requires Plain(thought)
    ensures
      Finish(fallback, Scan(cfg, Start(true), thought)) == Output(Reasoning, fallback(thought), thought, "")
  {
    PlainEnds(cfg, Start(true), thought);
    assert "" + thought == thought && "" + fallback(thought) == fallback(thought);
  }

  /** Outside reasoning the end of the stream changes nothing. */
  lemma FinishKeeps(fallback: string -> string, out: Output)
    requires out.mode == Content || out.mode == ToolBuffer
    ensures Finish(fallback, out) == out
  {
  }

  /** How many characters may wait: as many as the longest tag has that could still complete. */
  lemma HoldbackIs(cfg: Config)
    ensures Holdback(cfg) == if cfg.tools then |"<tool_call>"| else |"</think>"|
  {
    var tags := [THINK_OPEN, THINK_CLOSE] + ToolTags(cfg);
    assert tags == if cfg.tools then ["<think>", "</think>", "<tool_call>", "<function=", "<tool_code>"]
                   else ["<think>", "</think>"];
    if cfg.tools {
      assert tags[2] in tags;
    } else {
      assert tags[1] in tags;
    }
    hide MaxLength;
  }
}
