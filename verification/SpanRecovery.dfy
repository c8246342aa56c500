/**
 Recovering whole words from a compressed token stream: find where the kept tokens came from,
 group the positions into spans, widen each span to word boundaries, merge what overlaps.
*/
module SpanRecovery {

  import opened Sequences

  /** Positions `first..last`, both included. */
  datatype Span = Span(first: int, last: int)

  datatype Result<+T> = Ok(value: T) | NotSubsequence(matched: nat)

  // ---------------------------------------------------------------------
  // Subsequences
  // ---------------------------------------------------------------------

  ghost predicate Within(e: seq<int>, n: int) {
    forall i | 0 <= i < |e| :: 0 <= e[i] < n
  }

  /** `e` lists positions at which `part` occurs in order within `whole`. */
  ghost predicate Embeds(whole: seq<int>, part: seq<int>, e: seq<int>) {
    && |e| == |part| && Increasing(e) && Within(e, |whole|)
    && forall i | 0 <= i < |e| :: whole[e[i]] == part[i]
  }

  ghost predicate Subsequence(part: seq<int>, whole: seq<int>) {
    exists e :: Embeds(whole, part, e)
  }

  /** No later, place by place. */
  ghost predicate NoLater(e: seq<int>, e': seq<int>) {
    |e| <= |e'| && forall i | 0 <= i < |e| :: e[i] <= e'[i]
  }

  /** The first match of `kept`: no other one has a position earlier. */
  ghost predicate Leftmost(full: seq<int>, kept: seq<int>, idx: seq<int>) {
    Embeds(full, kept, idx) && forall e | Embeds(full, kept, e) :: NoLater(idx, e)
  }

  /** Among the positions of `e` below `i`, none escapes the greedy positions `out`. */
  ghost predicate Dominated(out: seq<int>, e: seq<int>, i: int) {
    forall p | 0 <= p < |e| && e[p] < i :: p < |out| && out[p] <= e[p]
  }

  /** The greedy positions `out` lead every match, of any prefix of `kept`, below position `i`. */
  ghost predicate Leads(full: seq<int>, kept: seq<int>, out: seq<int>, i: int) {
    forall m: nat, e | m <= |kept| && Embeds(full, kept[..m], e) :: Dominated(out, e, i)
  }

  lemma LeadsStep(full: seq<int>, kept: seq<int>, out: seq<int>, out': seq<int>, i: nat)
    requires i < |full| && |out| <= |kept| && Within(out, i) && Leads(full, kept, out, i)
    requires out' == if |out| < |kept| && full[i] == kept[|out|] then out + [i] else out
    ensures Leads(full, kept, out', i + 1)
  {
    forall m: nat, e | m <= |kept| && Embeds(full, kept[..m], e)
      ensures Dominated(out', e, i + 1)
    {
      assert Dominated(out, e, i);
      forall p | 0 <= p < |e| && e[p] < i + 1
        ensures p < |out'| && out'[p] <= e[p]
      {
        if e[p] == i {
          assert p > 0 ==> e[p - 1] < e[p];
        }
      }
    }
  }

  lemma MatchIsLed(full: seq<int>, kept: seq<int>, out: seq<int>, m: nat, e: seq<int>)
    requires m <= |kept| && Embeds(full, kept[..m], e) && Leads(full, kept, out, |full|)
    ensures m <= |out| && (m == |out| ==> NoLater(out, e))
  {
    assert Dominated(out, e, |full|);
    assert m > 0 ==> e[m - 1] < |full|;
  }

  lemma LeadsAtEnd(full: seq<int>, kept: seq<int>, out: seq<int>)
    requires |out| <= |kept| && Embeds(full, kept[..|out|], out) && Leads(full, kept, out, |full|)
    ensures Subsequence(kept, full) <==> |out| == |kept|
    ensures |out| < |kept| ==> !Subsequence(kept[..|out| + 1], full)
    ensures |out| == |kept| ==> forall e | Embeds(full, kept, e) :: NoLater(out, e)
  {
    hide Leads, NoLater;
    assert kept[..|kept|] == kept;
    forall e | Embeds(full, kept, e)
      ensures |kept| <= |out| && NoLater(out, e)
    {
      MatchIsLed(full, kept, out, |kept|, e);
    }
    if |out| < |kept| {
      var part := kept[..|out| + 1];
      forall e | Embeds(full, part, e)
        ensures false
      {
        MatchIsLed(full, kept, out, |out| + 1, e);
      }
    }
  }

  /**
   Greedy matching succeeds exactly when `kept` is a subsequence of `full`, and then no other
   match has any of its positions earlier. A failure reports the longest prefix that matches.
  */
  method RecoverKeptIndices(full: seq<int>, kept: seq<int>) returns (r: Result<seq<int>>)
    ensures r.Ok? <==> Subsequence(kept, full)
    ensures r.Ok? ==> Leftmost(full, kept, r.value)
    ensures r.NotSubsequence? ==>
              && r.matched < |kept| && Subsequence(kept[..r.matched], full)
              && !Subsequence(kept[..r.matched + 1], full)
  {
    hide Leads, NoLater, Subsequence;
    var out: seq<int> := [];
    var j := 0;
    assert Leads(full, kept, out, 0) by { NothingLeads(full, kept); }
    for i := 0 to |full|
      invariant j == |out| <= |kept|
      invariant Embeds(full, kept[..j], out) && Within(out, i)
      invariant Leads(full, kept, out, i)
    {
      ghost var was := out;
      if j < |kept| && full[i] == kept[j] {
        out := out + [i];
        j := j + 1;
      }
      LeadsStep(full, kept, was, out, i);
    }
    LeadsAtEnd(full, kept, out);
    if j != |kept| {
      IsSubsequence(full, kept[..j], out);
      return NotSubsequence(j);
    }
    assert kept[..j] == kept;
    return Ok(out);
  }

  lemma NothingLeads(full: seq<int>, kept: seq<int>)
    ensures Leads(full, kept, [], 0)
  {
  }

  lemma IsSubsequence(whole: seq<int>, part: seq<int>, e: seq<int>)
    requires Embeds(whole, part, e)
    ensures Subsequence(part, whole)
  {
  }

  // ---------------------------------------------------------------------
  // Spans and the positions they cover
  // ---------------------------------------------------------------------

  ghost predicate InSpan(s: Span, x: int) {
    s.first <= x <= s.last
  }

  ghost predicate Covers(spans: seq<Span>, x: int) {
    exists s :: s in spans && InSpan(s, x)
  }

  ghost predicate Proper(spans: seq<Span>) {
    forall s | s in spans :: s.first <= s.last
  }

  /** Ordered, disjoint and with a gap between any two. */
  ghost predicate Separated(spans: seq<Span>) {
    && Proper(spans)
    && forall i, j | 0 <= i < j < |spans| :: spans[i].last + 1 < spans[j].first
  }

  /** No span carries on where the one before it ends. */
  ghost predicate Broken(spans: seq<Span>) {
    forall i | 0 < i < |spans| :: spans[i].first != spans[i - 1].last + 1
  }

  ghost function Positions(s: Span): (p: seq<int>)
    requires s.first <= s.last
  {
    seq(s.last - s.first + 1, i => s.first + i)
  }

  ghost function AllPositions(spans: seq<Span>): seq<int>
    requires Proper(spans)
  {
    if spans == [] then []
    else
      var n := |spans| - 1;
      AllPositions(spans[..n]) + Positions(spans[n])
  }

  lemma CoversSnoc(spans: seq<Span>, s: Span, x: int)
    ensures Covers(spans + [s], x) <==> Covers(spans, x) || InSpan(s, x)
  {
    if InSpan(s, x) {
      assert s in spans + [s];
    }
  }

  lemma {:induction false} AllPositionsCovered(spans: seq<Span>, x: int)
    requires Proper(spans)
    ensures x in AllPositions(spans) <==> Covers(spans, x)
  {
    if spans != [] {
      var n := |spans| - 1;
      AllPositionsCovered(spans[..n], x);
      assert spans == spans[..n] + [spans[n]];
      CoversSnoc(spans[..n], spans[n], x);
      if InSpan(spans[n], x) {
        assert Positions(spans[n])[x - spans[n].first] == x;
      }
    }
  }

  /** Separated spans list their positions in order, each once. */
  lemma {:induction false} SeparatedIncreases(spans: seq<Span>)
    requires Separated(spans)
    ensures Increasing(AllPositions(spans))
  {
    if spans != [] {
      var n := |spans| - 1;
      SeparatedIncreases(spans[..n]);
      var before := AllPositions(spans[..n]);
      forall i | 0 <= i < |before|
        ensures before[i] < spans[n].first
      {
        assert before[i] in before;
        AllPositionsCovered(spans[..n], before[i]);
        var s :| s in spans[..n] && InSpan(s, before[i]);
      }
    }
  }

  /** Spans that list increasing positions and never carry on are separated. */
  lemma {:induction false} IncreasingSeparates(spans: seq<Span>)
    requires Proper(spans) && Broken(spans) && Increasing(AllPositions(spans))
    ensures Separated(spans)
  {
    hide AllPositions, Positions;
    if |spans| > 1 {
      var n := |spans| - 1;
      var before := AllPositions(spans[..n]);
      AllPositionsSnoc(spans[..n], spans[n]);
      assert spans == spans[..n] + [spans[n]];
      PositionsEnds(spans[n]);
      IncreasingPrefix(AllPositions(spans), before);
      BrokenPrefix(spans, n);
      IncreasingSeparates(spans[..n]);
      LastPosition(spans[..n]);
      assert AllPositions(spans)[|before| - 1] < AllPositions(spans)[|before|] == spans[n].first;
      hide Increasing, Separated, Proper;
      SeparatedSnoc(spans, n);
    }
  }

  lemma BrokenPrefix(spans: seq<Span>, n: nat)
    requires Broken(spans) && 0 < n == |spans| - 1
    ensures Broken(spans[..n]) && spans[n].first != spans[n - 1].last + 1
  {
  }

  lemma IncreasingPrefix(e: seq<int>, before: seq<int>)
    requires Increasing(e) && before <= e
    ensures Increasing(before)
  {
  }

  lemma SeparatedSnoc(spans: seq<Span>, n: nat)
    requires 0 < n == |spans| - 1 && Separated(spans[..n]) && Proper(spans)
    requires spans[n - 1].last + 1 < spans[n].first
    ensures Separated(spans)
  {
    forall i | 0 <= i < n
      ensures spans[i].last + 1 < spans[n].first
    {
      assert spans[..n][i] == spans[i] && spans[..n][n - 1] == spans[n - 1];
    }
  }

  lemma PositionsEnds(s: Span)
    requires s.first <= s.last
    ensures var p := Positions(s);
            p != [] && p[0] == s.first && p[|p| - 1] == s.last
  {
  }

  lemma AllPositionsLast(spans: seq<Span>)
    requires Proper(spans) && spans != []
    ensures var n := |spans| - 1;
            && Proper(spans[..n]) && spans[n].first <= spans[n].last
            && AllPositions(spans) == AllPositions(spans[..n]) + Positions(spans[n])
  {
  }

  lemma AllPositionsSnoc(spans: seq<Span>, s: Span)
    requires Proper(spans) && s.first <= s.last
    ensures Proper(spans + [s]) && AllPositions(spans + [s]) == AllPositions(spans) + Positions(s)
  {
    assert (spans + [s])[..|spans|] == spans;
  }

  lemma PositionsSnoc(a: int, b: int)
    requires a <= b
    ensures Positions(Span(a, b + 1)) == Positions(Span(a, b)) + [b + 1]
    ensures Positions(Span(a, a)) == [a]
  {
  }

  lemma LastPosition(spans: seq<Span>)
    requires Proper(spans) && spans != []
    ensures var all := AllPositions(spans);
            all != [] && all[|all| - 1] == spans[|spans| - 1].last
  {
    var n := |spans| - 1;
    PositionsEnds(spans[n]);
    hide Positions;
  }

  /** The runs spell out the positions, whatever their order, and each run is as long as it can be. */
  method GroupRuns(idxs: seq<int>) returns (runs: seq<Span>)
    ensures Proper(runs) && Broken(runs) && AllPositions(runs) == idxs
  {
    hide AllPositions, Positions, Proper, Broken;
    EmptyPositions();
    if idxs == [] {
      return [];
    }
    runs := [];
    var a, b := idxs[0], idxs[0];
    PositionsSnoc(a, b);
    for n := 1 to |idxs|
      invariant a <= b && Proper(runs) && Broken(runs)
      invariant runs != [] ==> runs[|runs| - 1].last + 1 != a
      invariant AllPositions(runs) + Positions(Span(a, b)) == idxs[..n]
    {
      var x := idxs[n];
      assert idxs[..n + 1] == idxs[..n] + [x];
      if x == b + 1 {
        PositionsSnoc(a, b);
        b := x;
      } else {
        AllPositionsSnoc(runs, Span(a, b));
        BrokenSnoc(runs, Span(a, b));
        PositionsSnoc(x, x);
        runs := runs + [Span(a, b)];
        a, b := x, x;
      }
    }
    AllPositionsSnoc(runs, Span(a, b));
    BrokenSnoc(runs, Span(a, b));
    runs := runs + [Span(a, b)];
  }

  lemma BrokenSnoc(runs: seq<Span>, s: Span)
    requires Broken(runs) && (runs != [] ==> runs[|runs| - 1].last + 1 != s.first)
    ensures Broken(runs + [s])
  {
  }

  lemma EmptyPositions()
    ensures Broken([])
    ensures Proper([]) && AllPositions([]) == []
  {
  }

  lemma LastRunAt(spans: seq<Span>, d: nat)
    requires Proper(spans) && spans != []
    requires var s := spans[|spans| - 1];
             d <= s.last - s.first
    ensures var all := AllPositions(spans);
            |all| > d && all[|all| - 1 - d] == spans[|spans| - 1].last - d
  {
  }

  /** The position listed just before the last run is not the one that run would carry on from. */
  lemma BeforeLastRun(spans: seq<Span>)
    requires Proper(spans) && Broken(spans) && spans != []
    ensures var all, t := AllPositions(spans), spans[|spans| - 1];
            var k := |all| - (t.last - t.first + 1);
            0 <= k && (k > 0 ==> all[k - 1] != t.first - 1)
  {
    hide AllPositions, Positions;
    var m := |spans| - 1;
    var front := spans[..m];
    AllPositionsLast(spans);
    assert m > 0 ==> front[m - 1] == spans[m - 1] && spans[m].first != spans[m - 1].last + 1;
    hide Proper, Broken;
    PositionsCount(spans[m]);
    if front == [] {
      EmptyPositions();
    } else {
      LastPosition(front);
    }
  }

  lemma LastRunNoLonger(runs: seq<Span>, runs': seq<Span>)
    requires Proper(runs) && Proper(runs') && Broken(runs') && runs != [] && runs' != []
    requires AllPositions(runs) == AllPositions(runs')
    requires runs[|runs| - 1].last == runs'[|runs'| - 1].last
    ensures runs[|runs| - 1].first >= runs'[|runs'| - 1].first
  {
    hide AllPositions;
    var s, t := runs[|runs| - 1], runs'[|runs'| - 1];
    BeforeLastRun(runs');
    assert t in runs';
    if s.first < t.first {
      LastRunAt(runs, t.last - t.first + 1);
    }
  }

  lemma PositionsCount(s: Span)
    requires s.first <= s.last
    ensures |Positions(s)| == s.last - s.first + 1
  {
  }

  /** The grouping is the only one: runs that never carry on are fixed by the positions they list. */
  lemma {:induction false} RunsUnique(runs: seq<Span>, runs': seq<Span>)
    requires Proper(runs) && Broken(runs) && Proper(runs') && Broken(runs')
    requires AllPositions(runs) == AllPositions(runs')
    ensures runs == runs'
  {
    hide AllPositions, Positions, Proper, Broken;
    if runs == [] || runs' == [] {
      OnlyEmptyListsNothing(runs);
      OnlyEmptyListsNothing(runs');
    } else {
      var n, m := |runs| - 1, |runs'| - 1;
      LastPosition(runs);
      LastPosition(runs');
      LastRunNoLonger(runs, runs');
      LastRunNoLonger(runs', runs);
      assert runs[n] == runs'[m];
      FrontKeeps(runs);
      FrontKeeps(runs');
      SameFront(AllPositions(runs[..n]), AllPositions(runs'[..m]), Positions(runs[n]));
      RunsUnique(runs[..n], runs'[..m]);
      assert runs == runs[..n] + [runs[n]] && runs' == runs'[..m] + [runs'[m]];
    }
  }

  lemma FrontKeeps(runs: seq<Span>)
    requires Proper(runs) && Broken(runs) && runs != []
    ensures var n := |runs| - 1;
            && Proper(runs[..n]) && Broken(runs[..n]) && runs[n].first <= runs[n].last
            && AllPositions(runs) == AllPositions(runs[..n]) + Positions(runs[n])
  {
    AllPositionsLast(runs);
  }

  lemma SameFront(a: seq<int>, b: seq<int>, c: seq<int>)
    requires a + c == b + c
    ensures a == b
  {
    assert a == (a + c)[..|a|] && b == (b + c)[..|b|];
  }

  lemma OnlyEmptyListsNothing(spans: seq<Span>)
    requires Proper(spans)
    ensures AllPositions(spans) == [] <==> spans == []
  {
    if spans != [] {
      LastPosition(spans);
    }
  }

  lemma {:induction false} IncreasingUnique(p: seq<int>, q: seq<int>)
    requires Increasing(p) && Increasing(q) && forall x :: x in p <==> x in q
    ensures p == q
  {
    assert p != [] ==> p[0] in p;
    assert q != [] ==> q[0] in q;
    if p != [] && q != [] {
      var n, m := |p| - 1, |q| - 1;
      assert p[n] in q && q[m] in p;
      assert p[n] == q[m];
      forall x
        ensures x in p[..n] <==> x in q[..m]
      {
        assert x in p[..n] <==> x in p && x != p[n];
        assert x in q[..m] <==> x in q && x != q[m];
      }
      IncreasingUnique(p[..n], q[..m]);
    }
  }

  /** Separated spans are fixed by the positions they cover. */
  lemma SeparatedUnique(spans: seq<Span>, spans': seq<Span>)
    requires Separated(spans) && Separated(spans') && forall x :: Covers(spans, x) <==> Covers(spans', x)
    ensures spans == spans'
  {
    hide AllPositions, Covers;
    forall x
      ensures x in AllPositions(spans) <==> x in AllPositions(spans')
    {
      AllPositionsCovered(spans, x);
      AllPositionsCovered(spans', x);
    }
    SeparatedIncreases(spans);
    SeparatedIncreases(spans');
    IncreasingUnique(AllPositions(spans), AllPositions(spans'));
    RunsUnique(spans, spans');
  }

  // ---------------------------------------------------------------------
  // Widening to word boundaries
  // ---------------------------------------------------------------------

  const MAX_EXTEND: nat := 24

  predicate StartsBlank(text: string) {
    text != "" && text[0] in " \n\t\r"
  }

  predicate BlankAt(full: seq<int>, decode: seq<int> -> string, i: int)
    requires 0 <= i < |full|
  {
    StartsBlank(decode([full[i]]))
  }

  ghost predicate InText(full: seq<int>, s: Span) {
    0 <= s.first <= s.last < |full|
  }

  /** The nearest word start at or before `from`, but no more than the limit away. */
  ghost predicate WidensLeft(full: seq<int>, decode: seq<int> -> string, from: int, a: int)
    requires 0 <= a <= from < |full|
  {
    && from - a <= MAX_EXTEND
    && (forall x | a < x <= from :: !BlankAt(full, decode, x))
    && (a == 0 || from - a == MAX_EXTEND || BlankAt(full, decode, a))
  }

  /** The last position before the next word start, but no more than the limit away. */
  ghost predicate WidensRight(full: seq<int>, decode: seq<int> -> string, to: int, b: int)
    requires 0 <= to <= b < |full|
  {
    && b - to <= MAX_EXTEND
    && (forall x | to < x <= b :: !BlankAt(full, decode, x))
    && (b + 1 == |full| || b - to == MAX_EXTEND || BlankAt(full, decode, b + 1))
  }

  ghost predicate Widens(full: seq<int>, decode: seq<int> -> string, s: Span, w: Span) {
    && 0 <= w.first <= s.first <= s.last <= w.last < |full|
    && WidensLeft(full, decode, s.first, w.first) && WidensRight(full, decode, s.last, w.last)
  }

  /** The decoded texts seen so far, by position. */
  class TextCache {
    var texts: map<int, string>

    ghost predicate Valid(full: seq<int>, decode: seq<int> -> string)
      reads this
    {
      forall i | i in texts :: 0 <= i < |full| && texts[i] == decode([full[i]])
    }

    constructor ()
      ensures texts == map[]
    {
      texts := map[];
    }

    method Text(full: seq<int>, decode: seq<int> -> string, i: int) returns (t: string)
      requires 0 <= i < |full| && Valid(full, decode)
      modifies this
      ensures Valid(full, decode) && t == decode([full[i]])
      ensures texts == old(texts)[i := decode([full[i]])]
    {
      if i !in texts {
        texts := texts[i := decode([full[i]])];
      }
      t := texts[i];
    }
  }

  method ExpandRun(full: seq<int>, run: Span, decode: seq<int> -> string, cache: TextCache) returns (w: Span)
    requires InText(full, run) && cache.Valid(full, decode)
    modifies cache
    ensures cache.Valid(full, decode) && Widens(full, decode, run, w)
  {
    hide StartsBlank;
    var a, b := run.first, run.last;
    var steps := 0;
    while a > 0 && steps < MAX_EXTEND
      invariant cache.Valid(full, decode)
      invariant 0 <= a && steps == run.first - a <= MAX_EXTEND
      invariant forall x | a < x <= run.first :: !BlankAt(full, decode, x)
    {
      var cur := cache.Text(full, decode, a);
      if StartsBlank(cur) {
        break;
      }
      a := a - 1;
      steps := steps + 1;
    }
    assert WidensLeft(full, decode, run.first, a);
    hide WidensLeft;
    steps := 0;
    while b + 1 < |full| && steps < MAX_EXTEND
      invariant cache.Valid(full, decode)
      invariant b < |full| && steps == b - run.last <= MAX_EXTEND
      invariant forall x | run.last < x <= b :: !BlankAt(full, decode, x)
    {
      var next := cache.Text(full, decode, b + 1);
      if StartsBlank(next) {
        break;
      }
      b := b + 1;
      steps := steps + 1;
    }
    w := Span(a, b);
  }

  /** A word starts at a token whose text begins with a space, a line feed, a tab or a carriage return. */
  lemma BlankStarts(c: char, rest: string)
    ensures !StartsBlank("")
    ensures StartsBlank([c] + rest) <==> c == ' ' || c == '\n' || c == '\t' || c == '\r'
  {
    assert ([c] + rest)[0] == c;
  }

  /** A span grows by at most 24 tokens on each side, by fewer only up to a word or an end of the text. */
  lemma WideningLimit(full: seq<int>, decode: seq<int> -> string, s: Span, w: Span)
    requires Widens(full, decode, s, w)
    ensures s.first - 24 <= w.first <= s.first && s.last <= w.last <= s.last + 24
    ensures w.first == 0 || w.first == s.first - 24 || StartsBlank(decode([full[w.first]]))
    ensures w.last == |full| - 1 || w.last == s.last + 24 || StartsBlank(decode([full[w.last + 1]]))
    ensures forall x | w.first < x <= s.first || s.last < x <= w.last :: !StartsBlank(decode([full[x]]))
  {
    hide StartsBlank;
    forall x | w.first < x <= s.first || s.last < x <= w.last
      ensures !StartsBlank(decode([full[x]]))
    {
      assert !BlankAt(full, decode, x);
    }
  }

  /** The two conditions leave one choice. */
  lemma WideningUnique(full: seq<int>, decode: seq<int> -> string, s: Span, w: Span, w': Span)
    requires Widens(full, decode, s, w) && Widens(full, decode, s, w')
    ensures w == w'
  {
  }

  /** Widening keeps spans in order, so sorting them again changes nothing. */
  lemma WideningKeepsOrder(full: seq<int>, decode: seq<int> -> string, s: Span, t: Span, w: Span, x: Span)
    requires s.last < t.first && Widens(full, decode, s, w) && Widens(full, decode, t, x)
    ensures w.first <= x.first && w.last <= x.last
  {
  }

  // ---------------------------------------------------------------------
  // Merging
  // ---------------------------------------------------------------------

  predicate Precedes(s: Span, t: Span) {
    s.first < t.first || (s.first == t.first && s.last <= t.last)
  }

  ghost predicate Ordered(spans: seq<Span>) {
    forall i, j | 0 <= i < j < |spans| :: Precedes(spans[i], spans[j])
  }

  function Insert(s: Span, spans: seq<Span>): (r: seq<Span>)
    ensures multiset(r) == multiset(spans) + multiset{s}
    ensures |r| == |spans| + 1
    ensures forall t :: t in r <==> t == s || t in spans
  {
    if spans == [] || Precedes(s, spans[0]) then [s] + spans
    else
      assert spans == [spans[0]] + spans[1..];
      [spans[0]] + Insert(s, spans[1..])
  }

  lemma {:induction false} InsertOrders(s: Span, spans: seq<Span>)
    requires Ordered(spans)
    ensures Ordered(Insert(s, spans))
  {
    if spans != [] && !Precedes(s, spans[0]) {
      InsertOrders(s, spans[1..]);
      var rest := Insert(s, spans[1..]);
      forall j | 0 <= j < |rest|
        ensures Precedes(spans[0], rest[j])
      {
        assert rest[j] in rest;
      }
    }
  }

  function Sorted(spans: seq<Span>): (r: seq<Span>)
    ensures multiset(r) == multiset(spans)
    ensures |r| == |spans|
    ensures forall t :: t in r <==> t in spans
  {
    if spans == [] then []
    else
      assert spans == [spans[0]] + spans[1..];
      Insert(spans[0], Sorted(spans[1..]))
  }

  lemma {:induction false} SortedOrders(spans: seq<Span>)
    ensures Ordered(Sorted(spans))
  {
    if spans != [] {
      SortedOrders(spans[1..]);
      InsertOrders(spans[0], Sorted(spans[1..]));
    }
  }

  ghost predicate StartsSpan(spans: seq<Span>, x: int) {
    exists s :: s in spans && s.first == x
  }

  ghost predicate EndsSpan(spans: seq<Span>, x: int) {
    exists s :: s in spans && s.last == x
  }

  /** The ends of every merged span are ends of spans that went in. */
  ghost predicate EndsFrom(spans: seq<Span>, merged: seq<Span>) {
    forall s | s in merged :: StartsSpan(spans, s.first) && EndsSpan(spans, s.last)
  }

  ghost predicate SameCover(spans: seq<Span>, merged: seq<Span>) {
    forall x :: Covers(spans, x) <==> Covers(merged, x)
  }

  /** What the loop has made of the spans `done`. */
  ghost predicate Merged(done: seq<Span>, out: seq<Span>) {
    out != [] && Separated(out) && SameCover(done, out) && EndsFrom(done, out)
  }

  lemma EndsFromGrows(done: seq<Span>, out: seq<Span>, s: Span)
    requires EndsFrom(done, out)
    ensures EndsFrom(done + [s], out) && StartsSpan(done + [s], s.first) && EndsSpan(done + [s], s.last)
  {
    assert s in done + [s];
    forall t | t in out
      ensures StartsSpan(done + [s], t.first) && EndsSpan(done + [s], t.last)
    {
      var u :| u in done && u.first == t.first;
      var v :| v in done && v.last == t.last;
      assert u in done + [s] && v in done + [s];
    }
  }

  lemma ExtendLast(done: seq<Span>, s: Span, out: seq<Span>, p: Span, to: int)
    requires Merged(done, out) && s.first <= s.last && p == out[|out| - 1]
    requires (forall t | t in done :: t.first <= s.first) && s.first <= p.last + 1
    requires to == if p.last >= s.last then p.last else s.last
    ensures Merged(done + [s], out[..|out| - 1] + [Span(p.first, to)])
  {
    var n := |out| - 1;
    var q := Span(p.first, to);
    var out' := out[..n] + [q];
    ExtendEnds(done, s, out, p, to);
    hide EndsFrom;
    assert out == out[..n] + [p];
    forall x
      ensures Covers(done + [s], x) <==> Covers(out', x)
    {
      CoversSnoc(done, s, x);
      CoversSnoc(out[..n], p, x);
      CoversSnoc(out[..n], q, x);
    }
  }

  lemma ExtendEnds(done: seq<Span>, s: Span, out: seq<Span>, p: Span, to: int)
    requires out != [] && p == out[|out| - 1] && EndsFrom(done, out) && (to == p.last || to == s.last)
    ensures EndsFrom(done + [s], out[..|out| - 1] + [Span(p.first, to)])
  {
    EndsFromGrows(done, out, s);
    hide StartsSpan, EndsSpan;
    assert forall t | t in out[..|out| - 1] + [Span(p.first, to)] :: t in out || t == Span(p.first, to);
    assert p in out;
  }

  lemma AppendSpan(done: seq<Span>, s: Span, out: seq<Span>, p: Span)
    requires Merged(done, out) && s.first <= s.last && p == out[|out| - 1]
    requires s.first > p.last + 1
    ensures Merged(done + [s], out + [s])
  {
    EndsFromGrows(done, out, s);
    forall x
      ensures Covers(done + [s], x) <==> Covers(out + [s], x)
    {
      CoversSnoc(done, s, x);
      CoversSnoc(out, s, x);
    }
    hide Covers, StartsSpan, EndsSpan;
    assert forall t | t in out + [s] :: t in out || t == s;
  }

  lemma FirstMerged(sorted: seq<Span>)
    requires sorted != [] && Proper(sorted)
    ensures Merged(sorted[..1], [sorted[0]])
  {
    assert sorted[..1] == [sorted[0]];
    assert sorted[0] in [sorted[0]];
  }

  lemma OrderedSoFar(sorted: seq<Span>, n: nat)
    requires Ordered(sorted) && n < |sorted|
    ensures forall t | t in sorted[..n] :: t.first <= sorted[n].first
  {
  }

  lemma NonEmpty(done: seq<Span>, out: seq<Span>)
    requires Merged(done, out)
    ensures out != []
  {
  }

  /**
   Merging yields the one sequence of separated spans that covers the same positions, whatever
   the order and the overlaps of the spans that go in.
  */
  method MergeOverlapping(runs: seq<Span>) returns (out: seq<Span>)
    requires Proper(runs)
    ensures Separated(out) && SameCover(runs, out) && EndsFrom(runs, out)
  {
    if runs == [] {
      return [];
    }
    hide Sorted, Merged, Covers, Ordered, SameCover, EndsFrom, Separated;
    var sorted := Sorted(runs);
    SortedOrders(runs);
    out := [sorted[0]];
    FirstMerged(sorted);
    for n := 1 to |sorted|
      invariant Merged(sorted[..n], out)
    {
      var s := sorted[n];
      OrderedSoFar(sorted, n);
      assert sorted[..n + 1] == sorted[..n] + [s];
      NonEmpty(sorted[..n], out);
      var p := out[|out| - 1];
      if s.first <= p.last + 1 {
        var to := if p.last >= s.last then p.last else s.last;
        ExtendLast(sorted[..n], s, out, p, to);
        out := out[..|out| - 1] + [Span(p.first, to)];
      } else {
        AppendSpan(sorted[..n], s, out, p);
        out := out + [s];
      }
    }
    assert sorted[..|sorted|] == sorted;
    MergedSorted(runs, sorted, out);
  }

  lemma MergedSorted(runs: seq<Span>, sorted: seq<Span>, out: seq<Span>)
    requires Merged(sorted, out) && forall t :: t in sorted <==> t in runs
    ensures Separated(out)
    ensures SameCover(runs, out) && EndsFrom(runs, out)
  {
    forall x
      ensures Covers(runs, x) <==> Covers(sorted, x)
    {
    }
  }

  // ---------------------------------------------------------------------
  // The pipeline
  // ---------------------------------------------------------------------

  ghost function Gather(full: seq<int>, positions: seq<int>): (ids: seq<int>)
    requires Within(positions, |full|)
    ensures |ids| == |positions|
  {
    seq(|positions|, i requires 0 <= i < |positions| => full[positions[i]])
  }

  lemma GatherAppend(full: seq<int>, p: seq<int>, q: seq<int>)
    requires Within(p, |full|) && Within(q, |full|)
    ensures Within(p + q, |full|) && Gather(full, p + q) == Gather(full, p) + Gather(full, q)
  {
  }

  lemma GatherSpan(full: seq<int>, s: Span)
    requires InText(full, s)
    ensures Within(Positions(s), |full|)
    ensures Gather(full, Positions(s)) == full[s.first..s.last + 1]
  {
  }

  lemma GatherIsSubsequence(full: seq<int>, p: seq<int>)
    requires Within(p, |full|) && Increasing(p)
    ensures Subsequence(Gather(full, p), full)
  {
    IsSubsequence(full, Gather(full, p), p);
  }

  function Rank(p: seq<int>, x: int): (r: nat)
    requires x in p
    ensures r < |p| && p[r] == x
  {
    if p[0] == x then 0 else 1 + Rank(p[1..], x)
  }

  /** What is picked at some of the positions is a subsequence of what is picked at all of them. */
  lemma FewerPositions(full: seq<int>, kept: seq<int>, idx: seq<int>, p: seq<int>)
    requires Embeds(full, kept, idx) && Within(p, |full|) && Increasing(p)
    requires forall x | x in idx :: x in p
    ensures Subsequence(kept, Gather(full, p))
  {
    var ranks := seq(|idx|, i requires 0 <= i < |idx| => Rank(p, idx[i]));
    forall i, j | 0 <= i < j < |ranks|
      ensures ranks[i] < ranks[j]
    {
      assert p[ranks[i]] == idx[i] < idx[j] == p[ranks[j]];
    }
    IsSubsequence(Gather(full, p), kept, ranks);
  }

  ghost predicate AllInText(full: seq<int>, spans: seq<Span>) {
    forall s | s in spans :: InText(full, s)
  }

  /** Every span is the widening of the run at the same place. */
  ghost predicate AllWidened(full: seq<int>, decode: seq<int> -> string, runs: seq<Span>, spans: seq<Span>) {
    |spans| <= |runs| && forall i | 0 <= i < |spans| :: Widens(full, decode, runs[i], spans[i])
  }

  ghost predicate Near(idx: seq<int>, x: int) {
    exists y :: y in idx && y - MAX_EXTEND <= x <= y + MAX_EXTEND
  }

  /** A span starts at a word, at the start of the text, or as far left as widening may go. */
  ghost predicate StartsWell(full: seq<int>, decode: seq<int> -> string, idx: seq<int>, a: int) {
    0 <= a < |full| && (a == 0 || BlankAt(full, decode, a) || a + MAX_EXTEND in idx)
  }

  /** A span ends before a word, at the end of the text, or as far right as widening may go. */
  ghost predicate EndsWell(full: seq<int>, decode: seq<int> -> string, idx: seq<int>, b: int) {
    0 <= b < |full| && (b + 1 == |full| || BlankAt(full, decode, b + 1) || b - MAX_EXTEND in idx)
  }

  /** What the pipeline promises of the spans it recovers for the positions `idx`. */
  ghost predicate Recovers(full: seq<int>, decode: seq<int> -> string, idx: seq<int>, spans: seq<Span>) {
    && Separated(spans) && AllInText(full, spans)
    && (forall x | x in idx :: Covers(spans, x))
    && (forall x | Covers(spans, x) :: Near(idx, x))
    && (forall s | s in spans :: StartsWell(full, decode, idx, s.first) && EndsWell(full, decode, idx, s.last))
  }

  /** The runs cover exactly the positions `idx`. */
  ghost predicate RunsOf(idx: seq<int>, runs: seq<Span>) {
    forall x :: x in idx <==> Covers(runs, x)
  }

  ghost predicate EndsIn(idx: seq<int>, runs: seq<Span>) {
    forall i | 0 <= i < |runs| :: runs[i].first in idx && runs[i].last in idx
  }

  lemma RunsCover(idx: seq<int>, runs: seq<Span>)
    requires Proper(runs) && AllPositions(runs) == idx
    ensures RunsOf(idx, runs)
  {
    hide AllPositions;
    forall x
      ensures x in idx <==> Covers(runs, x)
    {
      AllPositionsCovered(runs, x);
    }
  }

  lemma RunEnds(idx: seq<int>, runs: seq<Span>)
    requires Proper(runs) && RunsOf(idx, runs)
    ensures EndsIn(idx, runs)
  {
    forall i | 0 <= i < |runs|
      ensures runs[i].first in idx && runs[i].last in idx
    {
      SpanCovered(runs, i, runs[i].first);
      SpanCovered(runs, i, runs[i].last);
      hide Covers;
    }
  }

  lemma SpanCovered(runs: seq<Span>, i: nat, x: int)
    requires i < |runs| && InSpan(runs[i], x)
    ensures Covers(runs, x)
  {
  }

  lemma RunsWithin(full: seq<int>, idx: seq<int>, runs: seq<Span>)
    requires Within(idx, |full|) && Proper(runs) && EndsIn(idx, runs)
    ensures AllInText(full, runs)
  {
    forall r | r in runs
      ensures InText(full, r)
    {
      var i :| 0 <= i < |runs| && runs[i] == r;
      var a :| 0 <= a < |idx| && idx[a] == r.first;
      var b :| 0 <= b < |idx| && idx[b] == r.last;
    }
  }

  lemma WidenedCovers(
    full: seq<int>, decode: seq<int> -> string, idx: seq<int>, runs: seq<Span>, wide: seq<Span>, x: int)
    requires |wide| == |runs| && AllWidened(full, decode, runs, wide)
    requires RunsOf(idx, runs) && x in idx
    ensures Covers(wide, x)
  {
    hide WidensLeft, WidensRight;
    assert Covers(runs, x);
    hide Covers, RunsOf;
    var i := CoveringSpan(runs, x);
    assert Widens(full, decode, runs[i], wide[i]);
    SpanCovered(wide, i, x);
  }

  lemma CoveredNear(full: seq<int>, decode: seq<int> -> string, idx: seq<int>, runs: seq<Span>, wide: seq<Span>, x: int)
    requires |wide| == |runs| && AllWidened(full, decode, runs, wide)
    requires RunsOf(idx, runs) && EndsIn(idx, runs) && Covers(wide, x)
    ensures Near(idx, x)
  {
    hide WidensLeft, WidensRight, Near, Covers, RunsOf;
    var i := CoveringSpan(wide, x);
    assert Widens(full, decode, runs[i], wide[i]);
    if InSpan(runs[i], x) {
      SpanCovered(runs, i, x);
      CoveredIsKept(idx, runs, x);
    }
    WidenedNear(full, decode, idx, runs[i], wide[i], x);
  }

  lemma CoveringSpan(spans: seq<Span>, x: int) returns (i: nat)
    requires Covers(spans, x)
    ensures i < |spans| && InSpan(spans[i], x)
  {
    var s :| s in spans && InSpan(s, x);
    i :| 0 <= i < |spans| && spans[i] == s;
  }

  lemma CoveredIsKept(idx: seq<int>, runs: seq<Span>, x: int)
    requires RunsOf(idx, runs) && Covers(runs, x)
    ensures x in idx
  {
  }

  lemma WidenedNear(full: seq<int>, decode: seq<int> -> string, idx: seq<int>, r: Span, w: Span, x: int)
    requires Widens(full, decode, r, w) && InSpan(w, x)
    requires r.first in idx && r.last in idx && (InSpan(r, x) ==> x in idx)
    ensures Near(idx, x)
  {
    if x < r.first {
      assert r.first - MAX_EXTEND <= x <= r.first + MAX_EXTEND;
    } else if x > r.last {
      assert r.last - MAX_EXTEND <= x <= r.last + MAX_EXTEND;
    }
  }

  lemma WidenedEnds(full: seq<int>, decode: seq<int> -> string, idx: seq<int>, runs: seq<Span>, wide: seq<Span>, i: nat)
    requires |wide| == |runs| && AllWidened(full, decode, runs, wide) && i < |wide|
    requires EndsIn(idx, runs)
    ensures StartsWell(full, decode, idx, wide[i].first) && EndsWell(full, decode, idx, wide[i].last)
  {
    assert Widens(full, decode, runs[i], wide[i]);
  }

  /** Grouping, widening and merging together recover the positions. */
  lemma PipelineRecovers(
    full: seq<int>, decode: seq<int> -> string, idx: seq<int>, runs: seq<Span>, wide: seq<Span>, merged: seq<Span>)
    requires RunsOf(idx, runs) && EndsIn(idx, runs)
    requires |wide| == |runs| && AllWidened(full, decode, runs, wide)
    requires Separated(merged) && SameCover(wide, merged) && EndsFrom(wide, merged)
    ensures Recovers(full, decode, idx, merged)
  {
    hide Covers, AllWidened, Near, StartsWell, EndsWell, RunsOf, EndsIn;
    forall x | x in idx
      ensures Covers(merged, x)
    {
      WidenedCovers(full, decode, idx, runs, wide, x);
    }
    forall x | Covers(merged, x)
      ensures Near(idx, x)
    {
      CoveredNear(full, decode, idx, runs, wide, x);
    }
    forall s | s in merged
      ensures StartsWell(full, decode, idx, s.first) && EndsWell(full, decode, idx, s.last) && InText(full, s)
    {
      MergedEnds(full, decode, idx, runs, wide, merged, s);
    }
  }

  lemma MergedEnds(
    full: seq<int>, decode: seq<int> -> string, idx: seq<int>, runs: seq<Span>, wide: seq<Span>,
    merged: seq<Span>, s: Span)
    requires |wide| == |runs| && AllWidened(full, decode, runs, wide) && EndsIn(idx, runs)
    requires s in merged && s.first <= s.last && EndsFrom(wide, merged)
    ensures StartsWell(full, decode, idx, s.first) && EndsWell(full, decode, idx, s.last) && InText(full, s)
  {
    hide AllWidened, EndsIn, StartsWell, EndsWell;
    var u :| u in wide && u.first == s.first;
    var v :| v in wide && v.last == s.last;
    var i :| 0 <= i < |wide| && wide[i] == u;
    var j :| 0 <= j < |wide| && wide[j] == v;
    WidenedEnds(full, decode, idx, runs, wide, i);
    WidenedEnds(full, decode, idx, runs, wide, j);
    EndsInText(full, decode, idx, s);
  }

  lemma EndsInText(full: seq<int>, decode: seq<int> -> string, idx: seq<int>, s: Span)
    requires StartsWell(full, decode, idx, s.first) && EndsWell(full, decode, idx, s.last) && s.first <= s.last
    ensures InText(full, s)
  {
  }

  lemma RecoveredWithin(full: seq<int>, spans: seq<Span>)
    requires Proper(spans) && AllInText(full, spans)
    ensures Within(AllPositions(spans), |full|)
  {
    hide AllPositions;
    var p := AllPositions(spans);
    forall i | 0 <= i < |p|
      ensures 0 <= p[i] < |full|
    {
      assert p[i] in p;
      AllPositionsCovered(spans, p[i]);
      var s :| s in spans && InSpan(s, p[i]);
    }
  }

  /** The ids that the recovered spans select contain the kept ids and come from the text, in order. */
  lemma RecoveredIds(full: seq<int>, decode: seq<int> -> string, kept: seq<int>, idx: seq<int>, spans: seq<Span>)
    requires Embeds(full, kept, idx) && Recovers(full, decode, idx, spans)
    ensures Within(AllPositions(spans), |full|)
    ensures Subsequence(kept, Gather(full, AllPositions(spans)))
    ensures Subsequence(Gather(full, AllPositions(spans)), full)
  {
    hide AllPositions, Covers, Near, StartsWell, EndsWell, Subsequence, Gather, Embeds;
    var p := AllPositions(spans);
    RecoveredWithin(full, spans);
    SeparatedIncreases(spans);
    forall x | x in idx
      ensures x in p
    {
      AllPositionsCovered(spans, x);
    }
    FewerPositions(full, kept, idx, p);
    GatherIsSubsequence(full, p);
  }

  method ExpandRuns(full: seq<int>, runs: seq<Span>, decode: seq<int> -> string) returns (wide: seq<Span>)
    requires forall r | r in runs :: InText(full, r)
    ensures |wide| == |runs| && AllWidened(full, decode, runs, wide)
  {
    hide Widens;
    var cache := new TextCache();
    wide := [];
    for n := 0 to |runs|
      invariant cache.Valid(full, decode) && fresh(cache)
      invariant |wide| == n && AllWidened(full, decode, runs, wide)
    {
      assert runs[n] in runs;
      var w := ExpandRun(full, runs[n], decode, cache);
      wide := wide + [w];
    }
  }

  method IdsOf(full: seq<int>, spans: seq<Span>) returns (ids: seq<int>)
    requires Separated(spans) && AllInText(full, spans)
    ensures Within(AllPositions(spans), |full|) && ids == Gather(full, AllPositions(spans))
  {
    hide Gather, Positions, AllPositions;
    EmptyPositions();
    assert spans[..0] == [];
    ids := [];
    assert Within([], |full|) && Gather(full, []) == [] by { GatherNothing(full); }
    for n := 0 to |spans|
      invariant Proper(spans[..n]) && Within(AllPositions(spans[..n]), |full|)
      invariant ids == Gather(full, AllPositions(spans[..n]))
    {
      var s := spans[n];
      assert s in spans;
      GatherSpan(full, s);
      assert spans[..n + 1] == spans[..n] + [s];
      AllPositionsSnoc(spans[..n], s);
      GatherAppend(full, AllPositions(spans[..n]), Positions(s));
      ids := ids + full[s.first..s.last + 1];
    }
    assert spans[..|spans|] == spans;
  }

  lemma GatherNothing(full: seq<int>)
    ensures Within([], |full|) && Gather(full, []) == []
  {
  }

  /** The decoded text and its ids under the target tokenizer. */
  datatype Compressed = Compressed(text: string, targetIds: seq<int>)

  /** The positions grouped into runs, each run widened, and the widened runs merged. */
  ghost predicate Stages(
    full: seq<int>, decode: seq<int> -> string, idx: seq<int>, runs: seq<Span>, wide: seq<Span>, spans: seq<Span>)
  {
    && Proper(runs) && Broken(runs) && AllPositions(runs) == idx
    && |wide| == |runs| && AllWidened(full, decode, runs, wide)
    && Separated(spans) && SameCover(wide, spans)
  }

  /** The stages leave no choice. */
  lemma StagesUnique(
    full: seq<int>, decode: seq<int> -> string, idx: seq<int>, runs: seq<Span>, wide: seq<Span>, spans: seq<Span>,
    runs': seq<Span>, wide': seq<Span>, spans': seq<Span>)
    requires Stages(full, decode, idx, runs, wide, spans)
    requires Stages(full, decode, idx, runs', wide', spans')
    ensures runs == runs' && wide == wide' && spans == spans'
  {
    hide AllPositions, Covers, Widens;
    RunsUnique(runs, runs');
    forall i | 0 <= i < |wide|
      ensures wide[i] == wide'[i]
    {
      assert Widens(full, decode, runs[i], wide[i]) && Widens(full, decode, runs[i], wide'[i]);
      WideningUnique(full, decode, runs[i], wide[i], wide'[i]);
    }
    assert wide == wide';
    SeparatedUnique(spans, spans');
  }

  lemma LeftmostUnique(full: seq<int>, kept: seq<int>, idx: seq<int>, idx': seq<int>)
    requires Leftmost(full, kept, idx) && Leftmost(full, kept, idx')
    ensures idx == idx'
  {
    assert NoLater(idx, idx') && NoLater(idx', idx);
  }

  /**
   Fails exactly when the compressed ids are no subsequence of the full ones. Otherwise `idx` is
   where they first came from, and `runs`, `wide` and `spans` are the stages, which leave no choice.
   The ids in the spans, decoded and encoded again, are the result: they contain the compressed ids
   in order and are themselves found in order in the full ids.
  */
  method CrossTokCompressed(
    full: seq<int>, compressed: seq<int>, decode: seq<int> -> string, encode: string -> seq<int>)
    returns (
      r: Result<Compressed>, ghost idx: seq<int>, ghost runs: seq<Span>, ghost wide: seq<Span>, ghost spans: seq<Span>)
    ensures r.Ok? <==> Subsequence(compressed, full)
    ensures r.Ok? ==>
              && Leftmost(full, compressed, idx)
              && Stages(full, decode, idx, runs, wide, spans)
              && Recovers(full, decode, idx, spans)
              && Within(AllPositions(spans), |full|)
              && var ids := Gather(full, AllPositions(spans));
                 && Subsequence(compressed, ids) && Subsequence(ids, full)
                 && r.value == Compressed(decode(ids), encode(decode(ids)))
  {
    hide Subsequence, AllPositions, NoLater, AllWidened, SameCover, EndsFrom, Gather, RunsOf, EndsIn, Broken;
    idx, runs, wide, spans := [], [], [], [];
    var kept := RecoverKeptIndices(full, compressed);
    if kept.NotSubsequence? {
      r := NotSubsequence(kept.matched);
      return;
    }
    idx := kept.value;
    var grouped := GroupRuns(kept.value);
    runs := grouped;
    RunsCover(idx, runs);
    RunEnds(idx, runs);
    RunsWithin(full, idx, runs);
    var expanded := ExpandRuns(full, grouped, decode);
    wide := expanded;
    AllWidenedProper(full, decode, runs, wide);
    var merged := MergeOverlapping(expanded);
    spans := merged;
    PipelineRecovers(full, decode, idx, runs, wide, spans);
    RecoveredIds(full, decode, compressed, idx, spans);
    hide Embeds;
    var ids := IdsOf(full, merged);
    var text := decode(ids);
    r := Ok(Compressed(text, encode(text)));
  }

  lemma AllWidenedProper(full: seq<int>, decode: seq<int> -> string, runs: seq<Span>, wide: seq<Span>)
    requires AllWidened(full, decode, runs, wide)
    ensures Proper(wide)
  {
  }
}
