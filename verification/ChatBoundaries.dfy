/**
 The scanner that finds the places where a chat prompt may be cut: right after the start
 marker of a role that follows the end of a message.
*/
module ChatBoundaries {

  import opened Wrappers
  import opened Sequences

  type Marker = seq<int>

  /** Opens the system role; closes a message (any of these); opens the next role (any of these). */
  datatype Markers = Markers(sysRolePrefix: Marker, endMsgSeqs: seq<Marker>, nextRoleStarts: seq<Marker>)

  /** Separator tokens allowed between a message end and the next role start. */
  const MAX_SEPARATORS := 4

  /** Resolved role starts are never empty. */
  ghost predicate Usable(m: Markers) {
    forall j | 0 <= j < |m.nextRoleStarts| :: m.nextRoleStarts[j] != []
  }

  /** Marker `s` stands at `p`; an empty one stands nowhere. */
  predicate SeqAt(ids: seq<int>, p: int, s: Marker) {
    s != [] && 0 <= p && p + |s| <= |ids| && ids[p..p + |s|] == s
  }

  // ---------------------------------------------------------------------
  // Reference scan: positions in order, and at each position markers in order
  // ---------------------------------------------------------------------

  /** The first marker of the list that stands at `p`, or the length of the list. */
  function MarkerAt(ids: seq<int>, seqs: seq<Marker>, p: int): (j: nat)
    ensures j <= |seqs| && (j < |seqs| ==> SeqAt(ids, p, seqs[j]))
    ensures forall k | 0 <= k < j :: !SeqAt(ids, p, seqs[k])
  {
    if seqs == [] || SeqAt(ids, p, seqs[0]) then 0 else 1 + MarkerAt(ids, seqs[1..], p)
  }

  datatype Match = Match(at: nat, which: nat)

  /** `m` is a match in [lo, hi), and every other one there comes later or later in the list. */
  ghost predicate Earliest(ids: seq<int>, seqs: seq<Marker>, lo: nat, hi: nat, m: Match) {
    && lo <= m.at < hi && m.which < |seqs| && SeqAt(ids, m.at, seqs[m.which])
    && forall p, k | lo <= p < hi && 0 <= k < |seqs| && SeqAt(ids, p, seqs[k]) ::
      m.at < p || (m.at == p && m.which <= k)
  }

  function FirstMatch(ids: seq<int>, seqs: seq<Marker>, lo: nat, hi: nat): (r: Option<Match>)
    ensures r.Some? ==> Earliest(ids, seqs, lo, hi, r.value)
    ensures r == None ==> forall p, k | lo <= p < hi && 0 <= k < |seqs| :: !SeqAt(ids, p, seqs[k])
    decreases hi - lo
  {
    if lo >= hi then None
    else
      var j := MarkerAt(ids, seqs, lo);
      if j < |seqs| then Some(Match(lo, j)) else FirstMatch(ids, seqs, lo + 1, hi)
  }

  /** The cut that follows `cursor`: past a message end and the next role start after it. */
  function NextCut(ids: seq<int>, m: Markers, cursor: nat): (r: Option<nat>)
    ensures r.Some? ==> cursor < r.value <= |ids|
  {
    match FirstMatch(ids, m.endMsgSeqs, cursor, |ids|)
    case None => None
    case Some(end) =>
      var afterEnd := end.at + |m.endMsgSeqs[end.which]|;
      match FirstMatch(ids, m.nextRoleStarts, afterEnd, afterEnd + MAX_SEPARATORS + 1)
      case None => None
      case Some(start) => Some(start.at + |m.nextRoleStarts[start.which]|)
  }

  function CutsFrom(ids: seq<int>, m: Markers, cursor: nat): (cuts: seq<nat>)
    ensures forall i | 0 <= i < |cuts| :: cursor < cuts[i] <= |ids|
    ensures Increasing(cuts)
    decreases |ids| - cursor
  {
    match NextCut(ids, m, cursor)
    case None => []
    case Some(cut) => [cut] + CutsFrom(ids, m, cut)
  }

  /** All cuts of a prompt, in strictly ascending order. */
  function Cuts(ids: seq<int>, m: Markers): (cuts: seq<nat>)
    ensures forall i | 0 <= i < |cuts| :: 0 < cuts[i] <= |ids|
    ensures Increasing(cuts)
  {
    match FirstMatch(ids, [m.sysRolePrefix], 0, |ids|)
    case None => []
    case Some(sys) => CutsFrom(ids, m, sys.at + |m.sysRolePrefix|)
  }

  // ---------------------------------------------------------------------
  // The scanner's loops
  // ---------------------------------------------------------------------

  method FindFirstSeq(ids: seq<int>, s: Marker, start: nat) returns (at: int)
    ensures at == -1 ==> forall p | start <= p :: !SeqAt(ids, p, s)
    ensures at != -1 ==> start <= at && SeqAt(ids, at, s) && forall p | start <= p < at :: !SeqAt(ids, p, s)
  {
    if s == [] {
      return -1;
    }
    var i := start;
    while i + |s| <= |ids|
      invariant start <= i && forall p | start <= p < i :: !SeqAt(ids, p, s)
      decreases |ids| - i
    {
      if ids[i] == s[0] && ids[i..i + |s|] == s {
        return i;
      }
      assert ids[i] != s[0] ==> ids[i..i + |s|][0] != s[0];
      i := i + 1;
    }
    at := -1;
  }

  /** Looks for each marker in turn and keeps the earliest; the first one in the list wins a tie. */
  method FindFirstSeqAny(ids: seq<int>, seqs: seq<Marker>, start: nat) returns (best: Option<Match>)
    ensures best == FirstMatch(ids, seqs, start, |ids|)
  {
    best := None;
    for k := 0 to |seqs|
      invariant best == None ==> forall p, j | start <= p && 0 <= j < k :: !SeqAt(ids, p, seqs[j])
      invariant best.Some? ==> best.value.which < k && Earliest(ids, seqs[..k], start, |ids|, best.value)
    {
      var at := FindFirstSeq(ids, seqs[k], start);
      if at >= 0 && (best == None || at < best.value.at) {
        best := Some(Match(at, k));
      }
    }
    assert seqs[..|seqs|] == seqs;
  }

  /** The end of the system header, or -1. */
  method FindPrefixBoundaryMarkers(ids: seq<int>, m: Markers) returns (boundary: int)
    requires Usable(m)
    ensures boundary == if Cuts(ids, m) == [] then -1 else Cuts(ids, m)[0]
  {
    hide NextCut, FirstMatch, MarkerAt;
    var sysIdx := FindFirstSeq(ids, m.sysRolePrefix, 0);
    if sysIdx < 0 {
      return -1;
    }
    SoleMatch(ids, m.sysRolePrefix, sysIdx);
    hide SeqAt;
    var cut := FindNextCut(ids, m, sysIdx + |m.sysRolePrefix|);
    boundary := if cut == None then -1 else cut.value;
  }

  method FindNextCut(ids: seq<int>, m: Markers, cursor: nat) returns (cut: Option<nat>)
    requires Usable(m)
    ensures cut == NextCut(ids, m, cursor)
  {
    var end := FindFirstSeqAny(ids, m.endMsgSeqs, cursor);
    if end == None {
      return None;
    }
    var afterEnd := end.value.at + |m.endMsgSeqs[end.value.which]|;
    for skip := 0 to MAX_SEPARATORS + 1
      invariant forall p, k | afterEnd <= p < afterEnd + skip && 0 <= k < |m.nextRoleStarts| ::
        !SeqAt(ids, p, m.nextRoleStarts[k])
    {
      var probe := afterEnd + skip;
      for k := 0 to |m.nextRoleStarts|
        invariant forall j | 0 <= j < k :: !SeqAt(ids, probe, m.nextRoleStarts[j])
      {
        if SeqAt(ids, probe, m.nextRoleStarts[k]) {
          return Some(probe + |m.nextRoleStarts[k]|);
        }
      }
    }
    cut := None;
  }

  method FindAllBoundariesMarkers(ids: seq<int>, m: Markers) returns (out: seq<nat>)
    requires Usable(m)
    ensures out == Cuts(ids, m)
  {
    hide NextCut, FirstMatch, MarkerAt;
    out := [];
    var sysIdx := FindFirstSeq(ids, m.sysRolePrefix, 0);
    if sysIdx < 0 {
      return;
    }
    SoleMatch(ids, m.sysRolePrefix, sysIdx);
    hide SeqAt;
    var cursor := sysIdx + |m.sysRolePrefix|;
    while true
      invariant out + CutsFrom(ids, m, cursor) == Cuts(ids, m)
      decreases |ids| - cursor
    {
      var cut := FindNextCut(ids, m, cursor);
      if cut == None {
        break;
      }
      out := out + [cut.value];
      cursor := cut.value;
    }
  }

  lemma SoleMatch(ids: seq<int>, s: Marker, at: nat)
    requires s != [] && SeqAt(ids, at, s) && forall p | 0 <= p < at :: !SeqAt(ids, p, s)
    ensures FirstMatch(ids, [s], 0, |ids|) == Some(Match(at, 0))
  {
  }

  // ---------------------------------------------------------------------
  // Stability
  // ---------------------------------------------------------------------

  /** No marker of the list occurs inside another one before its last token. */
  ghost predicate NoneInside(seqs: seq<Marker>) {
    forall j, k, d | 0 <= j < |seqs| && 0 <= k < |seqs| && 0 <= d && d + |seqs[j]| < |seqs[k]| ::
      !SeqAt(seqs[k], d, seqs[j])
  }

  ghost predicate Apart(m: Markers) {
    NoneInside(m.endMsgSeqs) && NoneInside(m.nextRoleStarts)
  }

  /** More prompt text only adds cuts at the end. */
  ghost predicate PrefixStable(m: Markers) {
    forall ids, ids' | ids <= ids' :: Cuts(ids, m) <= Cuts(ids', m)
  }

  lemma SameLengthIsApart(m: Markers, e: nat, n: nat)
    requires forall j | 0 <= j < |m.endMsgSeqs| :: |m.endMsgSeqs[j]| == e
    requires forall j | 0 <= j < |m.nextRoleStarts| :: |m.nextRoleStarts[j]| == n
    ensures Apart(m)
  {
  }

  lemma SeqAtInPrefix(ids: seq<int>, ids': seq<int>, p: int, s: Marker)
    requires ids <= ids'
    ensures SeqAt(ids, p, s) <==> SeqAt(ids', p, s) && p + |s| <= |ids|
  {
    if 0 <= p && p + |s| <= |ids| {
      assert ids[p..p + |s|] == ids'[p..p + |s|];
    }
  }

  lemma SeqAtInside(ids: seq<int>, p: nat, s: Marker, at: nat, t: Marker)
    requires SeqAt(ids, p, s) && SeqAt(ids, at, t) && p <= at && at + |t| <= p + |s|
    ensures SeqAt(s, at - p, t)
  {
    var d := at - p;
    forall i | 0 <= i < |t|
      ensures s[d + i] == t[i]
    {
      assert ids[p..p + |s|][d + i] == ids[at..at + |t|][i];
    }
  }

  lemma FirstMatchIs(ids: seq<int>, seqs: seq<Marker>, lo: nat, hi: nat, m: Match)
    requires Earliest(ids, seqs, lo, hi, m)
    ensures FirstMatch(ids, seqs, lo, hi) == Some(m)
  {
    hide SeqAt, FirstMatch;
    var r := FirstMatch(ids, seqs, lo, hi);
    assert r.Some?;
    assert SeqAt(ids, r.value.at, seqs[r.value.which]);
  }

  /**
   A first match survives more text: an earlier one that only the longer text completes
   would run over the end of the shorter text, and so contain the match found there.
  */
  lemma FirstMatchStable(ids: seq<int>, ids': seq<int>, seqs: seq<Marker>, lo: nat, hi: nat, hi': nat, m: Match)
    requires ids <= ids' && hi <= hi' && NoneInside(seqs)
    requires FirstMatch(ids, seqs, lo, hi) == Some(m)
    ensures FirstMatch(ids', seqs, lo, hi') == Some(m)
  {
    hide SeqAt, FirstMatch;
    SeqAtInPrefix(ids, ids', m.at, seqs[m.which]);
    forall p, k | lo <= p < hi' && 0 <= k < |seqs| && SeqAt(ids', p, seqs[k])
      ensures m.at < p || (m.at == p && m.which <= k)
    {
      SeqAtInPrefix(ids, ids', p, seqs[k]);
      if p <= m.at && m.at + |seqs[m.which]| < p + |seqs[k]| {
        SeqAtInside(ids', p, seqs[k], m.at, seqs[m.which]);
      }
    }
    FirstMatchIs(ids', seqs, lo, hi', m);
  }

  /** A first match is found as well in any shorter text that still holds it. */
  lemma FirstMatchRestricts(ids: seq<int>, seqs: seq<Marker>, lo: nat, hi: nat, b: nat, hi': nat, m: Match)
    requires FirstMatch(ids, seqs, lo, hi) == Some(m)
    requires m.at + |seqs[m.which]| <= b <= |ids| && m.at < hi' <= hi
    ensures FirstMatch(ids[..b], seqs, lo, hi') == Some(m)
  {
    hide SeqAt, FirstMatch;
    SeqAtInPrefix(ids[..b], ids, m.at, seqs[m.which]);
    forall p, k | lo <= p < hi' && 0 <= k < |seqs| && SeqAt(ids[..b], p, seqs[k])
      ensures m.at < p || (m.at == p && m.which <= k)
    {
      SeqAtInPrefix(ids[..b], ids, p, seqs[k]);
    }
    FirstMatchIs(ids[..b], seqs, lo, hi', m);
  }

  lemma NextCutStable(ids: seq<int>, ids': seq<int>, m: Markers, cursor: nat)
    requires Apart(m) && ids <= ids' && NextCut(ids, m, cursor).Some?
    ensures NextCut(ids', m, cursor) == NextCut(ids, m, cursor)
  {
    hide SeqAt, FirstMatch;
    var end := FirstMatch(ids, m.endMsgSeqs, cursor, |ids|).value;
    FirstMatchStable(ids, ids', m.endMsgSeqs, cursor, |ids|, |ids'|, end);
    var afterEnd := end.at + |m.endMsgSeqs[end.which]|;
    var hi := afterEnd + MAX_SEPARATORS + 1;
    var start := FirstMatch(ids, m.nextRoleStarts, afterEnd, hi).value;
    FirstMatchStable(ids, ids', m.nextRoleStarts, afterEnd, hi, hi, start);
  }

  lemma NextCutRestricts(ids: seq<int>, m: Markers, cursor: nat, b: nat)
    requires NextCut(ids, m, cursor).Some? && NextCut(ids, m, cursor).value <= b <= |ids|
    ensures NextCut(ids[..b], m, cursor) == NextCut(ids, m, cursor)
  {
    hide FirstMatch;
    var end := FirstMatch(ids, m.endMsgSeqs, cursor, |ids|).value;
    var afterEnd := end.at + |m.endMsgSeqs[end.which]|;
    var hi := afterEnd + MAX_SEPARATORS + 1;
    var start := FirstMatch(ids, m.nextRoleStarts, afterEnd, hi).value;
    FirstMatchRestricts(ids, m.endMsgSeqs, cursor, |ids|, b, b, end);
    FirstMatchRestricts(ids, m.nextRoleStarts, afterEnd, hi, b, hi, start);
  }

  lemma {:induction false} CutsFromStable(ids: seq<int>, ids': seq<int>, m: Markers, cursor: nat)
    requires Apart(m) && ids <= ids'
    ensures CutsFrom(ids, m, cursor) <= CutsFrom(ids', m, cursor)
    decreases |ids| - cursor
  {
    hide NextCut;
    var next := NextCut(ids, m, cursor);
    if next.Some? {
      NextCutStable(ids, ids', m, cursor);
      CutsFromStable(ids, ids', m, next.value);
    }
  }

  /** Markers of which none stands inside another keep their cuts as the prompt grows. */
  lemma CutsStable(ids: seq<int>, ids': seq<int>, m: Markers)
    requires Apart(m) && ids <= ids'
    ensures Cuts(ids, m) <= Cuts(ids', m)
  {
    hide SeqAt, FirstMatch, CutsFrom, Earliest;
    var sys := FirstMatch(ids, [m.sysRolePrefix], 0, |ids|);
    if sys.Some? {
      FirstMatchStable(ids, ids', [m.sysRolePrefix], 0, |ids|, |ids'|, sys.value);
      CutsFromStable(ids, ids', m, sys.value.at + |m.sysRolePrefix|);
    }
  }

  lemma {:induction false} CutsFromRestrict(ids: seq<int>, m: Markers, cursor: nat, i: nat)
    requires i < |CutsFrom(ids, m, cursor)|
    ensures
      var cuts := CutsFrom(ids, m, cursor);
      CutsFrom(ids[..cuts[i]], m, cursor) == cuts[..i + 1]
    decreases i
  {
    hide NextCut;
    var cuts, cut := CutsFrom(ids, m, cursor), NextCut(ids, m, cursor).value;
    assert cut == cuts[0] <= cuts[i];
    var short := ids[..cuts[i]];
    NextCutRestricts(ids, m, cursor, cuts[i]);
    if i == 0 {
      NoCutAtEnd(short, m);
    } else {
      CutsFromRestrict(ids, m, cut, i - 1);
    }
  }

  lemma NoCutAtEnd(ids: seq<int>, m: Markers)
    ensures CutsFrom(ids, m, |ids|) == []
  {
  }

  /** Scanning a prompt only up to one of its cuts finds exactly the cuts up to that one. */
  lemma CutsRestrict(ids: seq<int>, m: Markers, i: nat)
    requires i < |Cuts(ids, m)|
    ensures Cuts(ids[..Cuts(ids, m)[i]], m) == Cuts(ids, m)[..i + 1]
  {
    hide SeqAt, FirstMatch, CutsFrom;
    var sys := FirstMatch(ids, [m.sysRolePrefix], 0, |ids|).value;
    var cursor, b := sys.at + |m.sysRolePrefix|, Cuts(ids, m)[i];
    assert cursor < b;
    FirstMatchRestricts(ids, [m.sysRolePrefix], 0, |ids|, b, b, sys);
    CutsFromRestrict(ids, m, cursor, i);
  }

  /** For some markers a cut disappears as the prompt grows. */
  lemma UnstableMarkers(m: Markers)
    requires m == Markers([9], [[1, 2, 7, 5], [2]], [[7]])
    ensures !PrefixStable(m) && Cuts([9, 1, 2, 7], m) == [4] && Cuts([9, 1, 2, 7, 5], m) == []
  {
    hide Cuts, CutsFrom, NextCut, FirstMatch, SeqAt;
    UnstableShort(m);
    UnstableLong(m);
    assert [9, 1, 2, 7] <= [9, 1, 2, 7, 5];
  }

  lemma UnstableShort(m: Markers)
    requires m == Markers([9], [[1, 2, 7, 5], [2]], [[7]])
    ensures Cuts([9, 1, 2, 7], m) == [4]
  {
    var short, ends := [9, 1, 2, 7], m.endMsgSeqs;
    StandsOne(short, 0, 9);
    StandsOne(short, 1, 2);
    StandsOne(short, 2, 2);
    StandsOne(short, 3, 7);
    assert !SeqAt(short, 1, ends[0]) && !SeqAt(short, 2, ends[0]);
    hide SeqAt;
    FirstHere(short, [m.sysRolePrefix], 0, 4, 0);
    FirstHere(short, ends, 2, 4, 1);
    NotHere(short, ends, 1, 4);
    FirstHere(short, m.nextRoleStarts, 3, 8, 0);
    NoCutAtEnd(short, m);
    assert NextCut(short, m, 1) == Some(4);
  }

  /** A marker of one token stands where that token is. */
  lemma StandsOne(ids: seq<int>, p: nat, x: int)
    requires p < |ids|
    ensures SeqAt(ids, p, [x]) <==> ids[p] == x
  {
    assert ids[p..p + 1] == [ids[p]];
  }

  lemma NotHere(ids: seq<int>, seqs: seq<Marker>, at: nat, hi: nat)
    requires at < hi && forall k | 0 <= k < |seqs| :: !SeqAt(ids, at, seqs[k])
    ensures FirstMatch(ids, seqs, at, hi) == FirstMatch(ids, seqs, at + 1, hi)
  {
    hide SeqAt;
  }

  lemma UnstableLong(m: Markers)
    requires m == Markers([9], [[1, 2, 7, 5], [2]], [[7]])
    ensures Cuts([9, 1, 2, 7, 5], m) == []
  {
    var long := [9, 1, 2, 7, 5];
    StandsOne(long, 0, 9);
    assert long[1..5] == [1, 2, 7, 5];
    FirstHere(long, [m.sysRolePrefix], 0, 5, 0);
    FirstHere(long, m.endMsgSeqs, 1, 5, 0);
    assert NextCut(long, m, 1) == None;
  }

  lemma FirstHere(ids: seq<int>, seqs: seq<Marker>, at: nat, hi: nat, j: nat)
    requires at < hi && j < |seqs| && SeqAt(ids, at, seqs[j])
    requires forall k | 0 <= k < j :: !SeqAt(ids, at, seqs[k])
    ensures FirstMatch(ids, seqs, at, hi) == Some(Match(at, j))
  {
  }

  // ---------------------------------------------------------------------
  // When boundary scanning is stable
  // ---------------------------------------------------------------------

  /** If the text has a first cut without its last token, it has the same one with it. */
  predicate Harmless(m: Markers, text: seq<int>) {
    text != [] && NextCut(text[..|text| - 1], m, 0).Some? ==>
      NextCut(text, m, 0) == NextCut(text[..|text| - 1], m, 0)
  }

  /** A token that no marker contains. */
  ghost predicate Foreign(m: Markers, x: int) {
    && (forall j | 0 <= j < |m.endMsgSeqs| :: x !in m.endMsgSeqs[j])
    && (forall k | 0 <= k < |m.nextRoleStarts| :: x !in m.nextRoleStarts[k])
  }

  /** The texts on which a marker's last token could do harm: finitely many, made of markers. */
  predicate Settled(m: Markers, x: int) {
    && (forall j | 0 <= j < |m.endMsgSeqs| :: Harmless(m, m.endMsgSeqs[j]))
    && (forall j, k | 0 <= j < |m.endMsgSeqs| && 0 <= k < |m.nextRoleStarts| ::
          && Harmless(m, m.endMsgSeqs[j] + m.nextRoleStarts[k])
          && Harmless(m, m.endMsgSeqs[j] + [x] + m.nextRoleStarts[k]))
  }

  // Scanning does not depend on where in the prompt it takes place.

  function Moved(r: Option<Match>, offset: nat): Option<Match> {
    match r
    case None => None
    case Some(m) => Some(Match(offset + m.at, m.which))
  }

  lemma SeqAtMoved(a: seq<int>, ids: seq<int>, p: nat, s: Marker)
    ensures SeqAt(a + ids, |a| + p, s) <==> SeqAt(ids, p, s)
  {
    if p + |s| <= |ids| {
      assert (a + ids)[|a| + p..|a| + p + |s|] == ids[p..p + |s|];
    }
  }

  lemma {:induction false} MarkerAtMoved(a: seq<int>, ids: seq<int>, seqs: seq<Marker>, p: nat)
    ensures MarkerAt(a + ids, seqs, |a| + p) == MarkerAt(ids, seqs, p)
  {
    hide SeqAt;
    if seqs != [] {
      SeqAtMoved(a, ids, p, seqs[0]);
      MarkerAtMoved(a, ids, seqs[1..], p);
    }
  }

  lemma {:induction false} FirstMatchMoved(a: seq<int>, ids: seq<int>, seqs: seq<Marker>, lo: nat, hi: nat)
    ensures FirstMatch(a + ids, seqs, |a| + lo, |a| + hi) == Moved(FirstMatch(ids, seqs, lo, hi), |a|)
    decreases hi - lo
  {
    hide SeqAt, MarkerAt;
    if lo < hi {
      MarkerAtMoved(a, ids, seqs, lo);
      FirstMatchMoved(a, ids, seqs, lo + 1, hi);
    }
  }

  function MovedCut(r: Option<nat>, offset: nat): Option<nat> {
    match r
    case None => None
    case Some(cut) => Some(offset + cut)
  }

  lemma NextCutMoved(a: seq<int>, ids: seq<int>, m: Markers, cursor: nat)
    ensures NextCut(a + ids, m, |a| + cursor) == MovedCut(NextCut(ids, m, cursor), |a|)
  {
    hide FirstMatch, SeqAt;
    FirstMatchMoved(a, ids, m.endMsgSeqs, cursor, |ids|);
    var end := FirstMatch(ids, m.endMsgSeqs, cursor, |ids|);
    if end.Some? {
      var afterEnd := end.value.at + |m.endMsgSeqs[end.value.which]|;
      FirstMatchMoved(a, ids, m.nextRoleStarts, afterEnd, afterEnd + MAX_SEPARATORS + 1);
    }
  }

  /** The first message end after `cursor` exists and is not before `p`. */
  ghost predicate EndsFrom(ids: seq<int>, m: Markers, cursor: nat, p: nat) {
    var end := FirstMatch(ids, m.endMsgSeqs, cursor, |ids|);
    end.Some? && p <= end.value.at
  }

  /** Before the first message end it does not matter where scanning starts. */
  lemma NextCutSkips(ids: seq<int>, m: Markers, cursor: nat, p: nat)
    requires cursor <= p && EndsFrom(ids, m, cursor, p)
    ensures NextCut(ids, m, cursor) == NextCut(ids, m, p)
  {
    hide FirstMatch, SeqAt;
    FirstMatchIs(ids, m.endMsgSeqs, p, |ids|, FirstMatch(ids, m.endMsgSeqs, cursor, |ids|).value);
  }

  // One more token

  lemma Survives(ids: seq<int>, ids': seq<int>, seqs: seq<Marker>, lo: nat, hi: nat, hi': nat)
    requires ids <= ids' && hi <= hi' && FirstMatch(ids, seqs, lo, hi).Some?
    ensures var was, now := FirstMatch(ids, seqs, lo, hi).value, FirstMatch(ids', seqs, lo, hi');
            && now.Some? && now.value.at <= was.at
            && (now.value != was ==> now.value.at + |seqs[now.value.which]| > |ids|)
  {
    hide FirstMatch, SeqAt;
    var was := FirstMatch(ids, seqs, lo, hi).value;
    SeqAtInPrefix(ids, ids', was.at, seqs[was.which]);
    var now := FirstMatch(ids', seqs, lo, hi').value;
    SeqAtInPrefix(ids, ids', now.at, seqs[now.which]);
  }

  /** What a last token does to the next cut is decided by any tail that holds the first message end. */
  lemma TailDecides(a: seq<int>, tail: seq<int>, ids: seq<int>, m: Markers, cursor: nat)
    requires tail != [] && ids == a + tail[..|tail| - 1] && cursor <= |a| && Harmless(m, tail)
    requires EndsFrom(ids, m, cursor, |a|) && EndsFrom(a + tail, m, cursor, |a|)
    ensures NextCut(ids, m, cursor).Some? ==> NextCut(a + tail, m, cursor) == NextCut(ids, m, cursor)
  {
    hide NextCut, FirstMatch;
    NextCutSkips(ids, m, cursor, |a|);
    NextCutSkips(a + tail, m, cursor, |a|);
    NextCutMoved(a, tail, m, 0);
    NextCutMoved(a, tail[..|tail| - 1], m, 0);
  }

  /** A first message end that only the last token completes is harmless if that marker is. */
  lemma EndCompleted(ids: seq<int>, ids': seq<int>, m: Markers, cursor: nat)
    requires ids <= ids' && |ids'| == |ids| + 1 && NextCut(ids, m, cursor).Some?
    requires forall j | 0 <= j < |m.endMsgSeqs| :: Harmless(m, m.endMsgSeqs[j])
    ensures
      var end := FirstMatch(ids, m.endMsgSeqs, cursor, |ids|);
      var end' := FirstMatch(ids', m.endMsgSeqs, cursor, |ids'|);
      end.Some? && end'.Some? && (end' != end ==> NextCut(ids', m, cursor) == NextCut(ids, m, cursor))
  {
    hide FirstMatch, Harmless, NextCut, SeqAt;
    CutHasEnd(ids, m, cursor);
    Survives(ids, ids', m.endMsgSeqs, cursor, |ids|, |ids'|);
    var end := FirstMatch(ids, m.endMsgSeqs, cursor, |ids|).value;
    var end' := FirstMatch(ids', m.endMsgSeqs, cursor, |ids'|).value;
    if end' != end {
      var a, tail := ids'[..end'.at], m.endMsgSeqs[end'.which];
      SplitsText(ids', end'.at, tail);
      LastDropped(ids, ids', a, tail);
      TailDecides(a, tail, ids, m, cursor);
    }
  }

  lemma CutHasEnd(ids: seq<int>, m: Markers, cursor: nat)
    requires NextCut(ids, m, cursor).Some?
    ensures FirstMatch(ids, m.endMsgSeqs, cursor, |ids|).Some?
  {
  }

  /** A marker that reaches the end of a text is its tail. */
  lemma SplitsText(ids: seq<int>, p: nat, s: Marker)
    requires SeqAt(ids, p, s) && p + |s| >= |ids|
    ensures s != [] && p <= |ids| && ids == ids[..p] + s
  {
  }

  lemma LastDropped(ids: seq<int>, ids': seq<int>, a: seq<int>, tail: seq<int>)
    requires ids <= ids' && |ids'| == |ids| + 1 && ids' == a + tail && tail != []
    ensures ids == a + tail[..|tail| - 1]
  {
    assert ids == ids'[..|ids|];
  }

  /** The end `end` of `ids`, then `gap` other tokens, then a role start that the last token completes. */
  ghost predicate StartCompleted(
    ids: seq<int>, ids': seq<int>, m: Markers, cursor: nat, end: Match, start: Match, start': Match, gap: nat)
  {
    && ids <= ids' && |ids'| == |ids| + 1
    && FirstMatch(ids, m.endMsgSeqs, cursor, |ids|) == Some(end)
    && FirstMatch(ids', m.endMsgSeqs, cursor, |ids'|) == Some(end)
    && Earliest(ids, m.endMsgSeqs, cursor, |ids|, end)
    && var lo := end.at + |m.endMsgSeqs[end.which]|;
       && Earliest(ids, m.nextRoleStarts, lo, lo + MAX_SEPARATORS + 1, start)
       && Earliest(ids', m.nextRoleStarts, lo, lo + MAX_SEPARATORS + 1, start')
       && start'.at + |m.nextRoleStarts[start'.which]| == |ids'|
       && start'.at <= start.at && start'.at == lo + gap
  }

  /** Right after the message end the two markers together decide. */
  lemma StartAdjacent(
    ids: seq<int>, ids': seq<int>, m: Markers, cursor: nat, end: Match, start: Match, start': Match)
    requires StartCompleted(ids, ids', m, cursor, end, start, start', 0)
    requires Harmless(m, m.endMsgSeqs[end.which] + m.nextRoleStarts[start'.which])
    ensures NextCut(ids, m, cursor).Some? ==> NextCut(ids', m, cursor) == NextCut(ids, m, cursor)
  {
    hide FirstMatch, Harmless, NextCut;
    var a, e, r := ids[..end.at], m.endMsgSeqs[end.which], m.nextRoleStarts[start'.which];
    assert ids'[end.at..start'.at] == e && ids'[start'.at..] == r;
    assert ids' == a + (e + r);
    LastDropped(ids, ids', a, e + r);
    TailDecides(a, e + r, ids, m, cursor);
  }

  // A role start after separators: one foreign separator shows the same.

  /** A marker that stands across a token contains it. */
  lemma TokenBlocks(ids: seq<int>, p: nat, s: Marker, q: nat)
    ensures SeqAt(ids, p, s) && p <= q < p + |s| ==> ids[q] in s
  {
    if SeqAt(ids, p, s) && p <= q < p + |s| {
      assert ids[p..p + |s|][q - p] == ids[q];
    }
  }

  /** In a text of `end`, a foreign token and anything else, the first message end is `end`. */
  lemma ProbeEnd(m: Markers, x: int, i: nat, rest: seq<int>)
    requires Foreign(m, x) && i < |m.endMsgSeqs| && m.endMsgSeqs[i] != []
    requires forall j | 0 <= j < i :: !SeqAt(m.endMsgSeqs[i], 0, m.endMsgSeqs[j])
    ensures
      var text := m.endMsgSeqs[i] + [x] + rest;
      FirstMatch(text, m.endMsgSeqs, 0, |text|) == Some(Match(0, i))
  {
    hide FirstMatch;
    var e := m.endMsgSeqs[i];
    var text := e + [x] + rest;
    assert text[..|e|] == e;
    forall j | 0 <= j < i
      ensures !SeqAt(text, 0, m.endMsgSeqs[j])
    {
      SeqAtInPrefix(e, text, 0, m.endMsgSeqs[j]);
      TokenBlocks(text, 0, m.endMsgSeqs[j], |e|);
    }
    FirstMatchIs(text, m.endMsgSeqs, 0, |text|, Match(0, i));
  }

  /** No role start stands at the foreign token; after it they stand as in the rest of the text. */
  lemma ProbeStarts(m: Markers, x: int, e: seq<int>, rest: seq<int>, k: nat, p: nat)
    requires Foreign(m, x) && k < |m.nextRoleStarts|
    ensures !SeqAt(e + [x] + rest, |e|, m.nextRoleStarts[k])
    ensures SeqAt(e + [x] + rest, |e| + 1 + p, m.nextRoleStarts[k]) <==> SeqAt(rest, p, m.nextRoleStarts[k])
  {
    var text, s := e + [x] + rest, m.nextRoleStarts[k];
    TokenBlocks(text, |e|, s, |e|);
    SeqAtMoved(e + [x], rest, p, s);
  }

  /** Role start `k` comes first in `r`, and completes a text that has a cut already without its last token. */
  lemma ProbeHarmed(m: Markers, x: int, i: nat, k: nat, s: nat, gap: nat)
    requires Foreign(m, x) && i < |m.endMsgSeqs| && m.endMsgSeqs[i] != []
    requires forall j | 0 <= j < i :: !SeqAt(m.endMsgSeqs[i], 0, m.endMsgSeqs[j])
    requires k < |m.nextRoleStarts| && s < |m.nextRoleStarts| && gap < MAX_SEPARATORS
    requires var r := m.nextRoleStarts[k];
             && r != [] && SeqAt(r[..|r| - 1], gap, m.nextRoleStarts[s])
             && forall j | 0 <= j < k :: !SeqAt(r, 0, m.nextRoleStarts[j])
    ensures !Harmless(m, m.endMsgSeqs[i] + [x] + m.nextRoleStarts[k])
  {
    hide FirstMatch, SeqAt;
    var e, r := m.endMsgSeqs[i], m.nextRoleStarts[k];
    var front := r[..|r| - 1];
    var text := e + [x] + r;
    assert text[..|text| - 1] == e + [x] + front;
    ProbeEnd(m, x, i, r);
    ProbeEnd(m, x, i, front);
    ProbeStarts(m, x, e, front, s, gap);
    WholeMarker(r);
    forall j | 0 <= j < |m.nextRoleStarts|
      ensures !SeqAt(text, |e|, m.nextRoleStarts[j])
      ensures SeqAt(text, |e| + 1, m.nextRoleStarts[j]) <==> SeqAt(r, 0, m.nextRoleStarts[j])
    {
      ProbeStarts(m, x, e, r, j, 0);
    }
    FirstMatchIs(text, m.nextRoleStarts, |e|, |e| + MAX_SEPARATORS + 1, Match(|e| + 1, k));
  }

  lemma WholeMarker(s: Marker)
    requires s != []
    ensures SeqAt(s, 0, s)
  {
  }

  lemma StartSeparated(
    ids: seq<int>, ids': seq<int>, m: Markers, x: int, cursor: nat, end: Match, start: Match, start': Match, gap: nat)
    requires Foreign(m, x) && StartCompleted(ids, ids', m, cursor, end, start, start', gap)
    requires gap > 0 && start' != start
    ensures !Harmless(m, m.endMsgSeqs[end.which] + [x] + m.nextRoleStarts[start'.which])
  {
    hide FirstMatch;
    var e, r, s := m.endMsgSeqs[end.which], m.nextRoleStarts[start'.which], m.nextRoleStarts[start.which];
    forall j | 0 <= j < end.which
      ensures !SeqAt(e, 0, m.endMsgSeqs[j])
    {
      if SeqAt(e, 0, m.endMsgSeqs[j]) {
        SeqAtWithin(ids, end.at, e, 0, m.endMsgSeqs[j]);
      }
    }
    forall j | 0 <= j < start'.which
      ensures !SeqAt(r, 0, m.nextRoleStarts[j])
    {
      if SeqAt(r, 0, m.nextRoleStarts[j]) {
        SeqAtWithin(ids', start'.at, r, 0, m.nextRoleStarts[j]);
      }
    }
    SeqAtInPrefix(ids, ids', start.at, s);
    SeqAtInside(ids', start'.at, r, start.at, s);
    SeqAtInPrefix(r[..|r| - 1], r, start.at - start'.at, s);
    hide SeqAt;
    ProbeHarmed(m, x, end.which, start'.which, start.which, start.at - start'.at);
  }

  /** A marker inside a marker that stands in a text stands in that text. */
  lemma SeqAtWithin(ids: seq<int>, p: nat, s: Marker, d: nat, t: Marker)
    requires SeqAt(ids, p, s) && SeqAt(s, d, t)
    ensures SeqAt(ids, p + d, t)
  {
    forall i | 0 <= i < |t|
      ensures ids[p + d + i] == t[i]
    {
      assert ids[p..p + |s|][d + i] == s[d + i] && s[d..d + |t|][i] == t[i];
    }
  }

  /** One more token leaves the next cut alone, wherever scanning starts. */
  lemma NextCutExtends(ids: seq<int>, ids': seq<int>, m: Markers, x: int, cursor: nat)
    requires Foreign(m, x) && Settled(m, x) && ids <= ids' && |ids'| == |ids| + 1
    ensures NextCut(ids, m, cursor).Some? ==> NextCut(ids', m, cursor) == NextCut(ids, m, cursor)
  {
    hide FirstMatch, Harmless, SeqAt;
    if NextCut(ids, m, cursor) == None {
      return;
    }
    EndCompleted(ids, ids', m, cursor);
    var end := FirstMatch(ids, m.endMsgSeqs, cursor, |ids|).value;
    var lo := end.at + |m.endMsgSeqs[end.which]|;
    var hi := lo + MAX_SEPARATORS + 1;
    if FirstMatch(ids', m.endMsgSeqs, cursor, |ids'|) == Some(end) {
      Survives(ids, ids', m.nextRoleStarts, lo, hi, hi);
      var start := FirstMatch(ids, m.nextRoleStarts, lo, hi).value;
      var start' := FirstMatch(ids', m.nextRoleStarts, lo, hi).value;
      if start' != start {
        SeqAtInPrefix(ids', ids', start'.at, m.nextRoleStarts[start'.which]);
        assert StartCompleted(ids, ids', m, cursor, end, start, start', start'.at - lo);
        hide NextCut, StartCompleted;
        if start'.at == lo {
          StartAdjacent(ids, ids', m, cursor, end, start, start');
        } else {
          StartSeparated(ids, ids', m, x, cursor, end, start, start', start'.at - lo);
        }
      }
    }
  }

  lemma {:induction false} CutsFromExtends(ids: seq<int>, ids': seq<int>, m: Markers, x: int, cursor: nat)
    requires Foreign(m, x) && Settled(m, x) && ids <= ids' && |ids'| == |ids| + 1
    ensures CutsFrom(ids, m, cursor) <= CutsFrom(ids', m, cursor)
    decreases |ids| - cursor
  {
    hide NextCut, Settled;
    var next := NextCut(ids, m, cursor);
    if next.Some? {
      NextCutExtends(ids, ids', m, x, cursor);
      CutsFromExtends(ids, ids', m, x, next.value);
    }
  }

  lemma {:induction false} SettledCutsStable(ids: seq<int>, ids': seq<int>, m: Markers, x: int)
    requires Foreign(m, x) && Settled(m, x) && ids <= ids'
    ensures Cuts(ids, m) <= Cuts(ids', m)
    decreases |ids'| - |ids|
  {
    hide SeqAt, FirstMatch, CutsFrom, Settled, Earliest;
    if |ids| < |ids'| {
      var longer := ids'[..|ids| + 1];
      SettledCutsStable(longer, ids', m, x);
      var sys := FirstMatch(ids, [m.sysRolePrefix], 0, |ids|);
      if sys.Some? {
        FirstMatchStable(ids, longer, [m.sysRolePrefix], 0, |ids|, |longer|, sys.value);
        CutsFromExtends(ids, longer, m, x, sys.value.at + |m.sysRolePrefix|);
      }
    } else {
      assert ids == ids';
    }
  }

  lemma FirstCut(m: Markers, text: seq<int>)
    requires m.sysRolePrefix != []
    ensures
      var cuts, cut := Cuts(m.sysRolePrefix + text, m), NextCut(text, m, 0);
      if cut == None then cuts == [] else cuts != [] && cuts[0] == |m.sysRolePrefix| + cut.value
  {
    hide FirstMatch, NextCut;
    var sys, ids := m.sysRolePrefix, m.sysRolePrefix + text;
    assert ids[..|sys|] == sys;
    SoleMatch(ids, sys, 0);
    NextCutMoved(sys, text, m, 0);
  }

  /**
   More prompt text only adds cuts at the end if and only if a last token is harmless on every end
   marker and on every end marker followed by a role start, directly or after a foreign token.
  */
  lemma PrefixStableIff(m: Markers, x: int)
    requires Foreign(m, x) && m.sysRolePrefix != []
    ensures PrefixStable(m) <==> Settled(m, x)
  {
    hide Cuts, NextCut, Settled;
    if Settled(m, x) {
      forall ids, ids' | ids <= ids'
        ensures Cuts(ids, m) <= Cuts(ids', m)
      {
        SettledCutsStable(ids, ids', m, x);
      }
    }
    if PrefixStable(m) {
      forall text: seq<int>
        ensures Harmless(m, text)
      {
        if text != [] && NextCut(text[..|text| - 1], m, 0).Some? {
          FirstCut(m, text);
          FirstCut(m, text[..|text| - 1]);
          assert m.sysRolePrefix + text[..|text| - 1] <= m.sysRolePrefix + text;
        }
      }
      AllHarmless(m, x);
    }
  }

  lemma AllHarmless(m: Markers, x: int)
    requires forall text :: Harmless(m, text)
    ensures Settled(m, x)
  {
    hide Harmless;
  }

  // ---------------------------------------------------------------------
  // Resolved markers
  // ---------------------------------------------------------------------

  /** The text of a token sequence. */
  function TextOf(decode: int -> string, ids: seq<int>): string {
    if ids == [] then "" else decode(ids[0]) + TextOf(decode, ids[1..])
  }

  /** One opening bracket, at the start, and one closing bracket, at the end. */
  predicate IsTag(text: string) {
    && text != []
    && (forall i | 0 <= i < |text| :: text[i] == '<' <==> i == 0)
    && (forall i | 0 <= i < |text| :: text[i] == '>' <==> i == |text| - 1)
  }

  /** Markers that decode to tags, different ones within a list. */
  ghost predicate DistinctTags(decode: int -> string, seqs: seq<Marker>) {
    && (forall j | 0 <= j < |seqs| :: IsTag(TextOf(decode, seqs[j])))
    && (forall j, k | 0 <= j < k < |seqs| :: TextOf(decode, seqs[j]) != TextOf(decode, seqs[k]))
  }

  lemma {:induction false} TextOfAppend(decode: int -> string, a: seq<int>, b: seq<int>)
    ensures TextOf(decode, a + b) == TextOf(decode, a) + TextOf(decode, b)
  {
    if a == [] {
      assert a + b == b;
    } else {
      TextOfAppend(decode, a[1..], b);
      assert (a + b)[1..] == a[1..] + b;
    }
  }

  lemma TagInTag(u: string, t: string, w: string)
    requires IsTag(t) && IsTag(u + t + w)
    ensures u + t + w == t
  {
    var text := u + t + w;
    assert text[|u|] == t[0] && text[|u| + |t| - 1] == t[|t| - 1];
  }

  lemma TagsNotInside(decode: int -> string, seqs: seq<Marker>)
    requires DistinctTags(decode, seqs)
    ensures NoneInside(seqs)
  {
    hide IsTag, TextOf;
    forall j, k, d | 0 <= j < |seqs| && 0 <= k < |seqs| && 0 <= d && d + |seqs[j]| < |seqs[k]|
      ensures !SeqAt(seqs[k], d, seqs[j])
    {
      var s, t := seqs[k], seqs[j];
      if SeqAt(s, d, t) {
        assert s == s[..d] + t + s[d + |t|..];
        TextOfAppend(decode, s[..d] + t, s[d + |t|..]);
        TextOfAppend(decode, s[..d], t);
        TagInTag(TextOf(decode, s[..d]), TextOf(decode, t), TextOf(decode, s[d + |t|..]));
      }
    }
  }

  /** Both families of resolved markers are stable: single tokens, and sequences that spell different tags. */
  lemma ResolvedIsStable(m: Markers, decode: int -> string)
    requires || (|m.endMsgSeqs| == |m.nextRoleStarts| == 1)
             || (DistinctTags(decode, m.endMsgSeqs) && DistinctTags(decode, m.nextRoleStarts))
    ensures PrefixStable(m)
  {
    hide Cuts, SeqAt;
    if DistinctTags(decode, m.endMsgSeqs) && DistinctTags(decode, m.nextRoleStarts) {
      TagsNotInside(decode, m.endMsgSeqs);
      TagsNotInside(decode, m.nextRoleStarts);
    } else {
      SameLengthIsApart(m, |m.endMsgSeqs[0]|, |m.nextRoleStarts[0]|);
    }
    forall ids, ids' | ids <= ids'
      ensures Cuts(ids, m) <= Cuts(ids', m)
    {
      CutsStable(ids, ids', m);
    }
  }

  // ---------------------------------------------------------------------
  // What a cut is
  // ---------------------------------------------------------------------

  /**
   A cut stands right after a role start that follows the first message end by at most four tokens,
   and no role start comes between.
  */
  lemma CutMeans(ids: seq<int>, m: Markers, cursor: nat) returns (p: nat, j: nat, q: nat, k: nat)
    requires NextCut(ids, m, cursor).Some?
    ensures j < |m.endMsgSeqs| && k < |m.nextRoleStarts|
    ensures
      var e, r := m.endMsgSeqs[j], m.nextRoleStarts[k];
      && e != [] && r != [] && cursor <= p && p + |e| <= q <= p + |e| + 4 && q + |r| <= |ids|
      && ids[p..p + |e|] == e && ids[q..q + |r|] == r && NextCut(ids, m, cursor).value == q + |r|
    ensures forall p', j' | cursor <= p' < p && 0 <= j' < |m.endMsgSeqs| :: !SeqAt(ids, p', m.endMsgSeqs[j'])
    ensures forall q', k' | p + |m.endMsgSeqs[j]| <= q' < q && 0 <= k' < |m.nextRoleStarts| ::
              !SeqAt(ids, q', m.nextRoleStarts[k'])
  {
    hide FirstMatch;
    var end := FirstMatch(ids, m.endMsgSeqs, cursor, |ids|).value;
    var lo := end.at + |m.endMsgSeqs[end.which]|;
    var start := FirstMatch(ids, m.nextRoleStarts, lo, lo + MAX_SEPARATORS + 1).value;
    p, j, q, k := end.at, end.which, start.at, start.which;
  }

  /** Up to four separators are passed over, whatever they are made of, and five are not. */
  lemma FourSeparators(m: Markers, e: Marker, r: Marker, between: seq<int>, text: seq<int>)
    requires m.endMsgSeqs == [e] && m.nextRoleStarts == [r] && e != [] && r != []
    requires forall i | 0 <= i < |between| :: between[i] !in r
    requires text == e + between + r
    ensures NextCut(text, m, 0) == if |between| <= 4 then Some(|text|) else None
  {
    hide FirstMatch;
    var n := |between|;
    assert text[0..|e|] == e && text[|e| + n..|text|] == r;
    FirstHere(text, m.endMsgSeqs, 0, |text|, 0);
    var hi := |e| + MAX_SEPARATORS + 1;
    forall q | |e| <= q < |e| + n
      ensures !SeqAt(text, q, r)
    {
      assert text[q] == between[q - |e|];
      TokenBlocks(text, q, r, q);
    }
    if n <= 4 {
      FirstMatchIs(text, m.nextRoleStarts, |e|, hi, Match(|e| + n, 0));
    } else {
      assert FirstMatch(text, m.nextRoleStarts, |e|, hi) == None;
    }
  }
}
