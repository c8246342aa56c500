/**
 Block selection for sparse prefill: which key blocks each query block of each head attends to,
 written into flat row-major arrays.
*/
module BlockSelect {
  import opened Arithmetic
  import opened Sequences

  /** The extents of the score and index arrays; the rightmost coordinate moves fastest. */
  datatype Grid = Grid(batches: nat, queries: nat, keys: nat, heads: nat)

  datatype Rules = Rules(sink: int, window: int, lastFull: int, alpha: real)

  // ---------------------------------------------------------------------
  // Flat indices
  // ---------------------------------------------------------------------

  function Cells(g: Grid): nat {
    g.batches * g.queries * g.keys * g.heads
  }

  function Rows(g: Grid): nat {
    g.batches * g.queries * g.heads
  }

  ghost predicate InRows(g: Grid, b: int, m: int, h: int) {
    0 <= b < g.batches && 0 <= m < g.queries && 0 <= h < g.heads
  }

  ghost predicate InGrid(g: Grid, b: int, m: int, n: int, h: int) {
    InRows(g, b, m, h) && 0 <= n < g.keys
  }

  function Cell(g: Grid, b: nat, m: nat, n: nat, h: nat): nat {
    b * (g.queries * g.keys * g.heads) + m * (g.keys * g.heads) + n * g.heads + h
  }

  function Row(g: Grid, b: nat, m: nat, h: nat): nat {
    b * (g.queries * g.heads) + m * g.heads + h
  }

  lemma CellIsPacked(g: Grid, b: nat, m: nat, n: nat, h: nat)
    ensures
      Cell(g, b, m, n, h)
      == Pack(Pack(Pack(b, m, g.queries), n, g.keys), h, g.heads)
  {
    var M, N, H := g.queries, g.keys, g.heads;
    calc {
      Pack(Pack(Pack(b, m, M), n, N), h, H);
      ((b * M + m) * N + n) * H + h;
      (b * M + m) * N * H + n * H + h;
      (b * M * N + m * N) * H + n * H + h;
      b * M * N * H + m * N * H + n * H + h;
      { assert b * M * N * H == b * (M * N * H); assert m * N * H == m * (N * H); }
      Cell(g, b, m, n, h);
    }
  }

  lemma RowIsPacked(g: Grid, b: nat, m: nat, h: nat)
    ensures Row(g, b, m, h) == Pack(Pack(b, m, g.queries), h, g.heads)
  {
  }

  /** Row-major: one step in each coordinate moves by the extents of those that move faster. */
  lemma CellSteps(g: Grid, b: nat, m: nat, n: nat, h: nat)
    ensures Cell(g, 0, 0, 0, 0) == 0 && Row(g, 0, 0, 0) == 0
    ensures Cell(g, b, m, n, h + 1) == Cell(g, b, m, n, h) + 1
    ensures Cell(g, b, m, n + 1, h) == Cell(g, b, m, n, h) + g.heads
    ensures Cell(g, b, m + 1, n, h) == Cell(g, b, m, n, h) + g.keys * g.heads
    ensures Cell(g, b + 1, m, n, h) == Cell(g, b, m, n, h) + g.queries * g.keys * g.heads
    ensures Row(g, b, m, h + 1) == Row(g, b, m, h) + 1
    ensures Row(g, b, m + 1, h) == Row(g, b, m, h) + g.heads
    ensures Row(g, b + 1, m, h) == Row(g, b, m, h) + g.queries * g.heads
  {
    assert (b + 1) * (g.queries * g.keys * g.heads)
        == b * (g.queries * g.keys * g.heads) + g.queries * g.keys * g.heads;
    assert (b + 1) * (g.queries * g.heads) == b * (g.queries * g.heads) + g.queries * g.heads;
    assert (m + 1) * (g.keys * g.heads) == m * (g.keys * g.heads) + g.keys * g.heads;
    assert (m + 1) * g.heads == m * g.heads + g.heads;
    assert (n + 1) * g.heads == n * g.heads + g.heads;
  }

  lemma CellInBounds(g: Grid, b: nat, m: nat, n: nat, h: nat)
    requires InGrid(g, b, m, n, h)
    ensures Cell(g, b, m, n, h) < Cells(g)
    ensures Row(g, b, m, h) < Rows(g)
  {
    hide Pack, Cell, Row;
    CellIsPacked(g, b, m, n, h);
    RowIsPacked(g, b, m, h);
    PackBound(b, m, g.batches, g.queries);
    PackBound(Pack(b, m, g.queries), n, g.batches * g.queries, g.keys);
    PackBound(Pack(Pack(b, m, g.queries), n, g.keys), h, g.batches * g.queries * g.keys, g.heads);
    PackBound(Pack(b, m, g.queries), h, g.batches * g.queries, g.heads);
  }

  /** No two grid points share a cell. */
  lemma CellDistinct(g: Grid, b: nat, m: nat, n: nat, h: nat, b': nat, m': nat, n': nat, h': nat)
    requires InGrid(g, b, m, n, h) && InGrid(g, b', m', n', h')
    ensures Cell(g, b, m, n, h) == Cell(g, b', m', n', h') ==> (b, m, n, h) == (b', m', n', h')
  {
    hide Pack, Cell;
    if Cell(g, b, m, n, h) == Cell(g, b', m', n', h') {
      CellIsPacked(g, b, m, n, h);
      CellIsPacked(g, b', m', n', h');
      var q, q' := Pack(b, m, g.queries), Pack(b', m', g.queries);
      PackDistinct(Pack(q, n, g.keys), h, Pack(q', n', g.keys), h', g.heads);
      PackDistinct(q, n, q', n', g.keys);
      PackDistinct(b, m, b', m', g.queries);
    }
  }

  lemma RowDistinct(g: Grid, b: nat, m: nat, h: nat, b': nat, m': nat, h': nat)
    requires InRows(g, b, m, h) && InRows(g, b', m', h')
    ensures Row(g, b, m, h) == Row(g, b', m', h') ==> (b, m, h) == (b', m', h')
  {
    hide Pack, Row;
    if Row(g, b, m, h) == Row(g, b', m', h') {
      RowIsPacked(g, b, m, h);
      RowIsPacked(g, b', m', h');
      PackDistinct(Pack(b, m, g.queries), h, Pack(b', m', g.queries), h', g.heads);
      PackDistinct(b, m, b', m', g.queries);
    }
  }

  /** Every cell belongs to some grid point, so writing all rows leaves no cell unwritten. */
  lemma CellsCovered(g: Grid, i: nat) returns (b: nat, m: nat, n: nat, h: nat)
    requires i < Cells(g)
    ensures InGrid(g, b, m, n, h) && Cell(g, b, m, n, h) == i
  {
    hide Pack, Cell;
    var q, r;
    q, h := PackCovers(i, g.batches * g.queries * g.keys, g.heads);
    r, n := PackCovers(q, g.batches * g.queries, g.keys);
    b, m := PackCovers(r, g.batches, g.queries);
    CellIsPacked(g, b, m, n, h);
  }

  lemma RowsCovered(g: Grid, i: nat) returns (b: nat, m: nat, h: nat)
    requires i < Rows(g)
    ensures InRows(g, b, m, h) && Row(g, b, m, h) == i
  {
    hide Pack, Row;
    var q;
    q, h := PackCovers(i, g.batches * g.queries, g.heads);
    b, m := PackCovers(q, g.batches, g.queries);
    RowIsPacked(g, b, m, h);
  }

  // ---------------------------------------------------------------------
  // What one row selects
  // ---------------------------------------------------------------------

  /** The scores of query block `m` against the key blocks that causality allows. */
  ghost function CausalScores(g: Grid, score: seq<real>, b: nat, m: nat, h: nat): (row: seq<real>)
    requires InRows(g, b, m, h) && g.queries <= g.keys && |score| == Cells(g)
    ensures |row| == m + 1
  {
    seq(m + 1, n requires 0 <= n < m + 1 =>
      CellInBounds(g, b, m, n, h);
      score[Cell(g, b, m, n, h)])
  }

  ghost predicate IsLargest(row: seq<real>, top: real) {
    top in row && forall n | 0 <= n < |row| :: row[n] <= top
  }

  /** The best causal score of a row. */
  ghost function Best(row: seq<real>): (top: real)
    requires row != []
    ensures IsLargest(row, top)
  {
    if |row| == 1 then row[0]
    else
      var before := Best(row[..|row| - 1]);
      assert forall n | 0 <= n < |row| - 1 :: row[n] == row[..|row| - 1][n];
      if row[|row| - 1] > before then row[|row| - 1] else before
  }

  function Threshold(top: real, alpha: real): real {
    top * alpha
  }

  predicate Keeps(rules: Rules, queries: nat, m: int, n: int, score: real, top: real) {
    || n < rules.sink
    || m - n < rules.window
    || m >= queries - rules.lastFull
    || score >= Threshold(top, rules.alpha)
  }

  /** The kept blocks among the first `k`. */
  ghost function Selected(rules: Rules, queries: nat, row: seq<real>, top: real, k: nat): seq<int>
    requires k <= |row|
  {
    if k == 0 then []
    else
      var before := Selected(rules, queries, row, top, k - 1);
      if Keeps(rules, queries, |row| - 1, k - 1, row[k - 1], top) then before + [k - 1] else before
  }

  /** A row holds exactly the causal blocks that a rule keeps, each once, in increasing order. */
  lemma {:induction false} SelectedExactly(rules: Rules, queries: nat, row: seq<real>, top: real, k: nat)
    requires k <= |row|
    ensures var s := Selected(rules, queries, row, top, k);
            && |s| <= k
            && Increasing(s)
            && forall n :: n in s <==> 0 <= n < k && Keeps(rules, queries, |row| - 1, n, row[n], top)
  {
    hide Keeps;
    if k > 0 {
      SelectedExactly(rules, queries, row, top, k - 1);
      var before := Selected(rules, queries, row, top, k - 1);
      var s := Selected(rules, queries, row, top, k);
      forall n
        ensures n in s <==> 0 <= n < k && Keeps(rules, queries, |row| - 1, n, row[n], top)
      {
        assert s == before || s == before + [k - 1];
      }
      assert forall i | 0 <= i < |before| :: before[i] in before;
    }
  }

  /** For at most one times a best score that is not negative, every best block is kept. */
  lemma BestBlocksKept(rules: Rules, queries: nat, row: seq<real>, n: nat)
    requires n < |row| && row[n] == Best(row) >= 0.0 && rules.alpha <= 1.0
    ensures n in Selected(rules, queries, row, Best(row), |row|)
  {
    hide Best, Threshold;
    ProductOrder(Best(row), rules.alpha, 1.0);
    assert Threshold(Best(row), 1.0) == Best(row) by { OnceIs(Best(row)); }
    SelectedExactly(rules, queries, row, Best(row), |row|);
  }

  lemma OnceIs(top: real)
    ensures Threshold(top, 1.0) == top
  {
  }

  /** Apart from the other rules a block is kept for its score exactly from a share alpha of the best score on. */
  lemma KeptForScore(rules: Rules, queries: nat, row: seq<real>, n: nat)
    requires n < |row| && n >= rules.sink && |row| - 1 - n >= rules.window && |row| - 1 < queries - rules.lastFull
    ensures n in Selected(rules, queries, row, Best(row), |row|) <==> row[n] >= Best(row) * rules.alpha
  {
    hide Best;
    SelectedExactly(rules, queries, row, Best(row), |row|);
  }

  /** Each of the other rules keeps its blocks whatever their scores are. */
  lemma KeptAnyway(rules: Rules, queries: nat, row: seq<real>, n: nat)
    requires n < |row|
    ensures n < rules.sink ==> n in Selected(rules, queries, row, Best(row), |row|)
    ensures |row| - 1 - n < rules.window ==> n in Selected(rules, queries, row, Best(row), |row|)
    ensures |row| - 1 >= queries - rules.lastFull ==> n in Selected(rules, queries, row, Best(row), |row|)
  {
    hide Best;
    SelectedExactly(rules, queries, row, Best(row), |row|);
  }

  /** Keeping fewer blocks of each row selects fewer. */
  lemma {:induction false} SelectedMonotone(
    rules: Rules, rules': Rules, queries: nat, row: seq<real>, top: real, k: nat)
    requires k <= |row|
    requires forall n | 0 <= n < |row| ::
               Keeps(rules', queries, |row| - 1, n, row[n], top)
               ==> Keeps(rules, queries, |row| - 1, n, row[n], top)
    ensures |Selected(rules', queries, row, top, k)| <= |Selected(rules, queries, row, top, k)|
  {
    hide Keeps;
    if k > 0 {
      SelectedMonotone(rules, rules', queries, row, top, k - 1);
    }
  }

  lemma ProductOrder(top: real, x: real, y: real)
    requires x <= y
    ensures top >= 0.0 ==> Threshold(top, x) <= Threshold(top, y)
    ensures top <= 0.0 ==> Threshold(top, x) >= Threshold(top, y)
    ensures x < y && top < 0.0 ==> Threshold(top, x) > Threshold(top, y)
  {
    var d := y - x;
    assert Threshold(top, y) - Threshold(top, x) == top * d;
    if top >= 0.0 {
      assert top * d >= 0.0;
    } else if x < y {
      assert (-top) * d > 0.0;
    }
  }

  /**
   Raising alpha only takes blocks away from a row whose best score is non-negative. With a
   non-positive best score it is the other way round: raising alpha only adds blocks.
  */
  lemma RaisingAlpha(rules: Rules, alpha: real, queries: nat, row: seq<real>)
    requires row != [] && rules.alpha <= alpha
    ensures var top := Best(row);
            var s := Selected(rules, queries, row, top, |row|);
            var s' := Selected(rules.(alpha := alpha), queries, row, top, |row|);
            && (top >= 0.0 ==> (forall n | n in s' :: n in s) && |s'| <= |s|)
            && (top <= 0.0 ==> (forall n | n in s :: n in s') && |s| <= |s'|)
  {
    hide Threshold, Best, Selected;
    var top := Best(row);
    var higher := rules.(alpha := alpha);
    ProductOrder(top, rules.alpha, alpha);
    SelectedExactly(rules, queries, row, top, |row|);
    SelectedExactly(higher, queries, row, top, |row|);
    if top >= 0.0 {
      SelectedMonotone(rules, higher, queries, row, top, |row|);
    }
    if top <= 0.0 {
      SelectedMonotone(higher, rules, queries, row, top, |row|);
    }
  }

  /**
   For alpha below one the score rule selects something exactly when the best score is not
   negative: with only negative scores the threshold lies above the best of them.
  */
  lemma ScoreRuleFiresIff(rules: Rules, row: seq<real>)
    requires row != [] && rules.alpha < 1.0
    ensures
      (exists n :: 0 <= n < |row| && row[n] >= Threshold(Best(row), rules.alpha)) <==> Best(row) >= 0.0
  {
    hide Best;
    var top := Best(row);
    var n :| 0 <= n < |row| && row[n] == top;
    ProductOrder(top, rules.alpha, 1.0);
    assert Threshold(top, 1.0) == top;
  }

  /** With only negative scores the sink, window and last-rows rules alone decide. */
  lemma NegativeRow(rules: Rules, queries: nat, row: seq<real>)
    requires row != [] && rules.alpha < 1.0 && Best(row) < 0.0
    ensures
      var m := |row| - 1;
      forall n :: n in Selected(rules, queries, row, Best(row), |row|) <==>
        0 <= n <= m && (n < rules.sink || m - n < rules.window || m >= queries - rules.lastFull)
  {
    hide Best, Threshold, Selected;
    ScoreRuleFiresIff(rules, row);
    SelectedExactly(rules, queries, row, Best(row), |row|);
  }

  /** With the default rules a row of equal negative scores drops a block that no other beats. */
  lemma BestBlockDropped(rules: Rules, seqLen: nat, queries: nat, row: seq<real>)
    requires rules == Configure(0.12, seqLen) && queries == 100 && row == seq(7, n => -1.0)
    ensures row[2] == Best(row) && 2 !in Selected(rules, queries, row, Best(row), |row|)
    ensures forall n | 0 <= n < 7 && n != 2 :: n in Selected(rules, queries, row, Best(row), |row|)
  {
    hide Best, Selected;
    assert Best(row) == -1.0;
    NegativeRow(rules, queries, row);
  }

  /** A window of one block or more keeps the diagonal, so no row is empty. */
  lemma DiagonalKept(rules: Rules, queries: nat, row: seq<real>, top: real)
    requires |row| > 0 && rules.window >= 1
    ensures var s := Selected(rules, queries, row, top, |row|);
            s != [] && s[|s| - 1] == |row| - 1
  {
    hide Threshold;
  }

  // ---------------------------------------------------------------------
  // The dense configuration
  // ---------------------------------------------------------------------

  function BlockCount(seqLen: nat, blockSize: nat): nat
    requires blockSize > 0
  {
    (seqLen + blockSize - 1) / blockSize
  }

  /** The selection rules for a requested alpha; one or more asks for every block. */
  function Configure(alpha: real, seqLen: nat): Rules {
    if alpha >= 1.0 then Rules(seqLen, seqLen, seqLen, 0.0) else Rules(2, 4, 2, alpha)
  }

  lemma {:induction false} SelectedAll(rules: Rules, queries: nat, row: seq<real>, top: real, k: nat)
    requires k <= |row| <= rules.window
    ensures Selected(rules, queries, row, top, k) == seq(k, n => n)
  {
    if k > 0 {
      SelectedAll(rules, queries, row, top, k - 1);
    }
  }

  lemma BlocksWithinTokens(seqLen: nat, blockSize: nat)
    requires blockSize > 0
    ensures BlockCount(seqLen, blockSize) <= seqLen
  {
    var x := seqLen + blockSize - 1;
    var q, r := x / blockSize, x % blockSize;
    assert x == Pack(q, r, blockSize);
    NextPlace(seqLen, q, blockSize);
    NextPlace(0, blockSize, seqLen);
    assert seqLen * blockSize == blockSize * seqLen;
  }

  /**
   Asking for less keeps the first two blocks, the last four, every block of the last two rows,
   and for its score what reaches that share of the best one.
  */
  lemma DefaultRules(alpha: real, seqLen: nat, queries: nat, row: seq<real>, n: nat)
    requires alpha < 1.0 && n < |row|
    ensures
      n in Selected(Configure(alpha, seqLen), queries, row, Best(row), |row|)
      <==> n < 2 || |row| - 1 - n < 4 || |row| - 1 >= queries - 2 || row[n] >= Best(row) * alpha
  {
    hide Best;
    SelectedExactly(Configure(alpha, seqLen), queries, row, Best(row), |row|);
  }

  /** Asking for alpha of one or more attends to all of `0..m`, whatever the scores are. */
  lemma DenseSelectsAll(alpha: real, seqLen: nat, blockSize: nat, m: nat, row: seq<real>, top: real)
    requires alpha >= 1.0 && blockSize > 0
    requires m < BlockCount(seqLen, blockSize) && |row| == m + 1
    ensures
      Selected(Configure(alpha, seqLen), BlockCount(seqLen, blockSize), row, top, m + 1)
      == seq(m + 1, n => n)
  {
    hide Selected, BlockCount;
    BlocksWithinTokens(seqLen, blockSize);
    SelectedAll(Configure(alpha, seqLen), BlockCount(seqLen, blockSize), row, top, m + 1);
  }

  // ---------------------------------------------------------------------
  // The whole grid, in place
  // ---------------------------------------------------------------------

  function Padded(s: seq<int>, n: nat): int {
    if n < |s| then s[n] else -1
  }

  /** A row of the outputs: the blocks of `s`, then `-1`, and the count. */
  ghost predicate RowHolds(g: Grid, idx: seq<int>, cnt: seq<int>, b: nat, m: nat, h: nat, s: seq<int>)
    requires InRows(g, b, m, h) && g.keys > 0 && |idx| == Cells(g) && |cnt| == Rows(g)
  {
    CellInBounds(g, b, m, 0, h);
    && cnt[Row(g, b, m, h)] == |s|
    && forall n | 0 <= n < g.keys :: CellHolds(g, idx, b, m, n, h, Padded(s, n))
  }

  ghost predicate RowWritten(
    g: Grid, rules: Rules, score: seq<real>, idx: seq<int>, cnt: seq<int>, b: nat, m: nat, h: nat)
    requires InRows(g, b, m, h) && g.queries <= g.keys
    requires |score| == |idx| == Cells(g) && |cnt| == Rows(g)
  {
    RowHolds(g, idx, cnt, b, m, h, RowSelection(g, rules, score, b, m, h))
  }

  ghost function RowSelection(g: Grid, rules: Rules, score: seq<real>, b: nat, m: nat, h: nat): seq<int>
    requires InRows(g, b, m, h) && g.queries <= g.keys && |score| == Cells(g)
  {
    var row := CausalScores(g, score, b, m, h);
    Selected(rules, g.queries, row, Best(row), m + 1)
  }

  ghost predicate CellHolds(g: Grid, idx: seq<int>, b: nat, m: nat, n: nat, h: nat, x: int)
    requires InGrid(g, b, m, n, h) && |idx| == Cells(g)
  {
    CellInBounds(g, b, m, n, h);
    idx[Cell(g, b, m, n, h)] == x
  }

  ghost predicate InRow(g: Grid, i: int, b: nat, m: nat, h: nat) {
    exists n: nat :: n < g.keys && i == Cell(g, b, m, n, h)
  }

  ghost predicate OnlyRowChanged(g: Grid, idx: seq<int>, idx': seq<int>, b: nat, m: nat, h: nat) {
    && |idx| == |idx'| == Cells(g)
    && forall i | 0 <= i < |idx| :: idx[i] == idx'[i] || InRow(g, i, b, m, h)
  }

  /** Writing one row leaves every other row as it was. */
  lemma OtherRowKept(
    g: Grid, idx: seq<int>, cnt: seq<int>, idx': seq<int>,
    b: nat, m: nat, h: nat, count: int, b': nat, m': nat, h': nat, s: seq<int>)
    requires InRows(g, b, m, h) && InRows(g, b', m', h') && (b, m, h) != (b', m', h')
    requires g.keys > 0 && |idx| == Cells(g) && |cnt| == Rows(g)
    requires RowHolds(g, idx, cnt, b', m', h', s)
    requires OnlyRowChanged(g, idx, idx', b, m, h)
    requires Row(g, b, m, h) < |cnt|
    ensures RowHolds(g, idx', cnt[Row(g, b, m, h) := count], b', m', h', s)
  {
    hide Cell, Row, Cells, Rows, Padded;
    CellInBounds(g, b', m', 0, h');
    if Row(g, b, m, h) == Row(g, b', m', h') {
      RowDistinct(g, b, m, h, b', m', h');
    }
    forall n | 0 <= n < g.keys
      ensures CellHolds(g, idx', b', m', n, h', Padded(s, n))
    {
      CellInBounds(g, b', m', n, h');
      assert CellHolds(g, idx, b', m', n, h', Padded(s, n));
      var i := Cell(g, b', m', n, h');
      if InRow(g, i, b, m, h) {
        var k: nat :| k < g.keys && i == Cell(g, b, m, k, h);
        CellDistinct(g, b, m, k, h, b', m', n, h');
      }
    }
  }

  method MaxScore(g: Grid, score: array<real>, b: nat, m: nat, h: nat) returns (top: real)
    requires InRows(g, b, m, h) && g.queries <= g.keys && score.Length == Cells(g)
    ensures top == Best(CausalScores(g, score[..], b, m, h))
  {
    hide Cell, Cells, Best;
    ghost var row := CausalScores(g, score[..], b, m, h);
    CellInBounds(g, b, m, 0, h);
    top := score[Cell(g, b, m, 0, h)];
    assert row[0] == top;
    for n := 0 to m + 1
      invariant top in row && forall k | 0 <= k < n :: row[k] <= top
    {
      CellInBounds(g, b, m, n, h);
      var v := score[Cell(g, b, m, n, h)];
      assert row[n] == v;
      if v > top {
        top := v;
      }
    }
  }

  method SelectRow(g: Grid, rules: Rules, score: array<real>, b: nat, m: nat, h: nat)
    returns (selected: seq<int>)
    requires InRows(g, b, m, h) && g.queries <= g.keys && score.Length == Cells(g)
    ensures selected == RowSelection(g, rules, score[..], b, m, h)
  {
    hide Cell, Cells, Threshold, Best, IsLargest;
    ghost var row := CausalScores(g, score[..], b, m, h);
    var top := MaxScore(g, score, b, m, h);
    var thresh := Threshold(top, rules.alpha);
    var lastFull := m >= g.queries - rules.lastFull;
    selected := [];
    for n := 0 to m + 1
      invariant selected == Selected(rules, g.queries, row, top, n)
    {
      CellInBounds(g, b, m, n, h);
      var keep := false;
      if n < rules.sink { keep := true; }
      if m - n < rules.window && n <= m { keep := true; }
      if lastFull { keep := true; }
      if !keep {
        var v := score[Cell(g, b, m, n, h)];
        assert row[n] == v;
        if v >= thresh { keep := true; }
      }
      if keep { selected := selected + [n]; }
    }
  }

  method WriteRow(g: Grid, idxOut: array<int>, b: nat, m: nat, h: nat, selected: seq<int>)
    requires InRows(g, b, m, h) && idxOut.Length == Cells(g)
    modifies idxOut
    ensures forall n | 0 <= n < g.keys :: CellHolds(g, idxOut[..], b, m, n, h, Padded(selected, n))
    ensures OnlyRowChanged(g, old(idxOut[..]), idxOut[..], b, m, h)
  {
    hide Cell, Cells, Padded;
    for n := 0 to g.keys
      invariant forall k | 0 <= k < n :: CellHolds(g, idxOut[..], b, m, k, h, Padded(selected, k))
      invariant OnlyRowChanged(g, old(idxOut[..]), idxOut[..], b, m, h)
    {
      CellInBounds(g, b, m, n, h);
      ghost var was := idxOut[..];
      idxOut[Cell(g, b, m, n, h)] := Padded(selected, n);
      forall k | 0 <= k < n
        ensures CellHolds(g, idxOut[..], b, m, k, h, Padded(selected, k))
      {
        CellInBounds(g, b, m, k, h);
        assert CellHolds(g, was, b, m, k, h, Padded(selected, k));
        if Cell(g, b, m, k, h) == Cell(g, b, m, n, h) {
          CellDistinct(g, b, m, k, h, b, m, n, h);
        }
      }
    }
  }

  /** Row `(b', m', h')` comes before row `(b, m, h)` in the loops. */
  ghost predicate Before(b': int, m': int, h': int, b: int, m: int, h: int) {
    b' < b || (b' == b && (m' < m || (m' == m && h' < h)))
  }

  ghost predicate WrittenBefore(
    g: Grid, rules: Rules, score: seq<real>, idx: seq<int>, cnt: seq<int>, b: int, m: int, h: int)
  {
    && g.queries <= g.keys
    && |score| == |idx| == Cells(g) && |cnt| == Rows(g)
    && forall b', m', h' | InRows(g, b', m', h') && Before(b', m', h', b, m, h) ::
         RowWritten(g, rules, score, idx, cnt, b', m', h')
  }

  /** Every row of every batch and head is written, whatever the output arrays held before. */
  method BlockSelectHost(
    score: array<real>, g: Grid, rules: Rules, idxOut: array<int>, cntOut: array<int>)
    requires g.queries <= g.keys
    requires score.Length == idxOut.Length == Cells(g) && cntOut.Length == Rows(g)
    requires idxOut != cntOut
    modifies idxOut, cntOut
    ensures forall b, m, h | InRows(g, b, m, h) ::
              RowWritten(g, rules, score[..], idxOut[..], cntOut[..], b, m, h)
  {
    hide RowWritten;
    for b := 0 to g.batches
      invariant WrittenBefore(g, rules, score[..], idxOut[..], cntOut[..], b, 0, 0)
    {
      for m := 0 to g.queries
        invariant WrittenBefore(g, rules, score[..], idxOut[..], cntOut[..], b, m, 0)
      {
        for h := 0 to g.heads
          invariant WrittenBefore(g, rules, score[..], idxOut[..], cntOut[..], b, m, h)
        {
          DoRow(score, g, rules, idxOut, cntOut, b, m, h);
        }
      }
    }
  }

  method DoRow(
    score: array<real>, g: Grid, rules: Rules, idxOut: array<int>, cntOut: array<int>,
    b: nat, m: nat, h: nat)
    requires InRows(g, b, m, h) && idxOut != cntOut
    requires score.Length == idxOut.Length == Cells(g) && cntOut.Length == Rows(g)
    requires WrittenBefore(g, rules, score[..], idxOut[..], cntOut[..], b, m, h)
    modifies idxOut, cntOut
    ensures WrittenBefore(g, rules, score[..], idxOut[..], cntOut[..], b, m, h + 1)
  {
    hide Cell, Cells, Row, Rows, RowSelection, Padded, OnlyRowChanged;
    ghost var idx, cnt := idxOut[..], cntOut[..];
    var selected := SelectRow(g, rules, score, b, m, h);
    WriteRow(g, idxOut, b, m, h, selected);
    CellInBounds(g, b, m, 0, h);
    cntOut[Row(g, b, m, h)] := |selected|;
    assert cntOut[..] == cnt[Row(g, b, m, h) := |selected|];
    assert RowHolds(g, idxOut[..], cntOut[..], b, m, h, selected);
    forall b', m', h' | InRows(g, b', m', h') && Before(b', m', h', b, m, h)
      ensures RowWritten(g, rules, score[..], idxOut[..], cntOut[..], b', m', h')
    {
      assert RowWritten(g, rules, score[..], idx, cnt, b', m', h');
      OtherRowKept(g, idx, cnt, idxOut[..], b, m, h, |selected|, b', m', h',
        RowSelection(g, rules, score[..], b', m', h'));
    }
  }

  /**
   A row in terms of the flat scores: for the largest of those that causality allows, the blocks
   of one of the first three rules and those whose score reaches the share alpha of it.
  */
  lemma RowMeans(g: Grid, rules: Rules, score: seq<real>, b: nat, m: nat, h: nat) returns (best: nat)
    requires InRows(g, b, m, h) && g.queries <= g.keys && |score| == Cells(g)
    ensures best <= m
    ensures forall n: nat | n <= m :: InGrid(g, b, m, n, h) && Cell(g, b, m, n, h) < |score|
    ensures forall n: nat | n <= m :: score[Cell(g, b, m, n, h)] <= score[Cell(g, b, m, best, h)]
    ensures forall n: nat ::
      n in RowSelection(g, rules, score, b, m, h)
      <==> n <= m
           && (n < rules.sink || m - n < rules.window || m >= g.queries - rules.lastFull
               || score[Cell(g, b, m, n, h)] >= score[Cell(g, b, m, best, h)] * rules.alpha)
  {
    hide Cell, Cells, Best, Selected, CausalScores;
    var row := CausalScores(g, score, b, m, h);
    best :| best < |row| && row[best] == Best(row);
    CausalScoresAre(g, score, b, m, h);
    SelectedExactly(rules, g.queries, row, Best(row), m + 1);
  }

  lemma CausalScoresAre(g: Grid, score: seq<real>, b: nat, m: nat, h: nat)
    requires InRows(g, b, m, h) && g.queries <= g.keys && |score| == Cells(g)
    ensures forall n: nat | n <= m ::
              && InGrid(g, b, m, n, h) && Cell(g, b, m, n, h) < |score|
              && CausalScores(g, score, b, m, h)[n] == score[Cell(g, b, m, n, h)]
  {
    hide Cell, Cells;
    forall n: nat | n <= m
      ensures InGrid(g, b, m, n, h) && Cell(g, b, m, n, h) < |score|
      ensures CausalScores(g, score, b, m, h)[n] == score[Cell(g, b, m, n, h)]
    {
      CellInBounds(g, b, m, n, h);
    }
  }

  /** What is read back of a row: as many blocks as the count says, and minus one after them. */
  lemma RowReadsBack(
    g: Grid, rules: Rules, score: seq<real>, idx: seq<int>, cnt: seq<int>, b: nat, m: nat, n: nat, h: nat)
    requires InGrid(g, b, m, n, h) && g.queries <= g.keys && |score| == |idx| == Cells(g) && |cnt| == Rows(g)
    requires RowWritten(g, rules, score, idx, cnt, b, m, h)
    ensures Cell(g, b, m, n, h) < |idx| && Row(g, b, m, h) < |cnt|
    ensures
      var blocks, count := RowSelection(g, rules, score, b, m, h), cnt[Row(g, b, m, h)];
      count == |blocks| && idx[Cell(g, b, m, n, h)] == if n < count then blocks[n] else -1
  {
    hide Cell, Cells, Row, Rows, RowSelection;
    CellInBounds(g, b, m, n, h);
    assert CellHolds(g, idx, b, m, n, h, Padded(RowSelection(g, rules, score, b, m, h), n));
  }

  /** The two outputs are fixed, cell by cell, by the scores and the rules. */
  lemma OutputDetermined(
    g: Grid, rules: Rules, score: seq<real>, idx: seq<int>, cnt: seq<int>, idx': seq<int>, cnt': seq<int>)
    requires WrittenBefore(g, rules, score, idx, cnt, g.batches, 0, 0)
    requires WrittenBefore(g, rules, score, idx', cnt', g.batches, 0, 0)
    ensures idx == idx' && cnt == cnt'
  {
    hide Cell, Cells, Row, Rows, RowSelection, Padded;
    forall i | 0 <= i < |idx|
      ensures idx[i] == idx'[i]
    {
      var b, m, n, h := CellsCovered(g, i);
      assert RowWritten(g, rules, score, idx, cnt, b, m, h) && RowWritten(g, rules, score, idx', cnt', b, m, h);
      var x := Padded(RowSelection(g, rules, score, b, m, h), n);
      assert CellHolds(g, idx, b, m, n, h, x) && CellHolds(g, idx', b, m, n, h, x);
    }
    forall i | 0 <= i < |cnt|
      ensures cnt[i] == cnt'[i]
    {
      var b, m, h := RowsCovered(g, i);
      assert RowWritten(g, rules, score, idx, cnt, b, m, h) && RowWritten(g, rules, score, idx', cnt', b, m, h);
    }
  }
}
