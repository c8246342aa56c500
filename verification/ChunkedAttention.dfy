/**
 Dense causal attention over flat tensors, computed one chunk of queries at a time. Each chunk
 masks its keys in a tensor of its own and writes its own region of the output.
*/
module ChunkedAttention {
  import opened Arithmetic
  import opened LinearAlgebra
  import opened Exponential

  /** Tokens, query heads, key heads and head width. Consecutive query heads share a key head. */
  datatype Shape = Shape(tokens: nat, heads: nat, keyHeads: nat, width: nat)

  datatype ElementType = F16 | BF16 | F32 | Unsupported

  datatype Bias = Zero | MinusInfinity

  // ---------------------------------------------------------------------
  // Flat tensors
  // ---------------------------------------------------------------------

  function Cells(rows: nat, cols: nat, width: nat): nat {
    rows * (cols * width)
  }

  function Offset(i: nat, j: nat, cols: nat, width: nat): nat {
    Cells(i, cols, width) + j * width
  }

  ghost predicate VectorFits(x: Vec, i: nat, j: nat, cols: nat, width: nat) {
    Offset(i, j, cols, width) + width <= |x|
  }

  /** The innermost axis at `(i, j)` of a tensor with `cols` entries on its middle axis. */
  function Vector(x: Vec, i: nat, j: nat, cols: nat, width: nat): (v: Vec)
    requires VectorFits(x, i, j, cols, width)
    ensures |v| == width
  {
    var at := Offset(i, j, cols, width);
    x[at..at + width]
  }

  lemma OffsetIsPacked(i: nat, j: nat, cols: nat, width: nat)
    ensures Offset(i, j, cols, width) == Pack(i, j, cols) * width
  {
  }

  lemma FitsIn(x: Vec, i: nat, j: nat, rows: nat, cols: nat, width: nat)
    requires i < rows && j < cols && Cells(rows, cols, width) <= |x|
    ensures VectorFits(x, i, j, cols, width)
    ensures Offset(i, j, cols, width) + width <= Cells(i + 1, cols, width) <= Cells(rows, cols, width)
  {
    NextPlace(i, rows, cols * width);
    NextPlace(j, cols, width);
  }

  function Join(rows: seq<Vec>, width: nat): (x: Vec)
    requires HasShape(rows, |rows|, width)
    ensures |x| == |rows| * width
  {
    if rows == [] then []
    else
      var n := |rows| - 1;
      Join(rows[..n], width) + rows[n]
  }

  lemma {:induction false} JoinSlice(rows: seq<Vec>, width: nat, p: nat)
    requires HasShape(rows, |rows|, width) && p < |rows|
    ensures p * width + width <= |rows| * width
    ensures Join(rows, width)[p * width..p * width + width] == rows[p]
  {
    var n := |rows| - 1;
    NextPlace(p, |rows|, width);
    if p < n {
      JoinSlice(rows[..n], width, p);
    } else {
      assert |Join(rows[..n], width)| == n * width;
    }
  }

  lemma JoinVector(rows: seq<Vec>, i: nat, j: nat, cols: nat, width: nat)
    requires HasShape(rows, |rows|, width) && Pack(i, j, cols) < |rows|
    ensures VectorFits(Join(rows, width), i, j, cols, width)
    ensures Vector(Join(rows, width), i, j, cols, width) == rows[Pack(i, j, cols)]
  {
    OffsetIsPacked(i, j, cols, width);
    JoinSlice(rows, width, Pack(i, j, cols));
  }

  /** A contiguous copy with the two outer axes exchanged. */
  function Permute(x: Vec, rows: nat, cols: nat, width: nat): (y: Vec)
    requires |x| == Cells(rows, cols, width)
    ensures |y| == Cells(cols, rows, width)
  {
    CellsCount(cols, rows, width);
    Join(PermutedVectors(x, rows, cols, width, cols * rows), width)
  }

  function PermutedVectors(x: Vec, rows: nat, cols: nat, width: nat, n: nat): (m: Matrix)
    requires |x| == Cells(rows, cols, width) && n == cols * rows
    ensures HasShape(m, n, width)
  {
    seq(n, p requires 0 <= p < n =>
      PlaceInRange(p, cols, rows);
      FitsIn(x, p % rows, p / rows, rows, cols, width);
      Vector(x, p % rows, p / rows, cols, width))
  }

  lemma CellsCount(rows: nat, cols: nat, width: nat)
    ensures rows * cols * width == Cells(rows, cols, width)
  {
  }

  lemma PlaceInRange(p: nat, n: nat, d: nat)
    requires p < n * d
    ensures d > 0 && p / d < n && p % d < d
  {
    var q, r := PackCovers(p, n, d);
    PackDecode(q, r, d);
  }

  lemma PermuteVector(x: Vec, rows: nat, cols: nat, width: nat, i: nat, j: nat)
    requires |x| == Cells(rows, cols, width) && i < rows && j < cols
    ensures VectorFits(x, i, j, cols, width) && VectorFits(Permute(x, rows, cols, width), j, i, rows, width)
    ensures Vector(Permute(x, rows, cols, width), j, i, rows, width) == Vector(x, i, j, cols, width)
  {
    hide Pack, Cells, Offset;
    FitsIn(x, i, j, rows, cols, width);
    PackBound(j, i, cols, rows);
    PackDecode(j, i, rows);
    var vectors := PermutedVectors(x, rows, cols, width, cols * rows);
    JoinVector(vectors, j, i, rows, width);
  }

  // ---------------------------------------------------------------------
  // Attention
  // ---------------------------------------------------------------------

  function Ones(n: nat): (x: Vec)
    ensures |x| == n
  {
    seq(n, i => 1.0)
  }

  function Total(w: Vec): real {
    Dot(w, Ones(|w|))
  }

  function Ratio(a: real, b: real): real {
    if b == 0.0 then 0.0 else a / b
  }

  function Column(values: seq<Vec>, width: nat, d: nat): (c: Vec)
    requires HasShape(values, |values|, width) && d < width
    ensures |c| == |values|
  {
    seq(|values|, i requires 0 <= i < |values| => values[i][d])
  }

  /** The average of the values, weighted by `w`. */
  function Average(w: Vec, values: seq<Vec>, width: nat): (o: Vec)
    requires |w| == |values| && HasShape(values, |values|, width)
    ensures |o| == width
  {
    seq(width, d requires 0 <= d < width => Ratio(Dot(w, Column(values, width, d)), Total(w)))
  }

  function Weights(exp: real -> real, scale: real, q: Vec, keys: seq<Vec>): (w: Vec)
    requires HasShape(keys, |keys|, |q|)
    ensures |w| == |keys|
  {
    seq(|keys|, i requires 0 <= i < |keys| => exp(Times(scale, Dot(q, keys[i]))))
  }

  /** A bias of minus infinity gives its key the weight zero. */
  function MaskedWeights(exp: real -> real, scale: real, q: Vec, keys: seq<Vec>, bias: seq<Bias>): (w: Vec)
    requires HasShape(keys, |keys|, |q|) && |bias| == |keys|
    ensures |w| == |keys|
  {
    seq(|keys|, i requires 0 <= i < |keys| =>
      if bias[i] == MinusInfinity then 0.0 else exp(Times(scale, Dot(q, keys[i]))))
  }

  lemma {:induction false} TotalPositive(w: Vec)
    requires |w| > 0 && forall i | 0 <= i < |w| :: w[i] > 0.0
    ensures Total(w) > 0.0
  {
    hide Times;
    var n := |w| - 1;
    TimesUnits(w[n]);
    DotSnoc(w, Ones(|w|));
    assert Ones(|w|)[..n] == Ones(|w[..n]|);
    if n > 0 {
      TotalPositive(w[..n]);
    }
  }

  lemma {:induction false} DotPadded(w: Vec, w': Vec, x: Vec, n: nat)
    requires n <= |w'| == |x| && |w| == n
    requires forall i | 0 <= i < |w'| :: w'[i] == if i < n then w[i] else 0.0
    ensures Dot(w', x) == Dot(w, x[..n])
  {
    hide Times;
    if |w'| == n {
      assert w' == w && x[..n] == x;
    } else {
      var m := |w'| - 1;
      DotPadded(w, w'[..m], x[..m], n);
      assert x[..m][..n] == x[..n];
      TimesUnits(x[m]);
    }
  }

  /** Masking all keys from `n` on is attending to the first `n` only. */
  lemma MaskedIsPrefix(
    exp: real -> real, scale: real, q: Vec, keys: seq<Vec>, values: seq<Vec>, bias: seq<Bias>, n: nat)
    requires HasShape(keys, |keys|, |q|) && HasShape(values, |keys|, |q|) && |bias| == |keys|
    requires n <= |keys| && forall i | 0 <= i < |keys| :: bias[i] == if i < n then Zero else MinusInfinity
    ensures
      Average(MaskedWeights(exp, scale, q, keys, bias), values, |q|)
      == Average(Weights(exp, scale, q, keys[..n]), values[..n], |q|)
  {
    hide Dot, Times, Ratio;
    var w', w := MaskedWeights(exp, scale, q, keys, bias), Weights(exp, scale, q, keys[..n]);
    DotPadded(w, w', Ones(|w'|), n);
    assert Ones(|w'|)[..n] == Ones(n);
    forall d | 0 <= d < |q|
      ensures Dot(w', Column(values, |q|, d)) == Dot(w, Column(values[..n], |q|, d))
    {
      DotPadded(w, w', Column(values, |q|, d), n);
      assert Column(values, |q|, d)[..n] == Column(values[..n], |q|, d);
    }
  }

  // ---------------------------------------------------------------------
  // The unchunked reference
  // ---------------------------------------------------------------------

  ghost predicate ShapeOk(sh: Shape) {
    sh.keyHeads > 0 && sh.heads > 0 && sh.heads % sh.keyHeads == 0
  }

  function KeyHead(sh: Shape, h: nat): nat
    requires ShapeOk(sh) && h < sh.heads
  {
    HeadsShared(sh);
    h / (sh.heads / sh.keyHeads)
  }

  lemma HeadsShared(sh: Shape)
    requires ShapeOk(sh)
    ensures sh.heads / sh.keyHeads > 0
    ensures sh.heads == sh.keyHeads * (sh.heads / sh.keyHeads)
  {
    assert sh.heads == Pack(sh.heads / sh.keyHeads, 0, sh.keyHeads);
  }

  lemma KeyHeadInRange(sh: Shape, h: nat)
    requires ShapeOk(sh) && h < sh.heads
    ensures KeyHead(sh, h) < sh.keyHeads
  {
    HeadsShared(sh);
    PlaceInRange(h, sh.keyHeads, sh.heads / sh.keyHeads);
  }

  /** The vectors of head `j` at the first `n` tokens of a tensor laid out token by token. */
  function TokenVectors(x: Vec, n: nat, j: nat, cols: nat, width: nat): (m: Matrix)
    requires j < cols && Cells(n, cols, width) <= |x|
    ensures HasShape(m, n, width)
  {
    seq(n, i requires 0 <= i < n => FitsIn(x, i, j, n, cols, width); Vector(x, i, j, cols, width))
  }

  ghost predicate InputsFit(sh: Shape, q: Vec, k: Vec, v: Vec) {
    && ShapeOk(sh)
    && |q| == Cells(sh.tokens, sh.heads, sh.width)
    && |k| == |v| == Cells(sh.tokens, sh.keyHeads, sh.width)
  }

  /** Attention of token `s` to the tokens `0..s`: softmax over exactly those keys. */
  ghost function CausalVector(
    exp: real -> real, scale: real, sh: Shape, q: Vec, k: Vec, v: Vec, s: nat, h: nat): (o: Vec)
    requires InputsFit(sh, q, k, v) && s < sh.tokens && h < sh.heads
    ensures |o| == sh.width
  {
    FitsIn(q, s, h, sh.tokens, sh.heads, sh.width);
    KeyHeadInRange(sh, h);
    FitsIn(k, s, KeyHead(sh, h), sh.tokens, sh.keyHeads, sh.width);
    var keys := TokenVectors(k, s + 1, KeyHead(sh, h), sh.keyHeads, sh.width);
    var values := TokenVectors(v, s + 1, KeyHead(sh, h), sh.keyHeads, sh.width);
    Average(Weights(exp, scale, Vector(q, s, h, sh.heads, sh.width), keys), values, sh.width)
  }

  /** Query heads share a key head in consecutive groups of equal size. */
  lemma HeadGroups(sh: Shape, h: nat, j: nat)
    requires ShapeOk(sh) && h < sh.heads
    ensures var size := sh.heads / sh.keyHeads;
            size * sh.keyHeads == sh.heads && (KeyHead(sh, h) == j <==> j * size <= h < j * size + size)
  {
    HeadsShared(sh);
    var size, jh := sh.heads / sh.keyHeads, KeyHead(sh, h);
    assert h == Pack(jh, h % size, size);
    NextPlace(jh, j, size);
    NextPlace(j, jh, size);
  }

  /** Where the entries of a vector lie in memory: token by token, head by head. */
  lemma VectorAt(x: Vec, i: nat, j: nat, cols: nat, width: nat, d: nat)
    requires VectorFits(x, i, j, cols, width) && d < width
    ensures
      var at := (i * cols + j) * width + d;
      0 <= at < |x| && Vector(x, i, j, cols, width)[d] == x[at]
  {
    OffsetIsPacked(i, j, cols, width);
  }

  /** One weight for each token up to `s`, and with them the average of its values. */
  lemma CausalAverage(
    exp: real -> real, scale: real, sh: Shape, q: Vec, k: Vec, v: Vec, s: nat, h: nat, d: nat)
    returns (w: Vec, x: Vec)
    requires IsExp(exp) && InputsFit(sh, q, k, v) && s < sh.tokens && h < sh.heads && d < sh.width
    ensures |w| == |x| == s + 1
    ensures VectorFits(q, s, h, sh.heads, sh.width)
    ensures forall i | 0 <= i <= s ::
              && VectorFits(k, i, KeyHead(sh, h), sh.keyHeads, sh.width)
              && VectorFits(v, i, KeyHead(sh, h), sh.keyHeads, sh.width)
              && WeightIs(w, exp, scale, sh, q, k, s, h, i)
              && x[i] == Vector(v, i, KeyHead(sh, h), sh.keyHeads, sh.width)[d]
    ensures Total(w) > 0.0
    ensures Times(CausalVector(exp, scale, sh, q, k, v, s, h)[d], Total(w)) == Dot(w, x)
  {
    hide Total, Dot, Vector, Cells, Offset, KeyHead;
    FitsIn(q, s, h, sh.tokens, sh.heads, sh.width);
    KeyHeadInRange(sh, h);
    var j := KeyHead(sh, h);
    forall i | 0 <= i <= s
      ensures VectorFits(k, i, j, sh.keyHeads, sh.width) && VectorFits(v, i, j, sh.keyHeads, sh.width)
    {
      FitsIn(k, i, j, sh.tokens, sh.keyHeads, sh.width);
      FitsIn(v, i, j, sh.tokens, sh.keyHeads, sh.width);
    }
    FitsIn(k, s, j, sh.tokens, sh.keyHeads, sh.width);
    var qv := Vector(q, s, h, sh.heads, sh.width);
    var keys := TokenVectors(k, s + 1, j, sh.keyHeads, sh.width);
    var values := TokenVectors(v, s + 1, j, sh.keyHeads, sh.width);
    w, x := Weights(exp, scale, qv, keys), Column(values, sh.width, d);
    forall i | 0 <= i <= s
      ensures WeightIs(w, exp, scale, sh, q, k, s, h, i) && x[i] == Vector(v, i, j, sh.keyHeads, sh.width)[d]
    {
      assert values[i] == Vector(v, i, j, sh.keyHeads, sh.width);
      WeightAt(w, exp, scale, sh, q, k, s, h, i, keys);
    }
    CausalTotalPositive(exp, scale, qv, keys);
    RatioIs(Dot(w, x), Total(w));
  }

  ghost predicate WeightIs(
    w: Vec, exp: real -> real, scale: real, sh: Shape, q: Vec, k: Vec, s: nat, h: nat, i: nat)
    requires ShapeOk(sh) && h < sh.heads && i < |w|
    requires VectorFits(q, s, h, sh.heads, sh.width) && VectorFits(k, i, KeyHead(sh, h), sh.keyHeads, sh.width)
  {
    var key := Vector(k, i, KeyHead(sh, h), sh.keyHeads, sh.width);
    w[i] == exp(Times(scale, Dot(Vector(q, s, h, sh.heads, sh.width), key)))
  }

  lemma WeightAt(
    w: Vec, exp: real -> real, scale: real, sh: Shape, q: Vec, k: Vec, s: nat, h: nat, i: nat, keys: Matrix)
    requires ShapeOk(sh) && h < sh.heads && i < |keys| && HasShape(keys, |keys|, sh.width)
    requires VectorFits(q, s, h, sh.heads, sh.width) && VectorFits(k, i, KeyHead(sh, h), sh.keyHeads, sh.width)
    requires keys[i] == Vector(k, i, KeyHead(sh, h), sh.keyHeads, sh.width)
    requires w == Weights(exp, scale, Vector(q, s, h, sh.heads, sh.width), keys)
    ensures WeightIs(w, exp, scale, sh, q, k, s, h, i)
  {
    hide Vector, KeyHead, VectorFits, Times;
  }

  lemma RatioIs(a: real, b: real)
    requires b != 0.0
    ensures Times(Ratio(a, b), b) == a
  {
  }

  /** The first token attends to itself only: its output is its value. */
  lemma FirstTokenIsValue(exp: real -> real, scale: real, sh: Shape, q: Vec, k: Vec, v: Vec, h: nat, d: nat)
    requires IsExp(exp) && InputsFit(sh, q, k, v) && 0 < sh.tokens && h < sh.heads && d < sh.width
    ensures VectorFits(v, 0, KeyHead(sh, h), sh.keyHeads, sh.width)
    ensures
      CausalVector(exp, scale, sh, q, k, v, 0, h)[d] == Vector(v, 0, KeyHead(sh, h), sh.keyHeads, sh.width)[d]
  {
    hide CausalVector, Vector, KeyHead, VectorFits, WeightIs;
    var w, x := CausalAverage(exp, scale, sh, q, k, v, 0, h, d);
    EqualAverage(w, x, x[0], CausalVector(exp, scale, sh, q, k, v, 0, h)[d]);
  }

  /** Values that agree are passed on as they are, whatever the weights. */
  lemma EqualValues(
    exp: real -> real, scale: real, sh: Shape, q: Vec, k: Vec, v: Vec, s: nat, h: nat, d: nat, y: real)
    requires IsExp(exp) && InputsFit(sh, q, k, v) && s < sh.tokens && h < sh.heads && d < sh.width
    requires forall i | 0 <= i <= s && VectorFits(v, i, KeyHead(sh, h), sh.keyHeads, sh.width) ::
               Vector(v, i, KeyHead(sh, h), sh.keyHeads, sh.width)[d] == y
    ensures CausalVector(exp, scale, sh, q, k, v, s, h)[d] == y
  {
    hide CausalVector, Vector, KeyHead, VectorFits, WeightIs;
    var w, x := CausalAverage(exp, scale, sh, q, k, v, s, h, d);
    EqualAverage(w, x, y, CausalVector(exp, scale, sh, q, k, v, s, h)[d]);
  }

  lemma EqualAverage(w: Vec, x: Vec, y: real, o: real)
    requires |w| == |x| && Total(w) > 0.0 && Times(o, Total(w)) == Dot(w, x)
    requires forall i | 0 <= i < |x| :: x[i] == y
    ensures o == y
  {
    ConstantDot(w, x, y);
    var t := Total(w);
    hide Total, Dot;
    SameFactor(o, y, t);
  }

  lemma SameFactor(a: real, b: real, t: real)
    requires t > 0.0 && Times(a, t) == Times(b, t)
    ensures a == b
  {
    assert (a - b) * t == 0.0;
  }

  lemma {:induction false} ConstantDot(w: Vec, x: Vec, y: real)
    requires |w| == |x| && forall i | 0 <= i < |x| :: x[i] == y
    ensures Dot(w, x) == Times(y, Total(w))
  {
    hide Times;
    TimesUnits(y);
    if |w| > 0 {
      var n := |w| - 1;
      ConstantDot(w[..n], x[..n], y);
      assert Ones(|w|)[..n] == Ones(n);
      TimesUnits(w[n]);
      TimesCommutes(w[n], y);
      TimesDistributes(y, Total(w[..n]), w[n]);
    }
  }

  /** The second token mixes both values in proportion to the exponentials of the scaled products of query and key. */
  lemma SecondTokenMixes(exp: real -> real, scale: real, sh: Shape, q: Vec, k: Vec, v: Vec, h: nat, d: nat)
    requires IsExp(exp) && InputsFit(sh, q, k, v) && 1 < sh.tokens && h < sh.heads && d < sh.width
    ensures
      var j := KeyHead(sh, h);
      && VectorFits(q, 1, h, sh.heads, sh.width)
      && VectorFits(k, 0, j, sh.keyHeads, sh.width) && VectorFits(k, 1, j, sh.keyHeads, sh.width)
      && VectorFits(v, 0, j, sh.keyHeads, sh.width) && VectorFits(v, 1, j, sh.keyHeads, sh.width)
      && var qv := Vector(q, 1, h, sh.heads, sh.width);
         var w0 := exp(Times(scale, Dot(qv, Vector(k, 0, j, sh.keyHeads, sh.width))));
         var w1 := exp(Times(scale, Dot(qv, Vector(k, 1, j, sh.keyHeads, sh.width))));
         Times(CausalVector(exp, scale, sh, q, k, v, 1, h)[d], w0 + w1)
         == Times(w0, Vector(v, 0, j, sh.keyHeads, sh.width)[d]) + Times(w1, Vector(v, 1, j, sh.keyHeads, sh.width)[d])
  {
    hide CausalVector, Vector, KeyHead, VectorFits, Times;
    var w, x := CausalAverage(exp, scale, sh, q, k, v, 1, h, d);
    assert WeightIs(w, exp, scale, sh, q, k, 1, h, 0) && WeightIs(w, exp, scale, sh, q, k, 1, h, 1);
    TwoTerms(w, x);
    TwoTerms(w, Ones(|w|));
    assert Ones(|w|)[0] == 1.0 && Ones(|w|)[1] == 1.0;
    TimesUnits(w[0]);
    TimesUnits(w[1]);
    assert Total(w) == w[0] + w[1];
  }

  lemma TwoTerms(w: Vec, x: Vec)
    requires |w| == |x| == 2
    ensures Dot(w, x) == Times(w[0], x[0]) + Times(w[1], x[1])
  {
    hide Times;
    var w1, x1 := w[..1], x[..1];
    assert w1[..0] == [] && x1[..0] == [];
    DotSnoc(w, x);
    DotSnoc(w1, x1);
  }

  /** The reference never divides by zero: every causal row has a positive total weight. */
  lemma CausalTotalPositive(exp: real -> real, scale: real, q: Vec, keys: seq<Vec>)
    requires IsExp(exp) && HasShape(keys, |keys|, |q|) && |keys| > 0
    ensures Total(Weights(exp, scale, q, keys)) > 0.0
  {
    hide Total;
    var w := Weights(exp, scale, q, keys);
    forall i | 0 <= i < |w|
      ensures w[i] > 0.0
    {
      ExpPositive(exp, Times(scale, Dot(q, keys[i])));
    }
    TotalPositive(w);
  }

  // ---------------------------------------------------------------------
  // One chunk
  // ---------------------------------------------------------------------

  ghost predicate CausalMask(mask: seq<Bias>, cs: nat, cl: nat) {
    && |mask| == cl * (cs + cl)
    && forall r, k | 0 <= r < cl && 0 <= k < cs + cl :: MaskHolds(mask, cs, cl, r, k)
  }

  ghost predicate MaskHolds(mask: seq<Bias>, cs: nat, cl: nat, r: nat, k: nat) {
    var at := Pack(r, k, cs + cl);
    at < |mask| && mask[at] == CausalBias(k, cs + r)
  }

  /** The graph's attention node: head-major inputs, token-major output. */
  function FlashAttention(
    exp: real -> real, scale: real, sh: Shape, q: Vec, k: Vec, v: Vec, mask: seq<Bias>, cl: nat, kv: nat): (o: Vec)
    requires ShapeOk(sh) && |q| == Cells(sh.heads, cl, sh.width)
    requires |k| == |v| == Cells(sh.keyHeads, kv, sh.width) && |mask| == cl * kv
    ensures |o| == Cells(cl, sh.heads, sh.width)
  {
    CellsCount(cl, sh.heads, sh.width);
    Join(AttendAll(exp, scale, sh, q, k, v, mask, cl, kv, cl * sh.heads), sh.width)
  }

  /** One vector for each query and head. */
  function AttendAll(
    exp: real -> real, scale: real, sh: Shape, q: Vec, k: Vec, v: Vec, mask: seq<Bias>, cl: nat, kv: nat,
    n: nat): (m: Matrix)
    requires ShapeOk(sh) && |q| == Cells(sh.heads, cl, sh.width)
    requires |k| == |v| == Cells(sh.keyHeads, kv, sh.width) && |mask| == cl * kv
    requires n == cl * sh.heads
    ensures HasShape(m, n, sh.width)
  {
    seq(n, p requires 0 <= p < n =>
      PlaceInRange(p, cl, sh.heads);
      AttendOne(exp, scale, sh, q, k, v, mask, cl, kv, p / sh.heads, p % sh.heads))
  }

  function HeadVectors(x: Vec, heads: nat, j: nat, n: nat, width: nat): (m: Matrix)
    requires j < heads && |x| == Cells(heads, n, width)
    ensures HasShape(m, n, width)
  {
    seq(n, i requires 0 <= i < n => FitsIn(x, j, i, heads, n, width); Vector(x, j, i, n, width))
  }

  function MaskRow(mask: seq<Bias>, r: nat, cl: nat, kv: nat): (bias: seq<Bias>)
    requires |mask| == cl * kv && r < cl
    ensures |bias| == kv
  {
    NextPlace(r, cl, kv);
    mask[r * kv..r * kv + kv]
  }

  function AttendOne(
    exp: real -> real, scale: real, sh: Shape, q: Vec, k: Vec, v: Vec, mask: seq<Bias>, cl: nat, kv: nat,
    r: nat, h: nat): (o: Vec)
    requires ShapeOk(sh) && |q| == Cells(sh.heads, cl, sh.width)
    requires |k| == |v| == Cells(sh.keyHeads, kv, sh.width) && |mask| == cl * kv
    requires r < cl && h < sh.heads
    ensures |o| == sh.width
  {
    FitsIn(q, h, r, sh.heads, cl, sh.width);
    KeyHeadInRange(sh, h);
    var keys := HeadVectors(k, sh.keyHeads, KeyHead(sh, h), kv, sh.width);
    var values := HeadVectors(v, sh.keyHeads, KeyHead(sh, h), kv, sh.width);
    Average(
      MaskedWeights(exp, scale, Vector(q, h, r, cl, sh.width), keys, MaskRow(mask, r, cl, kv)),
      values, sh.width)
  }

  lemma FlashAttentionVector(
    exp: real -> real, scale: real, sh: Shape, q: Vec, k: Vec, v: Vec, mask: seq<Bias>, cl: nat, kv: nat,
    r: nat, h: nat)
    requires ShapeOk(sh) && |q| == Cells(sh.heads, cl, sh.width)
    requires |k| == |v| == Cells(sh.keyHeads, kv, sh.width) && |mask| == cl * kv
    requires r < cl && h < sh.heads
    ensures var o := FlashAttention(exp, scale, sh, q, k, v, mask, cl, kv);
            && VectorFits(o, r, h, sh.heads, sh.width)
            && Vector(o, r, h, sh.heads, sh.width) == AttendOne(exp, scale, sh, q, k, v, mask, cl, kv, r, h)
  {
    hide Pack, Cells, Offset, AttendOne, Vector;
    PackBound(r, h, cl, sh.heads);
    PackDecode(r, h, sh.heads);
    var rows := AttendAll(exp, scale, sh, q, k, v, mask, cl, kv, cl * sh.heads);
    JoinVector(rows, r, h, sh.heads, sh.width);
  }

  /** A slice of whole tokens holds the vectors of those tokens. */
  lemma SliceVector(x: Vec, from: nat, to: nat, i: nat, j: nat, cols: nat, width: nat)
    requires from + i < to && j < cols && Cells(to, cols, width) <= |x|
    ensures Cells(from, cols, width) <= Cells(to, cols, width)
    ensures var y := x[Cells(from, cols, width)..Cells(to, cols, width)];
            && |y| == Cells(to - from, cols, width)
            && VectorFits(y, i, j, cols, width) && VectorFits(x, from + i, j, cols, width)
            && Vector(y, i, j, cols, width) == Vector(x, from + i, j, cols, width)
  {
    FitsIn(x, from + i, j, to, cols, width);
    CellsAdd(from, i, cols, width);
    CellsAdd(from, to - from, cols, width);
    assert Offset(from + i, j, cols, width) == Cells(from, cols, width) + Offset(i, j, cols, width);
    FitsIn(x[Cells(from, cols, width)..Cells(to, cols, width)], i, j, to - from, cols, width);
    hide Cells, Offset;
    Subslice(x, Cells(from, cols, width), Cells(to, cols, width), Offset(i, j, cols, width), width);
  }

  lemma Subslice(x: Vec, from: nat, to: nat, at: nat, n: nat)
    requires from + at + n <= to <= |x|
    ensures x[from..to][at..at + n] == x[from + at..from + at + n]
  {
    var a, b := x[from..to][at..at + n], x[from + at..from + at + n];
    forall k | 0 <= k < n
      ensures a[k] == b[k]
    {
      assert x[from..to][at + k] == x[from + (at + k)];
    }
  }

  lemma CellsZero(cols: nat, width: nat)
    ensures Cells(0, cols, width) == 0
  {
  }

  lemma CellsAdd(a: nat, b: nat, cols: nat, width: nat)
    ensures Cells(a + b, cols, width) == Cells(a, cols, width) + Cells(b, cols, width)
  {
  }

  /** The graph of the chunk of `cl` queries from `cs` on. */
  function ChunkGraph(
    exp: real -> real, scale: real, sh: Shape, q: Vec, k: Vec, v: Vec, mask: seq<Bias>, cs: nat, cl: nat): (o: Vec)
    requires InputsFit(sh, q, k, v) && cs + cl <= sh.tokens && |mask| == cl * (cs + cl)
    ensures |o| == Cells(cl, sh.heads, sh.width)
  {
    var kv := cs + cl;
    CellsAdd(cs, cl, sh.heads, sh.width);
    CellsAdd(kv, sh.tokens - kv, sh.heads, sh.width);
    CellsAdd(kv, sh.tokens - kv, sh.keyHeads, sh.width);
    var qView := q[Cells(cs, sh.heads, sh.width)..Cells(kv, sh.heads, sh.width)];
    var kView := k[..Cells(kv, sh.keyHeads, sh.width)];
    var vView := v[..Cells(kv, sh.keyHeads, sh.width)];
    FlashAttention(
      exp, scale, sh,
      Permute(qView, cl, sh.heads, sh.width),
      Permute(kView, kv, sh.keyHeads, sh.width),
      Permute(vView, kv, sh.keyHeads, sh.width),
      mask, cl, kv)
  }

  /** The keys a chunk sees, read back from the permuted copy. */
  lemma PermutedHead(x: Vec, tokens: nat, kv: nat, j: nat, cols: nat, width: nat, n: nat)
    requires |x| == Cells(tokens, cols, width) && n <= kv <= tokens && j < cols
    ensures Cells(n, cols, width) <= Cells(kv, cols, width) <= |x|
    ensures
      HeadVectors(Permute(x[..Cells(kv, cols, width)], kv, cols, width), cols, j, kv, width)[..n]
      == TokenVectors(x, n, j, cols, width)
  {
    CellsAdd(kv, tokens - kv, cols, width);
    CellsAdd(n, kv - n, cols, width);
    var view := x[..Cells(kv, cols, width)];
    var m := HeadVectors(Permute(view, kv, cols, width), cols, j, kv, width);
    CellsZero(cols, width);
    hide Permute, Cells, Offset, Vector;
    forall i | 0 <= i < n
      ensures m[i] == TokenVectors(x, n, j, cols, width)[i]
    {
      PermuteVector(view, kv, cols, width, i, j);
      SliceVector(x, 0, kv, i, j, cols, width);
    }
  }

  lemma CausalMaskRow(mask: seq<Bias>, cs: nat, cl: nat, r: nat)
    requires CausalMask(mask, cs, cl) && r < cl
    ensures var bias := MaskRow(mask, r, cl, cs + cl);
            forall i | 0 <= i < cs + cl :: bias[i] == if i < cs + r + 1 then Zero else MinusInfinity
  {
    NextPlace(r, cl, cs + cl);
    var bias := MaskRow(mask, r, cl, cs + cl);
    forall i | 0 <= i < cs + cl
      ensures bias[i] == if i < cs + r + 1 then Zero else MinusInfinity
    {
      assert MaskHolds(mask, cs, cl, r, i);
    }
  }

  /** Every output vector of a chunk is the causal reference at that token and head. */
  lemma ChunkIsCausal(
    exp: real -> real, scale: real, sh: Shape, q: Vec, k: Vec, v: Vec, mask: seq<Bias>, cs: nat, cl: nat,
    r: nat, h: nat)
    requires InputsFit(sh, q, k, v) && cs + cl <= sh.tokens && CausalMask(mask, cs, cl)
    requires r < cl && h < sh.heads
    ensures var o := ChunkGraph(exp, scale, sh, q, k, v, mask, cs, cl);
            && VectorFits(o, r, h, sh.heads, sh.width)
            && Vector(o, r, h, sh.heads, sh.width) == CausalVector(exp, scale, sh, q, k, v, cs + r, h)
  {
    var kv, n := cs + cl, cs + r + 1;
    CellsAdd(cs, cl, sh.heads, sh.width);
    CellsAdd(kv, sh.tokens - kv, sh.heads, sh.width);
    CellsAdd(kv, sh.tokens - kv, sh.keyHeads, sh.width);
    hide Cells, Vector, Permute, FlashAttention, Weights, MaskedWeights, Average, HeadVectors, TokenVectors,
      KeyHead, Offset, MaskRow, CausalMask;
    var qView := q[Cells(cs, sh.heads, sh.width)..Cells(kv, sh.heads, sh.width)];
    var qp := Permute(qView, cl, sh.heads, sh.width);
    var kp := Permute(k[..Cells(kv, sh.keyHeads, sh.width)], kv, sh.keyHeads, sh.width);
    var vp := Permute(v[..Cells(kv, sh.keyHeads, sh.width)], kv, sh.keyHeads, sh.width);
    FlashAttentionVector(exp, scale, sh, qp, kp, vp, mask, cl, kv, r, h);
    PermuteVector(qView, cl, sh.heads, sh.width, r, h);
    SliceVector(q, cs, kv, r, h, sh.heads, sh.width);
    KeyHeadInRange(sh, h);
    var j := KeyHead(sh, h);
    PermutedHead(k, sh.tokens, kv, j, sh.keyHeads, sh.width, n);
    PermutedHead(v, sh.tokens, kv, j, sh.keyHeads, sh.width, n);
    var bias := MaskRow(mask, r, cl, kv);
    CausalMaskRow(mask, cs, cl, r);
    MaskedIsPrefix(
      exp, scale, Vector(q, cs + r, h, sh.heads, sh.width),
      HeadVectors(kp, sh.keyHeads, j, kv, sh.width), HeadVectors(vp, sh.keyHeads, j, kv, sh.width), bias, n);
  }

  /** The mask is filled for the rows before `r` and the first `k` keys of row `r`. */
  ghost predicate FilledTo(mask: seq<Bias>, cs: nat, cl: nat, r: nat, k: nat) {
    && |mask| == cl * (cs + cl)
    && forall r', k' | 0 <= r' < cl && 0 <= k' < cs + cl && (r' < r || (r' == r && k' < k)) ::
         MaskHolds(mask, cs, cl, r', k')
  }

  function CausalBias(k: nat, query: nat): Bias {
    if k <= query then Zero else MinusInfinity
  }

  lemma FillStep(mask: seq<Bias>, cs: nat, cl: nat, r: nat, k: nat)
    requires FilledTo(mask, cs, cl, r, k) && r < cl && k < cs + cl
    ensures Pack(r, k, cs + cl) < |mask|
    ensures FilledTo(mask[Pack(r, k, cs + cl) := CausalBias(k, cs + r)], cs, cl, r, k + 1)
  {
    hide Pack;
    var kv := cs + cl;
    PackBound(r, k, cl, kv);
    var mask' := mask[Pack(r, k, kv) := CausalBias(k, cs + r)];
    forall r', k' | 0 <= r' < cl && 0 <= k' < kv && (r' < r || (r' == r && k' < k + 1))
      ensures MaskHolds(mask', cs, cl, r', k')
    {
      assert (r' == r && k' == k) || MaskHolds(mask, cs, cl, r', k');
      if Pack(r, k, kv) == Pack(r', k', kv) {
        PackDistinct(r, k, r', k', kv);
      }
    }
  }

  lemma NextRow(mask: seq<Bias>, cs: nat, cl: nat, r: nat)
    ensures FilledTo(mask, cs, cl, r, cs + cl) ==> FilledTo(mask, cs, cl, r + 1, 0)
    ensures FilledTo(mask, cs, cl, cl, 0) ==> CausalMask(mask, cs, cl)
    ensures |mask| == cl * (cs + cl) ==> FilledTo(mask, cs, cl, 0, 0)
  {
    hide MaskHolds;
  }

  method FillMask(cs: nat, cl: nat) returns (mask: array<Bias>)
    ensures fresh(mask) && CausalMask(mask[..], cs, cl)
  {
    hide Pack, FilledTo, CausalMask;
    var kv := cs + cl;
    mask := new Bias[cl * kv](_ => Zero);
    NextRow(mask[..], cs, cl, 0);
    for r := 0 to cl
      invariant FilledTo(mask[..], cs, cl, r, 0)
    {
      for k := 0 to kv
        invariant FilledTo(mask[..], cs, cl, r, k)
      {
        FillStep(mask[..], cs, cl, r, k);
        ghost var was := mask[..];
        mask[Pack(r, k, kv)] := CausalBias(k, cs + r);
        assert mask[..] == was[Pack(r, k, kv) := CausalBias(k, cs + r)];
      }
      NextRow(mask[..], cs, cl, r);
    }
    NextRow(mask[..], cs, cl, 0);
  }

  method CopyInto(o: array<real>, at: nat, x: Vec)
    requires at + |x| <= o.Length
    modifies o
    ensures o[..] == old(o[..at]) + x + old(o[at + |x|..])
  {
    for i := 0 to |x|
      invariant forall j | 0 <= j < o.Length :: o[j] == if at <= j < at + i then x[j - at] else old(o[j])
    {
      o[at + i] := x[i];
    }
  }

  // ---------------------------------------------------------------------
  // The chunk loop
  // ---------------------------------------------------------------------

  /** The output vectors of the first `done` tokens are those of the unchunked reference. */
  ghost predicate TokensDone(exp: real -> real, scale: real, sh: Shape, q: Vec, k: Vec, v: Vec, o: Vec, done: nat) {
    && InputsFit(sh, q, k, v) && done <= sh.tokens
    && forall s, h | 0 <= s < done && 0 <= h < sh.heads ::
         VectorIs(o, s, h, sh, CausalVector(exp, scale, sh, q, k, v, s, h))
  }

  ghost predicate VectorIs(o: Vec, s: nat, h: nat, sh: Shape, x: Vec) {
    VectorFits(o, s, h, sh.heads, sh.width) && Vector(o, s, h, sh.heads, sh.width) == x
  }

  /** A chunk's copy completes its own tokens and leaves the earlier ones alone. */
  lemma ChunkCopied(
    exp: real -> real, scale: real, sh: Shape, q: Vec, k: Vec, v: Vec, mask: seq<Bias>, cs: nat, cl: nat,
    o: Vec, o': Vec)
    requires TokensDone(exp, scale, sh, q, k, v, o, cs)
    requires InputsFit(sh, q, k, v) && cs + cl <= sh.tokens && CausalMask(mask, cs, cl)
    requires |o| == |o'| == Cells(sh.tokens, sh.heads, sh.width)
    requires Cells(cs, sh.heads, sh.width) <= Cells(cs + cl, sh.heads, sh.width) <= |o|
    requires o'[..Cells(cs, sh.heads, sh.width)] == o[..Cells(cs, sh.heads, sh.width)]
    requires o'[Cells(cs, sh.heads, sh.width)..Cells(cs + cl, sh.heads, sh.width)]
             == ChunkGraph(exp, scale, sh, q, k, v, mask, cs, cl)
    ensures TokensDone(exp, scale, sh, q, k, v, o', cs + cl)
  {
    hide Cells, Offset, Vector, ChunkGraph, CausalVector, CausalMask;
    CellsZero(sh.heads, sh.width);
    forall s, h | 0 <= s < cs + cl && 0 <= h < sh.heads
      ensures VectorIs(o', s, h, sh, CausalVector(exp, scale, sh, q, k, v, s, h))
    {
      if s < cs {
        assert VectorIs(o, s, h, sh, CausalVector(exp, scale, sh, q, k, v, s, h));
        SliceVector(o, 0, cs, s, h, sh.heads, sh.width);
        SliceVector(o', 0, cs, s, h, sh.heads, sh.width);
      } else {
        ChunkIsCausal(exp, scale, sh, q, k, v, mask, cs, cl, s - cs, h);
        SliceVector(o', cs, cs + cl, s - cs, h, sh.heads, sh.width);
      }
    }
  }

  function Min(a: nat, b: nat): nat {
    if a < b then a else b
  }

  /** The graph of every chunk that starts before `cs` can be allocated. */
  ghost predicate AllocatedBelow(allocates: nat -> bool, chunk: nat, cs: nat) {
    forall i: nat | Pack(i, 0, chunk) < cs :: allocates(Pack(i, 0, chunk))
  }

  ghost predicate UntouchedFrom(at: nat, o: Vec, o': Vec) {
    |o| == |o'| && forall i | at <= i < |o| :: o[i] == o'[i]
  }

  ghost predicate OnlyRegionChanged(o: Vec, o': Vec, from: nat, to: nat) {
    |o| == |o'| && forall i | 0 <= i < |o| :: from <= i < to || o[i] == o'[i]
  }

  /** Chunk `i` computes the tokens from its start up to its end. */
  function ChunkStart(chunk: nat, i: nat): nat {
    Pack(i, 0, chunk)
  }

  function ChunkEnd(chunk: nat, tokens: nat, i: nat): nat {
    Min(ChunkStart(chunk, i) + chunk, tokens)
  }

  /** Every token belongs to exactly one chunk. */
  lemma TokenInOneChunk(chunk: nat, tokens: nat, s: nat) returns (i: nat)
    requires chunk > 0 && s < tokens
    ensures forall j: nat :: ChunkStart(chunk, j) <= s < ChunkEnd(chunk, tokens, j) <==> j == i
  {
    i := s / chunk;
    assert s == Pack(i, s % chunk, chunk);
    forall j: nat
      ensures ChunkStart(chunk, j) <= s < ChunkEnd(chunk, tokens, j) <==> j == i
    {
      NextPlace(i, j, chunk);
      NextPlace(j, i, chunk);
    }
  }

  /** The regions of the output that two chunks write do not overlap. */
  lemma RegionsDisjoint(sh: Shape, chunk: nat, i: nat, j: nat)
    requires i < j
    ensures ChunkEnd(chunk, sh.tokens, i) <= ChunkStart(chunk, j)
    ensures Cells(ChunkEnd(chunk, sh.tokens, i), sh.heads, sh.width) <= Cells(ChunkStart(chunk, j), sh.heads, sh.width)
  {
    NextPlace(i, j, chunk);
    var a, b := ChunkEnd(chunk, sh.tokens, i), ChunkStart(chunk, j);
    CellsAdd(a, b - a, sh.heads, sh.width);
  }

  lemma ChunkStarts(allocates: nat -> bool, chunk: nat, n: nat)
    requires chunk > 0
    ensures Pack(n + 1, 0, chunk) == Pack(n, 0, chunk) + chunk
    ensures AllocatedBelow(allocates, chunk, Pack(n, 0, chunk)) && allocates(Pack(n, 0, chunk))
            ==> AllocatedBelow(allocates, chunk, Pack(n + 1, 0, chunk))
  {
    forall i: nat | Pack(i, 0, chunk) < Pack(n + 1, 0, chunk)
      ensures Pack(i, 0, chunk) < Pack(n, 0, chunk) || i == n
    {
      NextPlace(i, n, chunk);
      NextPlace(n, i, chunk);
    }
  }

  method RunChunk(
    exp: real -> real, scale: real, sh: Shape, q: array<real>, k: array<real>, v: array<real>, o: array<real>,
    cs: nat, cl: nat)
    requires o != q && o != k && o != v
    requires InputsFit(sh, q[..], k[..], v[..]) && o.Length == q.Length && cs + cl <= sh.tokens
    requires TokensDone(exp, scale, sh, q[..], k[..], v[..], o[..], cs)
    modifies o
    ensures TokensDone(exp, scale, sh, q[..], k[..], v[..], o[..], cs + cl)
    ensures Cells(cs, sh.heads, sh.width) <= Cells(cs + cl, sh.heads, sh.width) <= o.Length
    ensures OnlyRegionChanged(
              old(o[..]), o[..], Cells(cs, sh.heads, sh.width), Cells(cs + cl, sh.heads, sh.width))
  {
    CellsAdd(cs, cl, sh.heads, sh.width);
    CellsAdd(cs + cl, sh.tokens - (cs + cl), sh.heads, sh.width);
    hide TokensDone, Cells, ChunkGraph, CausalMask;
    var mask := FillMask(cs, cl);
    assert |mask[..]| == cl * (cs + cl) by { MaskLength(mask[..], cs, cl); }
    var attn := ChunkGraph(exp, scale, sh, q[..], k[..], v[..], mask[..], cs, cl);
    ghost var was := o[..];
    CopyInto(o, Cells(cs, sh.heads, sh.width), attn);
    ChunkCopied(exp, scale, sh, q[..], k[..], v[..], mask[..], cs, cl, was, o[..]);
  }

  lemma MaskLength(mask: seq<Bias>, cs: nat, cl: nat)
    requires CausalMask(mask, cs, cl)
    ensures |mask| == cl * (cs + cl)
  {
  }

  /**
   Returns zero when every chunk ran, and then the whole output is the unchunked reference,
   whatever the chunk length. It returns minus one for an element type it does not know, or at the
   first chunk whose graph cannot be allocated: the tokens of the chunks before it are complete
   and the rest of the output is untouched.
  */
  method ForwardQ8(
    exp: real -> real, scale: real, sh: Shape, elements: ElementType, allocates: nat -> bool, chunk: nat,
    q: array<real>, k: array<real>, v: array<real>, o: array<real>)
    returns (code: int, ghost done: nat)
    requires o != q && o != k && o != v && chunk > 0
    requires InputsFit(sh, q[..], k[..], v[..]) && o.Length == q.Length
    modifies o
    ensures TokensDone(exp, scale, sh, q[..], k[..], v[..], o[..], done)
    ensures Cells(done, sh.heads, sh.width) <= o.Length
    ensures UntouchedFrom(Cells(done, sh.heads, sh.width), old(o[..]), o[..])
    ensures code == 0 ==> done == sh.tokens
    ensures code == 0 <==> elements != Unsupported && AllocatedBelow(allocates, chunk, sh.tokens)
    ensures code == 0 || code == -1
    ensures elements == Unsupported ==> done == 0
    ensures code == -1 && elements != Unsupported ==>
              done < sh.tokens && !allocates(done) && AllocatedBelow(allocates, chunk, done)
  {
    hide InputsFit, Cells, TokensDone, Pack;
    done := 0;
    CellsZero(sh.heads, sh.width);
    NothingDone(exp, scale, sh, q[..], k[..], v[..], o[..]);
    if elements == Unsupported {
      return -1, done;
    }
    var cs := 0;
    ghost var n := 0;
    assert Pack(0, 0, chunk) == 0 by { PackZero(chunk); }
    while cs < sh.tokens
      invariant cs == Pack(n, 0, chunk)
      invariant done == Min(cs, sh.tokens)
      invariant AllocatedBelow(allocates, chunk, cs)
      invariant TokensDone(exp, scale, sh, q[..], k[..], v[..], o[..], done)
      invariant Cells(done, sh.heads, sh.width) <= o.Length
      invariant UntouchedFrom(Cells(done, sh.heads, sh.width), old(o[..]), o[..])
    {
      var cl := Min(chunk, sh.tokens - cs);
      if !allocates(cs) {
        return -1, done;
      }
      RunChunk(exp, scale, sh, q, k, v, o, cs, cl);
      ChunkStarts(allocates, chunk, n);
      cs := cs + chunk;
      n := n + 1;
      done := Min(cs, sh.tokens);
    }
    code := 0;
  }

  lemma PackZero(chunk: nat)
    ensures Pack(0, 0, chunk) == 0
  {
  }

  lemma NothingDone(exp: real -> real, scale: real, sh: Shape, q: Vec, k: Vec, v: Vec, o: Vec)
    requires InputsFit(sh, q, k, v)
    ensures TokensDone(exp, scale, sh, q, k, v, o, 0)
  {
  }
}
