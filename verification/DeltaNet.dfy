/**
 The gated delta recurrence and its chunked form, for one head, one sequence and
 one value channel: the state is then a vector over the key dimension. The
 channels of one head share the tensors that depend on keys, queries and gates
 only, and never mix.
*/
module DeltaNet {
  import opened LinearAlgebra

  datatype Token = Token(q: Vec, k: Vec, v: real, g: real, b: real)

  ghost predicate Fits(ts: seq<Token>, dim: nat) {
    forall i | 0 <= i < |ts| :: |ts[i].q| == dim && |ts[i].k| == dim
  }

  // ---------------------------------------------------------------------
  // Token-by-token recurrence
  // ---------------------------------------------------------------------

  /** What the decayed state gets wrong about the value of `t`, times its write strength. */
  function Correction(exp: real -> real, s: Vec, t: Token): real
    requires |t.k| == |s|
  {
    Times(t.b, t.v - Dot(Scaled(exp(t.g), s), t.k))
  }

  function Advance(exp: real -> real, s: Vec, t: Token): (s': Vec)
    requires |t.k| == |s|
    ensures |s'| == |s|
  {
    var d := Correction(exp, s, t);
    seq(|s|, i requires 0 <= i < |s| => Times(exp(t.g), s[i]) + Times(d, t.k[i]))
  }

  /** The state after the tokens `ts`. */
  function Run(exp: real -> real, s: Vec, ts: seq<Token>): (s': Vec)
    requires Fits(ts, |s|)
    ensures |s'| == |s|
  {
    if ts == [] then s
    else
      Advance(exp, Run(exp, s, ts[..|ts| - 1]), ts[|ts| - 1])
  }

  /** The output at token `t`, from the state that already includes it. */
  function Read(scale: real, s: Vec, t: Token): real
    requires |t.q| == |s|
  {
    Times(scale, Dot(s, t.q))
  }

  /** The output at each token: the updated state read with that token's query. */
  function Outputs(exp: real -> real, scale: real, s: Vec, ts: seq<Token>): (o: Vec)
    requires Fits(ts, |s|)
    ensures |o| == |ts|
  {
    if ts == [] then []
    else Outputs(exp, scale, s, ts[..|ts| - 1]) + [Read(scale, Run(exp, s, ts), ts[|ts| - 1])]
  }

  // ---------------------------------------------------------------------
  // Chunked form: the tensors of one chunk
  // ---------------------------------------------------------------------

  datatype Chunk = Chunk(u: Vec, kCd: Matrix, kq: Matrix, qGExp: Matrix, kgT: Matrix, gLastExp: real)

  ghost predicate ChunkFits(ch: Chunk, n: nat, dim: nat) {
    && |ch.u| == n && HasShape(ch.kCd, n, dim) && HasShape(ch.kq, n, n)
    && HasShape(ch.qGExp, n, dim) && HasShape(ch.kgT, dim, n)
  }

  function Gates(ts: seq<Token>): (g: Vec)
    ensures |g| == |ts|
  {
    CumSum(seq(|ts|, r requires 0 <= r < |ts| => ts[r].g))
  }

  /** Decay from column token to row token; above the diagonal the masked exponent is zero. */
  function DecayMask(exp: real -> real, gCs: Vec): (m: Matrix)
    ensures HasShape(m, |gCs|, |gCs|)
  {
    var n := |gCs|;
    seq(n, r requires 0 <= r < n => seq(n, c requires 0 <= c < n =>
      exp(if c <= r then gCs[r] - gCs[c] else 0.0)))
  }

  function Keys(ts: seq<Token>, dim: nat): (m: Matrix)
    requires Fits(ts, dim)
    ensures HasShape(m, |ts|, dim)
  {
    seq(|ts|, r requires 0 <= r < |ts| => ts[r].k)
  }

  function WeightedKeys(ts: seq<Token>, dim: nat): (m: Matrix)
    requires Fits(ts, dim)
    ensures HasShape(m, |ts|, dim)
  {
    seq(|ts|, r requires 0 <= r < |ts| => Scaled(ts[r].b, ts[r].k))
  }

  function Queries(scale: real, ts: seq<Token>, dim: nat): (m: Matrix)
    requires Fits(ts, dim)
    ensures HasShape(m, |ts|, dim)
  {
    seq(|ts|, r requires 0 <= r < |ts| => Scaled(scale, ts[r].q))
  }

  function WeightedValues(ts: seq<Token>): (v: Vec)
    ensures |v| == |ts|
  {
    seq(|ts|, r requires 0 <= r < |ts| => Times(ts[r].b, ts[r].v))
  }

  /** Products of rows `k` and `x`, decayed, kept where the column is below `r + slack`. */
  function Masked(k: Matrix, x: Matrix, decay: Matrix, dim: nat, slack: nat): (m: Matrix)
    requires HasShape(k, |k|, dim) && HasShape(x, |k|, dim) && HasShape(decay, |k|, |k|)
    ensures HasShape(m, |k|, |k|)
  {
    var n := |k|;
    var p := MulMat(k, x, dim);
    seq(n, r requires 0 <= r < n => seq(n, c requires 0 <= c < n =>
      if c < r + slack then Times(p[r][c], decay[r][c]) else 0.0))
  }

  /** The strictly lower triangular matrix A of decayed key overlaps. */
  function Attn(exp: real -> real, ts: seq<Token>, dim: nat): (m: Matrix)
    requires Fits(ts, dim)
    ensures HasShape(m, |ts|, |ts|)
  {
    Masked(Keys(ts, dim), WeightedKeys(ts, dim), DecayMask(exp, Gates(ts)), dim, 0)
  }

  function Lhs(exp: real -> real, ts: seq<Token>, dim: nat): (m: Matrix)
    requires Fits(ts, dim)
    ensures UnitLower(m, |ts|)
  {
    MatAdd(Attn(exp, ts, dim), Identity(|ts|), |ts|)
  }

  /** The solution of (I + A) X = -A, plus I. */
  function Inverse(exp: real -> real, ts: seq<Token>, dim: nat): (m: Matrix)
    requires Fits(ts, dim)
    ensures HasShape(m, |ts|, |ts|)
  {
    var n := |ts|;
    MatAdd(SolveTri(Lhs(exp, ts, dim), MatNeg(Attn(exp, ts, dim), n), n), Identity(n), n)
  }

  /** Weighted keys scaled by the decay from the start of the chunk. */
  function DecayedKeys(exp: real -> real, ts: seq<Token>, dim: nat): (m: Matrix)
    requires Fits(ts, dim)
    ensures HasShape(m, |ts|, dim)
  {
    var gCs, kb := Gates(ts), WeightedKeys(ts, dim);
    seq(|ts|, c requires 0 <= c < |ts| => Scaled(exp(gCs[c]), kb[c]))
  }

  /** Keys scaled by the decay from their token to the end of the chunk. */
  function KeysToEnd(exp: real -> real, ts: seq<Token>, dim: nat): (m: Matrix)
    requires Fits(ts, dim) && |ts| > 0
    ensures HasShape(m, |ts|, dim)
  {
    var gCs, k := Gates(ts), Keys(ts, dim);
    seq(|ts|, c requires 0 <= c < |ts| => Scaled(exp(gCs[|ts| - 1] - gCs[c]), k[c]))
  }

  /** Queries scaled by the decay from the start of the chunk. */
  function DecayedQueries(exp: real -> real, scale: real, ts: seq<Token>, dim: nat): (m: Matrix)
    requires Fits(ts, dim)
    ensures HasShape(m, |ts|, dim)
  {
    var gCs, q := Gates(ts), Queries(scale, ts, dim);
    seq(|ts|, r requires 0 <= r < |ts| => Scaled(exp(gCs[r]), q[r]))
  }

  function BuildChunk(exp: real -> real, scale: real, ts: seq<Token>, dim: nat): (ch: Chunk)
    requires Fits(ts, dim) && |ts| > 0
    ensures ChunkFits(ch, |ts|, dim)
  {
    var attn := Inverse(exp, ts, dim);
    Chunk(MatVec(attn, WeightedValues(ts)),
          MulMat(Transpose(DecayedKeys(exp, ts, dim), dim), attn, |ts|),
          Masked(Keys(ts, dim), Queries(scale, ts, dim), DecayMask(exp, Gates(ts)), dim, 1),
          DecayedQueries(exp, scale, ts, dim),
          Transpose(KeysToEnd(exp, ts, dim), dim),
          exp(Gates(ts)[|ts| - 1]))
  }

  // ---------------------------------------------------------------------
  // Chunked form: one iteration of the chunk loop
  // ---------------------------------------------------------------------

  function NewValues(ch: Chunk, s: Vec): (v: Vec)
    requires ChunkFits(ch, |ch.u|, |s|)
    ensures |v| == |ch.u|
  {
    seq(|ch.u|, r requires 0 <= r < |ch.u| => ch.u[r] - Dot(ch.kCd[r], s))
  }

  /** Row `r` of the output: what the state answers and what the new values add. */
  function OutputRow(ch: Chunk, s: Vec, vNew: Vec, r: nat): real
    requires ChunkFits(ch, |vNew|, |s|) && r < |vNew|
  {
    Dot(s, ch.qGExp[r]) + Dot(vNew, ch.kq[r])
  }

  function ChunkOutput(ch: Chunk, s: Vec): (o: Vec)
    requires ChunkFits(ch, |ch.u|, |s|)
    ensures |o| == |ch.u|
  {
    var vNew := NewValues(ch, s);
    seq(|ch.u|, r requires 0 <= r < |ch.u| => OutputRow(ch, s, vNew, r))
  }

  function ChunkState(ch: Chunk, s: Vec): (s': Vec)
    requires ChunkFits(ch, |ch.u|, |s|)
    ensures |s'| == |s|
  {
    var vNew := NewValues(ch, s);
    seq(|s|, i requires 0 <= i < |s| => Times(s[i], ch.gLastExp) + Dot(ch.kgT[i], vNew))
  }
}

