/** Inside one chunk, the chunked form computes what the recurrence computes. */
module DeltaNetChunkProof {
  import opened LinearAlgebra
  import opened Exponential
  import opened DeltaNet

  // ---------------------------------------------------------------------
  // Gates and decays
  // ---------------------------------------------------------------------

  /** The sum of the first `r` gates. */
  function GateSum(ts: seq<Token>, r: nat): real
    requires r <= |ts|
  {
    if r == 0 then 0.0 else Gates(ts)[r - 1]
  }

  lemma {:induction false} CumSumStep(g: Vec, r: nat)
    requires r < |g|
    ensures CumSum(g)[r] == (if r == 0 then 0.0 else CumSum(g)[r - 1]) + g[r]
  {
    if r < |g| - 1 {
      CumSumStep(g[..|g| - 1], r);
    }
  }

  lemma GateSumStep(ts: seq<Token>, r: nat)
    requires r < |ts|
    ensures GateSum(ts, r + 1) == GateSum(ts, r) + ts[r].g
  {
    CumSumStep(seq(|ts|, r requires 0 <= r < |ts| => ts[r].g), r);
  }

  lemma ExpStep(exp: real -> real, a: real, b: real)
    requires IsExp(exp)
    ensures exp(a + b) == Times(exp(a), exp(b))
  {
    assert ExpAdds(exp, a, b);
  }

  // ---------------------------------------------------------------------
  // The state inside a chunk, in closed form
  // ---------------------------------------------------------------------

  /** The corrections the recurrence makes at each token. */
  function Corrections(exp: real -> real, s: Vec, ts: seq<Token>): (d: Vec)
    requires Fits(ts, |s|)
    ensures |d| == |ts|
  {
    seq(|ts|, r requires 0 <= r < |ts| =>
      Correction(exp, Run(exp, s, ts[..r]), ts[r]))
  }

  /** The corrections before token `r`, each decayed up to token `at`. */
  function Carried(exp: real -> real, d: Vec, ts: seq<Token>, r: nat, at: nat): (w: Vec)
    requires |d| == |ts| && r <= |ts| && at <= |ts|
    ensures |w| == |ts|
  {
    seq(|ts|, c requires 0 <= c < |ts| =>
      if c < r then Times(exp(GateSum(ts, at) - GateSum(ts, c + 1)), d[c]) else 0.0)
  }

  /** `x` is `decay` times the state `s` plus the keys weighted by `w`. */
  ghost predicate Superposed(x: Vec, decay: real, s: Vec, ts: seq<Token>, w: Vec)
    requires Fits(ts, |s|) && |w| == |ts|
  {
    && |x| == |s|
    && forall i | 0 <= i < |s| ::
      x[i] == Dot(Transpose(Keys(ts, |s|), |s|)[i], w) + Times(decay, s[i])
  }

  lemma CarriedDecays(exp: real -> real, d: Vec, ts: seq<Token>, r: nat)
    requires IsExp(exp) && |d| == |ts| && r < |ts|
    ensures Scaled(exp(ts[r].g), Carried(exp, d, ts, r, r)) == Carried(exp, d, ts, r, r + 1)
  {
    hide Times, GateSum;
    var e := exp(ts[r].g);
    var w, w' := Scaled(e, Carried(exp, d, ts, r, r)), Carried(exp, d, ts, r, r + 1);
    GateSumStep(ts, r);
    forall c | 0 <= c < |ts|
      ensures w[c] == w'[c]
    {
      if c < r {
        var a := GateSum(ts, r) - GateSum(ts, c + 1);
        ExpStep(exp, ts[r].g, a);
        assert ts[r].g + a == GateSum(ts, r + 1) - GateSum(ts, c + 1);
        TimesAssociates(e, exp(a), d[c]);
      } else {
        TimesUnits(e);
      }
    }
  }

  lemma CarriedGrows(exp: real -> real, d: Vec, ts: seq<Token>, r: nat)
    requires IsExp(exp) && |d| == |ts| && r < |ts|
    ensures
      forall c | 0 <= c < |ts| ::
        Carried(exp, d, ts, r + 1, r + 1)[c]
        == Carried(exp, d, ts, r, r + 1)[c] + Times(d[r], Unit(|ts|, r)[c])
  {
    hide Times, GateSum;
    TimesUnits(d[r]);
    assert GateSum(ts, r + 1) - GateSum(ts, r + 1) == 0.0;
    TimesUnits(d[r]);
  }

  lemma DecayedSuperposition(x: Vec, e: real, decay: real, s: Vec, ts: seq<Token>, w: Vec)
    requires Fits(ts, |s|) && |w| == |ts| && Superposed(x, decay, s, ts, w)
    ensures Superposed(Scaled(e, x), Times(e, decay), s, ts, Scaled(e, w))
  {
    hide Times, Dot;
    var kT := Transpose(Keys(ts, |s|), |s|);
    forall i | 0 <= i < |s|
      ensures Scaled(e, x)[i] == Dot(kT[i], Scaled(e, w)) + Times(Times(e, decay), s[i])
    {
      DotScaled(kT[i], e, w);
      TimesDistributes(e, Dot(kT[i], w), Times(decay, s[i]));
      TimesAssociates(e, decay, s[i]);
    }
  }

  /** Writing `d` times the key of token `r` adds `d` to the weight of that key. */
  lemma AddedSuperposition(x: Vec, decay: real, s: Vec, ts: seq<Token>, w: Vec,
                           r: nat, d: real, x': Vec, w': Vec)
    requires Fits(ts, |s|) && |w| == |w'| == |ts| && r < |ts| && |x'| == |s|
    requires Superposed(x, decay, s, ts, w)
    requires forall i | 0 <= i < |s| :: x'[i] == x[i] + Times(d, ts[r].k[i])
    requires forall c | 0 <= c < |ts| :: w'[c] == w[c] + Times(d, Unit(|ts|, r)[c])
    ensures Superposed(x', decay, s, ts, w')
  {
    hide Times, Dot;
    var kT := Transpose(Keys(ts, |s|), |s|);
    forall i | 0 <= i < |s|
      ensures x'[i] == Dot(kT[i], w') + Times(decay, s[i])
    {
      DotLinear(kT[i], w, d, Unit(|ts|, r), w');
      DotUnit(kT[i], r);
    }
  }

  /**
   `x` is the start state decayed up to token `at`, plus the keys of the first `r` tokens
   weighted by their corrections decayed up to `at`.
  */
  ghost predicate ClosedAt(exp: real -> real, s: Vec, ts: seq<Token>, x: Vec, r: nat, at: nat)
    requires Fits(ts, |s|) && r <= |ts| && at <= |ts|
  {
    Superposed(x, exp(GateSum(ts, at)), s, ts, Carried(exp, Corrections(exp, s, ts), ts, r, at))
  }

  /** Every state the recurrence passes through inside a chunk. */
  lemma {:induction false} ClosedForm(exp: real -> real, s: Vec, ts: seq<Token>, r: nat)
    requires IsExp(exp) && Fits(ts, |s|) && r <= |ts|
    ensures ClosedAt(exp, s, ts, Run(exp, s, ts[..r]), r, r)
  {
    hide Times, Dot, Correction, Corrections;
    if r == 0 {
      var kT, w := Transpose(Keys(ts, |s|), |s|), Carried(exp, Corrections(exp, s, ts), ts, 0, 0);
      forall i | 0 <= i < |s|
        ensures s[i] == Dot(kT[i], w) + Times(1.0, s[i])
      {
        DotZero(kT[i], w);
        TimesUnits(s[i]);
      }
    } else {
      ClosedForm(exp, s, ts, r - 1);
      var x := Run(exp, s, ts[..r - 1]);
      ClosedFormDecays(exp, s, ts, x, r - 1);
      RunStep(exp, s, ts, r - 1);
      ClosedFormGrows(exp, s, ts, Scaled(exp(ts[r - 1].g), x), r - 1, Run(exp, s, ts[..r]));
    }
  }

  lemma ClosedFormDecays(exp: real -> real, s: Vec, ts: seq<Token>, x: Vec, r: nat)
    requires IsExp(exp) && Fits(ts, |s|) && r < |ts| && ClosedAt(exp, s, ts, x, r, r)
    ensures ClosedAt(exp, s, ts, Scaled(exp(ts[r].g), x), r, r + 1)
  {
    hide Times, Dot, Carried, GateSum, Superposed, Corrections;
    var d := Corrections(exp, s, ts);
    GateSumStep(ts, r);
    ExpStep(exp, ts[r].g, GateSum(ts, r));
    DecayedSuperposition(x, exp(ts[r].g), exp(GateSum(ts, r)), s, ts, Carried(exp, d, ts, r, r));
    CarriedDecays(exp, d, ts, r);
  }

  lemma RunStep(exp: real -> real, s: Vec, ts: seq<Token>, r: nat)
    requires Fits(ts, |s|) && r < |ts|
    ensures
      forall i | 0 <= i < |s| ::
        Run(exp, s, ts[..r + 1])[i]
        == Scaled(exp(ts[r].g), Run(exp, s, ts[..r]))[i] + Times(Corrections(exp, s, ts)[r], ts[r].k[i])
  {
    hide Times, Dot, Correction;
    assert ts[..r + 1][..r] == ts[..r];
  }

  lemma ClosedFormGrows(exp: real -> real, s: Vec, ts: seq<Token>, x: Vec, r: nat, x': Vec)
    requires IsExp(exp) && Fits(ts, |s|) && r < |ts| && ClosedAt(exp, s, ts, x, r, r + 1)
    requires |x'| == |s|
    requires forall i | 0 <= i < |s| :: x'[i] == x[i] + Times(Corrections(exp, s, ts)[r], ts[r].k[i])
    ensures ClosedAt(exp, s, ts, x', r + 1, r + 1)
  {
    hide Times, Dot, Carried, GateSum, Superposed, Corrections;
    var d := Corrections(exp, s, ts);
    CarriedGrows(exp, d, ts, r);
    AddedSuperposition(x, exp(GateSum(ts, r + 1)), s, ts, Carried(exp, d, ts, r, r + 1),
                       r, d[r], x', Carried(exp, d, ts, r + 1, r + 1));
  }

  /** Reading a superposed state with any vector `y`. */
  lemma ReadState(x: Vec, decay: real, s: Vec, ts: seq<Token>, w: Vec, y: Vec)
    requires Fits(ts, |s|) && |w| == |ts| && Superposed(x, decay, s, ts, w) && |y| == |s|
    ensures Dot(y, x) == Dot(w, MatVec(Keys(ts, |s|), y)) + Times(decay, Dot(y, s))
  {
    hide Times, Dot;
    var k := Keys(ts, |s|);
    Adjoint(k, w, y);
    DotLinear(y, MatVec(Transpose(k, |s|), w), decay, s, x);
  }

  // ---------------------------------------------------------------------
  // The corrections solve the triangular system
  // ---------------------------------------------------------------------

  /** Entry (r, c) of a decayed overlap matrix against a carried correction. */
  lemma OverlapTerm(exp: real -> real, d: Vec, ts: seq<Token>, dim: nat, x: Matrix, r: nat, slack: nat, c: nat)
    requires Fits(ts, dim) && |d| == |ts| && HasShape(x, |ts|, dim)
    requires slack <= 1 && r < |ts| && c < |ts|
    ensures
      Times(Carried(exp, d, ts, r + slack, r + 1)[c], MatVec(Keys(ts, dim), x[r])[c])
      == Times(Masked(Keys(ts, dim), x, DecayMask(exp, Gates(ts)), dim, slack)[r][c], d[c])
  {
    hide Times, Dot;
    var overlap := Dot(Keys(ts, dim)[c], x[r]);
    if c < r + slack {
      var decay := exp(GateSum(ts, r + 1) - GateSum(ts, c + 1));
      TimesAssociates(overlap, decay, d[c]);
      TimesCommutes(overlap, Times(decay, d[c]));
    } else {
      TimesUnits(overlap);
      TimesUnits(d[c]);
    }
  }

  lemma OverlapRow(exp: real -> real, d: Vec, ts: seq<Token>, dim: nat, x: Matrix, r: nat, slack: nat)
    requires Fits(ts, dim) && |d| == |ts| && HasShape(x, |ts|, dim)
    requires slack <= 1 && r < |ts|
    ensures
      Dot(Carried(exp, d, ts, r + slack, r + 1), MatVec(Keys(ts, dim), x[r]))
      == Dot(d, Masked(Keys(ts, dim), x, DecayMask(exp, Gates(ts)), dim, slack)[r])
  {
    hide Times, Dot, Masked, Carried, MatVec;
    var w, y := Carried(exp, d, ts, r + slack, r + 1), MatVec(Keys(ts, dim), x[r]);
    var m := Masked(Keys(ts, dim), x, DecayMask(exp, Gates(ts)), dim, slack)[r];
    forall c | 0 <= c < |ts|
      ensures Times(w[c], y[c]) == Times(m[c], d[c])
    {
      OverlapTerm(exp, d, ts, dim, x, r, slack, c);
    }
    DotPointwise(w, y, m, d);
    DotCommutes(m, d);
  }

  /** What the system must produce: weighted values less what the start state already answers. */
  function Rhs(exp: real -> real, s: Vec, ts: seq<Token>): (y: Vec)
    requires Fits(ts, |s|)
    ensures |y| == |ts|
  {
    seq(|ts|, r requires 0 <= r < |ts| =>
      WeightedValues(ts)[r] - Dot(DecayedKeys(exp, ts, |s|)[r], s))
  }

  /** Row `r` of (I + A) d = rhs says what the recurrence corrects at token `r`. */
  lemma CorrectionRow(exp: real -> real, s: Vec, ts: seq<Token>, r: nat)
    requires IsExp(exp) && Fits(ts, |s|) && r < |ts|
    ensures Dot(Lhs(exp, ts, |s|)[r], Corrections(exp, s, ts)) == Rhs(exp, s, ts)[r]
  {
    hide Times, Dot, Carried, GateSum, Superposed, Masked, DecayMask, Run;
    var t, d, dim := ts[r], Corrections(exp, s, ts), |s|;
    var decay := exp(GateSum(ts, r + 1));
    var x := Scaled(exp(t.g), Run(exp, s, ts[..r]));
    var w, kb := Carried(exp, d, ts, r, r + 1), Scaled(t.b, t.k);
    ClosedForm(exp, s, ts, r);
    ClosedFormDecays(exp, s, ts, Run(exp, s, ts[..r]), r);
    // d[r] is b v minus the decayed state read with the weighted key
    TimesDistributes(t.b, t.v, Dot(x, t.k));
    DotScaled(x, t.b, t.k);
    DotCommutes(x, kb);
    // that reading splits into the corrections before r and the start state
    ReadState(x, decay, s, ts, w, kb);
    OverlapRow(exp, d, ts, dim, WeightedKeys(ts, dim), r, 0);
    DecayedKeyReads(exp, s, ts, r);
    LhsRow(exp, ts, dim, d, r);
  }

  lemma DecayedKeyReads(exp: real -> real, s: Vec, ts: seq<Token>, r: nat)
    requires Fits(ts, |s|) && r < |ts|
    ensures
      Dot(DecayedKeys(exp, ts, |s|)[r], s)
      == Times(exp(GateSum(ts, r + 1)), Dot(WeightedKeys(ts, |s|)[r], s))
  {
    hide Times, Dot;
    var e, kb := exp(GateSum(ts, r + 1)), WeightedKeys(ts, |s|)[r];
    DotScaled(s, e, kb);
    DotCommutes(s, kb);
    DotCommutes(s, Scaled(e, kb));
  }

  lemma LhsRow(exp: real -> real, ts: seq<Token>, dim: nat, d: Vec, r: nat)
    requires Fits(ts, dim) && |d| == |ts| && r < |ts|
    ensures Dot(Lhs(exp, ts, dim)[r], d) == Dot(d, Attn(exp, ts, dim)[r]) + d[r]
  {
    hide Times, Dot, Attn;
    var n, l, a := |ts|, Lhs(exp, ts, dim)[r], Attn(exp, ts, dim)[r];
    forall c | 0 <= c < n
      ensures l[c] == a[c] + Times(1.0, Unit(n, r)[c])
    {
      TimesUnits(Unit(n, r)[c]);
    }
    DotLinear(d, a, 1.0, Unit(n, r), l);
    DotUnit(d, r);
    TimesUnits(d[r]);
    DotCommutes(d, l);
  }

  /** The corrected values of the graph are the inverse applied to the same right-hand side. */
  lemma NewValuesAsInverse(exp: real -> real, scale: real, s: Vec, ts: seq<Token>)
    requires Fits(ts, |s|) && |ts| > 0
    ensures
      NewValues(BuildChunk(exp, scale, ts, |s|), s) == MatVec(Inverse(exp, ts, |s|), Rhs(exp, s, ts))
  {
    hide Times, Dot, Inverse, DecayedKeys;
    var n, dim := |ts|, |s|;
    var ch, t, dk := BuildChunk(exp, scale, ts, dim), Inverse(exp, ts, dim), DecayedKeys(exp, ts, dim);
    var answered, vb, rhs := MatVec(dk, s), WeightedValues(ts), Rhs(exp, s, ts);
    forall c | 0 <= c < n
      ensures rhs[c] == vb[c] + Times(-1.0, answered[c])
    {
      TimesNegative(answered[c]);
    }
    forall r | 0 <= r < n
      ensures NewValues(ch, s)[r] == MatVec(t, rhs)[r]
    {
      assert ch.kCd[r] == MatVec(Transpose(dk, dim), t[r]);
      Adjoint(dk, t[r], s);
      DotCommutes(s, ch.kCd[r]);
      DotLinear(t[r], vb, -1.0, answered, rhs);
      TimesNegative(Dot(t[r], answered));
    }
  }

  lemma TimesNegative(a: real)
    ensures Times(-1.0, a) == -a
  {
  }

  /**
   The solve is exact: row by row, `v - k_cd s` is the correction b (v - decayed state . k)
   that the recurrence makes at that token.
  */
  lemma NewValuesAreCorrections(exp: real -> real, scale: real, s: Vec, ts: seq<Token>)
    requires IsExp(exp) && Fits(ts, |s|) && |ts| > 0
    ensures NewValues(BuildChunk(exp, scale, ts, |s|), s) == Corrections(exp, s, ts)
  {
    hide Times, Dot, Attn, SolveTri, Corrections, Rhs;
    var n, l, t := |ts|, Lhs(exp, ts, |s|), Inverse(exp, ts, |s|);
    AttnStrictlyLower(exp, ts, |s|);
    forall r, j | 0 <= r < n && 0 <= j < n
      ensures Dot(l[r], Transpose(t, n)[j]) == Identity(n)[r][j]
    {
      SolveGivesInverse(Attn(exp, ts, |s|), n, r, j);
    }
    forall r | 0 <= r < n
      ensures Dot(l[r], Corrections(exp, s, ts)) == Rhs(exp, s, ts)[r]
    {
      CorrectionRow(exp, s, ts, r);
    }
    InverseSolves(l, t, n, Rhs(exp, s, ts), Corrections(exp, s, ts));
    NewValuesAsInverse(exp, scale, s, ts);
  }

  lemma AttnStrictlyLower(exp: real -> real, ts: seq<Token>, dim: nat)
    requires Fits(ts, dim)
    ensures forall r, c | 0 <= r < |ts| && r <= c < |ts| :: Attn(exp, ts, dim)[r][c] == 0.0
  {
  }

  // ---------------------------------------------------------------------
  // One chunk refines the recurrence
  // ---------------------------------------------------------------------

  lemma {:induction false} OutputAt(exp: real -> real, scale: real, s: Vec, ts: seq<Token>, r: nat)
    requires Fits(ts, |s|) && r < |ts|
    ensures Outputs(exp, scale, s, ts)[r] == Read(scale, Run(exp, s, ts[..r + 1]), ts[r])
  {
    hide Run, Read;
    var n := |ts| - 1;
    if r < n {
      OutputAt(exp, scale, s, ts[..n], r);
      assert ts[..n][..r + 1] == ts[..r + 1];
    } else {
      assert ts[..r + 1] == ts;
    }
  }

  lemma OutputRowIs(exp: real -> real, scale: real, s: Vec, ts: seq<Token>, d: Vec, r: nat)
    requires Fits(ts, |s|) && |d| == |ts| && r < |ts|
    ensures
      OutputRow(BuildChunk(exp, scale, ts, |s|), s, d, r)
      == Dot(s, DecayedQueries(exp, scale, ts, |s|)[r])
         + Dot(d, Masked(Keys(ts, |s|), Queries(scale, ts, |s|), DecayMask(exp, Gates(ts)), |s|, 1)[r])
  {
    hide Times, Dot, Masked, DecayMask, KeysToEnd, Inverse, DecayedKeys, DecayedQueries;
  }

  lemma ChunkOutputRow(exp: real -> real, scale: real, s: Vec, ts: seq<Token>, r: nat)
    requires IsExp(exp) && Fits(ts, |s|) && r < |ts|
    ensures
      OutputRow(BuildChunk(exp, scale, ts, |s|), s, Corrections(exp, s, ts), r)
      == Read(scale, Run(exp, s, ts[..r + 1]), ts[r])
  {
    hide Times, Dot, Carried, Superposed, Run, Corrections, Masked, DecayMask, BuildChunk, OutputRow;
    hide DecayedQueries, Queries, Read, MatVec, Keys, GateSum, IsExp;
    assert Fits(ts[..r + 1], |s|);
    hide Fits;
    var d, q := Corrections(exp, s, ts), Queries(scale, ts, |s|);
    var x, decay := Run(exp, s, ts[..r + 1]), exp(GateSum(ts, r + 1));
    OutputRowIs(exp, scale, s, ts, d, r);
    ReadIs(scale, x, ts, r);
    ClosedForm(exp, s, ts, r + 1);
    ReadState(x, decay, s, ts, Carried(exp, d, ts, r + 1, r + 1), q[r]);
    OverlapRow(exp, d, ts, |s|, q, r, 1);
    DecayedQueryReads(exp, scale, s, ts, r);
  }

  lemma ReadIs(scale: real, x: Vec, ts: seq<Token>, r: nat)
    requires Fits(ts, |x|) && r < |ts|
    ensures Read(scale, x, ts[r]) == Dot(Queries(scale, ts, |x|)[r], x)
  {
    hide Times, Dot;
    DotScaled(x, scale, ts[r].q);
    DotCommutes(x, Queries(scale, ts, |x|)[r]);
  }

  lemma DecayedQueryReads(exp: real -> real, scale: real, s: Vec, ts: seq<Token>, r: nat)
    requires Fits(ts, |s|) && r < |ts|
    ensures
      Dot(s, DecayedQueries(exp, scale, ts, |s|)[r])
      == Times(exp(GateSum(ts, r + 1)), Dot(Queries(scale, ts, |s|)[r], s))
  {
    hide Times, Dot, Queries;
    var q := Queries(scale, ts, |s|)[r];
    DotScaled(s, exp(GateSum(ts, r + 1)), q);
    DotCommutes(s, q);
  }

  lemma ChunkOutputsAgree(exp: real -> real, scale: real, s: Vec, ts: seq<Token>)
    requires IsExp(exp) && Fits(ts, |s|) && |ts| > 0
    ensures ChunkOutput(BuildChunk(exp, scale, ts, |s|), s) == Outputs(exp, scale, s, ts)
  {
    hide Dot, Run, Outputs, Corrections, NewValues, BuildChunk, Read, OutputRow;
    NewValuesAreCorrections(exp, scale, s, ts);
    forall r | 0 <= r < |ts|
      ensures ChunkOutput(BuildChunk(exp, scale, ts, |s|), s)[r] == Outputs(exp, scale, s, ts)[r]
    {
      OutputAt(exp, scale, s, ts, r);
      ChunkOutputRow(exp, scale, s, ts, r);
    }
  }

  lemma WriteWeight(exp: real -> real, scale: real, ts: seq<Token>, dim: nat, i: nat, c: nat)
    requires Fits(ts, dim) && c < |ts| && i < dim
    ensures
      BuildChunk(exp, scale, ts, dim).kgT[i][c]
      == Times(exp(GateSum(ts, |ts|) - GateSum(ts, c + 1)), ts[c].k[i])
  {
    hide Times, Dot, Masked, DecayMask, Inverse, MatVec, MulMat, DecayedKeys, DecayedQueries;
  }

  lemma WriteTerm(exp: real -> real, scale: real, ts: seq<Token>, dim: nat, d: Vec, i: nat)
    requires Fits(ts, dim) && |d| == |ts| > 0 && i < dim
    ensures
      Dot(BuildChunk(exp, scale, ts, dim).kgT[i], d)
      == Dot(Transpose(Keys(ts, dim), dim)[i], Carried(exp, d, ts, |ts|, |ts|))
  {
    hide Times, Dot, BuildChunk, GateSum;
    var kg, k := BuildChunk(exp, scale, ts, dim).kgT[i], Transpose(Keys(ts, dim), dim)[i];
    var w := Carried(exp, d, ts, |ts|, |ts|);
    forall c | 0 <= c < |ts|
      ensures Times(kg[c], d[c]) == Times(k[c], w[c])
    {
      var decay := exp(GateSum(ts, |ts|) - GateSum(ts, c + 1));
      WriteWeight(exp, scale, ts, dim, i, c);
      TimesAssociates(decay, k[c], d[c]);
      TimesSwaps(decay, k[c], d[c]);
    }
    DotPointwise(kg, d, k, w);
  }

  lemma ChunkStateAgrees(exp: real -> real, scale: real, s: Vec, ts: seq<Token>)
    requires IsExp(exp) && Fits(ts, |s|) && |ts| > 0
    ensures ChunkState(BuildChunk(exp, scale, ts, |s|), s) == Run(exp, s, ts)
  {
    hide Times, Dot, Run, Corrections, NewValues, Carried;
    var ch, d := BuildChunk(exp, scale, ts, |s|), Corrections(exp, s, ts);
    NewValuesAreCorrections(exp, scale, s, ts);
    ClosedForm(exp, s, ts, |ts|);
    assert ts[..|ts|] == ts;
    forall i | 0 <= i < |s|
      ensures ChunkState(ch, s)[i] == Run(exp, s, ts)[i]
    {
      WriteTerm(exp, scale, ts, |s|, d, i);
      TimesCommutes(s[i], ch.gLastExp);
    }
  }
}
