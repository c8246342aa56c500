/**
 The whole chunked computation: zero padding to a multiple of the chunk size, the tensors
 of every chunk, the chunk loop that carries the state and overwrites the value buffer
 chunk by chunk, and the truncation back to the real tokens.
*/
module DeltaNetGraph {
  import opened Arithmetic
  import opened LinearAlgebra
  import opened Exponential
  import opened DeltaNet
  import Proof = DeltaNetChunkProof

  // ---------------------------------------------------------------------
  // Sequencing laws of the recurrence
  // ---------------------------------------------------------------------

  /** Running `xs` and then `ys` from the state reached is running `xs + ys`. */
  lemma {:induction false} RunAppend(exp: real -> real, s: Vec, xs: seq<Token>, ys: seq<Token>)
    requires Fits(xs, |s|) && Fits(ys, |s|)
    ensures Run(exp, s, xs + ys) == Run(exp, Run(exp, s, xs), ys)
  {
    hide Advance;
    if ys == [] {
      assert xs + ys == xs;
    } else {
      var n := |ys| - 1;
      RunAppend(exp, s, xs, ys[..n]);
      assert (xs + ys)[..|xs| + n] == xs + ys[..n];
    }
  }

  lemma {:induction false} OutputsAppend(exp: real -> real, scale: real, s: Vec, xs: seq<Token>, ys: seq<Token>)
    requires Fits(xs, |s|) && Fits(ys, |s|)
    ensures
      Outputs(exp, scale, s, xs + ys)
      == Outputs(exp, scale, s, xs) + Outputs(exp, scale, Run(exp, s, xs), ys)
  {
    hide Run, Read;
    if ys == [] {
      assert xs + ys == xs;
    } else {
      var n := |ys| - 1;
      OutputsAppend(exp, scale, s, xs, ys[..n]);
      RunAppend(exp, s, xs, ys);
      assert (xs + ys)[..|xs| + n] == xs + ys[..n];
    }
  }

  // ---------------------------------------------------------------------
  // Padding
  // ---------------------------------------------------------------------

  function ZeroToken(dim: nat): Token {
    var z := seq(dim, i => 0.0);
    Token(z, z, 0.0, 0.0, 0.0)
  }

  function Padding(dim: nat, n: nat): (ts: seq<Token>)
    ensures |ts| == n && Fits(ts, dim)
  {
    seq(n, i => ZeroToken(dim))
  }

  /** Zero tokens leave the state as it is. */
  lemma {:induction false} PaddingKeepsState(exp: real -> real, s: Vec, n: nat)
    requires IsExp(exp)
    ensures Run(exp, s, Padding(|s|, n)) == s
  {
    if n > 0 {
      PaddingKeepsState(exp, s, n - 1);
      assert Padding(|s|, n)[..n - 1] == Padding(|s|, n - 1);
      var t := ZeroToken(|s|);
      assert Padding(|s|, n)[n - 1] == t;
      hide Times, Dot;
      TimesUnits(t.v - Dot(Scaled(exp(t.g), s), t.k));
      forall i | 0 <= i < |s|
        ensures Advance(exp, s, t)[i] == s[i]
      {
        TimesUnits(s[i]);
        TimesUnits(0.0);
      }
    }
  }

  /** Padding changes neither the final state nor the outputs of the real tokens. */
  lemma PaddingIsNeutral(exp: real -> real, scale: real, s: Vec, ts: seq<Token>, pad: nat)
    requires IsExp(exp) && Fits(ts, |s|)
    ensures Run(exp, s, ts + Padding(|s|, pad)) == Run(exp, s, ts)
    ensures Outputs(exp, scale, s, ts + Padding(|s|, pad))[..|ts|] == Outputs(exp, scale, s, ts)
  {
    RunAppend(exp, s, ts, Padding(|s|, pad));
    PaddingKeepsState(exp, Run(exp, s, ts), pad);
    OutputsAppend(exp, scale, s, ts, Padding(|s|, pad));
  }

  /** The padded length is the least multiple of the chunk size that is not below `n`. */
  lemma PaddedLength(n: nat, cs: nat) returns (pad: nat, chunks: nat)
    requires cs > 0
    ensures pad == (cs - n % cs) % cs < cs && chunks == (n + pad) / cs
    ensures n + pad == chunks * cs
  {
    pad := (cs - n % cs) % cs;
    chunks := (n + pad) / cs;
    var q, m := n / cs, n % cs;
    SmallRemainder(cs - m, cs);
    assert n + pad == if m == 0 then q * cs else (q + 1) * cs;
    QuotientOfMultiple(q, cs);
    QuotientOfMultiple(q + 1, cs);
  }

  // ---------------------------------------------------------------------
  // The graph
  // ---------------------------------------------------------------------

  /** The tokens of chunk `c`, as a slice along the chunk axis selects them. */
  function GetSlice(ts: seq<Token>, cs: nat, c: nat): (slice: seq<Token>)
    requires c * cs + cs <= |ts|
    ensures |slice| == cs
  {
    ts[c * cs..c * cs + cs]
  }

  lemma SliceInRange(c: nat, chunks: nat, cs: nat)
    requires c < chunks
    ensures c * cs + cs == (c + 1) * cs <= chunks * cs
  {
  }

  function Flatten(rows: Matrix, cs: nat): (flat: Vec)
    requires HasShape(rows, |rows|, cs)
    ensures |flat| == |rows| * cs
  {
    if rows == [] then []
    else
      var n := |rows| - 1;
      assert |rows| * cs == n * cs + cs;
      Flatten(rows[..n], cs) + rows[n]
  }

  ghost predicate RegionIs(flat: Vec, at: int, x: Vec) {
    0 <= at && at + |x| <= |flat| && flat[at..at + |x|] == x
  }

  lemma {:induction false} FlattenRegion(rows: Matrix, cs: nat, c: nat)
    requires HasShape(rows, |rows|, cs) && c < |rows|
    ensures RegionIs(Flatten(rows, cs), c * cs, rows[c])
  {
    var n := |rows| - 1;
    SliceInRange(c, |rows|, cs);
    if c < n {
      SliceInRange(c, n, cs);
      FlattenRegion(rows[..n], cs, c);
    } else {
      assert |Flatten(rows[..n], cs)| == n * cs;
    }
  }

  /** One turn of the chunk loop, over the tokens seen so far. */
  lemma ChunkStep(exp: real -> real, scale: real, start: Vec, before: seq<Token>, slice: seq<Token>)
    requires IsExp(exp) && Fits(before, |start|) && Fits(slice, |start|) && |slice| > 0
    ensures
      var s, ch := Run(exp, start, before), BuildChunk(exp, scale, slice, |start|);
      && Outputs(exp, scale, start, before + slice)
         == Outputs(exp, scale, start, before) + ChunkOutput(ch, s)
      && Run(exp, start, before + slice) == ChunkState(ch, s)
  {
    hide Times, Dot, Run, Outputs, BuildChunk, ChunkOutput, ChunkState;
    var s := Run(exp, start, before);
    Proof.ChunkOutputsAgree(exp, scale, s, slice);
    Proof.ChunkStateAgrees(exp, scale, s, slice);
    OutputsAppend(exp, scale, start, before, slice);
    RunAppend(exp, start, before, slice);
  }

  /** The tensors of every chunk, and the value buffer that the loop overwrites: their `u` end to end. */
  method BuildChunks(exp: real -> real, scale: real, ts: seq<Token>, dim: nat, cs: nat, nChunks: nat)
    returns (chunks: seq<Chunk>, u: Vec)
    requires Fits(ts, dim) && cs > 0 && |ts| == nChunks * cs
    ensures |chunks| == nChunks && |u| == |ts|
    ensures forall c | 0 <= c < nChunks :: RegionIs(u, c * cs, chunks[c].u)
    ensures forall c | 0 <= c < nChunks ::
      c * cs + cs <= |ts| && chunks[c] == BuildChunk(exp, scale, GetSlice(ts, cs, c), dim)
  {
    hide BuildChunk;
    chunks := [];
    while |chunks| < nChunks
      invariant |chunks| <= nChunks
      invariant forall c | 0 <= c < |chunks| ::
        c * cs + cs <= |ts| && chunks[c] == BuildChunk(exp, scale, GetSlice(ts, cs, c), dim)
    {
      SliceInRange(|chunks|, nChunks, cs);
      chunks := chunks + [BuildChunk(exp, scale, GetSlice(ts, cs, |chunks|), dim)];
    }
    var rows := seq(nChunks, c requires 0 <= c < nChunks => chunks[c].u);
    u := Flatten(rows, cs);
    forall c | 0 <= c < nChunks
      ensures RegionIs(u, c * cs, chunks[c].u)
    {
      FlattenRegion(rows, cs, c);
    }
  }

  /**
   For every token count, chunk size and start state the chunked computation returns the
   outputs and the final state of the token-by-token recurrence. The source fixes the
   chunk size to 64 and the scale to one over the square root of the key dimension.
  */
  method BuildDeltaNetChunked(exp: real -> real, scale: real, ts: seq<Token>, start: Vec, cs: nat)
    returns (o: Vec, s: Vec)
    requires IsExp(exp) && Fits(ts, |start|) && cs > 0
    ensures o == Outputs(exp, scale, start, ts)
    ensures s == Run(exp, start, ts)
  {
    var pad := (cs - |ts| % cs) % cs;
    var nChunks := (|ts| + pad) / cs;
    ghost var _, _ := PaddedLength(|ts|, cs);
    var padded := ts + Padding(|start|, pad);
    o, s := RunChunks(exp, scale, padded, start, cs, nChunks);
    PaddingIsNeutral(exp, scale, start, ts, pad);
    o := o[..|ts|];
  }

  lemma FitsSlices(ts: seq<Token>, dim: nat, from: nat, to: nat)
    requires Fits(ts, dim) && from <= to <= |ts|
    ensures Fits(ts[..from], dim) && Fits(ts[from..to], dim)
  {
  }

  lemma NothingRun(exp: real -> real, scale: real, s: Vec)
    ensures Run(exp, s, []) == s && Outputs(exp, scale, s, []) == []
  {
  }

  method RunChunks(exp: real -> real, scale: real, ts: seq<Token>, start: Vec, cs: nat, nChunks: nat)
    returns (o: Vec, s: Vec)
    requires IsExp(exp) && Fits(ts, |start|) && cs > 0 && |ts| == nChunks * cs
    ensures o == Outputs(exp, scale, start, ts)
    ensures s == Run(exp, start, ts)
  {
    hide Run, Outputs, BuildChunk, ChunkOutput, ChunkState, HasShape, Fits;
    var chunks, u := BuildChunks(exp, scale, ts, |start|, cs, nChunks);
    var v := new real[|u|](i requires 0 <= i < |u| => u[i]);
    NothingRun(exp, scale, start);
    assert ts[..0] == [];
    FitsSlices(ts, |start|, 0, 0);
    s := start;
    var offset := 0;
    for chunk := 0 to nChunks
      invariant offset == chunk * cs <= |ts| == v.Length && |s| == |start|
      invariant Fits(ts[..offset], |start|) && s == Run(exp, start, ts[..offset])
      invariant v[..offset] == Outputs(exp, scale, start, ts[..offset])
    {
      SliceInRange(chunk, nChunks, cs);
      ghost var slice := GetSlice(ts, cs, chunk);
      assert ts[..offset] + slice == ts[..offset + cs];
      FitsSlices(ts, |start|, offset, offset + cs);
      ChunkStep(exp, scale, start, ts[..offset], slice);
      SetInPlace(v, ChunkOutput(chunks[chunk], s), offset);
      s := ChunkState(chunks[chunk], s);
      FitsSlices(ts, |start|, offset + cs, |ts|);
      offset := offset + cs;
    }
    assert ts[..offset] == ts;
    o := v[..];
  }

  /** Overwrites the region of `v` that starts at `offset` and leaves the rest alone. */
  method SetInPlace(v: array<real>, x: Vec, offset: nat)
    requires offset + |x| <= v.Length
    modifies v
    ensures v[..offset + |x|] == old(v[..offset]) + x
    ensures v[offset + |x|..] == old(v[offset + |x|..])
  {
    for i := 0 to |x|
      invariant v[..offset] == old(v[..offset])
      invariant v[offset..offset + i] == x[..i]
      invariant v[offset + i..] == old(v[offset + i..])
    {
      v[offset + i] := x[i];
      assert v[offset..offset + i + 1] == x[..i + 1];
    }
    assert v[..offset + |x|] == v[..offset] + v[offset..offset + |x|];
  }
}
