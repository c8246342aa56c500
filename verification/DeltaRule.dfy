/**
 What the gated delta recurrence means for its caller: what the last token of a run does to the
 state, and what is read there. Everything is said of runs of any length from any start state.
*/
module DeltaRule {
  import opened LinearAlgebra
  import opened Exponential
  import opened DeltaNet

  ghost predicate Extends(ts: seq<Token>, t: Token, dim: nat) {
    Fits(ts, dim) && |t.q| == |t.k| == dim
  }

  lemma LastRun(exp: real -> real, scale: real, s: Vec, ts: seq<Token>, t: Token)
    requires Extends(ts, t, |s|)
    ensures Fits(ts + [t], |s|)
    ensures Run(exp, s, ts + [t]) == Advance(exp, Run(exp, s, ts), t)
    ensures Outputs(exp, scale, s, ts + [t]) == Outputs(exp, scale, s, ts) + [Read(scale, Run(exp, s, ts + [t]), t)]
  {
    assert (ts + [t])[..|ts|] == ts;
  }

  /** What the decayed state gets wrong about the value of `t`, times its write strength. */
  function Miss(exp: real -> real, before: Vec, t: Token): real
    requires |t.k| == |before|
  {
    Times(t.b, t.v - Times(exp(t.g), Dot(before, t.k)))
  }

  lemma CorrectionIsMiss(exp: real -> real, before: Vec, t: Token)
    requires |t.k| == |before|
    ensures Correction(exp, before, t) == Miss(exp, before, t)
  {
    hide Dot, Times, Scaled;
    DotScaled(t.k, exp(t.g), before);
    DotCommutes(Scaled(exp(t.g), before), t.k);
    DotCommutes(before, t.k);
  }

  lemma AdvancedEntry(exp: real -> real, before: Vec, t: Token, i: nat)
    requires |t.k| == |before| && i < |before|
    ensures
      Advance(exp, before, t)[i] == Times(exp(t.g), before[i]) + Times(Correction(exp, before, t), t.k[i])
  {
    hide Times, Dot, Correction;
  }

  /** Entry by entry, the last token decays the state and writes what was wrong about its value along its key. */
  lemma LastState(exp: real -> real, s: Vec, ts: seq<Token>, t: Token, i: nat)
    requires Extends(ts, t, |s|) && i < |s|
    ensures Fits(ts + [t], |s|)
    ensures
      var before := Run(exp, s, ts);
      Run(exp, s, ts + [t])[i] == Times(exp(t.g), before[i]) + Times(Miss(exp, before, t), t.k[i])
  {
    LastRun(exp, 0.0, s, ts, t);
    hide Run, Advance, Dot, Miss, Correction, Times;
    AdvancedEntry(exp, Run(exp, s, ts), t, i);
    CorrectionIsMiss(exp, Run(exp, s, ts), t);
  }

  /** What any vector reads from the state after the last token. */
  lemma LastReading(exp: real -> real, s: Vec, ts: seq<Token>, t: Token, y: Vec)
    requires Extends(ts, t, |s|) && |y| == |s|
    ensures Fits(ts + [t], |s|)
    ensures
      var before := Run(exp, s, ts);
      Dot(Run(exp, s, ts + [t]), y)
      == Times(exp(t.g), Dot(before, y)) + Times(Miss(exp, before, t), Dot(t.k, y))
  {
    LastRun(exp, 0.0, s, ts, t);
    hide Run, Advance, Dot, Miss, Correction, Times;
    var before, after := Run(exp, s, ts), Run(exp, s, ts + [t]);
    ReadingStep(exp, before, t, y);
    CorrectionIsMiss(exp, before, t);
    DotCommutes(y, after);
    DotCommutes(y, before);
    DotCommutes(y, t.k);
  }

  lemma ReadingStep(exp: real -> real, before: Vec, t: Token, y: Vec)
    requires |t.k| == |before| == |y|
    ensures
      Dot(y, Advance(exp, before, t))
      == Times(exp(t.g), Dot(y, before)) + Times(Correction(exp, before, t), Dot(y, t.k))
  {
    hide Times, Dot, Correction, Advance;
    forall i | 0 <= i < |before|
      ensures Advance(exp, before, t)[i] == Scaled(exp(t.g), before)[i] + Times(Correction(exp, before, t), t.k[i])
    {
      AdvancedEntry(exp, before, t, i);
    }
    DotLinear(y, Scaled(exp(t.g), before), Correction(exp, before, t), t.k, Advance(exp, before, t));
    DotScaled(y, exp(t.g), before);
  }

  /** The output of the last token is the scaled reading of its query from the state after it. */
  lemma LastOutput(exp: real -> real, scale: real, s: Vec, ts: seq<Token>, t: Token)
    requires Extends(ts, t, |s|)
    ensures Fits(ts + [t], |s|)
    ensures Outputs(exp, scale, s, ts + [t])[|ts|] == Times(scale, Dot(Run(exp, s, ts + [t]), t.q))
  {
    LastRun(exp, scale, s, ts, t);
    hide Dot, Run, Times;
  }

  /**
   Asking with the key just written, of unit length: the answer lies between what the decayed state
   answered and the new value, as far along as the write strength says.
  */
  lemma AnswersBetween(exp: real -> real, scale: real, s: Vec, ts: seq<Token>, t: Token)
    requires Extends(ts, t, |s|) && Dot(t.k, t.k) == 1.0 && t.q == t.k
    ensures Fits(ts + [t], |s|)
    ensures
      Outputs(exp, scale, s, ts + [t])[|ts|]
      == Times(scale, Times(1.0 - t.b, Times(exp(t.g), Dot(Run(exp, s, ts), t.k))) + Times(t.b, t.v))
  {
    LastOutput(exp, scale, s, ts, t);
    LastReading(exp, s, ts, t, t.k);
    hide Dot, Run, Outputs, Times;
    Between(t.b, t.v, Times(exp(t.g), Dot(Run(exp, s, ts), t.k)));
  }

  lemma Between(b: real, v: real, decayed: real)
    ensures decayed + Times(Times(b, v - decayed), 1.0) == Times(1.0 - b, decayed) + Times(b, v)
  {
  }

  lemma AtFullStrength(scale: real, v: real, decayed: real)
    ensures Times(scale, Times(0.0, decayed) + Times(1.0, v)) == scale * v
  {
  }

  lemma AtNoStrength(decayed: real, w: real, k: real)
    ensures decayed + Times(Times(0.0, w), k) == decayed
  {
  }

  /** At full write strength a value is recalled exactly, whatever came before. */
  lemma RecallsValue(exp: real -> real, scale: real, s: Vec, ts: seq<Token>, t: Token)
    requires Extends(ts, t, |s|) && t.b == 1.0 && Dot(t.k, t.k) == 1.0 && t.q == t.k
    ensures Fits(ts + [t], |s|)
    ensures Outputs(exp, scale, s, ts + [t])[|ts|] == scale * t.v
  {
    hide Dot, Run, Outputs, Times;
    AnswersBetween(exp, scale, s, ts, t);
    AtFullStrength(scale, t.v, Times(exp(t.g), Dot(Run(exp, s, ts), t.k)));
  }

  /** At no write strength the last token only decays the state. */
  lemma OnlyDecays(exp: real -> real, s: Vec, ts: seq<Token>, t: Token, i: nat)
    requires Extends(ts, t, |s|) && t.b == 0.0 && i < |s|
    ensures Fits(ts + [t], |s|)
    ensures Run(exp, s, ts + [t])[i] == exp(t.g) * Run(exp, s, ts)[i]
  {
    LastState(exp, s, ts, t, i);
    var before := Run(exp, s, ts);
    hide Dot, Run, Times;
    AtNoStrength(Times(exp(t.g), before[i]), t.v - Times(exp(t.g), Dot(before, t.k)), t.k[i]);
    TimesIs(exp(t.g), before[i]);
  }

  /** Any vector then reads the decayed state, and so does the token's own query for its output. */
  lemma ReadsDecayed(exp: real -> real, s: Vec, ts: seq<Token>, t: Token, y: Vec)
    requires Extends(ts, t, |s|) && t.b == 0.0 && |y| == |s|
    ensures Fits(ts + [t], |s|)
    ensures Dot(Run(exp, s, ts + [t]), y) == exp(t.g) * Dot(Run(exp, s, ts), y)
  {
    LastReading(exp, s, ts, t, y);
    var before := Run(exp, s, ts);
    hide Dot, Run, Times;
    AtNoStrength(Times(exp(t.g), Dot(before, y)), t.v - Times(exp(t.g), Dot(before, t.k)), Dot(t.k, y));
    TimesIs(exp(t.g), Dot(before, y));
  }

  /** Every output is the scaled reading of its token's query from the state after that token. */
  lemma OutputIsScaled(exp: real -> real, scale: real, s: Vec, ts: seq<Token>, t: Token)
    requires Extends(ts, t, |s|)
    ensures Fits(ts + [t], |s|)
    ensures Outputs(exp, scale, s, ts + [t])[|ts|] == scale * Dot(Run(exp, s, ts + [t]), t.q)
  {
    LastOutput(exp, scale, s, ts, t);
    hide Dot, Run, Times, Outputs;
    TimesIs(scale, Dot(Run(exp, s, ts + [t]), t.q));
  }

  /** At no write strength the last output is the scaled reading of the decayed state. */
  lemma OutputIsDecayed(exp: real -> real, scale: real, s: Vec, ts: seq<Token>, t: Token)
    requires Extends(ts, t, |s|) && t.b == 0.0
    ensures Fits(ts + [t], |s|)
    ensures Outputs(exp, scale, s, ts + [t])[|ts|] == scale * (exp(t.g) * Dot(Run(exp, s, ts), t.q))
  {
    hide Dot, Run, Outputs;
    OutputIsScaled(exp, scale, s, ts, t);
    ReadsDecayed(exp, s, ts, t, t.q);
  }

  lemma TimesIs(a: real, b: real)
    ensures Times(a, b) == a * b
  {
  }

  /** A query that has nothing in common with the key does not see what is written. */
  lemma OrthogonalUntouched(exp: real -> real, s: Vec, ts: seq<Token>, t: Token, y: Vec)
    requires Extends(ts, t, |s|) && |y| == |s| && Dot(t.k, y) == 0.0
    ensures Fits(ts + [t], |s|)
    ensures Dot(Run(exp, s, ts + [t]), y) == exp(t.g) * Dot(Run(exp, s, ts), y)
  {
    LastReading(exp, s, ts, t, y);
    hide Dot, Run, Times, Miss;
    TimesUnits(Miss(exp, Run(exp, s, ts), t));
    TimesIs(exp(t.g), Dot(Run(exp, s, ts), y));
  }
}
