/**
 Real vectors and matrices, with the tensor operations that the chunked gated
 delta-net graph is assembled from. A matrix is a sequence of rows; a row is
 the fastest-moving axis of the corresponding tensor.
*/
module LinearAlgebra {

  type Vec = seq<real>
  type Matrix = seq<Vec>

  ghost predicate HasShape(m: Matrix, rows: nat, cols: nat) {
    |m| == rows && forall r | 0 <= r < rows :: |m[r]| == cols
  }

  /** The product, named so that a proof can hide its definition and stay linear. */
  function Times(a: real, b: real): real {
    a * b
  }

  function Dot(a: Vec, b: Vec): real
    requires |a| == |b|
  {
    if |a| == 0 then 0.0
    else Dot(a[..|a| - 1], b[..|b| - 1]) + Times(a[|a| - 1], b[|b| - 1])
  }

  function Scaled(c: real, x: Vec): (y: Vec)
    ensures |y| == |x|
  {
    seq(|x|, i requires 0 <= i < |x| => Times(c, x[i]))
  }

  /** Entry `c` of row `r` is the dot product of row `c` of `a` and row `r` of `b`. */
  function MulMat(a: Matrix, b: Matrix, n: nat): (m: Matrix)
    requires HasShape(a, |a|, n) && HasShape(b, |b|, n)
    ensures HasShape(m, |b|, |a|)
  {
    seq(|b|, r requires 0 <= r < |b| =>
      seq(|a|, c requires 0 <= c < |a| => Dot(a[c], b[r])))
  }

  function MatVec(m: Matrix, x: Vec): (y: Vec)
    requires HasShape(m, |m|, |x|)
    ensures |y| == |m|
  {
    seq(|m|, r requires 0 <= r < |m| => Dot(m[r], x))
  }

  function Transpose(m: Matrix, cols: nat): (t: Matrix)
    requires HasShape(m, |m|, cols)
    ensures HasShape(t, cols, |m|)
  {
    seq(cols, c requires 0 <= c < cols =>
      seq(|m|, r requires 0 <= r < |m| => m[r][c]))
  }

  /** Inclusive running sum. */
  function CumSum(g: Vec): (s: Vec)
    ensures |s| == |g|
  {
    if |g| == 0 then []
    else
      var before := CumSum(g[..|g| - 1]);
      before + [g[|g| - 1] + if |before| == 0 then 0.0 else before[|before| - 1]]
  }

  function Identity(n: nat): (m: Matrix)
    ensures HasShape(m, n, n)
  {
    seq(n, r => seq(n, c => if r == c then 1.0 else 0.0))
  }

  function MatAdd(a: Matrix, b: Matrix, n: nat): (m: Matrix)
    requires HasShape(a, n, n) && HasShape(b, n, n)
    ensures HasShape(m, n, n)
  {
    seq(n, r requires 0 <= r < n => seq(n, c requires 0 <= c < n => a[r][c] + b[r][c]))
  }

  function MatNeg(a: Matrix, n: nat): (m: Matrix)
    requires HasShape(a, n, n)
    ensures HasShape(m, n, n)
  {
    seq(n, r requires 0 <= r < n => seq(n, c requires 0 <= c < n => -a[r][c]))
  }

  // ---------------------------------------------------------------------
  // Laws of the product
  // ---------------------------------------------------------------------

  lemma TimesCommutes(a: real, b: real)
    ensures Times(a, b) == Times(b, a)
  {
  }

  lemma TimesAssociates(a: real, b: real, c: real)
    ensures Times(Times(a, b), c) == Times(a, Times(b, c))
  {
  }

  lemma TimesSwaps(a: real, b: real, c: real)
    ensures Times(a, Times(b, c)) == Times(b, Times(a, c))
  {
  }

  lemma TimesDistributes(a: real, x: real, y: real)
    ensures Times(a, x + y) == Times(a, x) + Times(a, y)
    ensures Times(a, x - y) == Times(a, x) - Times(a, y)
  {
  }

  lemma TimesUnits(a: real)
    ensures Times(0.0, a) == 0.0 == Times(a, 0.0)
    ensures Times(1.0, a) == a == Times(a, 1.0)
  {
  }

  // ---------------------------------------------------------------------
  // Laws of the dot product
  // ---------------------------------------------------------------------

  lemma {:induction false} DotPointwise(a: Vec, x: Vec, b: Vec, y: Vec)
    requires |a| == |x| == |b| == |y|
    requires forall i | 0 <= i < |a| :: Times(a[i], x[i]) == Times(b[i], y[i])
    ensures Dot(a, x) == Dot(b, y)
  {
    hide Times;
    if |a| > 0 {
      var n := |a| - 1;
      DotPointwise(a[..n], x[..n], b[..n], y[..n]);
    }
  }

  lemma {:induction false} DotCommutes(a: Vec, b: Vec)
    requires |a| == |b|
    ensures Dot(a, b) == Dot(b, a)
  {
    hide Times, Dot;
    forall i | 0 <= i < |a|
      ensures Times(a[i], b[i]) == Times(b[i], a[i])
    {
      TimesCommutes(a[i], b[i]);
    }
    DotPointwise(a, b, b, a);
  }

  lemma {:induction false} DotLinear(a: Vec, x: Vec, c: real, y: Vec, z: Vec)
    requires |a| == |x| == |y| == |z|
    requires forall i | 0 <= i < |a| :: z[i] == x[i] + Times(c, y[i])
    ensures Dot(a, z) == Dot(a, x) + Times(c, Dot(a, y))
  {
    hide Times;
    if |a| == 0 {
      TimesUnits(c);
    } else {
      var n := |a| - 1;
      DotLinear(a[..n], x[..n], c, y[..n], z[..n]);
      TimesDistributes(a[n], x[n], Times(c, y[n]));
      TimesSwaps(a[n], c, y[n]);
      TimesDistributes(c, Dot(a[..n], y[..n]), Times(a[n], y[n]));
    }
  }

  lemma {:induction false} DotZero(a: Vec, z: Vec)
    requires |a| == |z|
    requires forall i | 0 <= i < |z| :: z[i] == 0.0
    ensures Dot(a, z) == 0.0
  {
    hide Times;
    if |a| > 0 {
      var n := |a| - 1;
      DotZero(a[..n], z[..n]);
      TimesUnits(a[n]);
    }
  }

  lemma DotScaled(a: Vec, c: real, y: Vec)
    requires |a| == |y|
    ensures Dot(a, Scaled(c, y)) == Times(c, Dot(a, y))
  {
    hide Times, Dot;
    var zeros := seq(|a|, i => 0.0);
    DotLinear(a, zeros, c, y, Scaled(c, y));
    DotZero(a, zeros);
  }

  function Unit(n: nat, r: nat): (u: Vec)
    ensures |u| == n
  {
    seq(n, c => if r == c then 1.0 else 0.0)
  }

  lemma {:induction false} DotUnit(a: Vec, r: nat)
    requires r < |a|
    ensures Dot(a, Unit(|a|, r)) == a[r]
  {
    hide Times;
    var n := |a| - 1;
    var u := Unit(|a|, r);
    TimesUnits(a[n]);
    if r == n {
      DotZero(a[..n], u[..n]);
    } else {
      assert u[..n] == Unit(n, r);
      DotUnit(a[..n], r);
    }
  }

  lemma DotSnoc(a: Vec, b: Vec)
    requires 0 < |a| == |b|
    ensures Dot(a, b) == Dot(a[..|a| - 1], b[..|b| - 1]) + Times(a[|a| - 1], b[|b| - 1])
  {
  }

  /** Transposing `m` times `x`, without and with the last row of `m`. */
  lemma TransposedStep(m: Matrix, x: Vec, y: Vec)
    requires 0 < |m| == |x| && HasShape(m, |m|, |y|)
    ensures
      var n := |m| - 1;
      Dot(y, MatVec(Transpose(m, |y|), x))
      == Dot(y, MatVec(Transpose(m[..n], |y|), x[..n])) + Times(x[n], Dot(y, m[n]))
  {
    hide Times, Dot;
    var n := |m| - 1;
    var t := MatVec(Transpose(m, |y|), x);
    var t' := MatVec(Transpose(m[..n], |y|), x[..n]);
    forall j | 0 <= j < |y|
      ensures t[j] == t'[j] + Times(x[n], m[n][j])
    {
      var col := Transpose(m, |y|)[j];
      DotSnoc(col, x);
      assert col[..n] == Transpose(m[..n], |y|)[j];
      TimesCommutes(col[n], x[n]);
    }
    DotLinear(y, t', x[n], m[n], t);
  }

  lemma MatVecStep(m: Matrix, x: Vec, y: Vec)
    requires 0 < |m| == |x| && HasShape(m, |m|, |y|)
    ensures
      var n := |m| - 1;
      Dot(x, MatVec(m, y)) == Dot(x[..n], MatVec(m[..n], y)) + Times(x[n], Dot(m[n], y))
  {
    hide Times, Dot;
    var n, v := |m| - 1, MatVec(m, y);
    DotSnoc(x, v);
    assert v[..n] == MatVec(m[..n], y);
  }

  /** Moving a matrix across a dot product transposes it. */
  lemma {:induction false} Adjoint(m: Matrix, x: Vec, y: Vec)
    requires |x| == |m| && HasShape(m, |m|, |y|)
    ensures Dot(x, MatVec(m, y)) == Dot(y, MatVec(Transpose(m, |y|), x))
  {
    hide Times;
    if |m| == 0 {
      DotZero(y, MatVec(Transpose(m, |y|), x));
    } else {
      var n := |m| - 1;
      Adjoint(m[..n], x[..n], y);
      TransposedStep(m, x, y);
      MatVecStep(m, x, y);
      DotCommutes(m[n], y);
    }
  }

  // ---------------------------------------------------------------------
  // Triangular systems
  // ---------------------------------------------------------------------

  ghost predicate UnitLower(l: Matrix, n: nat) {
    && HasShape(l, n, n)
    && forall r, c | 0 <= r < n && r <= c < n :: l[r][c] == if r == c then 1.0 else 0.0
  }

  /** The first `rows` rows of the solution X of `l` X = `b`, by forward substitution. */
  function SolveRows(l: Matrix, b: Matrix, n: nat, rows: nat): (x: Matrix)
    requires UnitLower(l, n) && HasShape(b, n, n) && rows <= n
    ensures HasShape(x, rows, n)
  {
    if rows == 0 then []
    else
      var r := rows - 1;
      var above := SolveRows(l, b, n, r);
      var columns := Transpose(above, n);
      above + [seq(n, j requires 0 <= j < n =>
                 (b[r][j] - Dot(l[r][..r], columns[j])) / l[r][r])]
  }

  function SolveTri(l: Matrix, b: Matrix, n: nat): (x: Matrix)
    requires UnitLower(l, n) && HasShape(b, n, n)
    ensures HasShape(x, n, n)
  {
    SolveRows(l, b, n, n)
  }

  lemma {:induction false} SolveRowsPrefix(l: Matrix, b: Matrix, n: nat, rows: nat, more: nat)
    requires UnitLower(l, n) && HasShape(b, n, n) && rows <= more <= n
    ensures SolveRows(l, b, n, more)[..rows] == SolveRows(l, b, n, rows)
  {
    hide Dot;
    if rows < more {
      SolveRowsPrefix(l, b, n, rows, more - 1);
      var above := SolveRows(l, b, n, more - 1);
      assert SolveRows(l, b, n, more)[..more - 1] == above;
      assert SolveRows(l, b, n, more)[..rows] == above[..rows];
    }
  }

  /** Leading zeros can be dropped from the tail of a dot product. */
  lemma {:induction false} DotTail(a: Vec, x: Vec, r: nat)
    requires r <= |a| == |x|
    requires forall c | r <= c < |a| :: a[c] == 0.0
    ensures Dot(a, x) == Dot(a[..r], x[..r])
  {
    hide Times;
    if r < |a| {
      var n := |a| - 1;
      DotTail(a[..n], x[..n], r);
      TimesUnits(x[n]);
      assert a[..n][..r] == a[..r] && x[..n][..r] == x[..r];
    } else {
      assert a[..r] == a && x[..r] == x;
    }
  }

  /** Row `r` of a unit lower triangular matrix times `x`. */
  lemma UnitLowerRow(l: Matrix, n: nat, r: nat, x: Vec)
    requires UnitLower(l, n) && r < n == |x|
    ensures Dot(l[r], x) == Dot(l[r][..r], x[..r]) + x[r]
  {
    hide Times, Dot;
    DotTail(l[r], x, r + 1);
    DotSnoc(l[r][..r + 1], x[..r + 1]);
    TimesUnits(x[r]);
    assert l[r][..r + 1][..r] == l[r][..r] && x[..r + 1][..r] == x[..r];
  }

  /** Forward substitution solves the system: `l` times the result is `b`. */
  lemma SolveTriSolves(l: Matrix, b: Matrix, n: nat, r: nat, j: nat)
    requires UnitLower(l, n) && HasShape(b, n, n) && r < n && j < n
    ensures Dot(l[r], Transpose(SolveTri(l, b, n), n)[j]) == b[r][j]
  {
    hide Dot;
    var x := SolveTri(l, b, n);
    var col := Transpose(x, n)[j];
    SolveRowsPrefix(l, b, n, r, n);
    SolveRowsPrefix(l, b, n, r + 1, n);
    assert x[..r + 1][r] == x[r];
    UnitLowerRow(l, n, r, col);
    assert col[..r] == Transpose(SolveRows(l, b, n, r), n)[j];
  }

  /** A unit lower triangular system has at most one solution. */
  lemma {:induction false} UnitLowerUnique(l: Matrix, n: nat, x: Vec, y: Vec, r: nat)
    requires UnitLower(l, n) && |x| == |y| == n && r <= n
    requires forall i | 0 <= i < n :: Dot(l[i], x) == Dot(l[i], y)
    ensures x[..r] == y[..r]
  {
    hide Dot;
    if r > 0 {
      UnitLowerUnique(l, n, x, y, r - 1);
      UnitLowerRow(l, n, r - 1, x);
      UnitLowerRow(l, n, r - 1, y);
      assert x[r - 1] == y[r - 1];
      assert x[..r] == x[..r - 1] + [x[r - 1]] && y[..r] == y[..r - 1] + [y[r - 1]];
    }
  }

  /**
   With A strictly lower triangular, solving (I + A) X = -A and adding I to X
   gives the inverse of I + A.
  */
  lemma SolveGivesInverse(a: Matrix, n: nat, r: nat, j: nat)
    requires HasShape(a, n, n) && r < n && j < n
    requires forall p, c | 0 <= p < n && p <= c < n :: a[p][c] == 0.0
    ensures UnitLower(MatAdd(a, Identity(n), n), n)
    ensures
      var l := MatAdd(a, Identity(n), n);
      var t := MatAdd(SolveTri(l, MatNeg(a, n), n), Identity(n), n);
      Dot(l[r], Transpose(t, n)[j]) == Identity(n)[r][j]
  {
    hide Times, Dot, SolveTri;
    var id := Identity(n);
    var l := MatAdd(a, id, n);
    var x := SolveTri(l, MatNeg(a, n), n);
    var t := MatAdd(x, id, n);
    SolveTriSolves(l, MatNeg(a, n), n, r, j);
    forall c | 0 <= c < n
      ensures Transpose(t, n)[j][c] == Transpose(x, n)[j][c] + Times(1.0, Unit(n, j)[c])
    {
      TimesUnits(Unit(n, j)[c]);
    }
    DotLinear(l[r], Transpose(x, n)[j], 1.0, Unit(n, j), Transpose(t, n)[j]);
    DotUnit(l[r], j);
    TimesUnits(l[r][j]);
  }

  /** Applying the inverse to a right-hand side gives the solution of the system. */
  lemma InverseSolves(l: Matrix, t: Matrix, n: nat, rhs: Vec, d: Vec)
    requires UnitLower(l, n) && HasShape(t, n, n) && |rhs| == |d| == n
    requires forall r, j | 0 <= r < n && 0 <= j < n :: Dot(l[r], Transpose(t, n)[j]) == Identity(n)[r][j]
    requires forall r | 0 <= r < n :: Dot(l[r], d) == rhs[r]
    ensures MatVec(t, rhs) == d
  {
    hide Dot;
    var x := MatVec(t, rhs);
    forall r | 0 <= r < n
      ensures Dot(l[r], x) == Dot(l[r], d)
    {
      Adjoint(t, l[r], rhs);
      var m := MatVec(Transpose(t, n), l[r]);
      forall j | 0 <= j < n
        ensures m[j] == Unit(n, r)[j]
      {
        DotCommutes(Transpose(t, n)[j], l[r]);
        assert Identity(n)[r][j] == Unit(n, r)[j];
      }
      assert m == Unit(n, r);
      DotUnit(rhs, r);
    }
    UnitLowerUnique(l, n, x, d, n);
    assert x[..n] == x && d[..n] == d;
  }
}
