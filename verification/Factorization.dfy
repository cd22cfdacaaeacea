/** What the packed factors produced by dgefa mean.

    dgefa does not apply later row swaps to earlier multiplier columns, so L is
    an interleaved product of swaps and eliminations. `Replay` performs those
    steps one after the other on any vector; it is what dgesl does to its right
    hand side, and what dgefa did to every column of the matrix.
 */
module Factorization {
  import opened Vectors

  /** Packed output: `lu` holds U on and above the diagonal and the negated
      multipliers below it, `piv` the row swapped with row k at step k. */
  datatype Factors = Factors(lu: seq<Vec>, piv: seq<int>)

  /** The first k steps of f are well formed for order n. */
  predicate ValidFactors(f: Factors, n: nat, k: nat) {
    && IsMatrix(f.lu, n, n)
    && |f.piv| == n
    && k <= n
    && forall t :: 0 <= t < k ==> t <= f.piv[t] < n
  }

  function SwapEntries(v: Vec, k: nat, l: nat): (r: Vec)
    requires k < |v| && l < |v|
    ensures |r| == |v|
  {
    v[k := v[l]][l := v[k]]
  }

  /** One elimination step: swap rows k and l, then add m[i] times row k to every
      row i below k. */
  function Step(v: Vec, k: nat, l: nat, m: Vec): (r: Vec)
    requires k < |v| == |m| && l < |v|
    ensures |r| == |v|
  {
    var w := SwapEntries(v, k, l);
    seq(|v|, i requires 0 <= i < |v| => if i <= k then w[i] else w[i] + w[k] * m[i])
  }

  /** The first k recorded steps, applied in order. */
  function Replay(f: Factors, n: nat, v: Vec, k: nat): (r: Vec)
    requires ValidFactors(f, n, k) && |v| == n
    ensures |r| == n
  {
    if k == 0 then v else Step(Replay(f, n, v, k - 1), k - 1, f.piv[k - 1], f.lu[k - 1])
  }

  /** A column cut off below the diagonal. */
  function UpperColumn(c: Vec, j: nat): (r: Vec)
    ensures |r| == |c|
  {
    seq(|c|, i requires 0 <= i < |c| => if i <= j then c[i] else 0.0)
  }

  function Upper(f: Factors, n: nat): (u: seq<Vec>)
    requires IsMatrix(f.lu, n, n)
    ensures IsMatrix(u, n, n)
  {
    seq(n, j requires 0 <= j < n => UpperColumn(f.lu[j], j))
  }

  /** After k steps a finished column replays to its upper triangle with zeros
      below, any other to exactly what is stored. */
  ghost predicate ColumnFactored(f: Factors, a: seq<Vec>, n: nat, k: nat, j: nat)
    requires ValidFactors(f, n, k) && IsMatrix(a, n, n) && j < n
  {
    Replay(f, n, a[j], k) == if j < k then UpperColumn(f.lu[j], j) else f.lu[j]
  }

  ghost predicate FactoredUpTo(f: Factors, a: seq<Vec>, n: nat, k: nat) {
    && ValidFactors(f, n, k)
    && IsMatrix(a, n, n)
    && forall j :: 0 <= j < n ==> ColumnFactored(f, a, n, k, j)
  }

  /** f is a factorisation of a: replaying the n-1 recorded steps on each column
      of a gives the stored upper triangle and zeros below it. */
  ghost predicate Factored(f: Factors, a: seq<Vec>, n: nat) {
    n >= 1 && FactoredUpTo(f, a, n, n - 1)
  }

  lemma {:induction false} FactorsValid(f: Factors, a: seq<Vec>, n: nat)
    requires Factored(f, a, n)
    ensures n >= 1 && ValidFactors(f, n, n - 1) && IsMatrix(a, n, n)
  {
  }

  lemma {:induction false} FactoredColumn(f: Factors, a: seq<Vec>, n: nat, j: nat)
    requires Factored(f, a, n) && j < n
    ensures Replay(f, n, a[j], n - 1) == UpperColumn(f.lu[j], j) == Upper(f, n)[j]
  {
    assert ColumnFactored(f, a, n, n - 1, j);
    assert UpperColumn(f.lu[n - 1], n - 1) == f.lu[n - 1];
  }

  predicate NonzeroDiagonal(f: Factors, n: nat)
    requires IsMatrix(f.lu, n, n)
  {
    forall k :: 0 <= k < n ==> f.lu[k][k] != 0.0
  }

  // ---------------------------------------------------------------------
  // Replay is linear and injective
  // ---------------------------------------------------------------------

  lemma {:induction false} SwapAxpy(c: real, u: Vec, v: Vec, k: nat, l: nat)
    requires |u| == |v| && k < |u| && l < |u|
    ensures SwapEntries(Axpy(c, u, v), k, l) == Axpy(c, SwapEntries(u, k, l), SwapEntries(v, k, l))
  {
    var x := SwapEntries(Axpy(c, u, v), k, l);
    var y := Axpy(c, SwapEntries(u, k, l), SwapEntries(v, k, l));
    forall i | 0 <= i < |u|
      ensures x[i] == y[i]
    {
      if i != k && i != l {
        assert x[i] == v[i] + c * u[i];
      }
    }
  }

  lemma {:induction false} StepLinear(c: real, u: Vec, v: Vec, k: nat, l: nat, m: Vec)
    requires |u| == |v| == |m| && k < |u| && l < |u|
    ensures Step(Axpy(c, u, v), k, l, m) == Axpy(c, Step(u, k, l, m), Step(v, k, l, m))
  {
    var x := SwapEntries(Axpy(c, u, v), k, l);
    var wu, wv := SwapEntries(u, k, l), SwapEntries(v, k, l);
    SwapAxpy(c, u, v, k, l);
    forall i | 0 <= i < |u|
      ensures Step(Axpy(c, u, v), k, l, m)[i] == Axpy(c, Step(u, k, l, m), Step(v, k, l, m))[i]
    {
      if i > k {
        Distribute(c, wu[i], wu[k], wv[i], wv[k], m[i]);
      }
    }
  }

  lemma {:induction false} Distribute(c: real, ui: real, uk: real, vi: real, vk: real, m: real)
    ensures (vi + c * ui) + (vk + c * uk) * m == (vi + vk * m) + c * (ui + uk * m)
  {
  }

  lemma {:induction false} ReplayLinear(f: Factors, n: nat, c: real, u: Vec, v: Vec, k: nat)
    requires ValidFactors(f, n, k) && |u| == |v| == n
    ensures Replay(f, n, Axpy(c, u, v), k) == Axpy(c, Replay(f, n, u, k), Replay(f, n, v, k))
  {
    hide Step;
    if k > 0 {
      var ru, rv := Replay(f, n, u, k - 1), Replay(f, n, v, k - 1);
      var l, m := f.piv[k - 1], f.lu[k - 1];
      ReplayLinear(f, n, c, u, v, k - 1);
      assert Replay(f, n, Axpy(c, u, v), k) == Step(Axpy(c, ru, rv), k - 1, l, m);
      StepLinear(c, ru, rv, k - 1, l, m);
    }
  }

  lemma {:induction false} StepInjective(u: Vec, v: Vec, k: nat, l: nat, m: Vec)
    requires |u| == |v| == |m| && k < |u| && l < |u|
    requires Step(u, k, l, m) == Step(v, k, l, m)
    ensures u == v
  {
    var wu, wv := SwapEntries(u, k, l), SwapEntries(v, k, l);
    forall i | 0 <= i < |u|
      ensures wu[i] == wv[i]
    {
      assert Step(u, k, l, m)[k] == Step(v, k, l, m)[k];
      assert Step(u, k, l, m)[i] == Step(v, k, l, m)[i];
    }
    assert u == SwapEntries(wu, k, l) == SwapEntries(wv, k, l) == v;
  }

  lemma {:induction false} ReplayInjective(f: Factors, n: nat, u: Vec, v: Vec, k: nat)
    requires ValidFactors(f, n, k) && |u| == |v| == n
    requires Replay(f, n, u, k) == Replay(f, n, v, k)
    ensures u == v
  {
    if k > 0 {
      StepInjective(Replay(f, n, u, k - 1), Replay(f, n, v, k - 1), k - 1, f.piv[k - 1], f.lu[k - 1]);
      ReplayInjective(f, n, u, v, k - 1);
    }
  }

  lemma {:induction false} ReplayZeros(f: Factors, n: nat, k: nat)
    requires ValidFactors(f, n, k)
    ensures Replay(f, n, Zeros(n), k) == Zeros(n)
  {
    if k > 0 {
      ReplayZeros(f, n, k - 1);
      assert Step(Zeros(n), k - 1, f.piv[k - 1], f.lu[k - 1]) == Zeros(n);
    }
  }

  lemma {:induction false} ReplayCombination(f: Factors, a: seq<Vec>, n: nat, x: Vec, lo: nat)
    requires Factored(f, a, n) && |x| == n && lo <= n
    ensures Replay(f, n, Combination(a, x, n, lo), n - 1) == Combination(Upper(f, n), x, n, lo)
    decreases n - lo
  {
    hide Replay;
    hide Axpy;
    hide UpperColumn;
    if lo == n {
      ReplayZeros(f, n, n - 1);
    } else {
      var rest := Combination(a, x, n, lo + 1);
      assert Replay(f, n, rest, n - 1) == Combination(Upper(f, n), x, n, lo + 1) by {
        ReplayCombination(f, a, n, x, lo + 1);
      }
      assert Replay(f, n, a[lo], n - 1) == Upper(f, n)[lo] by { FactoredColumn(f, a, n, lo); }
      ReplayLinear(f, n, x[lo], a[lo], rest, n - 1);
    }
  }

  /** Replaying A*x gives U*x: the stored factors multiply back to A. */
  lemma {:induction false} ReplayOfProduct(f: Factors, a: seq<Vec>, n: nat, x: Vec)
    requires Factored(f, a, n) && |x| == n
    ensures Replay(f, n, MatVec(a, x, n), n - 1) == MatVec(Upper(f, n), x, n)
  {
    ReplayCombination(f, a, n, x, 0);
    CombinationIsMatVec(a, x, n);
    CombinationIsMatVec(Upper(f, n), x, n);
  }

  /** Solving U*x = Replay(b) solves A*x = b. */
  lemma {:induction false} SolvesOriginal(f: Factors, a: seq<Vec>, n: nat, b: Vec, x: Vec)
    requires Factored(f, a, n) && |x| == |b| == n
    requires MatVec(Upper(f, n), x, n) == Replay(f, n, b, n - 1)
    ensures MatVec(a, x, n) == b
  {
    var ax := MatVec(a, x, n);
    assert Replay(f, n, ax, n - 1) == Replay(f, n, b, n - 1) by { ReplayOfProduct(f, a, n, x); }
    ReplayInjective(f, n, ax, b, n - 1);
  }

  // ---------------------------------------------------------------------
  // A zero on the diagonal of U is exactly singularity of A
  // ---------------------------------------------------------------------

  /** Row i of U*x uses only the columns from i on, as stored in lu. */
  lemma {:induction false} UpperRow(f: Factors, n: nat, x: Vec, i: nat)
    requires IsMatrix(f.lu, n, n) && |x| == n && i < n
    ensures MatVec(Upper(f, n), x, n)[i] == RowSum(f.lu, x, i, i)
  {
    var u := Upper(f, n);
    RowSumSkip(u, x, i, 0, i);
    RowSumFrame(u, f.lu, x, x, i, i);
  }

  ghost predicate Nonsingular(a: seq<Vec>, n: nat)
    requires IsMatrix(a, n, n)
  {
    forall x: Vec :: |x| == n && MatVec(a, x, n) == Zeros(n) ==> x == Zeros(n)
  }

  /** Back substitution has one answer at most. */
  lemma {:induction false} UpperUnique(f: Factors, n: nat, x: Vec, y: Vec, lo: nat)
    requires IsMatrix(f.lu, n, n) && |x| == |y| == n && lo <= n
    requires NonzeroDiagonal(f, n)
    requires MatVec(Upper(f, n), x, n) == MatVec(Upper(f, n), y, n)
    ensures x[lo..] == y[lo..]
    decreases n - lo
  {
    if lo < n {
      UpperUnique(f, n, x, y, lo + 1);
      UpperRow(f, n, x, lo);
      UpperRow(f, n, y, lo);
      RowSumFrame(f.lu, f.lu, x, y, lo, lo + 1);
      CancelFactor(f.lu[lo][lo], x[lo], y[lo]);
      assert x[lo..] == [x[lo]] + x[lo + 1..];
      assert y[lo..] == [y[lo]] + y[lo + 1..];
    }
  }

  lemma {:induction false} CancelFactor(d: real, x: real, y: real)
    requires d != 0.0 && d * x == d * y
    ensures x == y
  {
    assert d * (x - y) == 0.0;
  }

  lemma {:induction false} SolutionUnique(f: Factors, a: seq<Vec>, n: nat, x: Vec, y: Vec)
    requires Factored(f, a, n) && |x| == |y| == n
    requires NonzeroDiagonal(f, n)
    requires MatVec(a, x, n) == MatVec(a, y, n)
    ensures x == y
  {
    ReplayOfProduct(f, a, n, x);
    ReplayOfProduct(f, a, n, y);
    UpperUnique(f, n, x, y, 0);
    assert x[0..] == x && y[0..] == y;
  }

  /** From the first zero on the diagonal, back substitution builds a vector that
      U, and hence A, sends to zero. */
  lemma {:induction false} KernelVector(f: Factors, n: nat, k: nat) returns (x: Vec)
    requires IsMatrix(f.lu, n, n) && k < n && f.lu[k][k] == 0.0
    requires forall t :: 0 <= t < k ==> f.lu[t][t] != 0.0
    ensures |x| == n && x[k] == 1.0
    ensures forall i :: 0 <= i < n ==> RowSum(f.lu, x, i, i) == 0.0
  {
    x := Zeros(n)[k := 1.0];
    forall i | k <= i < n
      ensures RowSum(f.lu, x, i, i) == 0.0
    {
      if i == k {
        RowSumSkip(f.lu, x, i, k, n);
      } else {
        RowSumSkip(f.lu, x, i, i, n);
      }
    }
    var i := k;
    while i > 0
      invariant 0 <= i <= k && |x| == n && x[k] == 1.0
      invariant forall t :: i <= t < n ==> RowSum(f.lu, x, t, t) == 0.0
    {
      i := i - 1;
      ghost var prev := x;
      var d := f.lu[i][i];
      x := x[i := -RowSum(f.lu, x, i, i + 1) / d];
      forall t | i + 1 <= t < n
        ensures RowSum(f.lu, x, t, t) == 0.0
      {
        RowSumFrame(f.lu, f.lu, prev, x, t, t);
      }
      RowSumFrame(f.lu, f.lu, prev, x, i, i + 1);
      assert d * x[i] == -RowSum(f.lu, prev, i, i + 1);
    }
  }

  /** The matrix is nonsingular exactly when no diagonal entry of U is zero. */
  lemma {:induction false} SingularIffZeroDiagonal(f: Factors, a: seq<Vec>, n: nat)
    requires Factored(f, a, n)
    ensures Nonsingular(a, n) <==> NonzeroDiagonal(f, n)
  {
    if NonzeroDiagonal(f, n) {
      MatVecZeros(a, n);
      forall x: Vec | |x| == n && MatVec(a, x, n) == Zeros(n)
        ensures x == Zeros(n)
      {
        SolutionUnique(f, a, n, x, Zeros(n));
      }
    } else {
      var k := FirstZero(f, n);
      var x := KernelVector(f, n, k);
      forall i | 0 <= i < n
        ensures MatVec(Upper(f, n), x, n)[i] == Zeros(n)[i]
      {
        UpperRow(f, n, x, i);
      }
      ReplayZeros(f, n, n - 1);
      assert MatVec(Upper(f, n), x, n) == Replay(f, n, Zeros(n), n - 1);
      SolvesOriginal(f, a, n, Zeros(n), x);
      assert x[k] != Zeros(n)[k];
    }
  }

  lemma {:induction false} MatVecZeros(a: seq<Vec>, n: nat)
    requires IsMatrix(a, n, n)
    ensures MatVec(a, Zeros(n), n) == Zeros(n)
  {
    forall i | 0 <= i < n
      ensures MatVec(a, Zeros(n), n)[i] == 0.0
    {
      RowSumSkip(a, Zeros(n), i, 0, n);
    }
  }

  lemma {:induction false} FirstZero(f: Factors, n: nat) returns (k: nat)
    requires IsMatrix(f.lu, n, n) && !NonzeroDiagonal(f, n)
    ensures k < n && f.lu[k][k] == 0.0
    ensures forall t :: 0 <= t < k ==> f.lu[t][t] != 0.0
  {
    k := 0;
    while f.lu[k][k] != 0.0
      invariant k < n
      invariant forall t :: 0 <= t < k ==> f.lu[t][t] != 0.0
      decreases n - k
    {
      k := k + 1;
    }
  }
}
