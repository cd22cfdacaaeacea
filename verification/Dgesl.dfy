/** dgesl with job = 0: forward replay and column-oriented back substitution. */
module Dgesl {
  import opened Vectors
  import opened Factorization
  import opened Elimination
  import opened Dgefa
  import Blas

  /** Columns k.. of U have been used: what is left of y in the rows above, and the
      solution from row k on. */
  ghost predicate Substituted(lu: seq<Vec>, n: nat, y: Vec, x: Vec, k: nat) {
    && IsMatrix(lu, n, n) && |x| == |y| == n && k <= n
    && (forall i :: 0 <= i < k ==> x[i] + RowSum(lu, x, i, k) == y[i])
    && (forall i :: k <= i < n ==> RowSum(lu, x, i, i) == y[i])
  }

  lemma {:induction false} SubstitutionStarts(lu: seq<Vec>, n: nat, y: Vec)
    requires IsMatrix(lu, n, n) && |y| == n
    ensures Substituted(lu, n, y, y, n)
  {
  }

  /** One column of back substitution. */
  lemma {:induction false} SubstituteColumn(lu: seq<Vec>, n: nat, y: Vec, x: Vec, x': Vec, k: nat)
    requires Substituted(lu, n, y, x, k + 1) && k < n && lu[k][k] != 0.0
    requires |x'| == n && x'[k] == x[k] / lu[k][k] && x'[k + 1..] == x[k + 1..]
    requires forall i :: 0 <= i < k ==> x'[i] == x[i] + (-x'[k]) * lu[k][i]
    ensures Substituted(lu, n, y, x', k)
  {
    forall i | 0 <= i < k
      ensures x'[i] + RowSum(lu, x', i, k) == y[i]
    {
      RowSumFrame(lu, lu, x, x', i, k + 1);
      assert (-x'[k]) * lu[k][i] == -(lu[k][i] * x'[k]);
    }
    forall i | k <= i < n
      ensures RowSum(lu, x', i, i) == y[i]
    {
      if i == k {
        RowSumFrame(lu, lu, x, x', i, k + 1);
        assert lu[k][k] * x'[k] == x[k];
      } else {
        assert x'[i..] == x'[k + 1..][i - k - 1..] == x[i..];
        RowSumFrame(lu, lu, x, x', i, i);
      }
    }
  }

  lemma {:induction false} SubstitutionDone(f: Factors, n: nat, y: Vec, x: Vec)
    requires Substituted(f.lu, n, y, x, 0)
    ensures MatVec(Upper(f, n), x, n) == y
  {
    forall i | 0 <= i < n
      ensures MatVec(Upper(f, n), x, n)[i] == y[i]
    {
      UpperRow(f, n, x, i);
    }
  }

  /** Divides row k and subtracts its column from the rows above. */
  method BackStep(a: array<real>, o: nat, n: nat, b: array<real>, k: nat)
    requires o + n <= a.Length && n <= b.Length && a != b && k < n && a[o + k] != 0.0
    modifies b
    ensures b[k] == old(b[k]) / a[o + k]
    ensures b[k + 1..] == old(b[k + 1..])
    ensures forall i :: 0 <= i < k ==> b[i] == old(b[i]) + (-b[k]) * a[o + i]
  {
    b[k] := b[k] / a[o + k];
    var t := -b[k];
    Blas.Daxpy(k, t, a, o, b, 0);
  }

  method BackSubstitute(a: array<real>, lda: int, n: nat, b: array<real>)
    requires Fits(a.Length, lda, n, n) && n <= b.Length && a != b
    requires forall k :: 0 <= k < n ==> View(a[..], lda, n, n)[k][k] != 0.0
    modifies b
    ensures Substituted(View(a[..], lda, n, n), n, old(b[..n]), b[..n], 0)
    ensures b[n..] == old(b[n..])
  {
    hide Substituted;
    ghost var lu, y := View(a[..], lda, n, n), b[..n];
    SubstitutionStarts(lu, n, y);
    for kb := 0 to n
      invariant Substituted(lu, n, y, b[..n], n - kb)
      invariant b[n..] == old(b[n..])
    {
      var k := n - (kb + 1);
      ColumnInBounds(a.Length, lda, n, n, k);
      var o := lda * k;
      assert forall i :: 0 <= i < n ==> lu[k][i] == a[o + i];
      ghost var x, tail := b[..n], b[k + 1..];
      BackStep(a, o, n, b, k);
      assert b[k + 1..] == tail;
      assert b[..n][k + 1..] == tail[..n - k - 1] == x[k + 1..];
      assert b[n..] == tail[n - k - 1..];
      SubstituteColumn(lu, n, y, x, b[..n], k);
    }
  }

  method ForwardReplay(a: array<real>, lda: int, n: nat, ipvt: array<int>, b: array<real>)
    requires n >= 1 && Fits(a.Length, lda, n, n) && n <= ipvt.Length && n <= b.Length && a != b
    requires ValidFactors(Stored(a[..], lda, n, ipvt[..]), n, n - 1)
    modifies b
    ensures b[..n] == Replay(Stored(a[..], lda, n, ipvt[..]), n, old(b[..n]), n - 1)
    ensures b[n..] == old(b[n..])
  {
    hide Step;
    ghost var f, v := Stored(a[..], lda, n, ipvt[..]), b[..n];
    var nm1 := n - 1;
    if nm1 >= 1 {
      for k := 0 to nm1
        invariant b[..n] == Replay(f, n, v, k)
        invariant b[n..] == old(b[n..])
      {
        ColumnInBounds(a.Length, lda, n, n, k);
        var l := ipvt[k];
        assert l == f.piv[k];
        assert b[0..n] == b[..n];
        ApplyStep(a, lda * k, b, 0, n, k, l);
        assert b[..n] == b[0..n];
      }
    }
  }

  /** Solves with the stored factors: the right hand side is overwritten by an x
      with U*x = Replay(b). The diagonal of U must not hold a zero: the code
      divides by it. */
  method Dgesl(a: array<real>, lda: int, n: nat, ipvt: array<int>, b: array<real>)
    requires n >= 1 && Fits(a.Length, lda, n, n) && n <= ipvt.Length && n <= b.Length && a != b
    requires ValidFactors(Stored(a[..], lda, n, ipvt[..]), n, n - 1)
    requires NonzeroDiagonal(Stored(a[..], lda, n, ipvt[..]), n)
    modifies b
    ensures var f := Stored(a[..], lda, n, ipvt[..]);
            MatVec(Upper(f, n), b[..n], n) == Replay(f, n, old(b[..n]), n - 1)
    ensures b[n..] == old(b[n..])
  {
    hide Replay;
    hide Substituted;
    ghost var f := Stored(a[..], lda, n, ipvt[..]);
    ForwardReplay(a, lda, n, ipvt, b);
    ghost var y := b[..n];
    BackSubstitute(a, lda, n, b);
    SubstitutionDone(f, n, y, b[..n]);
  }

  /** dgefa followed by dgesl, as the benchmark calls them: for every nonsingular
      matrix the right hand side is overwritten by the one x with A*x = b. */
  method FactorAndSolve(a: array<real>, lda: int, n: nat, ipvt: array<int>, b: array<real>)
    returns (info: int)
    requires n >= 1 && Fits(a.Length, lda, n, n) && n <= ipvt.Length && n <= b.Length && a != b
    requires Nonsingular(View(a[..], lda, n, n), n)
    modifies a, ipvt, b
    ensures MatVec(old(View(a[..], lda, n, n)), b[..n], n) == old(b[..n])
    ensures forall x: Vec ::
              |x| == n && MatVec(old(View(a[..], lda, n, n)), x, n) == old(b[..n]) ==> x == b[..n]
    ensures b[n..] == old(b[n..]) && info == 0
  {
    hide Factored;
    hide Nonsingular;
    hide Replay;
    ghost var m, rhs := View(a[..], lda, n, n), b[..n];
    info := Dgefa.Dgefa(a, lda, n, ipvt);
    ghost var f := Stored(a[..], lda, n, ipvt[..]);
    SingularIffZeroDiagonal(f, m, n);
    InfoZeroIsSafe(f, n, info);
    FactorsValid(f, m, n);
    Dgesl(a, lda, n, ipvt, b);
    SolvesOriginal(f, m, n, rhs, b[..n]);
    forall x: Vec | |x| == n && MatVec(m, x, n) == rhs
      ensures x == b[..n]
    {
      SolutionUnique(f, m, n, x, b[..n]);
    }
  }
}
