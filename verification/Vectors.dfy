/** Exact real vectors and column-major matrices.

    LINPACK keeps a matrix in one flat array whose columns are `lda` apart
    (linpack-pc.c writes entry (i, j) as `a[lda*j+i]`). Here a matrix is the
    sequence of its columns, and `View` reads it out of the flat array.
 */
module Vectors {

  type Vec = seq<real>

  function Abs(x: real): real {
    if x < 0.0 then -x else x
  }

  function Zeros(n: nat): Vec {
    seq(n, _ => 0.0)
  }

  function Ones(n: nat): Vec {
    seq(n, _ => 1.0)
  }

  predicate IsMatrix(m: seq<Vec>, rows: nat, cols: nat) {
    && |m| == cols
    && forall j :: 0 <= j < cols ==> |m[j]| == rows
  }

  /** The sum of m[i][j] * x[j] over the columns j >= lo. */
  function RowSum(m: seq<Vec>, x: Vec, i: nat, lo: nat): real
    requires |x| == |m| && lo <= |m|
    requires forall j :: 0 <= j < |m| ==> i < |m[j]|
    decreases |m| - lo
  {
    if lo == |m| then 0.0 else m[lo][i] * x[lo] + RowSum(m, x, i, lo + 1)
  }

  /** The matrix-vector product. */
  function MatVec(m: seq<Vec>, x: Vec, rows: nat): (r: Vec)
    requires IsMatrix(m, rows, |x|)
    ensures |r| == rows
  {
    seq(rows, i requires 0 <= i < rows => RowSum(m, x, i, 0))
  }

  /** c*u + v */
  function Axpy(c: real, u: Vec, v: Vec): (r: Vec)
    requires |u| == |v|
    ensures |r| == |u|
  {
    seq(|u|, i requires 0 <= i < |u| => v[i] + c * u[i])
  }

  /** The same product as MatVec, summed column by column. */
  function Combination(m: seq<Vec>, x: Vec, rows: nat, lo: nat): (r: Vec)
    requires IsMatrix(m, rows, |x|) && lo <= |m|
    ensures |r| == rows
    decreases |m| - lo
  {
    if lo == |m| then Zeros(rows) else Axpy(x[lo], m[lo], Combination(m, x, rows, lo + 1))
  }

  lemma {:induction false} CombinationEntry(m: seq<Vec>, x: Vec, rows: nat, lo: nat, i: nat)
    requires IsMatrix(m, rows, |x|) && lo <= |m| && i < rows
    ensures Combination(m, x, rows, lo)[i] == RowSum(m, x, i, lo)
    decreases |m| - lo
  {
    if lo < |m| {
      CombinationEntry(m, x, rows, lo + 1, i);
    }
  }

  lemma {:induction false} CombinationIsMatVec(m: seq<Vec>, x: Vec, rows: nat)
    requires IsMatrix(m, rows, |x|)
    ensures Combination(m, x, rows, 0) == MatVec(m, x, rows)
  {
    forall i | 0 <= i < rows
      ensures Combination(m, x, rows, 0)[i] == MatVec(m, x, rows)[i]
    {
      CombinationEntry(m, x, rows, 0, i);
    }
  }

  /** A row sum depends only on the row and the vector from `lo` on. */
  lemma {:induction false} RowSumFrame(m: seq<Vec>, m': seq<Vec>, x: Vec, x': Vec, i: nat, lo: nat)
    requires |x| == |m| == |m'| == |x'| && lo <= |m|
    requires forall j :: 0 <= j < |m| ==> i < |m[j]| && i < |m'[j]|
    requires forall j :: lo <= j < |m| ==> m[j][i] == m'[j][i]
    requires x[lo..] == x'[lo..]
    ensures RowSum(m, x, i, lo) == RowSum(m', x', i, lo)
    decreases |m| - lo
  {
    if lo < |m| {
      assert x[lo] == x[lo..][0] == x'[lo..][0] == x'[lo];
      assert x[lo + 1..] == x[lo..][1..];
      assert x'[lo + 1..] == x'[lo..][1..];
      RowSumFrame(m, m', x, x', i, lo + 1);
    }
  }

  /** Leading columns that are zero in row i do not matter. */
  lemma {:induction false} RowSumSkip(m: seq<Vec>, x: Vec, i: nat, lo: nat, hi: nat)
    requires |x| == |m| && lo <= hi <= |m|
    requires forall j :: 0 <= j < |m| ==> i < |m[j]|
    requires forall j :: lo <= j < hi ==> m[j][i] * x[j] == 0.0
    ensures RowSum(m, x, i, lo) == RowSum(m, x, i, hi)
    decreases hi - lo
  {
    if lo < hi {
      RowSumSkip(m, x, i, lo + 1, hi);
    }
  }

  // ---------------------------------------------------------------------
  // The flat column-major layout
  // ---------------------------------------------------------------------

  /** An array of `length` cells holds `cols` columns of `rows` entries, `lda` apart. */
  predicate Fits(length: int, lda: int, rows: int, cols: int) {
    && 0 <= rows <= lda
    && 0 <= cols
    && (cols > 0 ==> lda * (cols - 1) + rows <= length)
  }

  lemma {:induction false} ColumnInBounds(length: int, lda: int, rows: int, cols: int, j: int)
    requires Fits(length, lda, rows, cols) && 0 <= j < cols
    ensures 0 <= lda * j && lda * j + rows <= length
  {
    assert lda * (cols - 1) == lda * j + lda * (cols - 1 - j);
  }

  lemma {:induction false} ColumnsApart(lda: int, rows: int, j: int, k: int)
    requires 0 <= rows <= lda && 0 <= j < k
    ensures lda * j + rows <= lda * k
  {
    assert lda * k == lda * j + lda + lda * (k - j - 1);
  }

  function Column(s: seq<real>, lda: int, rows: int, cols: int, j: int): (c: Vec)
    requires Fits(|s|, lda, rows, cols) && 0 <= j < cols
    ensures |c| == rows
  {
    ColumnInBounds(|s|, lda, rows, cols, j);
    s[lda * j..lda * j + rows]
  }

  /** The matrix held in the flat array. */
  function View(s: seq<real>, lda: int, rows: int, cols: int): (m: seq<Vec>)
    requires Fits(|s|, lda, rows, cols)
    ensures IsMatrix(m, rows, cols)
  {
    seq(cols, j requires 0 <= j < cols => Column(s, lda, rows, cols, j))
  }

  lemma {:induction false} ViewAt(s: seq<real>, lda: int, rows: int, cols: int, i: int, j: int)
    requires Fits(|s|, lda, rows, cols) && 0 <= i < rows && 0 <= j < cols
    ensures 0 <= lda * j + i < |s|
    ensures View(s, lda, rows, cols)[j][i] == s[lda * j + i]
  {
    ColumnInBounds(|s|, lda, rows, cols, j);
  }

  lemma {:induction false} ViewColumn(s: seq<real>, lda: int, rows: int, cols: int, j: int)
    requires Fits(|s|, lda, rows, cols) && 0 <= j < cols
    ensures 0 <= lda * j && lda * j + rows <= |s|
    ensures View(s, lda, rows, cols)[j] == s[lda * j..lda * j + rows]
  {
    ColumnInBounds(|s|, lda, rows, cols, j);
  }

  /** Writing inside one column changes that column of the view and no other. */
  lemma {:induction false} ViewAfterColumnWrite(s: seq<real>, s': seq<real>, lda: int, rows: int, cols: int, j: int)
    requires Fits(|s|, lda, rows, cols) && |s'| == |s| && 0 <= j < cols
    requires forall p :: 0 <= p < |s| && !(lda * j <= p < lda * j + rows) ==> s'[p] == s[p]
    ensures View(s', lda, rows, cols) == View(s, lda, rows, cols)[j := Column(s', lda, rows, cols, j)]
  {
    forall t | 0 <= t < cols && t != j
      ensures Column(s', lda, rows, cols, t) == Column(s, lda, rows, cols, t)
    {
      ColumnInBounds(|s|, lda, rows, cols, t);
      if t < j {
        ColumnsApart(lda, rows, t, j);
      } else {
        ColumnsApart(lda, rows, j, t);
      }
    }
  }
}
