/** dgefa: in-place Gaussian elimination with partial pivoting. */
module Dgefa {
  import opened Vectors
  import opened Factorization
  import opened Elimination
  import Blas

  /** The factors as they lie in the arrays. */
  function Stored(a: seq<real>, lda: int, n: nat, ipvt: seq<int>): (f: Factors)
    requires Fits(|a|, lda, n, n) && n <= |ipvt|
    ensures IsMatrix(f.lu, n, n) && |f.piv| == n
  {
    Factors(View(a, lda, n, n), ipvt[..n])
  }

  /** Moves the pivot of the column at offset o to its diagonal and turns the
      entries below it into multipliers. */
  method ScaleColumn(a: array<real>, o: nat, n: nat, k: nat, l: nat)
    requires o + n <= a.Length && k <= l < n && a[o + l] != 0.0
    modifies a
    ensures a[o..o + n] == PivotColumn(old(a[o..o + n]), k, l)
    ensures forall p :: 0 <= p < a.Length && !(o <= p < o + n) ==> a[p] == old(a[p])
  {
    ghost var v := a[o..o + n];
    if l != k {
      var t := a[o + l];
      a[o + l] := a[o + k];
      a[o + k] := t;
    }
    ghost var w := SwapEntries(v, k, l);
    assert a[o..o + n] == w;
    var t := -1.0 / a[o + k];
    Blas.Dscal(n - (k + 1), t, a, o + k + 1);
    forall i | 0 <= i < n
      ensures a[o + i] == PivotColumn(v, k, l)[i]
    {
      assert i > k ==> a[o + i] == t * w[i];
    }
  }

  lemma {:induction false} StepFromEntries(x: Vec, k: nat, l: nat, m: Vec, r: Vec)
    requires k < |x| == |m| == |r| && l < |x|
    requires var w := SwapEntries(x, k, l);
             forall i :: 0 <= i < |x| ==> r[i] == if i <= k then w[i] else w[i] + w[k] * m[i]
    ensures r == Step(x, k, l, m)
  {
    forall i | 0 <= i < |x|
      ensures r[i] == Step(x, k, l, m)[i]
    {
    }
  }

  /** One elimination step on the n entries of v from vo, with the multipliers
      stored at mo. dgefa runs it on the columns of the matrix, dgesl on its right
      hand side. */
  method ApplyStep(m: array<real>, mo: nat, v: array<real>, vo: nat, n: nat, k: nat, l: nat)
    requires mo + n <= m.Length && vo + n <= v.Length && k < n && l < n
    requires m != v || mo + n <= vo || vo + n <= mo
    modifies v
    ensures v[vo..vo + n] == Step(old(v[vo..vo + n]), k, l, old(m[mo..mo + n]))
    ensures forall p :: 0 <= p < v.Length && !(vo <= p < vo + n) ==> v[p] == old(v[p])
  {
    hide Step;
    ghost var x, mult := v[vo..vo + n], m[mo..mo + n];
    var t := v[vo + l];
    if l != k {
      v[vo + l] := v[vo + k];
      v[vo + k] := t;
    }
    ghost var w := SwapEntries(x, k, l);
    assert v[vo..vo + n] == w;
    assert m[mo..mo + n] == mult;
    Blas.Daxpy(n - (k + 1), t, m, mo + k + 1, v, vo + k + 1);
    StepFromEntries(x, k, l, mult, v[vo..vo + n]);
  }

  method ScalePivotColumn(a: array<real>, lda: int, n: nat, k: nat, l: nat)
    requires Fits(a.Length, lda, n, n) && k <= l < n
    requires View(a[..], lda, n, n)[k][l] != 0.0
    modifies a
    ensures View(a[..], lda, n, n)
         == old(View(a[..], lda, n, n)[k := PivotColumn(View(a[..], lda, n, n)[k], k, l)])
  {
    hide PivotColumn;
    ghost var before := a[..];
    ColumnInBounds(a.Length, lda, n, n, k);
    ScaleColumn(a, lda * k, n, k, l);
    ViewAfterColumnWrite(before, a[..], lda, n, n, k);
  }

  /** Applies elimination step k to column j, using the multipliers of column k. */
  method EliminateColumn(a: array<real>, lda: int, n: nat, k: nat, l: nat, j: nat)
    requires Fits(a.Length, lda, n, n) && k <= l < n && k < j < n
    modifies a
    ensures View(a[..], lda, n, n)
         == old(View(a[..], lda, n, n)[j := Step(View(a[..], lda, n, n)[j], k, l, View(a[..], lda, n, n)[k])])
  {
    hide Step;
    ghost var before := a[..];
    ColumnInBounds(a.Length, lda, n, n, j);
    ColumnInBounds(a.Length, lda, n, n, k);
    ColumnsApart(lda, n, k, j);
    ApplyStep(a, lda * k, a, lda * j, n, k, l);
    ViewAfterColumnWrite(before, a[..], lda, n, n, j);
  }

  /** Elimination step k over the whole matrix. */
  method EliminateStep(a: array<real>, lda: int, n: nat, k: nat, l: nat)
    requires Fits(a.Length, lda, n, n) && k <= l < n
    requires View(a[..], lda, n, n)[k][l] != 0.0
    modifies a
    ensures View(a[..], lda, n, n) == Sweep(old(View(a[..], lda, n, n)), n, k, l, n)
  {
    hide Step;
    hide PivotColumn;
    ghost var c := View(a[..], lda, n, n);
    ScalePivotColumn(a, lda, n, k, l);
    SweepFirst(c, n, k, l);
    for j := k + 1 to n
      invariant View(a[..], lda, n, n) == Sweep(c, n, k, l, j)
    {
      EliminateColumn(a, lda, n, k, l, j);
      SweepNext(c, n, k, l, j);
    }
  }

  ghost predicate GrowthFrom(a: seq<Vec>, c: seq<Vec>, n: nat, k: nat)
    requires IsMatrix(a, n, n) && IsMatrix(c, n, n)
  {
    forall bound: real :: AllAtMost(a, n, bound) ==> GrowthBounded(c, n, k, bound)
  }

  /** Everything dgefa has established after k elimination steps. */
  ghost predicate Progress(f: Factors, a: seq<Vec>, n: nat, k: nat, info: int)
  {
    && FactoredUpTo(f, a, n, k)
    && GrowthFrom(a, f.lu, n, k)
    && InfoDescribes(f, n, k, info)
  }

  lemma {:induction false} ProgressStarts(f: Factors, a: seq<Vec>, n: nat)
    requires IsMatrix(a, n, n) && f.lu == a && |f.piv| == n
    ensures Progress(f, a, n, 0, 0)
  {
    forall j | 0 <= j < n
      ensures ColumnFactored(f, a, n, 0, j)
    {
    }
    forall bound: real | AllAtMost(a, n, bound)
      ensures GrowthBounded(a, n, 0, bound)
    {
      GrowthStarts(a, n, bound);
    }
  }

  lemma {:induction false} ProgressStep(f: Factors, g: Factors, a: seq<Vec>, n: nat, k: nat, l: nat, info: int)
    requires Progress(f, a, n, k, info) && k < n
    requires IsLargestPivot(f.lu[k], k, l) && f.lu[k][l] != 0.0
    requires g == Factors(Sweep(f.lu, n, k, l, n), f.piv[k := l])
    ensures Progress(g, a, n, k + 1, info)
  {
    var next := k + 1;
    assert FactoredUpTo(g, a, n, next) by { SweepKeepsFactored(f, g, a, n, k, l); }
    assert GrowthFrom(a, g.lu, n, next) by {
      forall bound: real | AllAtMost(a, n, bound)
        ensures GrowthBounded(g.lu, n, next, bound)
      {
        BoundNonnegative(a, n, bound);
        SweepGrowth(f.lu, n, k, l, bound);
      }
    }
    assert g.lu[k][k] == f.lu[k][l];
    assert forall t :: 0 <= t < k ==> g.lu[t] == f.lu[t];
  }

  lemma {:induction false} ProgressIdle(f: Factors, g: Factors, a: seq<Vec>, n: nat, k: nat, l: nat, info: int)
    requires Progress(f, a, n, k, info) && k < n
    requires IsLargestPivot(f.lu[k], k, l) && f.lu[k][l] == 0.0
    requires forall i :: k <= i < l ==> Abs(f.lu[k][i]) < Abs(f.lu[k][l])
    requires g == Factors(f.lu, f.piv[k := l])
    ensures Progress(g, a, n, k + 1, k)
  {
    var next := k + 1;
    assert l == k by {
      assert l > k ==> Abs(f.lu[k][k]) < 0.0;
    }
    assert forall i :: k <= i < n ==> f.lu[k][i] == 0.0;
    assert FactoredUpTo(g, a, n, next) by { ZeroPivotKeepsFactored(f, g, a, n, k); }
    assert GrowthFrom(a, g.lu, n, next) by {
      forall bound: real | AllAtMost(a, n, bound)
        ensures GrowthBounded(g.lu, n, next, bound)
      {
        BoundNonnegative(a, n, bound);
        ZeroPivotGrowth(f.lu, n, k, bound);
      }
    }
  }

  /** Factors the matrix in place. For every matrix, singular or not, the result
      is a factorisation of it whose multipliers are at most 1 and whose entries
      grow at most by doubling per step; `info` is the last zero of U's diagonal. */
  method Dgefa(a: array<real>, lda: int, n: nat, ipvt: array<int>) returns (info: int)
    requires n >= 1 && Fits(a.Length, lda, n, n) && n <= ipvt.Length
    modifies a, ipvt
    ensures Factored(Stored(a[..], lda, n, ipvt[..]), old(View(a[..], lda, n, n)), n)
    ensures GrowthFrom(old(View(a[..], lda, n, n)), View(a[..], lda, n, n), n, n - 1)
    ensures InfoDescribes(Stored(a[..], lda, n, ipvt[..]), n, n, info)
    ensures ipvt[n - 1] == n - 1
    ensures ipvt[n..] == old(ipvt[n..])
  {
    hide FactoredUpTo;
    hide Sweep;
    hide Progress;
    hide GrowthFrom;
    hide InfoDescribes;
    hide View;
    hide Fits;
    ghost var c := View(a[..], lda, n, n);
    info := 0;
    var nm1 := n - 1;
    ProgressStarts(Stored(a[..], lda, n, ipvt[..]), c, n);
    if nm1 >= 0 {
      for k := 0 to nm1
        invariant Progress(Stored(a[..], lda, n, ipvt[..]), c, n, k, info)
        invariant ipvt[n..] == old(ipvt[n..])
      {
        ghost var f := Stored(a[..], lda, n, ipvt[..]);
        ViewColumn(a[..], lda, n, n, k);
        var l := Blas.Idamax(n - k, a, lda * k + k);
        l := l + k;
        assert forall i :: 0 <= i < n ==> f.lu[k][i] == a[lda * k + i];
        ipvt[k] := l;
        assert ipvt[..n] == f.piv[k := l];
        if a[lda * k + l] != 0.0 {
          EliminateStep(a, lda, n, k, l);
          ProgressStep(f, Stored(a[..], lda, n, ipvt[..]), c, n, k, l, info);
        } else {
          ProgressIdle(f, Stored(a[..], lda, n, ipvt[..]), c, n, k, l, info);
          info := k;
        }
      }
    }
    ghost var f := Stored(a[..], lda, n, ipvt[..]);
    ipvt[n - 1] := n - 1;
    ProgressEnds(f, Stored(a[..], lda, n, ipvt[..]), c, n, info);
    ViewAt(a[..], lda, n, n, n - 1, n - 1);
    if a[lda * (n - 1) + (n - 1)] == 0.0 {
      info := n - 1;
    }
  }

  lemma {:induction false} ProgressEnds(f: Factors, g: Factors, a: seq<Vec>, n: nat, info: int)
    requires n >= 1 && Progress(f, a, n, n - 1, info) && g == Factors(f.lu, f.piv[n - 1 := n - 1])
    ensures Factored(g, a, n) && GrowthFrom(a, g.lu, n, n - 1)
    ensures InfoDescribes(g, n, n, if g.lu[n - 1][n - 1] == 0.0 then n - 1 else info)
  {
    hide FactoredUpTo;
    hide GrowthFrom;
    LastPivot(f, g, a, n);
  }

  lemma {:induction false} LastPivot(f: Factors, g: Factors, a: seq<Vec>, n: nat)
    requires n >= 1 && FactoredUpTo(f, a, n, n - 1)
    requires g == Factors(f.lu, f.piv[n - 1 := n - 1])
    ensures Factored(g, a, n)
  {
    var k := n - 1;
    forall j | 0 <= j < n
      ensures ColumnFactored(g, a, n, k, j)
    {
      assert ColumnFactored(f, a, n, k, j);
      ReplayFrame(f, g, n, a[j], k);
    }
  }
}
