/** One elimination step of dgefa on whole matrices, and what it keeps. */
module Elimination {
  import opened Vectors
  import opened Factorization

  /** Column k after step k: the pivot moves to the diagonal and the entries below
      it become the negated multipliers. */
  function PivotColumn(v: Vec, k: nat, l: nat): (r: Vec)
    requires k <= l < |v| && v[l] != 0.0
    ensures |r| == |v|
  {
    var w := SwapEntries(v, k, l);
    seq(|v|, i requires 0 <= i < |v| => if i <= k then w[i] else (-1.0 / w[k]) * w[i])
  }

  /** Step k once the columns up to j have been treated. */
  function Sweep(c: seq<Vec>, n: nat, k: nat, l: nat, j: nat): (r: seq<Vec>)
    requires IsMatrix(c, n, n) && k <= l < n && c[k][l] != 0.0 && k < j <= n
    ensures IsMatrix(r, n, n)
  {
    var p := PivotColumn(c[k], k, l);
    seq(n, t requires 0 <= t < n =>
      if t == k then p else if k < t < j then Step(c[t], k, l, p) else c[t])
  }

  lemma {:induction false} SweepNext(c: seq<Vec>, n: nat, k: nat, l: nat, j: nat)
    requires IsMatrix(c, n, n) && k <= l < n && c[k][l] != 0.0 && k < j < n
    ensures Sweep(c, n, k, l, j + 1)
         == Sweep(c, n, k, l, j)[j := Step(c[j], k, l, PivotColumn(c[k], k, l))]
  {
  }

  lemma {:induction false} SweepFirst(c: seq<Vec>, n: nat, k: nat, l: nat)
    requires IsMatrix(c, n, n) && k <= l < n && c[k][l] != 0.0
    ensures Sweep(c, n, k, l, k + 1) == c[k := PivotColumn(c[k], k, l)]
  {
  }

  // ---------------------------------------------------------------------
  // The factorisation invariant
  // ---------------------------------------------------------------------

  /** The multipliers clear the pivot column. */
  lemma {:induction false} StepClearsPivotColumn(v: Vec, k: nat, l: nat)
    requires k <= l < |v| && v[l] != 0.0
    ensures Step(v, k, l, PivotColumn(v, k, l)) == UpperColumn(PivotColumn(v, k, l), k)
  {
    var p := PivotColumn(v, k, l);
    var w := SwapEntries(v, k, l);
    forall i | 0 <= i < |v|
      ensures Step(v, k, l, p)[i] == UpperColumn(p, k)[i]
    {
      if i > k {
        MultiplierClears(w[k], w[i]);
      }
    }
  }

  lemma {:induction false} MultiplierClears(p: real, x: real)
    requires p != 0.0
    ensures x + p * ((-1.0 / p) * x) == 0.0
  {
    assert p * ((-1.0 / p) * x) == (p * (-1.0 / p)) * x;
  }

  /** Later steps leave a finished column alone. */
  lemma {:induction false} StepKeepsUpper(c: Vec, j: nat, k: nat, l: nat, m: Vec)
    requires j < k <= l < |c| == |m|
    ensures Step(UpperColumn(c, j), k, l, m) == UpperColumn(c, j)
  {
  }

  /** A step without a swap and with zero multipliers does nothing. */
  lemma {:induction false} StepIdle(v: Vec, k: nat, m: Vec)
    requires k < |v| == |m|
    requires forall i :: k < i < |m| ==> m[i] == 0.0
    ensures Step(v, k, k, m) == v
  {
  }

  /** The first k steps read only the first k columns and pivots. */
  lemma {:induction false} ReplayFrame(f: Factors, g: Factors, n: nat, v: Vec, k: nat)
    requires ValidFactors(f, n, k) && ValidFactors(g, n, k) && |v| == n
    requires f.lu[..k] == g.lu[..k] && f.piv[..k] == g.piv[..k]
    ensures Replay(f, n, v, k) == Replay(g, n, v, k)
  {
    hide Step;
    if k > 0 {
      assert f.lu[k - 1] == f.lu[..k][k - 1] == g.lu[k - 1];
      assert f.piv[k - 1] == f.piv[..k][k - 1] == g.piv[k - 1];
      assert f.lu[..k - 1] == f.lu[..k][..k - 1] == g.lu[..k - 1];
      assert f.piv[..k - 1] == f.piv[..k][..k - 1] == g.piv[..k - 1];
      ReplayFrame(f, g, n, v, k - 1);
    }
  }

  lemma {:induction false} ReplayNext(f: Factors, g: Factors, n: nat, v: Vec, k: nat)
    requires ValidFactors(f, n, k) && ValidFactors(g, n, k + 1) && |v| == n
    requires f.lu[..k] == g.lu[..k] && f.piv[..k] == g.piv[..k]
    ensures Replay(g, n, v, k + 1) == Step(Replay(f, n, v, k), k, g.piv[k], g.lu[k])
  {
    ReplayFrame(f, g, n, v, k);
  }

  /** Elimination step k extends the factorisation by one column. */
  lemma {:induction false} SweepKeepsFactored(f: Factors, g: Factors, a: seq<Vec>, n: nat, k: nat, l: nat)
    requires FactoredUpTo(f, a, n, k) && k <= l < n && f.lu[k][l] != 0.0
    requires g == Factors(Sweep(f.lu, n, k, l, n), f.piv[k := l])
    ensures FactoredUpTo(g, a, n, k + 1)
  {
    var next := k + 1;
    assert f.lu[..k] == g.lu[..k] && f.piv[..k] == g.piv[..k];
    forall j | 0 <= j < n
      ensures ColumnFactored(g, a, n, next, j)
    {
      assert ColumnFactored(f, a, n, k, j);
      ReplayNext(f, g, n, a[j], k);
      if j < k {
        StepKeepsUpper(f.lu[j], j, k, l, g.lu[k]);
      } else if j == k {
        StepClearsPivotColumn(f.lu[k], k, l);
      }
    }
  }

  /** A zero pivot: the column is already triangular and the recorded step idles. */
  lemma {:induction false} ZeroPivotKeepsFactored(f: Factors, g: Factors, a: seq<Vec>, n: nat, k: nat)
    requires FactoredUpTo(f, a, n, k) && k < n
    requires forall i :: k <= i < n ==> f.lu[k][i] == 0.0
    requires g == Factors(f.lu, f.piv[k := k])
    ensures FactoredUpTo(g, a, n, k + 1)
  {
    var next := k + 1;
    assert f.lu[..k] == g.lu[..k] && f.piv[..k] == g.piv[..k];
    forall j | 0 <= j < n
      ensures ColumnFactored(g, a, n, next, j)
    {
      assert ColumnFactored(f, a, n, k, j);
      ReplayNext(f, g, n, a[j], k);
      StepIdle(Replay(f, n, a[j], k), k, f.lu[k]);
      if j == k {
        assert UpperColumn(f.lu[k], k) == f.lu[k];
      }
    }
  }

  // ---------------------------------------------------------------------
  // The growth bound of partial pivoting
  // ---------------------------------------------------------------------

  /** 2^k * x, by repeated doubling. */
  function Doubled(x: real, k: nat): real {
    if k == 0 then x else 2.0 * Doubled(x, k - 1)
  }

  function Pow2(k: nat): real {
    if k == 0 then 1.0 else 2.0 * Pow2(k - 1)
  }

  lemma {:induction false} DoubledIsProduct(x: real, k: nat)
    ensures Doubled(x, k) == Pow2(k) * x
  {
    if k > 0 {
      DoubledIsProduct(x, k - 1);
    }
  }

  lemma {:induction false} DoubledMonotone(x: real, i: nat, k: nat)
    requires x >= 0.0 && i <= k
    ensures 0.0 <= Doubled(x, i) <= Doubled(x, k)
  {
    if i < k {
      DoubledMonotone(x, i, k - 1);
    } else if k > 0 {
      DoubledMonotone(x, i - 1, k - 1);
    }
  }

  ghost predicate AllAtMost(c: seq<Vec>, n: nat, bound: real)
    requires IsMatrix(c, n, n)
  {
    forall i, j :: 0 <= i < n && 0 <= j < n ==> Abs(c[j][i]) <= bound
  }

  /** An entry of row i has been through at most min(i, k) eliminations. */
  function Grown(bound: real, i: nat, k: nat): real {
    Doubled(bound, if i <= k then i else k)
  }

  /** After k steps every stored multiplier is at most 1 in size, and every other
      entry of row i is at most 2^min(i,k) times the largest entry of the input. */
  ghost predicate GrowthBounded(c: seq<Vec>, n: nat, k: nat, bound: real)
    requires IsMatrix(c, n, n)
  {
    forall i, j :: 0 <= i < n && 0 <= j < n ==>
                     Abs(c[j][i]) <= if j < k && j < i then 1.0 else Grown(bound, i, k)
  }

  lemma {:induction false} GrowthStarts(c: seq<Vec>, n: nat, bound: real)
    requires IsMatrix(c, n, n) && AllAtMost(c, n, bound)
    ensures GrowthBounded(c, n, 0, bound)
  {
  }

  lemma {:induction false} AbsProduct(x: real, y: real)
    ensures Abs(x * y) == Abs(x) * Abs(y)
  {
  }

  lemma {:induction false} ScaledAtMost(s: real, p: real, x: real)
    requires p > 0.0 && s * p == x && x <= p
    ensures s <= 1.0
  {
    assert s > 1.0 ==> (s - 1.0) * p > 0.0;
  }

  lemma {:induction false} QuotientAtMostOne(p: real, x: real)
    requires p != 0.0 && Abs(x) <= Abs(p)
    ensures Abs((-1.0 / p) * x) <= 1.0
  {
    var q := (-1.0 / p) * x;
    assert Abs(q) * Abs(p) == Abs(x) by {
      MultiplierClears(p, x);
      assert q * p == -x;
      AbsProduct(q, p);
    }
    ScaledAtMost(Abs(q), Abs(p), Abs(x));
  }

  lemma {:induction false} ProductAtMost(x: real, m: real, y: real, b: real)
    requires Abs(x) <= b && Abs(m) <= 1.0 && y == x * m
    ensures Abs(y) <= b
  {
    AbsProduct(x, m);
    Shrinks(Abs(x), Abs(m));
  }

  lemma {:induction false} Triangle(x: real, y: real, d: real)
    requires Abs(x) <= d && Abs(y) <= d
    ensures Abs(x + y) <= 2.0 * d
  {
  }

  lemma {:induction false} Shrinks(x: real, m: real)
    requires x >= 0.0 && m <= 1.0
    ensures x * m <= x
  {
    assert x * (1.0 - m) >= 0.0;
  }

  lemma {:induction false} GrownWider(bound: real, i: nat, k: nat)
    requires bound >= 0.0
    ensures 0.0 <= Grown(bound, i, k) <= Grown(bound, i, k + 1)
  {
    DoubledMonotone(bound, if i <= k then i else k, if i <= k + 1 then i else k + 1);
  }

  lemma {:induction false} SwapGrowth(v: Vec, k: nat, l: nat, bound: real, i: nat)
    requires k <= l < |v| && i < |v|
    requires forall t :: 0 <= t < |v| ==> Abs(v[t]) <= Grown(bound, t, k)
    ensures Abs(SwapEntries(v, k, l)[i]) <= Grown(bound, i, k)
  {
    if i == k {
      assert Abs(v[l]) <= Grown(bound, l, k);
    } else if i == l {
      assert Abs(v[k]) <= Grown(bound, k, k);
    }
  }

  lemma {:induction false} StepBelow(v: Vec, k: nat, l: nat, m: Vec, i: nat, d: real)
    requires k < i < |v| == |m| && l < |v|
    requires Abs(SwapEntries(v, k, l)[i]) <= d && Abs(SwapEntries(v, k, l)[k]) <= d && Abs(m[i]) <= 1.0
    ensures Abs(Step(v, k, l, m)[i]) <= 2.0 * d
  {
    hide Abs;
    var w := SwapEntries(v, k, l);
    var y := w[k] * m[i];
    ProductAtMost(w[k], m[i], y, d);
    Triangle(w[i], y, d);
    assert Step(v, k, l, m)[i] == w[i] + y;
  }

  /** One entry through one step: its bound at most doubles. */
  lemma {:induction false} StepGrowth(v: Vec, k: nat, l: nat, m: Vec, bound: real, i: nat)
    requires k <= l < |v| == |m| && i < |v| && bound >= 0.0
    requires i > k ==> Abs(m[i]) <= 1.0
    requires forall t :: 0 <= t < |v| ==> Abs(v[t]) <= Grown(bound, t, k)
    ensures Abs(Step(v, k, l, m)[i]) <= Grown(bound, i, k + 1)
  {
    var w := SwapEntries(v, k, l);
    SwapGrowth(v, k, l, bound, i);
    if i <= k {
      GrownWider(bound, i, k);
    } else {
      SwapGrowth(v, k, l, bound, k);
      StepBelow(v, k, l, m, i, Doubled(bound, k));
    }
  }

  predicate IsLargestPivot(v: Vec, k: nat, l: nat) {
    && k <= l < |v|
    && forall i :: k <= i < |v| ==> Abs(v[i]) <= Abs(v[l])
  }

  lemma {:induction false} PivotColumnGrowth(v: Vec, k: nat, l: nat, bound: real, i: nat)
    requires IsLargestPivot(v, k, l) && v[l] != 0.0 && i < |v| && bound >= 0.0
    requires forall t :: 0 <= t < |v| ==> Abs(v[t]) <= Grown(bound, t, k)
    ensures Abs(PivotColumn(v, k, l)[i]) <= if k < i then 1.0 else Grown(bound, i, k + 1)
  {
    var w := SwapEntries(v, k, l);
    if i > k {
      assert Abs(w[i]) <= Abs(w[k]);
      hide Abs;
      QuotientAtMostOne(w[k], w[i]);
    } else {
      SwapGrowth(v, k, l, bound, i);
      GrownWider(bound, i, k);
    }
  }

  lemma {:induction false} BoundNonnegative(c: seq<Vec>, n: nat, bound: real)
    requires IsMatrix(c, n, n) && n > 0 && AllAtMost(c, n, bound)
    ensures bound >= 0.0
  {
    assert Abs(c[0][0]) <= bound;
  }

  lemma {:induction false} SweepGrowth(c: seq<Vec>, n: nat, k: nat, l: nat, bound: real)
    requires IsMatrix(c, n, n) && k < n && IsLargestPivot(c[k], k, l) && c[k][l] != 0.0
    requires bound >= 0.0 && GrowthBounded(c, n, k, bound)
    ensures GrowthBounded(Sweep(c, n, k, l, n), n, k + 1, bound)
  {
    var p, d := PivotColumn(c[k], k, l), Sweep(c, n, k, l, n);
    forall i | 0 <= i < n
      ensures Abs(p[i]) <= if k < i then 1.0 else Grown(bound, i, k + 1)
    {
      PivotColumnGrowth(c[k], k, l, bound, i);
    }
    forall i, j | 0 <= i < n && 0 <= j < n
      ensures Abs(d[j][i]) <= if j < k + 1 && j < i then 1.0 else Grown(bound, i, k + 1)
    {
      if j > k {
        StepGrowth(c[j], k, l, p, bound, i);
      } else if j < k {
        GrownWider(bound, i, k);
      }
    }
  }

  lemma {:induction false} ZeroPivotGrowth(c: seq<Vec>, n: nat, k: nat, bound: real)
    requires IsMatrix(c, n, n) && k < n
    requires forall i :: k <= i < n ==> c[k][i] == 0.0
    requires bound >= 0.0 && GrowthBounded(c, n, k, bound)
    ensures GrowthBounded(c, n, k + 1, bound)
  {
    forall i, j | 0 <= i < n && 0 <= j < n
      ensures Abs(c[j][i]) <= if j < k + 1 && j < i then 1.0 else Grown(bound, i, k + 1)
    {
      GrownWider(bound, i, k);
    }
  }

  /** Row i of U is at most 2^i times the largest entry of A, so all of U is at most
      2^(n-1) times it. */
  lemma {:induction false} UpperTriangleBound(c: seq<Vec>, n: nat, bound: real, i: nat, j: nat)
    requires IsMatrix(c, n, n) && bound >= 0.0 && i <= j < n && GrowthBounded(c, n, n - 1, bound)
    ensures Abs(c[j][i]) <= Pow2(i) * bound <= Pow2(n - 1) * bound
  {
    hide Pow2;
    hide Doubled;
    hide Abs;
    var low, high := Doubled(bound, i), Doubled(bound, n - 1);
    assert Abs(c[j][i]) <= Grown(bound, i, n - 1) == low;
    DoubledMonotone(bound, i, n - 1);
    assert low == Pow2(i) * bound by { DoubledIsProduct(bound, i); }
    assert high == Pow2(n - 1) * bound by { DoubledIsProduct(bound, n - 1); }
  }

  // ---------------------------------------------------------------------
  // The info flag
  // ---------------------------------------------------------------------

  /** What `info` says about the first k diagonal entries: it is the index of the
      last zero among them, and 0 when there is none. */
  predicate InfoDescribes(f: Factors, n: nat, k: nat, info: int)
    requires IsMatrix(f.lu, n, n)
  {
    && 0 <= info && (info < k || info == 0)
    && k <= n
    && (info > 0 ==> f.lu[info][info] == 0.0)
    && forall t :: info < t < k ==> f.lu[t][t] != 0.0
  }

  /** `info` is 0 exactly when no diagonal entry after the first is zero. */
  lemma {:induction false} InfoZeroMeans(f: Factors, n: nat, info: int)
    requires IsMatrix(f.lu, n, n) && n > 0 && InfoDescribes(f, n, n, info)
    ensures info == 0 <==> forall t :: 1 <= t < n ==> f.lu[t][t] != 0.0
  {
  }

  /** dgesl's header says that info = 0 rules out a division by zero. It does not: for the
      1-by-1 zero matrix dgefa can only report info = 0, and the diagonal of U is zero. */
  lemma {:induction false} InfoZeroStillSingular(f: Factors, info: int)
    requires Factored(f, [[0.0]], 1) && InfoDescribes(f, 1, 1, info)
    ensures info == 0 && !NonzeroDiagonal(f, 1) && !Nonsingular([[0.0]], 1)
  {
    FactoredColumn(f, [[0.0]], 1, 0);
    assert Replay(f, 1, [0.0], 0) == [0.0];
    assert f.lu[0][0] == UpperColumn(f.lu[0], 0)[0] == 0.0;
    SingularIffZeroDiagonal(f, [[0.0]], 1);
  }

  /** info = 0 rules the division by zero out exactly when the first diagonal entry
      is not zero. */
  lemma {:induction false} InfoZeroIsSafe(f: Factors, n: nat, info: int)
    requires IsMatrix(f.lu, n, n) && n > 0 && InfoDescribes(f, n, n, info)
    ensures NonzeroDiagonal(f, n) <==> info == 0 && f.lu[0][0] != 0.0
  {
    assert f.lu[info][info] == 0.0 || info == 0;
  }
}
