/** dgesl with job != 0, which is documented to solve trans(A)*x = b.

    Its second loop stops one step early, at k = 1. This module follows the code, and
    proves exactly for which factors the result is right all the same.
 */
module DgeslTransposed {
  import opened Vectors
  import opened Factorization
  import opened Dgefa

  // ---------------------------------------------------------------------
  // Dot products
  // ---------------------------------------------------------------------

  function DotRange(u: Vec, v: Vec, lo: nat, hi: nat): real
    requires |u| == |v| && hi <= |u|
    decreases hi
  {
    if hi <= lo then 0.0 else DotRange(u, v, lo, hi - 1) + u[hi - 1] * v[hi - 1]
  }

  function Dot(u: Vec, v: Vec): real
    requires |u| == |v|
  {
    DotRange(u, v, 0, |u|)
  }

  /** trans(A)*x: one dot product per column. */
  function TransVec(a: seq<Vec>, x: Vec, n: nat): (r: Vec)
    requires IsMatrix(a, n, n) && |x| == n
    ensures |r| == n
  {
    seq(n, j requires 0 <= j < n => Dot(a[j], x))
  }

  lemma {:induction false} DotFrame(u: Vec, u': Vec, v: Vec, v': Vec, lo: nat, hi: nat)
    requires |u| == |u'| == |v| == |v'| && hi <= |u|
    requires forall i :: lo <= i < hi ==> u[i] == u'[i] && v[i] == v'[i]
    ensures DotRange(u, v, lo, hi) == DotRange(u', v', lo, hi)
    decreases hi
  {
    if lo < hi {
      DotFrame(u, u', v, v', lo, hi - 1);
    }
  }

  lemma {:induction false} DotSplit(u: Vec, v: Vec, lo: nat, mid: nat, hi: nat)
    requires |u| == |v| && lo <= mid <= hi <= |u|
    ensures DotRange(u, v, lo, hi) == DotRange(u, v, lo, mid) + DotRange(u, v, mid, hi)
    decreases hi
  {
    if mid < hi {
      DotSplit(u, v, lo, mid, hi - 1);
    }
  }

  lemma {:induction false} DotCommutes(u: Vec, v: Vec, lo: nat, hi: nat)
    requires |u| == |v| && hi <= |u|
    ensures DotRange(u, v, lo, hi) == DotRange(v, u, lo, hi)
    decreases hi
  {
    if lo < hi {
      DotCommutes(u, v, lo, hi - 1);
    }
  }

  lemma {:induction false} DotZero(u: Vec, v: Vec, lo: nat, hi: nat)
    requires |u| == |v| && hi <= |u|
    requires forall i :: lo <= i < hi ==> u[i] == 0.0
    ensures DotRange(u, v, lo, hi) == 0.0
    decreases hi
  {
    if lo < hi {
      DotZero(u, v, lo, hi - 1);
    }
  }

  /** Changing one entry of the second vector. */
  lemma {:induction false} DotUpdate(u: Vec, v: Vec, i: nat, x: real, hi: nat)
    requires |u| == |v| && i < hi <= |u|
    ensures DotRange(u, v[i := x], 0, hi) == DotRange(u, v, 0, hi) + u[i] * (x - v[i])
    decreases hi
  {
    if i == hi - 1 {
      DotFrame(u, u, v, v[i := x], 0, hi - 1);
    } else {
      DotUpdate(u, v, i, x, hi - 1);
    }
  }

  lemma {:induction false} DotTwoUpdates(u: Vec, v: Vec, k: nat, l: nat)
    requires |u| == |v| && k < |u| && l < |u|
    ensures Dot(u, SwapEntries(v, k, l)) == Dot(u, v) + (u[k] - u[l]) * (v[l] - v[k])
  {
    DotUpdate(u, v, k, v[l], |u|);
    DotUpdate(u, v[k := v[l]], l, v[k], |u|);
    var x, y := v[k], v[l];
    if k == l {
      assert SwapEntries(v, k, l) == v;
    } else {
      SwapAlgebra(u[k], u[l], x, y);
    }
  }

  lemma {:induction false} SwapAlgebra(uk: real, ul: real, x: real, y: real)
    ensures uk * (y - x) + ul * (x - y) == (uk - ul) * (y - x)
  {
  }

  /** Swapping the entries of either factor gives the same product. */
  lemma {:induction false} DotSwap(u: Vec, v: Vec, k: nat, l: nat)
    requires |u| == |v| && k < |u| && l < |u|
    ensures Dot(u, SwapEntries(v, k, l)) == Dot(SwapEntries(u, k, l), v)
  {
    var su := SwapEntries(u, k, l);
    DotTwoUpdates(u, v, k, l);
    DotTwoUpdates(v, u, k, l);
    DotCommutes(u, v, 0, |u|);
    DotCommutes(su, v, 0, |u|);
    SwapSymmetric(u[k], u[l], v[k], v[l]);
  }

  lemma {:induction false} SwapSymmetric(uk: real, ul: real, vk: real, vl: real)
    ensures (uk - ul) * (vl - vk) == (vk - vl) * (ul - uk)
  {
  }

  // ---------------------------------------------------------------------
  // The transposed steps
  // ---------------------------------------------------------------------

  /** The transpose of elimination step k: add the multiples of the rows below to row k,
      then swap rows k and l. */
  function StepT(z: Vec, k: nat, l: nat, m: Vec): (r: Vec)
    requires k < |z| == |m| && l < |z|
    ensures |r| == |z|
  {
    SwapEntries(z[k := z[k] + DotRange(m, z, k + 1, |z|)], k, l)
  }

  /** Its inverse. */
  function UnstepT(x: Vec, k: nat, l: nat, m: Vec): (r: Vec)
    requires k < |x| == |m| && l < |x|
    ensures |r| == |x|
  {
    var w := SwapEntries(x, k, l);
    w[k := w[k] - DotRange(m, w, k + 1, |x|)]
  }

  lemma {:induction false} StepTUndoes(x: Vec, k: nat, l: nat, m: Vec)
    requires k < |x| == |m| && l < |x|
    ensures StepT(UnstepT(x, k, l, m), k, l, m) == x
  {
    var w, z := SwapEntries(x, k, l), UnstepT(x, k, l, m);
    DotFrame(m, m, w, z, k + 1, |x|);
    assert z[k := z[k] + DotRange(m, z, k + 1, |z|)] == w;
    assert SwapEntries(w, k, l) == x;
  }

  /** The elimination of a vector against the rest of the product. */
  lemma {:induction false} EliminatedDot(w: Vec, e: Vec, m: Vec, z: Vec, k: nat, hi: nat)
    requires |w| == |e| == |m| == |z| && k < hi <= |w|
    requires forall i :: 0 <= i < |w| ==> e[i] == if i <= k then w[i] else w[i] + w[k] * m[i]
    ensures DotRange(e, z, 0, hi) == DotRange(w, z, 0, hi) + w[k] * DotRange(m, z, k + 1, hi)
    decreases hi
  {
    if hi == k + 1 {
      DotFrame(e, w, z, z, 0, hi);
    } else {
      EliminatedDot(w, e, m, z, k, hi - 1);
      EliminatedAlgebra(w[hi - 1], w[k], m[hi - 1], z[hi - 1], DotRange(m, z, k + 1, hi - 1));
    }
  }

  lemma {:induction false} EliminatedAlgebra(wi: real, wk: real, mi: real, zi: real, rest: real)
    ensures wk * rest + (wi + wk * mi) * zi == wi * zi + wk * (rest + mi * zi)
  {
  }

  /** StepT is the transpose of Step. */
  lemma {:induction false} StepAdjoint(u: Vec, z: Vec, k: nat, l: nat, m: Vec)
    requires |u| == |z| == |m| && k < |u| && l < |u|
    ensures Dot(Step(u, k, l, m), z) == Dot(u, StepT(z, k, l, m))
  {
    var w, n := SwapEntries(u, k, l), |u|;
    var s := DotRange(m, z, k + 1, n);
    var z' := z[k := z[k] + s];
    EliminatedDot(w, Step(u, k, l, m), m, z, k, n);
    DotUpdate(w, z, k, z[k] + s, n);
    assert w[k] * ((z[k] + s) - z[k]) == w[k] * s;
    DotSwap(u, z', k, l);
  }

  /** The transposed steps n-2 down to lo. */
  function ReplayT(f: Factors, n: nat, z: Vec, lo: nat): (r: Vec)
    requires n >= 1 && ValidFactors(f, n, n - 1) && |z| == n
    ensures |r| == n
    decreases n - lo
  {
    if lo >= n - 1 then z else StepT(ReplayT(f, n, z, lo + 1), lo, f.piv[lo], f.lu[lo])
  }

  function UnreplayT(f: Factors, n: nat, x: Vec, lo: nat): (r: Vec)
    requires n >= 1 && ValidFactors(f, n, n - 1) && |x| == n
    ensures |r| == n
    decreases n - lo
  {
    if lo >= n - 1 then x else UnreplayT(f, n, UnstepT(x, lo, f.piv[lo], f.lu[lo]), lo + 1)
  }

  lemma {:induction false} ReplayTUndoes(f: Factors, n: nat, x: Vec, lo: nat)
    requires n >= 1 && ValidFactors(f, n, n - 1) && |x| == n
    ensures ReplayT(f, n, UnreplayT(f, n, x, lo), lo) == x
    decreases n - lo
  {
    hide StepT;
    hide UnstepT;
    if lo < n - 1 {
      ReplayTUndoes(f, n, UnstepT(x, lo, f.piv[lo], f.lu[lo]), lo + 1);
      StepTUndoes(x, lo, f.piv[lo], f.lu[lo]);
    }
  }

  lemma {:induction false} ReplayAdjoint(f: Factors, n: nat, u: Vec, z: Vec, k: nat)
    requires n >= 1 && ValidFactors(f, n, n - 1) && |u| == |z| == n && k <= n - 1
    ensures Dot(Replay(f, n, u, n - 1), z) == Dot(Replay(f, n, u, k), ReplayT(f, n, z, k))
    decreases n - k
  {
    hide Step;
    hide StepT;
    hide Dot;
    if k < n - 1 {
      ReplayAdjoint(f, n, u, z, k + 1);
      var v, y := Replay(f, n, u, k), ReplayT(f, n, z, k + 1);
      assert Replay(f, n, u, k + 1) == Step(v, k, f.piv[k], f.lu[k]);
      StepAdjoint(v, y, k, f.piv[k], f.lu[k]);
    }
  }

  /** trans(A) applied to the full transposed replay is trans(U). */
  lemma {:induction false} TransposedProduct(f: Factors, a: seq<Vec>, n: nat, z: Vec)
    requires Factored(f, a, n) && |z| == n
    ensures TransVec(a, ReplayT(f, n, z, 0), n) == TransVec(Upper(f, n), z, n)
  {
    hide Dot;
    hide Replay;
    hide ReplayT;
    forall j | 0 <= j < n
      ensures TransVec(a, ReplayT(f, n, z, 0), n)[j] == TransVec(Upper(f, n), z, n)[j]
    {
      FactoredColumn(f, a, n, j);
      ReplayAdjoint(f, n, a[j], z, 0);
      ReplayNone(f, n, a[j]);
    }
  }

  lemma {:induction false} ReplayNone(f: Factors, n: nat, u: Vec)
    requires ValidFactors(f, n, 0) && |u| == n
    ensures Replay(f, n, u, 0) == u
  {
  }

  // ---------------------------------------------------------------------
  // Forward substitution
  // ---------------------------------------------------------------------

  /** Column j of U reaches down to row j only. */
  lemma {:induction false} UpperDot(f: Factors, n: nat, z: Vec, j: nat)
    requires IsMatrix(f.lu, n, n) && |z| == n && j < n
    ensures Dot(Upper(f, n)[j], z) == DotRange(f.lu[j], z, 0, j) + f.lu[j][j] * z[j]
  {
    var u := Upper(f, n)[j];
    DotSplit(u, z, 0, j + 1, n);
    DotZero(u, z, j + 1, n);
    DotFrame(u, f.lu[j], z, z, 0, j + 1);
  }

  /** The first k entries of the z with trans(U)*z = b, then b itself. */
  function Forward(f: Factors, n: nat, b: Vec, k: nat): (z: Vec)
    requires IsMatrix(f.lu, n, n) && |b| == n && k <= n && NonzeroDiagonal(f, n)
    ensures |z| == n && z[k..] == b[k..]
  {
    if k == 0 then b
    else
      var z := Forward(f, n, b, k - 1);
      assert z[k - 1..][1..] == b[k - 1..][1..];
      z[k - 1 := (z[k - 1] - DotRange(f.lu[k - 1], z, 0, k - 1)) / f.lu[k - 1][k - 1]]
  }

  /** Forward substitution inverts trans(U). */
  lemma {:induction false} ForwardInverts(f: Factors, n: nat, z: Vec, k: nat)
    requires IsMatrix(f.lu, n, n) && |z| == n && k <= n && NonzeroDiagonal(f, n)
    ensures Forward(f, n, TransVec(Upper(f, n), z, n), k)[..k] == z[..k]
  {
    hide Forward;
    hide TransVec;
    if k > 0 {
      var b, j := TransVec(Upper(f, n), z, n), k - 1;
      var y, r := Forward(f, n, b, j), Forward(f, n, b, k);
      ForwardInverts(f, n, z, j);
      forall i | 0 <= i < j
        ensures y[i] == z[i] && r[i] == z[i]
      {
        assert y[i] == y[..j][i] && z[i] == z[..j][i];
        ForwardStays(f, n, b, i, j, k);
      }
      ForwardInvertsEntry(f, n, z, j);
    }
  }

  lemma {:induction false} ForwardInvertsEntry(f: Factors, n: nat, z: Vec, j: nat)
    requires IsMatrix(f.lu, n, n) && |z| == n && j < n && NonzeroDiagonal(f, n)
    requires var y := Forward(f, n, TransVec(Upper(f, n), z, n), j); forall i :: 0 <= i < j ==> y[i] == z[i]
    ensures Forward(f, n, TransVec(Upper(f, n), z, n), j + 1)[j] == z[j]
  {
    hide Forward;
    hide Dot;
    hide DotRange;
    var b := TransVec(Upper(f, n), z, n);
    var y, r, d := Forward(f, n, b, j), Forward(f, n, b, j + 1), f.lu[j][j];
    UpperDot(f, n, z, j);
    DotFrame(f.lu[j], f.lu[j], y, z, 0, j);
    ForwardEntry(f, n, b, j);
    var x := b[j] - DotRange(f.lu[j], y, 0, j);
    assert x == d * z[j];
    Quotient(d, x, r[j], z[j]);
  }

  lemma {:induction false} Quotient(d: real, x: real, q: real, z: real)
    requires d != 0.0 && x == d * z && q == x / d
    ensures q == z
  {
    assert d * q == x;
    CancelFactor(d, q, z);
  }

  /** ... and is inverted by it. */
  lemma {:induction false} ForwardSolves(f: Factors, n: nat, b: Vec)
    requires IsMatrix(f.lu, n, n) && |b| == n && NonzeroDiagonal(f, n)
    ensures TransVec(Upper(f, n), Forward(f, n, b, n), n) == b
  {
    hide Dot;
    hide Forward;
    var z := Forward(f, n, b, n);
    forall j | 0 <= j < n
      ensures TransVec(Upper(f, n), z, n)[j] == b[j]
    {
      ForwardRow(f, n, b, j);
    }
  }

  lemma {:induction false} ForwardRow(f: Factors, n: nat, b: Vec, j: nat)
    requires IsMatrix(f.lu, n, n) && |b| == n && NonzeroDiagonal(f, n) && j < n
    ensures Dot(Upper(f, n)[j], Forward(f, n, b, n)) == b[j]
  {
    var y, z, d := Forward(f, n, b, j), Forward(f, n, b, n), f.lu[j][j];
    ForwardEntry(f, n, b, j);
    hide Forward;
    hide Dot;
    hide DotRange;
    forall i | 0 <= i < j
      ensures z[i] == y[i]
    {
      ForwardStays(f, n, b, i, j, n);
    }
    ForwardStays(f, n, b, j, j + 1, n);
    DotFrame(f.lu[j], f.lu[j], y, z, 0, j);
    UpperDot(f, n, z, j);
    var x := b[j] - DotRange(f.lu[j], y, 0, j);
    assert z[j] == x / d;
    assert d * z[j] == x;
  }

  lemma {:induction false} ForwardEntry(f: Factors, n: nat, b: Vec, j: nat)
    requires IsMatrix(f.lu, n, n) && |b| == n && NonzeroDiagonal(f, n) && j < n
    ensures Forward(f, n, b, j + 1)[j] == (b[j] - DotRange(f.lu[j], Forward(f, n, b, j), 0, j)) / f.lu[j][j]
  {
    var y := Forward(f, n, b, j);
    assert y[j] == y[j..][0] == b[j..][0] == b[j];
  }

  /** Once computed, an entry stays. */
  lemma {:induction false} ForwardStays(f: Factors, n: nat, b: Vec, i: nat, j: nat, k: nat)
    requires IsMatrix(f.lu, n, n) && |b| == n && NonzeroDiagonal(f, n) && i < j <= k <= n
    ensures Forward(f, n, b, k)[i] == Forward(f, n, b, j)[i]
    decreases k
  {
    if j < k {
      ForwardStays(f, n, b, i, j, k - 1);
    }
  }

  // ---------------------------------------------------------------------
  // When the code is right
  // ---------------------------------------------------------------------

  /** What dgesl leaves in b for job != 0: the last transposed step, step 0, is missing. */
  function Computed(f: Factors, n: nat, b: Vec): (r: Vec)
    requires n >= 1 && ValidFactors(f, n, n - 1) && |b| == n && NonzeroDiagonal(f, n)
    ensures |r| == n
  {
    ReplayT(f, n, Forward(f, n, b, n), 1)
  }

  /** Step 0 of the factorisation neither swapped nor eliminated. */
  predicate FirstStepIdle(f: Factors, n: nat)
    requires n >= 1 && ValidFactors(f, n, n - 1)
  {
    n >= 2 ==> f.piv[0] == 0 && forall i :: 1 <= i < n ==> f.lu[0][i] == 0.0
  }

  /** The one solution is the computed vector with step 0 applied to it. */
  lemma {:induction false} SolutionIsOneStepAway(f: Factors, a: seq<Vec>, n: nat, b: Vec, y: Vec)
    requires Factored(f, a, n) && NonzeroDiagonal(f, n) && |b| == |y| == n
    ensures TransVec(a, y, n) == b <==> y == ReplayT(f, n, Forward(f, n, b, n), 0)
  {
    hide ReplayT;
    hide Forward;
    hide TransVec;
    hide NonzeroDiagonal;
    hide Factored;
    FactorsValid(f, a, n);
    var z := Forward(f, n, b, n);
    ForwardSolves(f, n, b);
    TransposedProduct(f, a, n, z);
    if TransVec(a, y, n) == b {
      var t := UnreplayT(f, n, y, 0);
      ReplayTUndoes(f, n, y, 0);
      TransposedProduct(f, a, n, t);
      ForwardInverts(f, n, t, n);
      assert z[..n] == z && t[..n] == t;
    }
  }

  lemma {:induction false} IdleStepT(y: Vec, m: Vec)
    requires |y| == |m| >= 1 && forall i :: 1 <= i < |m| ==> m[i] == 0.0
    ensures StepT(y, 0, 0, m) == y
  {
    DotZero(m, y, 1, |y|);
  }

  /** A vector that step 0 changes, unless the step is idle. */
  lemma {:induction false} MovedVector(f: Factors, n: nat) returns (y: Vec)
    requires n >= 2 && ValidFactors(f, n, n - 1) && !FirstStepIdle(f, n)
    ensures |y| == n && StepT(y, 0, f.piv[0], f.lu[0]) != y
  {
    var l, m := f.piv[0], f.lu[0];
    if l != 0 {
      y := Zeros(n)[0 := 1.0];
      assert StepT(y, 0, l, m)[0] == y[l] == 0.0;
    } else {
      var i :| 1 <= i < n && m[i] != 0.0;
      y := Zeros(n)[i := 1.0];
      DotSplit(m, y, 1, i, n);
      DotSplit(m, y, i, i + 1, n);
      DotCommutes(m, y, 1, i);
      DotCommutes(m, y, i + 1, n);
      DotZero(y, m, 1, i);
      DotZero(y, m, i + 1, n);
      assert DotRange(m, y, i, i) == 0.0;
      assert DotRange(m, y, i, i + 1) == m[i];
      assert StepT(y, 0, l, m)[0] == m[i];
      assert y[0] == 0.0;
    }
  }

  /** dgesl with job != 0 solves trans(A)*x = b for every right hand side exactly when the
      first elimination step was idle. */
  lemma {:induction false} TransposedSolveRightIff(f: Factors, a: seq<Vec>, n: nat)
    requires Factored(f, a, n) && NonzeroDiagonal(f, n) && ValidFactors(f, n, n - 1)
    ensures (forall b: Vec :: |b| == n ==> TransVec(a, Computed(f, n, b), n) == b) <==> FirstStepIdle(f, n)
  {
    hide StepT;
    hide Forward;
    hide TransVec;
    hide Factored;
    hide UnreplayT;
    FactorsValid(f, a, n);
    if FirstStepIdle(f, n) {
      forall b: Vec | |b| == n
        ensures TransVec(a, Computed(f, n, b), n) == b
      {
        SolutionIsOneStepAway(f, a, n, b, Computed(f, n, b));
        if n >= 2 {
          IdleStepT(Computed(f, n, b), f.lu[0]);
        }
      }
    } else {
      var y := MovedVector(f, n);
      var z := UnreplayT(f, n, y, 1);
      ReplayTUndoes(f, n, y, 1);
      var b := TransVec(Upper(f, n), z, n);
      ForwardInverts(f, n, z, n);
      assert Forward(f, n, b, n)[..n] == Forward(f, n, b, n) && z[..n] == z;
      assert Computed(f, n, b) == y;
      SolutionIsOneStepAway(f, a, n, b, y);
      assert ReplayT(f, n, z, 0) == StepT(y, 0, f.piv[0], f.lu[0]);
    }
  }

  /** The columns of a matrix whose rows are (1, 0) and (1, 1). */
  const TWO_BY_TWO: seq<Vec> := [[1.0, 1.0], [0.0, 1.0]]

  /** It has two factorisations, without and with an interchange in the first step. */
  lemma {:induction false} FactorsOfTwoByTwo(f: Factors)
    requires Factored(f, TWO_BY_TWO, 2)
    ensures f.piv[0] == 0 ==> f.lu == [[1.0, -1.0], [0.0, 1.0]]
    ensures f.piv[0] != 0 ==> f.piv[0] == 1 && f.lu == [[1.0, -1.0], [1.0, -1.0]]
  {
    var l, m, a := f.piv[0], f.lu[0], TWO_BY_TWO;
    assert ColumnFactored(f, a, 2, 1, 0) && ColumnFactored(f, a, 2, 1, 1);
    assert Replay(f, 2, a[0], 0) == a[0] && Replay(f, 2, a[1], 0) == a[1];
    assert Step(a[0], 0, l, m) == Replay(f, 2, a[0], 1) == UpperColumn(m, 0);
    assert Step(a[1], 0, l, m) == Replay(f, 2, a[1], 1) == f.lu[1];
    assert SwapEntries(a[0], 0, l) == [1.0, 1.0];
    assert Step(a[0], 0, l, m)[1] == 1.0 + 1.0 * m[1] == UpperColumn(m, 0)[1] == 0.0;
    assert m[0] == UpperColumn(m, 0)[0] == Step(a[0], 0, l, m)[0] == 1.0;
    assert m == [1.0, -1.0];
    assert f.lu[1] == if l == 0 then [0.0, 1.0] else [1.0, -1.0];
    assert f.lu == [f.lu[0], f.lu[1]];
  }

  /** A system that the transposed solve gets wrong with any factors dgefa may find for the
      matrix: trans(A)*x = (0, 1) has the solution (-1, 1). */
  lemma {:induction false} TransposedSolveFails(f: Factors)
    requires Factored(f, TWO_BY_TWO, 2)
    ensures ValidFactors(f, 2, 1) && NonzeroDiagonal(f, 2)
    ensures TransVec(TWO_BY_TWO, Computed(f, 2, [0.0, 1.0]), 2) != [0.0, 1.0]
    ensures TransVec(TWO_BY_TWO, [-1.0, 1.0], 2) == [0.0, 1.0]
  {
    hide Factored;
    FactorsValid(f, TWO_BY_TWO, 2);
    FactorsOfTwoByTwo(f);
    assert f.lu[0] == [1.0, -1.0];
    var b, a := [0.0, 1.0], TWO_BY_TWO;
    assert DotRange(f.lu[0], b, 0, 0) == 0.0;
    assert Forward(f, 2, b, 0) == b && Forward(f, 2, b, 1) == [0.0, 1.0];
    assert DotRange(f.lu[1], b, 0, 1) == 0.0;
    assert Forward(f, 2, b, 2) == [0.0, 1.0 / f.lu[1][1]];
    var x := Computed(f, 2, b);
    assert x == Forward(f, 2, b, 2);
    DotOfTwo(a[0], x);
    DotOfTwo(a[0], [-1.0, 1.0]);
    DotOfTwo(a[1], [-1.0, 1.0]);
    assert TransVec(a, x, 2)[0] != 0.0;
  }

  lemma {:induction false} DotOfTwo(u: Vec, v: Vec)
    requires |u| == |v| == 2
    ensures Dot(u, v) == u[0] * v[0] + u[1] * v[1]
  {
    assert DotRange(u, v, 0, 0) == 0.0;
    assert DotRange(u, v, 0, 1) == u[0] * v[0];
  }

  // ---------------------------------------------------------------------
  // The code
  // ---------------------------------------------------------------------

  /** ddot with unit stride. */
  method Ddot(n: int, dx: array<real>, xo: nat, dy: array<real>, yo: nat) returns (dtemp: real)
    requires n >= 0 ==> xo + n <= dx.Length && yo + n <= dy.Length
    ensures n <= 0 ==> dtemp == 0.0
    ensures n > 0 ==> dtemp == Dot(dx[xo..xo + n], dy[yo..yo + n])
  {
    dtemp := 0.0;
    if n <= 0 {
      return 0.0;
    }
    ghost var u, v := dx[xo..xo + n], dy[yo..yo + n];
    for i := 0 to n
      invariant dtemp == DotRange(u, v, 0, i)
    {
      dtemp := dtemp + dx[xo + i] * dy[yo + i];
    }
  }

  lemma {:induction false} DotSlice(u: Vec, v: Vec, lo: nat, hi: nat)
    requires |u| == |v| && lo <= hi <= |u|
    ensures Dot(u[lo..hi], v[lo..hi]) == DotRange(u, v, lo, hi)
    decreases hi
  {
    if lo < hi {
      DotSlice(u, v, lo, hi - 1);
      var s, t := u[lo..hi], v[lo..hi];
      SliceWithoutLast(u, lo, hi);
      SliceWithoutLast(v, lo, hi);
      DotTake(s, t, hi - lo - 1);
    }
  }

  lemma {:induction false} SliceWithoutLast(u: Vec, lo: nat, hi: nat)
    requires lo < hi <= |u|
    ensures u[lo..hi - 1] == u[lo..hi][..hi - lo - 1]
  {
  }

  lemma {:induction false} DotTake(u: Vec, v: Vec, k: nat)
    requires |u| == |v| && k <= |u|
    ensures Dot(u[..k], v[..k]) == DotRange(u, v, 0, k)
    decreases k
  {
    if k > 0 {
      DotTake(u, v, k - 1);
      DotTakeInner(u, v, k - 1, k);
    }
  }

  /** A prefix sum does not see where the vectors are cut off. */
  lemma {:induction false} DotTakeInner(u: Vec, v: Vec, j: nat, k: nat)
    requires |u| == |v| && j <= k <= |u|
    ensures DotRange(u[..k], v[..k], 0, j) == DotRange(u, v, 0, j)
    decreases j
  {
    if j > 0 {
      DotTakeInner(u, v, j - 1, k);
    }
  }

  /** The first loop: solves trans(U)*z = b. */
  method SolveTransposedUpper(a: array<real>, lda: int, n: nat, ghost piv: seq<int>, b: array<real>)
    requires Fits(a.Length, lda, n, n) && n <= b.Length && a != b && |piv| == n
    requires NonzeroDiagonal(Factors(View(a[..], lda, n, n), piv), n)
    modifies b
    ensures b[..n] == Forward(Factors(View(a[..], lda, n, n), piv), n, old(b[..n]), n)
    ensures b[n..] == old(b[n..])
  {
    hide DotRange;
    hide Forward;
    ghost var f, b0 := Factors(View(a[..], lda, n, n), piv), b[..n];
    ForwardNone(f, n, b0);
    for k := 0 to n
      invariant b[..n] == Forward(f, n, b0, k)
      invariant b[n..] == old(b[n..])
    {
      ColumnInBounds(a.Length, lda, n, n, k);
      ForwardNext(f, n, b0, k);
      assert f.lu[k] == a[lda * k..lda * k + n];
      ForwardRound(a, lda * k, n, b, k);
    }
  }

  lemma {:induction false} ForwardNone(f: Factors, n: nat, b: Vec)
    requires IsMatrix(f.lu, n, n) && |b| == n && NonzeroDiagonal(f, n)
    ensures Forward(f, n, b, 0) == b
  {
  }

  lemma {:induction false} ForwardNext(f: Factors, n: nat, b: Vec, k: nat)
    requires IsMatrix(f.lu, n, n) && |b| == n && k < n && NonzeroDiagonal(f, n)
    ensures var z := Forward(f, n, b, k);
            Forward(f, n, b, k + 1) == z[k := (z[k] - DotRange(f.lu[k], z, 0, k)) / f.lu[k][k]]
  {
  }

  /** One round of the first loop, on the column at offset o. */
  method ForwardRound(a: array<real>, o: nat, n: nat, b: array<real>, k: nat)
    requires o + n <= a.Length && n <= b.Length && a != b && k < n && a[o + k] != 0.0
    modifies b
    ensures b[..n] == old(b[..n])[k := (old(b[k]) - DotRange(a[o..o + n], old(b[..n]), 0, k)) / a[o + k]]
    ensures b[n..] == old(b[n..])
  {
    hide Dot;
    hide DotRange;
    ghost var z, c := b[..n], a[o..o + n];
    var t := Ddot(k, a, o, b, 0);
    DotSlice(c, z, 0, k);
    assert c[0..k] == a[o..o + k] && z[0..k] == b[0..0 + k];
    EmptyDot(c, z);
    b[k] := (b[k] - t) / a[o + k];
  }

  lemma {:induction false} EmptyDot(u: Vec, v: Vec)
    requires |u| == |v|
    ensures DotRange(u, v, 0, 0) == 0.0
    ensures forall lo: nat :: DotRange(u, v, lo, 0) == 0.0
  {
  }

  /** One round of the second loop: the transposed step k on b. */
  method ApplyStepT(a: array<real>, o: nat, n: nat, b: array<real>, k: nat, l: nat)
    requires o + n <= a.Length && n <= b.Length && a != b && k + 1 < n && l < n
    modifies b
    ensures b[..n] == StepT(old(b[..n]), k, l, a[o..o + n])
    ensures b[n..] == old(b[n..])
  {
    hide Dot;
    hide DotRange;
    ghost var z, m := b[..n], a[o..o + n];
    var d := Ddot(n - (k + 1), a, o + k + 1, b, k + 1);
    DotSlice(m, z, k + 1, n);
    assert m[k + 1..n] == a[o + k + 1..o + k + 1 + (n - (k + 1))];
    assert z[k + 1..n] == b[k + 1..k + 1 + (n - (k + 1))];
    b[k] := b[k] + d;
    ghost var z' := z[k := z[k] + d];
    assert b[..n] == z';
    if l != k {
      var t := b[l];
      b[l] := b[k];
      b[k] := t;
    }
    assert b[..n] == SwapEntries(z', k, l);
  }

  /** dgesl with job != 0, loop bounds as written. */
  method DgeslTransposed(a: array<real>, lda: int, n: nat, ipvt: array<int>, b: array<real>)
    requires n >= 1 && Fits(a.Length, lda, n, n) && n <= ipvt.Length && n <= b.Length && a != b
    requires ValidFactors(Stored(a[..], lda, n, ipvt[..]), n, n - 1)
    requires NonzeroDiagonal(Stored(a[..], lda, n, ipvt[..]), n)
    modifies b
    ensures b[..n] == Computed(Stored(a[..], lda, n, ipvt[..]), n, old(b[..n]))
    ensures b[n..] == old(b[n..])
  {
    hide StepT;
    hide Forward;
    ghost var f := Stored(a[..], lda, n, ipvt[..]);
    SolveTransposedUpper(a, lda, n, ipvt[..n], b);
    ghost var z := b[..n];
    var nm1 := n - 1;
    if nm1 >= 1 {
      var kb := 1;
      while kb < nm1
        invariant 1 <= kb <= nm1
        invariant b[..n] == ReplayT(f, n, z, n - kb)
        invariant b[n..] == old(b[n..])
      {
        var k := n - (kb + 1);
        ColumnInBounds(a.Length, lda, n, n, k);
        var l := ipvt[k];
        assert l == f.piv[k] && f.lu[k] == a[lda * k..lda * k + n];
        ApplyStepT(a, lda * k, n, b, k, l);
        kb := kb + 1;
      }
    }
  }
}
