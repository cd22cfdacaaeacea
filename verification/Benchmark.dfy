/** matgen and the factor / solve / check sequence of the benchmark's main. */
module Benchmark {
  import opened Vectors
  import opened Factorization
  import opened Elimination
  import opened Dgesl
  import opened Dmxpy

  const INT_MAX: int := 0x7fff_ffff

  /** The k-th state of matgen's generator. It stays odd and below 65536, so the
      product formed from it stays inside a 32-bit int. */
  function Generator(k: nat): (init: int)
    ensures 1 <= init <= 65535 && init % 2 == 1
    ensures 3125 * init <= INT_MAX
  {
    if k == 0 then 1325 else
      StateStaysOdd(Generator(k - 1));
      3125 * Generator(k - 1) % 65536
  }

  lemma {:induction false} StateStaysOdd(init: int)
    requires 1 <= init <= 65535 && init % 2 == 1
    ensures var next := 3125 * init % 65536; 1 <= next <= 65535 && next % 2 == 1
  {
    var q, next, h := 3125 * init / 65536, 3125 * init % 65536, init / 2;
    assert 3125 * init == 65536 * q + next;
    assert init == 2 * h + 1;
    assert next == 2 * (3125 * h + 1562 - 32768 * q) + 1;
  }

  function Entry(init: int): real {
    (init as real - 32768.0) / 16384.0
  }

  /** Column j of the matrix, generated after j full columns. */
  function GeneratedColumn(n: nat, j: nat): (c: Vec)
    ensures |c| == n
  {
    seq(n, i requires 0 <= i < n => Entry(Generator(n * j + i + 1)))
  }

  function Generated(n: nat): (m: seq<Vec>)
    ensures IsMatrix(m, n, n)
  {
    seq(n, j requires 0 <= j < n => GeneratedColumn(n, j))
  }

  /** Every generated entry is smaller than 2 in size. */
  lemma {:induction false} GeneratedAtMostTwo(n: nat)
    ensures AllAtMost(Generated(n), n, 2.0)
  {
    forall i, j | 0 <= i < n && 0 <= j < n
      ensures Abs(Generated(n)[j][i]) <= 2.0
    {
      var init := Generator(n * j + i + 1);
      assert Generated(n)[j][i] == Entry(init);
    }
  }

  /** The running value of norma over the entries c: the largest of them and of the value
      before. */
  ghost predicate LargestEntry(norma: real, c: seq<real>, before: real) {
    && norma >= before
    && (forall i :: 0 <= i < |c| ==> c[i] <= norma)
    && (norma == before || norma in c)
  }

  /** norma as matgen leaves it: the largest entry of the matrix, or 0 when no entry is
      positive. */
  ghost predicate IsNorma(norma: real, m: seq<Vec>, n: nat)
    requires IsMatrix(m, n, n)
  {
    && norma >= 0.0
    && (forall i, j :: 0 <= i < n && 0 <= j < n ==> m[j][i] <= norma)
    && (norma == 0.0 || exists j :: 0 <= j < n && norma in m[j])
  }

  method FillColumn(a: array<real>, o: nat, n: nat, init0: int, norma0: real, ghost k: nat)
    returns (init: int, norma: real)
    requires o + n <= a.Length && init0 == Generator(k)
    modifies a
    ensures init == Generator(k + n)
    ensures forall p :: o <= p < o + n ==> a[p] == Entry(Generator(k + (p - o) + 1))
    ensures forall p :: 0 <= p < a.Length && !(o <= p < o + n) ==> a[p] == old(a[p])
    ensures LargestEntry(norma, a[o..o + n], norma0)
  {
    hide Entry;
    init, norma := init0, norma0;
    for i := 0 to n
      invariant init == Generator(k + i)
      invariant forall p :: o <= p < o + i ==> a[p] == Entry(Generator(k + (p - o) + 1))
      invariant forall p :: 0 <= p < a.Length && !(o <= p < o + i) ==> a[p] == old(a[p])
      invariant LargestEntry(norma, a[o..o + i], norma0)
    {
      ghost var done := a[o..o + i];
      assert Generator(k + i + 1) == 3125 * Generator(k + i) % 65536;
      init := 3125 * init % 65536;
      a[o + i] := Entry(init);
      norma := if a[o + i] > norma then a[o + i] else norma;
      assert a[o..o + i + 1] == done + [Entry(init)];
    }
  }

  method Matgen(a: array<real>, lda: int, n: nat, b: array<real>) returns (norma: real)
    requires Fits(a.Length, lda, n, n) && n <= b.Length && a != b
    modifies a, b
    ensures View(a[..], lda, n, n) == Generated(n)
    ensures b[..n] == MatVec(Generated(n), Ones(n), n)
    ensures b[n..] == old(b[n..])
    ensures IsNorma(norma, Generated(n), n)
  {
    hide Generated;
    hide MatVec;
    hide View;
    hide Fits;
    norma := FillMatrix(a, lda, n);
    ghost var content := a[..];
    for i := 0 to n
      invariant a[..] == content
      invariant forall t :: 0 <= t < i ==> b[t] == 0.0
      invariant b[n..] == old(b[n..])
    {
      b[i] := 0.0;
    }
    AddRows(a, lda, n, b);
    assert a[..] == content;
  }

  method FillMatrix(a: array<real>, lda: int, n: nat) returns (norma: real)
    requires Fits(a.Length, lda, n, n)
    modifies a
    ensures View(a[..], lda, n, n) == Generated(n)
    ensures IsNorma(norma, Generated(n), n)
  {
    hide Entry;
    hide Generator;
    var init := 1325;
    norma := 0.0;
    assert init == Generator(0) by { FirstState(); }
    for j := 0 to n
      invariant init == Generator(n * j)
      invariant View(a[..], lda, n, n)[..j] == Generated(n)[..j]
      invariant norma >= 0.0
      invariant forall i, t :: 0 <= i < n && 0 <= t < j ==> Generated(n)[t][i] <= norma
      invariant norma == 0.0 || exists t :: 0 <= t < j && norma in Generated(n)[t]
    {
      ghost var before, view, old_norma := a[..], View(a[..], lda, n, n), norma;
      ColumnInBounds(a.Length, lda, n, n, j);
      var o := lda * j;
      init, norma := FillColumn(a, o, n, init, norma, n * j);
      assert n * j + n == n * (j + 1);
      assert a[o..o + n] == Generated(n)[j];
      ViewAfterColumnWrite(before, a[..], lda, n, n, j);
      assert Column(a[..], lda, n, n, j) == a[o..o + n];
      assert View(a[..], lda, n, n)[..j + 1] == view[..j] + [a[o..o + n]];
      assert norma != old_norma ==> norma in Generated(n)[j];
    }
    assert View(a[..], lda, n, n) == View(a[..], lda, n, n)[..n];
    assert Generated(n) == Generated(n)[..n];
  }

  lemma {:induction false} FirstState()
    ensures Generator(0) == 1325
  {
  }

  /** b[i] accumulates row i of the matrix, column by column. */
  method AddRows(a: array<real>, lda: int, n: nat, b: array<real>)
    requires Fits(a.Length, lda, n, n) && n <= b.Length && a != b
    requires forall i :: 0 <= i < n ==> b[i] == 0.0
    modifies b
    ensures b[..n] == MatVec(View(a[..], lda, n, n), Ones(n), n)
    ensures b[n..] == old(b[n..])
  {
    ghost var m, ones, zeros := View(a[..], lda, n, n), Ones(n), b[..];
    for j := 0 to n
      invariant AllAdded(m, ones, zeros, b[..], n, j)
    {
      for i := 0 to n
        invariant PartlyAdded(m, ones, zeros, b[..], n, j, j + 1, i)
      {
        ViewAt(a[..], lda, n, n, i, j);
        Sum1(m, ones, i, j);
        assert Added(m, ones, zeros[i], b[..][i], i, j);
        b[i] := b[i] + a[lda * j + i];
      }
    }
    AllColumns(m, ones, zeros, b[..], n);
  }

  method GenerateAndSolve(a: array<real>, lda: int, n: nat, ipvt: array<int>, b: array<real>)
    requires n >= 1 && Fits(a.Length, lda, n, n) && n <= ipvt.Length && n <= b.Length && a != b
    requires Nonsingular(Generated(n), n)
    modifies a, ipvt, b
    ensures b[..n] == Ones(n)
  {
    hide Nonsingular;
    hide MatVec;
    hide Generated;
    hide View;
    hide Fits;
    var norma := Matgen(a, lda, n, b);
    var info := FactorAndSolve(a, lda, n, ipvt, b);
    assert |Ones(n)| == n && b[..n] == Ones(n);
  }

  /** Regenerates the system and leaves A*x - b in b. */
  method Residual(a: array<real>, lda: int, n: nat, b: array<real>, x: array<real>)
    requires Fits(a.Length, lda, n, n) && n <= b.Length && n <= x.Length
    requires a != b && a != x && b != x && x[..n] == Ones(n)
    modifies a, b
    ensures forall t :: 0 <= t < n ==> b[t] == 0.0
  {
    hide MatVec;
    hide Generated;
    hide View;
    hide Fits;
    var norma := Matgen(a, lda, n, b);
    ghost var rows, content := b[..n], a[..];
    for i := 0 to n
      invariant a[..] == content
      invariant forall t :: 0 <= t < n ==> b[t] == if t < i then -rows[t] else rows[t]
    {
      b[i] := -b[i];
    }
    ghost var negated := b[..n];
    assert View(a[..], lda, n, n) == Generated(n) && x[..n] == Ones(n);
    Dmxpy.Dmxpy(n, b, n, lda, x, a);
    assert forall t :: 0 <= t < n ==> b[..n][t] == negated[t] + 1.0 * rows[t];
  }

  /** The benchmark run in exact arithmetic: generate, factor, solve, regenerate and
      check the residual. Whenever the generated matrix is nonsingular the computed
      solution is all ones, the residual is 0 and the norm of x is 1. */
  method Run(a: array<real>, lda: int, n: nat, ipvt: array<int>, b: array<real>, x: array<real>)
    returns (resid: real, normx: real)
    requires n >= 1 && Fits(a.Length, lda, n, n) && n <= ipvt.Length && n <= b.Length && n <= x.Length
    requires a != b && a != x && b != x
    requires Nonsingular(Generated(n), n)
    modifies a, ipvt, b, x
    ensures x[..n] == Ones(n)
    ensures resid == 0.0 && normx == 1.0
  {
    hide Nonsingular;
    hide Generated;
    GenerateAndSolve(a, lda, n, ipvt, b);
    for i := 0 to n
      invariant x[..i] == b[..i]
      invariant b[..n] == Ones(n)
    {
      x[i] := b[i];
    }
    Residual(a, lda, n, b, x);
    resid, normx := 0.0, 0.0;
    for i := 0 to n
      invariant resid == 0.0 && normx == if i == 0 then 0.0 else 1.0
    {
      assert x[i] == x[..n][i] == 1.0;
      resid := if resid > Abs(b[i]) then resid else Abs(b[i]);
      normx := if normx > Abs(x[i]) then normx else Abs(x[i]);
    }
  }
}
