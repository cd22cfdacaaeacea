/** dmxpy: y += M*x with the columns taken in hand-written groups of 1, 2, 4, 8
    and then 16. */
module Dmxpy {
  import opened Vectors

  function Term(m: seq<Vec>, x: Vec, i: nat, j: nat): real
    requires |x| == |m| && j < |m| && i < |m[j]|
  {
    m[j][i] * x[j]
  }

  /** The expression x[j]*m[ldm*j+i] of the source. */
  function Product(m: array<real>, ldm: int, n1: nat, n2: nat, x: array<real>, i: nat, j: nat): (r: real)
    requires Fits(m.Length, ldm, n1, n2) && n2 <= x.Length && i < n1 && j < n2
    reads m, x
    ensures r == Term(View(m[..], ldm, n1, n2), x[..n2], i, j)
  {
    ViewAt(m[..], ldm, n1, n2, i, j);
    x[j] * m[ldm * j + i]
  }

  lemma {:induction false} Sum1(m: seq<Vec>, x: Vec, i: nat, j: nat)
    requires |x| == |m| && j < |m|
    requires forall t :: 0 <= t < |m| ==> i < |m[t]|
    ensures RowSum(m, x, i, j) == Term(m, x, i, j) + RowSum(m, x, i, j + 1)
  {
  }

  lemma {:induction false} Sum2(m: seq<Vec>, x: Vec, i: nat, j: nat)
    requires |x| == |m| && j + 1 < |m|
    requires forall t :: 0 <= t < |m| ==> i < |m[t]|
    ensures RowSum(m, x, i, j) == Term(m, x, i, j) + Term(m, x, i, j + 1) + RowSum(m, x, i, j + 2)
  {
    hide Term;
    hide RowSum;
    Sum1(m, x, i, j);
    Sum1(m, x, i, j + 1);
  }

  lemma {:induction false} Sum4(m: seq<Vec>, x: Vec, i: nat, j: nat)
    requires |x| == |m| && j + 3 < |m|
    requires forall t :: 0 <= t < |m| ==> i < |m[t]|
    ensures RowSum(m, x, i, j)
         == Term(m, x, i, j) + Term(m, x, i, j + 1) + Term(m, x, i, j + 2) + Term(m, x, i, j + 3)
          + RowSum(m, x, i, j + 4)
  {
    hide Term;
    hide RowSum;
    Sum2(m, x, i, j);
    Sum2(m, x, i, j + 2);
  }

  lemma {:induction false} Sum8(m: seq<Vec>, x: Vec, i: nat, j: nat)
    requires |x| == |m| && j + 7 < |m|
    requires forall t :: 0 <= t < |m| ==> i < |m[t]|
    ensures RowSum(m, x, i, j)
         == Term(m, x, i, j) + Term(m, x, i, j + 1) + Term(m, x, i, j + 2) + Term(m, x, i, j + 3)
          + Term(m, x, i, j + 4) + Term(m, x, i, j + 5) + Term(m, x, i, j + 6) + Term(m, x, i, j + 7)
          + RowSum(m, x, i, j + 8)
  {
    hide Term;
    hide RowSum;
    Sum4(m, x, i, j);
    Sum4(m, x, i, j + 4);
  }

  /** The first `hi` columns have been added to y0 in row i. */
  ghost predicate Added(m: seq<Vec>, x: Vec, y0: real, y: real, i: nat, hi: nat)
    requires |x| == |m| && hi <= |m|
    requires forall t :: 0 <= t < |m| ==> i < |m[t]|
  {
    y + RowSum(m, x, i, hi) == y0 + RowSum(m, x, i, 0)
  }

  /** The first `hi` columns have been added to y0 in every row. */
  ghost predicate AllAdded(m: seq<Vec>, x: Vec, y0: seq<real>, y: seq<real>, n1: nat, hi: nat)
  {
    && IsMatrix(m, n1, |x|) && hi <= |m| && n1 <= |y| == |y0|
    && (forall i :: 0 <= i < n1 ==> Added(m, x, y0[i], y[i], i, hi))
    && (forall i :: n1 <= i < |y| ==> y[i] == y0[i])
  }

  /** Rows below i have the columns up to hi, the others only those up to lo. */
  ghost predicate PartlyAdded(m: seq<Vec>, x: Vec, y0: seq<real>, y: seq<real>, n1: nat, lo: nat, hi: nat, i: nat)
  {
    && IsMatrix(m, n1, |x|) && lo <= |m| && hi <= |m| && n1 <= |y| == |y0|
    && (forall r :: 0 <= r < n1 ==> Added(m, x, y0[r], y[r], r, if r < i then hi else lo))
    && (forall r :: n1 <= r < |y| ==> y[r] == y0[r])
  }

  /** Halving the modulus drops the group just cleaned up, if there was one. */
  lemma {:induction false} HalfOfFour(n: nat)
    ensures n % 4 == if n % 4 >= 2 then n % 2 + 2 else n % 2
  {
    assert n == 2 * (2 * (n / 4)) + n % 4;
  }

  lemma {:induction false} HalfOfEight(n: nat)
    ensures n % 8 == if n % 8 >= 4 then n % 4 + 4 else n % 4
  {
    assert n == 4 * (2 * (n / 8)) + n % 8;
  }

  lemma {:induction false} HalfOfSixteen(n: nat)
    ensures n % 16 == if n % 16 >= 8 then n % 8 + 8 else n % 8
  {
    assert n == 8 * (2 * (n / 16)) + n % 16;
  }

  ghost predicate Operands(n1: nat, y: array<real>, n2: nat, ldm: int, x: array<real>, m: array<real>) {
    && Fits(m.Length, ldm, n1, n2) && n1 <= y.Length && n2 <= x.Length
    && y != m && y != x
  }

  method CleanupOne(n1: nat, y: array<real>, n2: nat, ldm: int, x: array<real>, m: array<real>, ghost y0: seq<real>)
    requires Operands(n1, y, n2, ldm, x, m)
    requires AllAdded(View(m[..], ldm, n1, n2), x[..n2], y0, y[..], n1, 0)
    modifies y
    ensures AllAdded(View(m[..], ldm, n1, n2), x[..n2], y0, y[..], n1, n2 % 2)
  {
    hide Term;
    hide RowSum;
    hide View;
    hide Fits;
    ghost var mm, xx := View(m[..], ldm, n1, n2), x[..n2];
    var j := n2 % 2;
    if j >= 1 {
      j := j - 1;
      for i := 0 to n1
        invariant PartlyAdded(mm, xx, y0, y[..], n1, j, j + 1, i)
      {
        Sum1(mm, xx, i, j);
        assert Added(mm, xx, y0[i], y[..][i], i, j);
        y[i] := y[i] + Product(m, ldm, n1, n2, x, i, j);
      }
    }
  }

  method CleanupTwo(n1: nat, y: array<real>, n2: nat, ldm: int, x: array<real>, m: array<real>, ghost y0: seq<real>)
    requires Operands(n1, y, n2, ldm, x, m)
    requires AllAdded(View(m[..], ldm, n1, n2), x[..n2], y0, y[..], n1, n2 % 2)
    modifies y
    ensures AllAdded(View(m[..], ldm, n1, n2), x[..n2], y0, y[..], n1, n2 % 4)
  {
    hide Term;
    hide RowSum;
    hide View;
    hide Fits;
    ghost var mm, xx := View(m[..], ldm, n1, n2), x[..n2];
    var j := n2 % 4;
    HalfOfFour(n2);
    if j >= 2 {
      j := j - 1;
      for i := 0 to n1
        invariant PartlyAdded(mm, xx, y0, y[..], n1, j - 1, j + 1, i)
      {
        Sum2(mm, xx, i, j - 1);
        assert Added(mm, xx, y0[i], y[..][i], i, j - 1);
        y[i] := y[i] + Product(m, ldm, n1, n2, x, i, j - 1) + Product(m, ldm, n1, n2, x, i, j);
      }
    }
  }

  method CleanupFour(n1: nat, y: array<real>, n2: nat, ldm: int, x: array<real>, m: array<real>, ghost y0: seq<real>)
    requires Operands(n1, y, n2, ldm, x, m)
    requires AllAdded(View(m[..], ldm, n1, n2), x[..n2], y0, y[..], n1, n2 % 4)
    modifies y
    ensures AllAdded(View(m[..], ldm, n1, n2), x[..n2], y0, y[..], n1, n2 % 8)
  {
    hide Term;
    hide RowSum;
    hide View;
    hide Fits;
    ghost var mm, xx := View(m[..], ldm, n1, n2), x[..n2];
    var j := n2 % 8;
    HalfOfEight(n2);
    if j >= 4 {
      j := j - 1;
      for i := 0 to n1
        invariant PartlyAdded(mm, xx, y0, y[..], n1, j - 3, j + 1, i)
      {
        Sum4(mm, xx, i, j - 3);
        assert Added(mm, xx, y0[i], y[..][i], i, j - 3);
        y[i] := y[i]
              + Product(m, ldm, n1, n2, x, i, j - 3) + Product(m, ldm, n1, n2, x, i, j - 2)
              + Product(m, ldm, n1, n2, x, i, j - 1) + Product(m, ldm, n1, n2, x, i, j);
      }
    }
  }

  method CleanupEight(n1: nat, y: array<real>, n2: nat, ldm: int, x: array<real>, m: array<real>, ghost y0: seq<real>)
    requires Operands(n1, y, n2, ldm, x, m)
    requires AllAdded(View(m[..], ldm, n1, n2), x[..n2], y0, y[..], n1, n2 % 8)
    modifies y
    ensures AllAdded(View(m[..], ldm, n1, n2), x[..n2], y0, y[..], n1, n2 % 16)
  {
    hide Term;
    hide RowSum;
    hide View;
    hide Fits;
    ghost var mm, xx := View(m[..], ldm, n1, n2), x[..n2];
    var j := n2 % 16;
    HalfOfSixteen(n2);
    if j >= 8 {
      j := j - 1;
      for i := 0 to n1
        invariant PartlyAdded(mm, xx, y0, y[..], n1, j - 7, j + 1, i)
      {
        Sum8(mm, xx, i, j - 7);
        assert Added(mm, xx, y0[i], y[..][i], i, j - 7);
        y[i] := y[i]
              + Product(m, ldm, n1, n2, x, i, j - 7) + Product(m, ldm, n1, n2, x, i, j - 6)
              + Product(m, ldm, n1, n2, x, i, j - 5) + Product(m, ldm, n1, n2, x, i, j - 4)
              + Product(m, ldm, n1, n2, x, i, j - 3) + Product(m, ldm, n1, n2, x, i, j - 2)
              + Product(m, ldm, n1, n2, x, i, j - 1) + Product(m, ldm, n1, n2, x, i, j);
      }
    }
  }

  method AddSixteen(n1: nat, y: array<real>, n2: nat, ldm: int, x: array<real>, m: array<real>, j: nat, ghost y0: seq<real>)
    requires Operands(n1, y, n2, ldm, x, m) && 15 <= j < n2
    requires AllAdded(View(m[..], ldm, n1, n2), x[..n2], y0, y[..], n1, j - 15)
    modifies y
    ensures AllAdded(View(m[..], ldm, n1, n2), x[..n2], y0, y[..], n1, j + 1)
  {
    hide Term;
    hide RowSum;
    hide View;
    hide Fits;
    ghost var mm, xx := View(m[..], ldm, n1, n2), x[..n2];
    for i := 0 to n1
      invariant PartlyAdded(mm, xx, y0, y[..], n1, j - 15, j + 1, i)
    {
      Sum8(mm, xx, i, j - 15);
      Sum8(mm, xx, i, j - 7);
      assert Added(mm, xx, y0[i], y[..][i], i, j - 15);
      y[i] := y[i]
            + Product(m, ldm, n1, n2, x, i, j - 15) + Product(m, ldm, n1, n2, x, i, j - 14)
            + Product(m, ldm, n1, n2, x, i, j - 13) + Product(m, ldm, n1, n2, x, i, j - 12)
            + Product(m, ldm, n1, n2, x, i, j - 11) + Product(m, ldm, n1, n2, x, i, j - 10)
            + Product(m, ldm, n1, n2, x, i, j - 9) + Product(m, ldm, n1, n2, x, i, j - 8)
            + Product(m, ldm, n1, n2, x, i, j - 7) + Product(m, ldm, n1, n2, x, i, j - 6)
            + Product(m, ldm, n1, n2, x, i, j - 5) + Product(m, ldm, n1, n2, x, i, j - 4)
            + Product(m, ldm, n1, n2, x, i, j - 3) + Product(m, ldm, n1, n2, x, i, j - 2)
            + Product(m, ldm, n1, n2, x, i, j - 1) + Product(m, ldm, n1, n2, x, i, j);
    }
  }

  /** Adds M*x to the first n1 entries of y: the clean-up groups and the main loop
      together take every column once. */
  method Dmxpy(n1: nat, y: array<real>, n2: nat, ldm: int, x: array<real>, m: array<real>)
    requires Operands(n1, y, n2, ldm, x, m)
    modifies y
    ensures y[..n1] == Axpy(1.0, MatVec(View(m[..], ldm, n1, n2), x[..n2], n1), old(y[..n1]))
    ensures y[n1..] == old(y[n1..])
  {
    hide RowSum;
    hide View;
    hide Fits;
    ghost var mm, xx, y0 := View(m[..], ldm, n1, n2), x[..n2], y[..];
    CleanupOne(n1, y, n2, ldm, x, m, y0);
    CleanupTwo(n1, y, n2, ldm, x, m, y0);
    CleanupFour(n1, y, n2, ldm, x, m, y0);
    CleanupEight(n1, y, n2, ldm, x, m, y0);
    var jmin := n2 % 16 + 16;
    var j := jmin - 1;
    while j < n2
      invariant 15 <= j && j - 15 <= n2 && (n2 - (j - 15)) % 16 == 0
      invariant AllAdded(mm, xx, y0, y[..], n1, j - 15)
    {
      AddSixteen(n1, y, n2, ldm, x, m, j, y0);
      j := j + 16;
    }
    AllColumns(mm, xx, y0, y[..], n1);
  }

  lemma {:induction false} AllColumns(m: seq<Vec>, x: Vec, y0: seq<real>, y: seq<real>, n1: nat)
    requires AllAdded(m, x, y0, y, n1, |x|)
    ensures y[..n1] == Axpy(1.0, MatVec(m, x, n1), y0[..n1])
    ensures y[n1..] == y0[n1..]
  {
    forall i | 0 <= i < n1
      ensures y[i] == y0[i] + RowSum(m, x, i, 0)
    {
      assert Added(m, x, y0[i], y[i], i, |x|);
    }
  }
}
