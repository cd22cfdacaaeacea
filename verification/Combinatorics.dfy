/** TinyExpr's integer kernels fac, ncr and npr, which loop on unsigned longs and
    saturate to infinity before an overflow. */
module Combinatorics {

  /** What a kernel returns: NaN, infinity, or an integer, taken before its
      conversion to double. */
  datatype Num = NaN | Infinity | Exact(value: nat)

  const UINT_MAX: nat := 0xffff_ffff

  /** ULONG_MAX is 2^32-1 on the 32-bit target and 2^64-1 on 64-bit Linux; the
      results hold for any value in between. */
  predicate IsUlongMax(max: nat) {
    UINT_MAX <= max <= 0xffff_ffff_ffff_ffff
  }

  function Factorial(n: nat): (r: nat)
    ensures r >= 1
  {
    if n == 0 then 1 else n * Factorial(n - 1)
  }

  lemma {:induction false} FactorialGrows(n: nat, k: nat)
    requires n <= k
    ensures Factorial(n) <= Factorial(k)
    decreases k
  {
    if n < k {
      FactorialGrows(n, k - 1);
    }
  }

  /** Already 21! is too large for any unsigned long. */
  lemma {:induction false} FactorialTooLarge(n: nat)
    requires n >= 21
    ensures Factorial(n) > 0xffff_ffff_ffff_ffff
  {
    FactorialGrows(21, n);
    FactorialOf21();
  }

  lemma {:induction false} FactorialOf21()
    ensures Factorial(21) == 51090942171709440000
  {
    assert Factorial(3) == 6;
    assert Factorial(6) == 720;
    assert Factorial(9) == 362880;
    assert Factorial(12) == 479001600;
    assert Factorial(15) == 1307674368000;
    assert Factorial(18) == 6402373705728000;
    assert Factorial(21) == 51090942171709440000;
  }

  /** Pascal's triangle. */
  function Binomial(n: nat, k: nat): (r: nat)
    ensures k <= n ==> r >= 1
    ensures k > n ==> r == 0
  {
    if k == 0 then 1
    else if n == 0 then 0
    else Binomial(n - 1, k - 1) + Binomial(n - 1, k)
  }

  lemma {:induction false} PascalRule(n: nat, k: nat)
    requires n >= 1 && k >= 1
    ensures Binomial(n, k) == Binomial(n - 1, k - 1) + Binomial(n - 1, k)
  {
  }

  lemma {:induction false} AbsorptionAlgebra(n: int, k: int, p: int, q: int, s: int, t: int)
    requires p == s + t && (k - 1) * p == (n - 1) * s && k * q == (n - 1) * t
    ensures k * (p + q) == n * p
  {
    calc {
      k * (p + q);
      p + (k - 1) * p + k * q;
      p + (n - 1) * s + (n - 1) * t;
      p + (n - 1) * (s + t);
      n * p;
    }
  }

  /** k * C(n,k) == n * C(n-1,k-1): each division in the loop of ncr is exact. */
  lemma {:induction false} Absorption(n: nat, k: nat)
    requires n >= 1 && k >= 1
    ensures k * Binomial(n, k) == n * Binomial(n - 1, k - 1)
    decreases n
  {
    PascalRule(n, k);
    if n == 1 {
      assert k == 1 ==> Binomial(0, 1) == 0;
    } else {
      hide Binomial;
      var p, q := Binomial(n - 1, k - 1), Binomial(n - 1, k);
      Absorption(n - 1, k);
      var t := Binomial(n - 2, k - 1);
      if k == 1 {
        BinomialZero(n - 1);
        BinomialZero(n - 2);
        AbsorptionAlgebra(n, k, p, q, 0, t);
      } else {
        Absorption(n - 1, k - 1);
        PascalRule(n - 1, k - 1);
        AbsorptionAlgebra(n, k, p, q, Binomial(n - 2, k - 2), t);
      }
    }
  }

  lemma {:induction false} BinomialZero(n: nat)
    ensures Binomial(n, 0) == 1
  {
  }

  lemma {:induction false} BinomialFull(n: nat)
    ensures Binomial(n, n) == 1
  {
    if n > 0 {
      BinomialFull(n - 1);
    }
  }

  lemma {:induction false} BinomialSymmetric(n: nat, k: nat)
    requires k <= n
    ensures Binomial(n, k) == Binomial(n, n - k)
  {
    if k == 0 || k == n {
      BinomialFull(n);
    } else {
      BinomialSymmetric(n - 1, k - 1);
      BinomialSymmetric(n - 1, k);
    }
  }

  /** The intermediate product i * C(m+i,i) formed in round i of ncr. */
  function RoundProduct(m: nat, i: nat): nat {
    i * Binomial(m + i, i)
  }

  lemma {:induction false} RoundStep(m: nat, i: nat)
    requires i >= 1
    ensures (m + i) * Binomial(m + i - 1, i - 1) == RoundProduct(m, i)
    ensures RoundProduct(m, i) / i == Binomial(m + i, i)
    ensures RoundProduct(m, i) % i == 0
  {
    Absorption(m + i, i);
    ExactQuotient(i, Binomial(m + i, i));
  }

  lemma {:induction false} ExactQuotient(i: int, c: int)
    requires i >= 1
    ensures (i * c) / i == c && (i * c) % i == 0
  {
    var q, m := (i * c) / i, (i * c) % i;
    assert i * c == i * q + m;
    assert i * (c - q) == m < i;
    assert c - q >= 1 ==> i * (c - q) >= i;
    assert c - q <= -1 ==> i * (c - q) < 0;
  }

  lemma {:induction false} Grows(c: nat, x: nat, y: nat)
    requires x <= y
    ensures x * c <= y * c
  {
    assert y * c == x * c + (y - x) * c;
  }

  /** The products only grow, so the last round decides whether ncr saturates. */
  lemma {:induction false} RoundProductGrows(m: nat, i: nat, r: nat)
    requires i <= r
    ensures RoundProduct(m, i) <= RoundProduct(m, r)
    decreases r
  {
    hide Binomial;
    if i < r {
      RoundProductGrows(m, i, r - 1);
      RoundStep(m, r);
      Grows(Binomial(m + r - 1, r - 1), r - 1, m + r);
    }
  }

  lemma {:induction false} GuardAlgebra(result: int, q: int, m: int, d: int)
    requires 0 <= m < d
    ensures result > q <==> result * d > q * d + m
  {
    var x := result - q;
    assert result * d == q * d + x * d;
    assert x >= 1 ==> x * d >= d;
    assert x <= 0 ==> x * d <= 0;
  }

  /** result > max / d, the overflow guard of both kernels. */
  lemma {:induction false} OverflowGuard(result: nat, max: nat, d: nat)
    requires d >= 1
    ensures result > max / d <==> result * d > max
  {
    var q, m := max / d, max % d;
    assert max == q * d + m;
    GuardAlgebra(result, q, m, d);
  }

  /** fac: exact exactly when the factorial fits in an unsigned long. */
  method Fac(a: real, max: nat) returns (r: Num)
    requires IsUlongMax(max)
    ensures r == if a < 0.0 then NaN
                 else if Factorial(a.Floor) <= max then Exact(Factorial(a.Floor))
                 else Infinity
  {
    if a < 0.0 {
      return NaN;
    }
    if a > UINT_MAX as real {
      FactorialTooLarge(a.Floor);
      return Infinity;
    }
    var ua := a.Floor;
    var result: nat, i: nat := 1, 1;
    while i <= ua
      invariant 1 <= i <= ua + 1
      invariant result == Factorial(i - 1) <= max
    {
      OverflowGuard(i, max, result);
      if i > max / result {
        FactorialGrows(i, ua);
        return Infinity;
      }
      assert i <= max;
      result := result * i;
      i := i + 1;
    }
    return Exact(result);
  }

  /** The number of rounds ncr runs. */
  function Rounds(n: nat, r: nat): nat
    requires r <= n
  {
    if r <= n - r then r else n - r
  }

  /** Where ncr is finite for integer arguments n and r. */
  predicate NcrFits(n: nat, r: nat, max: nat)
    requires r <= n
  {
    Binomial(n, r) * Rounds(n, r) <= max
  }

  function NcrResult(n: nat, r: nat, max: nat): Num
    requires r <= n
  {
    if NcrFits(n, r, max) then Exact(Binomial(n, r)) else Infinity
  }

  /** ncr: the exact binomial coefficient exactly when C(n,r) * min(r, n-r) fits in
      an unsigned long, infinity otherwise. */
  method Ncr(n: real, r: real, max: nat) returns (c: Num)
    requires IsUlongMax(max)
    ensures n < 0.0 || r < 0.0 || n < r ==> c == NaN
    ensures 0.0 <= r <= n && n > UINT_MAX as real ==> c == Infinity
    ensures 0.0 <= r <= n <= UINT_MAX as real ==> c == NcrResult(n.Floor, r.Floor, max)
  {
    if n < 0.0 || r < 0.0 || n < r {
      return NaN;
    }
    if n > UINT_MAX as real || r > UINT_MAX as real {
      return Infinity;
    }
    assert r.Floor <= n.Floor;
    var un: nat, ur: nat := n.Floor, r.Floor;
    BinomialSymmetric(un, ur);
    hide Binomial;
    if ur > un / 2 {
      ur := un - ur;
    }
    assert ur == Rounds(un, r.Floor) && Binomial(un, r.Floor) == Binomial(un, ur);
    c := NcrLoop(un, ur, max);
  }

  lemma {:induction false} Round(m: nat, i: nat, result: nat, d: nat, max: nat)
    requires i >= 1 && d == m + i && result == Binomial(m + (i - 1), i - 1)
    ensures result > max / d <==> RoundProduct(m, i) > max
    ensures result * d == RoundProduct(m, i)
    ensures RoundProduct(m, i) / i == Binomial(m + i, i)
  {
    hide Binomial;
    RoundStep(m, i);
    OverflowGuard(result, max, d);
  }

  /** The loop of ncr once r has been replaced by min(r, n-r). */
  method NcrLoop(un: nat, ur: nat, max: nat) returns (c: Num)
    requires ur <= un && max >= 1
    ensures c == if Binomial(un, ur) * ur <= max then Exact(Binomial(un, ur)) else Infinity
  {
    var result: nat := 1;
    var i: nat := 1;
    ghost var m: nat := un - ur;
    BinomialZero(m);
    assert RoundProduct(m, 0) == 0;
    assert RoundProduct(m, ur) == Binomial(un, ur) * ur;
    hide Binomial;
    hide RoundProduct;
    while i <= ur
      invariant 1 <= i <= ur + 1
      invariant result == Binomial(m + (i - 1), i - 1)
      invariant RoundProduct(m, i - 1) <= max
    {
      var d := un - ur + i;
      Round(m, i, result, d, max);
      if result > max / d {
        RoundProductGrows(m, i, ur);
        return Infinity;
      }
      result := result * d;
      assert result == RoundProduct(m, i) <= max;
      result := result / i;
      i := i + 1;
    }
    return Exact(result);
  }

  /** n * (n-1) * ... * (n-r+1) */
  function Falling(n: nat, r: nat): nat
    requires r <= n
  {
    if r == 0 then 1 else n * Falling(n - 1, r - 1)
  }

  lemma {:induction false} Regroup(b: int, r: int, f: int, n: int, c: int)
    requires r * b == n * c
    ensures b * (r * f) == n * (c * f)
  {
    assert b * (r * f) == (r * b) * f;
    assert n * (c * f) == (n * c) * f;
  }

  lemma {:induction false} BinomialTimesFactorial(n: nat, r: nat)
    requires r <= n
    ensures Binomial(n, r) * Factorial(r) == Falling(n, r)
  {
    if r > 0 {
      BinomialTimesFactorial(n - 1, r - 1);
      Absorption(n, r);
      hide Binomial;
      Regroup(Binomial(n, r), r, Factorial(r - 1), n, Binomial(n - 1, r - 1));
    }
  }

  /** The product of two kernel results, as the double product sees them: neither
      factor is ever zero. */
  function Times(x: Num, y: Num): Num {
    if x.NaN? || y.NaN? then NaN
    else if x.Infinity? || y.Infinity? then Infinity
    else Exact(x.value * y.value)
  }

  function NprResult(n: nat, r: nat, max: nat): Num
    requires r <= n
  {
    if NcrFits(n, r, max) && Factorial(r) <= max then Exact(Falling(n, r)) else Infinity
  }

  /** npr: the falling factorial whenever neither kernel saturates. */
  method Npr(n: real, r: real, max: nat) returns (p: Num)
    requires IsUlongMax(max)
    ensures n < 0.0 || r < 0.0 || n < r ==> p == NaN
    ensures 0.0 <= r <= n && n > UINT_MAX as real ==> p == Infinity
    ensures 0.0 <= r <= n <= UINT_MAX as real ==> p == NprResult(n.Floor, r.Floor, max)
  {
    var c := Ncr(n, r, max);
    var f := Fac(r, max);
    p := Times(c, f);
    if 0.0 <= r <= n <= UINT_MAX as real {
      BinomialTimesFactorial(n.Floor, r.Floor);
    }
  }
}
