/** The numbers matgen generates in closed form, and what its norma is worth: it is computed
    without absolute values, and a comment in the code offers the variant with fabs as an
    alternative. */
module Norma {
  import opened Vectors
  import opened Elimination
  import opened Benchmark

  function Power(b: nat, k: nat): nat {
    if k == 0 then 1 else b * Power(b, k - 1)
  }

  lemma {:induction false} StateClosedForm(k: nat)
    ensures Generator(k) == 1325 * Power(3125, k) % 65536
  {
    if k == 0 {
      FirstState();
    } else {
      var p := Power(3125, k - 1);
      StateClosedForm(k - 1);
      Reduce(3125, 1325 * p);
      assert 3125 * (1325 * p) == 1325 * (3125 * p);
    }
  }

  /** Entry (i, j) is made from the (n*j + i + 1)-th state, which is 1325 times that power of
      3125 modulo 65536. */
  lemma {:induction false} GeneratedClosedForm(n: nat, i: nat, j: nat)
    requires i < n && j < n
    ensures Generated(n)[j][i] == ((1325 * Power(3125, n * j + i + 1) % 65536) as real - 32768.0) / 16384.0
  {
    hide Power;
    hide Generator;
    StateClosedForm(n * j + i + 1);
    assert Generated(n)[j][i] == Entry(Generator(n * j + i + 1));
  }

  /** What the variant of matgen with fabs, given in its comment, leaves in norma. */
  ghost predicate LargestAbsolute(v: real, m: seq<Vec>, n: nat)
    requires IsMatrix(m, n, n)
  {
    && v >= 0.0
    && AllAtMost(m, n, v)
    && (v == 0.0 || exists i, j :: 0 <= i < n && 0 <= j < n && Abs(m[j][i]) == v)
  }

  ghost predicate HasEntryFrom(m: seq<Vec>, n: nat, bound: real)
    requires IsMatrix(m, n, n)
  {
    exists i, j :: 0 <= i < n && 0 <= j < n && m[j][i] >= bound
  }

  /** For every negative entry there is a positive one of at least its size. */
  ghost predicate NegativesMatched(m: seq<Vec>, n: nat)
    requires IsMatrix(m, n, n)
  {
    forall i, j :: 0 <= i < n && 0 <= j < n && m[j][i] < 0.0 ==> HasEntryFrom(m, n, -m[j][i])
  }

  /** The two variants agree exactly on the matrices whose negative entries are matched. */
  lemma {:induction false} NormaIsAbsoluteIff(norma: real, m: seq<Vec>, n: nat)
    requires IsMatrix(m, n, n) && IsNorma(norma, m, n)
    ensures LargestAbsolute(norma, m, n) <==> NegativesMatched(m, n)
  {
    if LargestAbsolute(norma, m, n) {
      forall i, j | 0 <= i < n && 0 <= j < n && m[j][i] < 0.0
        ensures HasEntryFrom(m, n, -m[j][i])
      {
        assert Abs(m[j][i]) <= norma;
        var t :| 0 <= t < n && norma in m[t];
        var s :| 0 <= s < n && m[t][s] == norma;
        assert m[t][s] >= -m[j][i];
      }
    }
    if NegativesMatched(m, n) {
      forall i, j | 0 <= i < n && 0 <= j < n
        ensures Abs(m[j][i]) <= norma
      {
        if m[j][i] < 0.0 {
          var s, t :| 0 <= s < n && 0 <= t < n && m[t][s] >= -m[j][i];
          assert m[t][s] <= norma;
        }
      }
      if norma != 0.0 {
        var t :| 0 <= t < n && norma in m[t];
        var s :| 0 <= s < n && m[t][s] == norma;
        assert Abs(m[t][s]) == norma;
      }
    }
  }

  /** They differ for n = 1, where the one entry is negative. */
  lemma {:induction false} NormaOfOneEntry()
    ensures Generated(1)[0][0] < 0.0 && !NegativesMatched(Generated(1), 1)
    ensures IsNorma(0.0, Generated(1), 1) && !LargestAbsolute(0.0, Generated(1), 1)
  {
    FirstState();
    assert Generator(1) == 3125 * Generator(0) % 65536 == 11857;
    assert Generated(1)[0][0] == Entry(11857);
    assert IsNorma(0.0, Generated(1), 1);
    NormaIsAbsoluteIff(0.0, Generated(1), 1);
  }

  /** d states on, the state has been multiplied by c. */
  ghost predicate Leap(d: nat, c: nat) {
    forall k: nat :: Generator(k + d) == c * Generator(k) % 65536
  }

  lemma {:induction false} Reduce(c: int, x: int)
    ensures c * (x % 65536) % 65536 == c * x % 65536
  {
    var q := x / 65536;
    assert x == 65536 * q + x % 65536;
    assert c * x == c * (x % 65536) + 65536 * (c * q);
  }

  lemma {:induction false} ReduceTwice(c: nat, f: nat, s: nat)
    ensures f * (c * s % 65536) % 65536 == (f * c % 65536) * s % 65536
  {
    Reduce(f, c * s);
    assert f * (c * s) == s * (f * c);
    Reduce(s, f * c);
    assert s * (f * c % 65536) == (f * c % 65536) * s;
  }

  lemma {:induction false} LeapJoin(d: nat, c: nat, e: nat, f: nat, g: nat)
    requires Leap(d, c) && Leap(e, f) && g == f * c % 65536
    ensures Leap(d + e, g)
  {
    hide Generator;
    forall k: nat
      ensures Generator(k + (d + e)) == g * Generator(k) % 65536
    {
      ReduceTwice(c, f, Generator(k));
      assert Generator((k + d) + e) == f * Generator(k + d) % 65536;
      assert k + d + e == k + (d + e);
    }
  }

  lemma {:induction false} LeapOne()
    ensures Leap(1, 3125)
  {
  }

  lemma {:induction false} LeapTwice(d: nat, c: nat, g: nat)
    requires Leap(d, c) && g == c * c % 65536
    ensures Leap(2 * d, g)
  {
    LeapJoin(d, c, d, c, g);
    assert d + d == 2 * d;
  }

  lemma {:induction false} LeapOneMore(d: nat, c: nat, g: nat)
    requires Leap(d, c) && g == c * 3125 % 65536
    ensures Leap(d + 1, g)
  {
    LeapOne();
    LeapJoin(1, 3125, d, c, g);
    assert 1 + d == d + 1;
  }

  /** The 7013th state is the smallest there is. */
  lemma {:induction false} SmallestState()
    ensures Generator(7013) == 1
  {
    hide Leap;
    hide Generator;
    LeapOne();
    LeapTwice(1, 3125, 761);
    LeapOneMore(2, 761, 18829);
    LeapTwice(3, 18829, 47017);
    LeapTwice(6, 47017, 3473);
    LeapOneMore(12, 3473, 39685);
    LeapTwice(13, 39685, 3609);
    LeapOneMore(26, 3609, 5933);
    LeapTwice(27, 5933, 7657);
    LeapTwice(54, 7657, 40465);
    LeapOneMore(108, 40465, 34181);
    LeapTwice(109, 34181, 30489);
    LeapOneMore(218, 30489, 54317);
    LeapTwice(219, 54317, 36841);
    LeapTwice(438, 36841, 8721);
    LeapTwice(876, 8721, 34081);
    LeapOneMore(1752, 34081, 7125);
    LeapTwice(1753, 7125, 40761);
    LeapTwice(3506, 40761, 55985);
    LeapOneMore(7012, 55985, 37541);
    LeapFromStart(7013, 37541);
  }

  lemma {:induction false} LeapFromStart(d: nat, c: nat)
    requires Leap(d, c)
    ensures Generator(d) == c * 1325 % 65536
  {
    FirstState();
    assert Generator(0 + d) == c * Generator(0) % 65536;
  }

  /** Every state is 1 more than a multiple of 4, so the largest one is 65533. */
  lemma {:induction false} StateModFour(k: nat)
    ensures Generator(k) % 4 == 1
  {
    if k > 0 {
      StateModFour(k - 1);
      NextModFour(Generator(k - 1));
    }
  }

  lemma {:induction false} NextModFour(init: int)
    requires init % 4 == 1
    ensures 3125 * init % 65536 % 4 == 1
  {
    var q, x, h := 3125 * init / 65536, 3125 * init % 65536, init / 4;
    assert 3125 * init == 65536 * q + x;
    assert init == 4 * h + 1;
    assert x == 4 * (3125 * h + 781 - 16384 * q) + 1;
  }

  lemma {:induction false} EntryBelow(n: nat, i: nat, j: nat)
    requires i < n && j < n
    ensures Generated(n)[j][i] <= 32765.0 / 16384.0
  {
    hide Generator;
    var init := Generator(n * j + i + 1);
    StateModFour(n * j + i + 1);
    assert init <= 65533;
    assert Generated(n)[j][i] == Entry(init);
  }

  lemma {:induction false} SmallestEntry(n: nat) returns (i: nat, j: nat)
    requires n >= 84
    ensures i < n && j < n && Generated(n)[j][i] == -32767.0 / 16384.0
  {
    hide Generator;
    i, j := 7012 % n, 7012 / n;
    assert n * j + i == 7012;
    assert j < n by {
      if j >= n {
        LargeProduct(n, j);
      }
    }
    SmallestState();
    assert Generated(n)[j][i] == Entry(Generator(n * j + i + 1)) == Entry(1);
  }

  lemma {:induction false} LargeProduct(n: nat, j: nat)
    requires n >= 84 && j >= n
    ensures n * j >= 7056
  {
    assert n * j >= 84 * j;
  }

  /** They differ for every n from 84 on, and the benchmark runs with n = 100. */
  lemma {:induction false} NormaOfLargeMatrices(n: nat, norma: real)
    requires n >= 84 && IsNorma(norma, Generated(n), n)
    ensures !LargestAbsolute(norma, Generated(n), n)
  {
    hide Generated;
    var m := Generated(n);
    NormaIsAbsoluteIff(norma, m, n);
    var i, j := SmallestEntry(n);
    if NegativesMatched(m, n) {
      assert HasEntryFrom(m, n, -m[j][i]);
      var s, t :| 0 <= s < n && 0 <= t < n && m[t][s] >= -m[j][i];
      EntryBelow(n, s, t);
    }
  }
}
