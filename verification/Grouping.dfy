/** How a repetition of operands and operators groups: to the left, and with
    TE_POW_FROM_RIGHT to the right for exponentiations. */
module Grouping {
  import opened Names
  import opened Lexer
  import opened Grammar

  // ---------------------------------------------------------------------
  // Chains
  // ---------------------------------------------------------------------

  /** c0 op1 c1 op2 ... opm cm as the grammar derives it. */
  function OperatorChain(ops: seq<Fn>, cs: seq<Cst>): Cst
    requires |cs| == |ops| + 1
  {
    var n := |ops|;
    if n == 0 then cs[0] else CBinary(ops[n - 1], OperatorChain(ops[..n - 1], cs[..n]), cs[n])
  }

  lemma {:induction false} ChainStep(ops: seq<Fn>, cs: seq<Cst>, op: Fn, c: Cst)
    requires |cs| == |ops| + 1
    ensures OperatorChain(ops + [op], cs + [c]) == CBinary(op, OperatorChain(ops, cs), c)
  {
    assert (ops + [op])[..|ops|] == ops && (cs + [c])[..|cs|] == cs;
  }

  /** The operands and operators in reading order. */
  function Interleaved(ops: seq<Fn>, cs: seq<Cst>): seq<Token>
    requires |cs| == |ops| + 1
  {
    if ops == [] then Yield(cs[0]) else Yield(cs[0]) + [OpToken(ops[0])] + Interleaved(ops[1..], cs[1..])
  }

  lemma {:induction false} InterleavedStep(ops: seq<Fn>, cs: seq<Cst>, op: Fn, c: Cst)
    requires |cs| == |ops| + 1
    ensures Interleaved(ops + [op], cs + [c]) == Interleaved(ops, cs) + [OpToken(op)] + Yield(c)
    decreases |ops|
  {
    if ops == [] {
      assert (ops + [op])[1..] == [] && (cs + [c])[1..] == [c];
    } else {
      InterleavedStep(ops[1..], cs[1..], op, c);
      assert (ops + [op])[1..] == ops[1..] + [op] && (cs + [c])[1..] == cs[1..] + [c];
    }
  }

  /** The operands of a repetition, all of them of a lower level, and its operators. */
  ghost predicate IsChain(c: Cst, ops: seq<Fn>, cs: seq<Cst>) {
    && |cs| == |ops| + 1 && c == OperatorChain(ops, cs)
    && (forall i :: 0 <= i < |ops| ==> OpLevel(ops[i]) == Level(c))
    && (forall i :: 0 <= i < |cs| ==> Derivation(cs[i]) && Level(cs[i]) < Level(c))
    && Yield(c) == Interleaved(ops, cs)
  }

  lemma {:induction false} ChainExtended(c: Cst, ops: seq<Fn>, cs: seq<Cst>)
    requires c.CBinary? && Derivation(c) && Level(c.left) == Level(c) && IsChain(c.left, ops, cs)
    ensures IsChain(c, ops + [c.op], cs + [c.right])
  {
    ChainStep(ops, cs, c.op, c.right);
    InterleavedStep(ops, cs, c.op, c.right);
  }

  /** Every derivation above the level of a power is such a repetition. */
  lemma {:induction false} Unchain(c: Cst) returns (ops: seq<Fn>, cs: seq<Cst>)
    requires Derivation(c) && Level(c) >= 2
    ensures ops != [] && IsChain(c, ops, cs)
    decreases c
  {
    if Level(c.left) == Level(c) {
      ops, cs := Unchain(c.left);
      ChainExtended(c, ops, cs);
      ops, cs := ops + [c.op], cs + [c.right];
    } else {
      ops, cs := [c.op], [c.left, c.right];
      assert ops[1..] == [] && cs[1..] == [c.right] && cs[..1] == [c.left] && ops[..0] == [];
    }
  }

  // ---------------------------------------------------------------------
  // To the left
  // ---------------------------------------------------------------------

  /** ((t0 op1 t1) op2 t2) ... opm tm, worked off from the front. */
  function LeftFold(ops: seq<Fn>, ts: seq<Tree>): Tree
    requires |ts| == |ops| + 1
    decreases |ops|
  {
    if ops == [] then ts[0] else LeftFold(ops[1..], [Binary(ops[0], ts[0], ts[1])] + ts[2..])
  }

  lemma {:induction false} LeftFoldStep(ops: seq<Fn>, ts: seq<Tree>, op: Fn, t: Tree)
    requires |ts| == |ops| + 1
    ensures LeftFold(ops + [op], ts + [t]) == Binary(op, LeftFold(ops, ts), t)
    decreases |ops|
  {
    if ops == [] {
      assert (ops + [op])[1..] == [] && [Binary(op, ts[0], t)] + (ts + [t])[2..] == [Binary(op, ts[0], t)];
    } else {
      var first := [Binary(ops[0], ts[0], ts[1])];
      LeftFoldStep(ops[1..], first + ts[2..], op, t);
      assert (ops + [op])[1..] == ops[1..] + [op];
      assert first + (ts + [t])[2..] == first + ts[2..] + [t];
    }
  }

  /** A chain of any length and any operators stands for the left fold of its operands,
      except for exponentiations with TE_POW_FROM_RIGHT. */
  lemma {:induction false} ChainGroupsToTheLeft(ops: seq<Fn>, cs: seq<Cst>, right: bool)
    requires |cs| == |ops| + 1 && (right ==> Pow !in ops)
    ensures Denote(OperatorChain(ops, cs), right) == LeftFold(ops, DenoteAll(cs, right))
    decreases |ops|
  {
    var n := |ops|;
    if n > 0 {
      ChainGroupsToTheLeft(ops[..n - 1], cs[..n], right);
      LeftFoldStep(ops[..n - 1], DenoteAll(cs[..n], right), ops[n - 1], Denote(cs[n], right));
      assert ops == ops[..n - 1] + [ops[n - 1]];
      assert DenoteAll(cs, right) == DenoteAll(cs[..n], right) + [Denote(cs[n], right)];
    }
  }

  // ---------------------------------------------------------------------
  // Exponentiation from the right
  // ---------------------------------------------------------------------

  /** p0 ^ p1 ^ ... ^ pm */
  function PowerChain(cs: seq<Cst>): Cst
    requires |cs| >= 1
  {
    OperatorChain(Powers(|cs| - 1), cs)
  }

  function Powers(n: nat): (ops: seq<Fn>)
    ensures |ops| == n
  {
    seq(n, i => Pow)
  }

  lemma {:induction false} PowerChainStep(cs: seq<Cst>, c: Cst)
    requires |cs| >= 1
    ensures PowerChain(cs + [c]) == CBinary(Pow, PowerChain(cs), c)
  {
    var n := |cs|;
    assert Powers(n) == Powers(n - 1) + [Pow];
    ChainStep(Powers(n - 1), cs, Pow, c);
  }

  /** t0 ^ (t1 ^ (... ^ tm)) */
  function RightFold(ts: seq<Tree>): Tree
    requires |ts| >= 1
  {
    if |ts| == 1 then ts[0] else Binary(Pow, ts[0], RightFold(ts[1..]))
  }

  lemma {:induction false} RightFoldSnoc(ts: seq<Tree>, t: Tree, u: Tree)
    requires |ts| >= 0
    ensures RightFold(ts + [t, u]) == RightFold(ts + [Binary(Pow, t, u)])
    decreases |ts|
  {
    if ts == [] {
      assert RightFold([t, u]) == Binary(Pow, t, RightFold([t, u][1..]));
      assert ts + [t, u] == [t, u] && ts + [Binary(Pow, t, u)] == [Binary(Pow, t, u)];
    } else {
      RightFoldSnoc(ts[1..], t, u);
      assert (ts + [t, u])[1..] == ts[1..] + [t, u];
      assert (ts + [Binary(Pow, t, u)])[1..] == ts[1..] + [Binary(Pow, t, u)];
    }
  }

  /** A chain of powers with an exponent to come. */
  lemma {:induction false} RightPowerOfChain(cs: seq<Cst>, exponent: Tree)
    requires |cs| >= 1 && !cs[0].CBinary?
    ensures RightPower(PowerChain(cs), exponent)
         == PowerOf(Denote(cs[0], true), RightFold(DenoteAll(cs[1..], true) + [exponent]))
    decreases |cs|
  {
    var n := |cs| - 1;
    if n == 0 {
      assert DenoteAll(cs[1..], true) + [exponent] == [exponent];
    } else {
      var last := Denote(cs[n], true);
      PowerChainStep(cs[..n], cs[n]);
      assert cs == cs[..n] + [cs[n]];
      RightPowerOfChain(cs[..n], Binary(Pow, last, exponent));
      assert cs[1..][..n - 1] == cs[..n][1..];
      assert DenoteAll(cs[1..], true) == DenoteAll(cs[..n][1..], true) + [last];
      RightFoldSnoc(DenoteAll(cs[..n][1..], true), last, exponent);
      assert DenoteAll(cs[1..], true) + [exponent] == DenoteAll(cs[..n][1..], true) + [last, exponent];
    }
  }

  /** With TE_POW_FROM_RIGHT the chain p0^p1^...^pm stands for p0^(p1^(...^pm)), with a
      negation on top of p0 moved in front of it all. */
  lemma {:induction false} ChainGroupsToTheRight(cs: seq<Cst>)
    requires |cs| >= 2 && !cs[0].CBinary?
    ensures Denote(PowerChain(cs), true) == PowerOf(Denote(cs[0], true), RightFold(DenoteAll(cs[1..], true)))
    ensures !IsNegation(Denote(cs[0], true)) ==> Denote(PowerChain(cs), true) == RightFold(DenoteAll(cs, true))
  {
    var n := |cs| - 1;
    PowerChainStep(cs[..n], cs[n]);
    assert cs == cs[..n] + [cs[n]];
    RightPowerOfChain(cs[..n], Denote(cs[n], true));
    assert cs[1..][..n - 1] == cs[..n][1..];
    assert DenoteAll(cs[1..], true) == DenoteAll(cs[..n][1..], true) + [Denote(cs[n], true)];
    assert DenoteAll(cs, true)[1..] == DenoteAll(cs[1..], true);
  }

  /** The meaning of every repetition of the grammar, whatever its level: the operands in
      reading order, folded to the left, or to the right for exponentiations with
      TE_POW_FROM_RIGHT. */
  lemma {:induction false} RepetitionGroups(c: Cst, right: bool) returns (ops: seq<Fn>, cs: seq<Cst>)
    requires Derivation(c) && Level(c) >= 2
    ensures ops != [] && IsChain(c, ops, cs)
    ensures Denote(c, right) == if right && Level(c) == FACTOR
                                then PowerOf(Denote(cs[0], right), RightFold(DenoteAll(cs[1..], right)))
                                else LeftFold(ops, DenoteAll(cs, right))
  {
    hide OperatorChain;
    hide Yield;
    hide Interleaved;
    ops, cs := Unchain(c);
    if right && Level(c) == FACTOR {
      assert ops == Powers(|cs| - 1);
      ChainGroupsToTheRight(cs);
    } else {
      ChainGroupsToTheLeft(ops, cs, right);
    }
  }

  // ---------------------------------------------------------------------
  // A negative base
  // ---------------------------------------------------------------------

  /** An odd number of minus signs stands in front of c, when parentheses around it are
      dropped and a power is looked at through its leftmost operand; or c calls the
      negation itself under a name of the user's table. */
  predicate NegativeFront(c: Cst)
    decreases c
  {
    match c
    case CParen(inner) => NegativeFront(inner)
    case CSigned(signs, operand) => OddMinuses(signs) || NegativeFront(operand)
    case CBinary(op, left, _) => op == Pow && NegativeFront(left)
    case CCall(kind, fn, _, _, args) => kind == UNARY && fn == Negate && |args| == 1
    case _ => false
  }

  /** Such an expression, and no other, stands for a negation. */
  lemma {:induction false} NegativeFrontNegates(c: Cst)
    ensures IsNegation(Denote(c, true)) <==> NegativeFront(c)
    decreases c, 1
  {
    match c
    case CParen(inner) => NegativeFrontNegates(inner);
    case CSigned(_, operand) => NegativeFrontNegates(operand);
    case CBinary(op, left, right) =>
      if op == Pow {
        NegativeFrontPower(left, Denote(right, true));
      }
    case _ =>
  }

  lemma {:induction false} NegativeFrontPower(c: Cst, exponent: Tree)
    ensures IsNegation(RightPower(c, exponent)) <==> NegativeFront(c)
    decreases c, 2
  {
    if c.CBinary? && c.op == Pow {
      NegativeFrontPower(c.left, Binary(Pow, Denote(c.right, true), exponent));
    } else {
      NegativeFrontNegates(c);
    }
  }

  /** With TE_POW_FROM_RIGHT a base in parentheses is raised as a whole exactly when no odd
      number of minus signs stands in front inside. */
  lemma {:induction false} ParenthesisedBase(inner: Cst, exponent: Cst)
    ensures Denote(CBinary(Pow, CParen(inner), exponent), true)
            == Binary(Pow, Denote(inner, true), Denote(exponent, true))
       <==> !NegativeFront(inner)
  {
    NegativeFrontNegates(inner);
    assert RightPower(CParen(inner), Denote(exponent, true)) == PowerOf(Denote(inner, true), Denote(exponent, true));
  }

  /** -a and (-a)^b */
  function Minus(a: Addr): Cst {
    CSigned([Sub], CVariable(a))
  }

  function MinusPower(a: Addr, b: Addr): Cst {
    CBinary(Pow, CParen(Minus(a)), CVariable(b))
  }

  lemma {:induction false} MinusPowerTokens(a: Addr, b: Addr)
    ensures Derivation(MinusPower(a, b))
    ensures Yield(MinusPower(a, b)) == [TOpen, TInfix(Sub), TVariable(a), TClose, TInfix(Pow), TVariable(b)]
  {
    assert Level(CVariable(a)) == 0 && Derivation(CVariable(a));
    assert Derivation(Minus(a));
    assert Derivation(CParen(Minus(a)));
    assert SignTokens([Sub]) == [TInfix(Sub)];
    assert Yield(Minus(a)) == [TInfix(Sub), TVariable(a)];
    assert Yield(CParen(Minus(a))) == [TOpen, TInfix(Sub), TVariable(a), TClose];
  }

  /** (-a)^b is one the code gets wrong with TE_POW_FROM_RIGHT: it stands for -(a^b), like
      -a^b. */
  lemma {:induction false} NegativeBaseFails(a: Addr, b: Addr)
    ensures Derivation(MinusPower(a, b))
    ensures Yield(MinusPower(a, b)) == [TOpen, TInfix(Sub), TVariable(a), TClose, TInfix(Pow), TVariable(b)]
    ensures Denote(MinusPower(a, b), false) == Binary(Pow, Negation(Variable(a)), Variable(b))
    ensures Denote(MinusPower(a, b), true) == Negation(Binary(Pow, Variable(a), Variable(b)))
    ensures Denote(MinusPower(a, b), true) == Denote(CBinary(Pow, Minus(a), CVariable(b)), true)
  {
    hide Derivation;
    hide Yield;
    MinusPowerTokens(a, b);
    assert [Sub][..0] == [] && OddMinuses([Sub]);
    assert Denote(Minus(a), true) == Denote(Minus(a), false) == Negation(Variable(a));
    assert Denote(CParen(Minus(a)), false) == Denote(Minus(a), false);
    assert RightPower(CParen(Minus(a)), Variable(b)) == PowerOf(Denote(Minus(a), true), Variable(b));
  }
}
