/** The precedence of the operators, by classes. */
module Precedence {
  import opened Names
  import opened Lexer
  import opened Grammar
  import opened Grouping
  import opened ParserSpec
  import opened ParserProofs

  /** The class of an operator: 1 binds tightest, 4 loosest, 0 is no operator. */
  function Looseness(op: Fn): nat {
    if op in {Pow} then 1
    else if op in {Mul, Divide, Fmod} then 2
    else if op in {Add, Sub} then 3
    else if op in {Comma} then 4
    else 0
  }

  predicate AreOperators(ops: seq<Fn>) {
    forall i :: 0 <= i < |ops| ==> Looseness(ops[i]) > 0
  }

  // ---------------------------------------------------------------------
  // The grammar by classes
  // ---------------------------------------------------------------------

  /** Without parentheses no operator stands under a tighter one, and on the right of an
      operator none of its own class; signs stand before a base, the operand of a function
      of one argument is a power, and a comma between arguments needs parentheses. */
  ghost predicate WellGrouped(c: Cst)
    decreases c
  {
    match c
    case CNumber(_) => true
    case CVariable(_) => true
    case CParen(inner) => WellGrouped(inner)
    case CSigned(signs, operand) =>
      && signs != [] && (forall i :: 0 <= i < |signs| ==> signs[i] in {Add, Sub})
      && WellGrouped(operand) && !operand.CSigned? && !operand.CBinary?
    case CCall(kind, _, _, pairs, args) =>
      && kind.arity <= 7 && |args| == kind.arity
      && (|args| == 0 ==> pairs <= 1)
      && (|args| == 1 ==> pairs == 0 && !args[0].CBinary?)
      && (|args| >= 2 ==> pairs == 1)
      && (forall i :: 0 <= i < |args| ==> WellGrouped(args[i]) && !(args[i].CBinary? && args[i].op == Comma))
    case CBinary(op, left, right) =>
      && Looseness(op) > 0 && WellGrouped(left) && WellGrouped(right)
      && (left.CBinary? ==> Looseness(left.op) <= Looseness(op))
      && (right.CBinary? ==> Looseness(right.op) < Looseness(op))
  }

  lemma {:induction false} LevelOfOperator(op: Fn)
    ensures OpLevel(op) == if Looseness(op) == 0 then 0 else Looseness(op) + 1
  {
  }

  /** The grammar of the parser is the grammar by classes. */
  lemma {:induction false} GrammarByClasses(c: Cst)
    ensures Derivation(c) <==> WellGrouped(c)
    decreases c
  {
    match c
    case CParen(inner) => GrammarByClasses(inner);
    case CSigned(signs, operand) =>
      GrammarByClasses(operand);
      forall i | 0 <= i < |signs|
        ensures IsSign(TInfix(signs[i])) <==> signs[i] in {Add, Sub}
      {
      }
      LevelByShape(operand);
    case CCall(_, _, _, _, args) =>
      forall i | 0 <= i < |args|
        ensures Derivation(args[i]) <==> WellGrouped(args[i])
        ensures Derivation(args[i]) ==> (Level(args[i]) <= EXPR <==> !(args[i].CBinary? && args[i].op == Comma))
        ensures Derivation(args[i]) ==> (Level(args[i]) <= POWER <==> !args[i].CBinary?)
      {
        GrammarByClasses(args[i]);
        LevelByShape(args[i]);
      }
    case CBinary(op, left, right) =>
      GrammarByClasses(left);
      GrammarByClasses(right);
      LevelByShape(left);
      LevelByShape(right);
      LevelOfOperator(op);
    case _ =>
  }

  lemma {:induction false} LevelByShape(c: Cst)
    ensures c.CBinary? ==> Level(c) == if Looseness(c.op) == 0 then 0 else Looseness(c.op) + 1
    ensures c.CSigned? ==> Level(c) == 1
    ensures !c.CBinary? && !c.CSigned? ==> Level(c) == 0
    ensures c.CBinary? && Derivation(c) ==> Looseness(c.op) > 0
  {
    if c.CBinary? {
      LevelOfOperator(c.op);
    }
  }

  // ---------------------------------------------------------------------
  // What a sequence of operands and operators means
  // ---------------------------------------------------------------------

  /** The last of the loosest operators. */
  function LastLoosest(ops: seq<Fn>): (k: nat)
    requires ops != []
    ensures k < |ops|
    ensures forall i :: 0 <= i <= k ==> Looseness(ops[i]) <= Looseness(ops[k])
    ensures forall i :: k < i < |ops| ==> Looseness(ops[i]) < Looseness(ops[k])
  {
    var n := |ops| - 1;
    if n == 0 then 0
    else
      var k := LastLoosest(ops[..n]);
      if Looseness(ops[n]) < Looseness(ops[k]) then k else n
  }

  predicate OnlyPowers(ops: seq<Fn>) {
    forall i :: 0 <= i < |ops| ==> ops[i] == Pow
  }

  /** The last of the loosest operators is applied last. With TE_POW_FROM_RIGHT, when only
      exponentiations are left they group to the right. */
  function ByPrecedence(ops: seq<Fn>, ts: seq<Tree>, right: bool): Tree
    requires |ts| == |ops| + 1
    decreases |ops|
  {
    if ops == [] then ts[0]
    else if right && OnlyPowers(ops) then PowerOf(ts[0], RightFold(ts[1..]))
    else
      var k := LastLoosest(ops);
      Binary(ops[k], ByPrecedence(ops[..k], ts[..k + 1], right), ByPrecedence(ops[k + 1..], ts[k + 1..], right))
  }

  /** Two operators: the second one is applied first exactly when it binds tighter. */
  lemma {:induction false} TwoOperators(op: Fn, op': Fn, x: Tree, y: Tree, z: Tree)
    ensures ByPrecedence([op, op'], [x, y, z], false)
         == if Looseness(op') < Looseness(op) then Binary(op, x, Binary(op', y, z)) else Binary(op', Binary(op, x, y), z)
  {
    var ops, ts := [op, op'], [x, y, z];
    assert ops[..1] == [op] && ops[1..] == [op'] && ops[..0] == [] && ops[2..] == [];
    assert ts[..2] == [x, y] && ts[2..] == [z] && ts[..1] == [x] && ts[1..] == [y, z];
    OneOperator(op, x, y);
    OneOperator(op', y, z);
  }

  lemma {:induction false} OneOperator(op: Fn, x: Tree, y: Tree)
    ensures ByPrecedence([op], [x, y], false) == Binary(op, x, y)
  {
    assert [op][..0] == [] && [op][1..] == [] && [x, y][..1] == [x] && [x, y][1..] == [y];
  }

  /** The derivation of a sequence of operands and operators. */
  function Derived(ops: seq<Fn>, cs: seq<Cst>): Cst
    requires |cs| == |ops| + 1
    decreases |ops|
  {
    if ops == [] then cs[0]
    else
      var k := LastLoosest(ops);
      CBinary(ops[k], Derived(ops[..k], cs[..k + 1]), Derived(ops[k + 1..], cs[k + 1..]))
  }

  ghost predicate AreOperands(cs: seq<Cst>) {
    forall i :: 0 <= i < |cs| ==> Derivation(cs[i]) && !cs[i].CBinary?
  }

  lemma {:induction false} JoinGrouped(op: Fn, left: Cst, right: Cst)
    requires Looseness(op) > 0 && Derivation(left) && Derivation(right)
    requires left.CBinary? ==> Looseness(left.op) <= Looseness(op)
    requires right.CBinary? ==> Looseness(right.op) < Looseness(op)
    ensures Derivation(CBinary(op, left, right))
  {
    hide Derivation;
    GrammarByClasses(left);
    GrammarByClasses(right);
    GrammarByClasses(CBinary(op, left, right));
  }

  lemma {:induction false} DerivedFollows(ops: seq<Fn>, cs: seq<Cst>)
    requires |cs| == |ops| + 1 && AreOperators(ops) && AreOperands(cs)
    ensures Derivation(Derived(ops, cs))
    ensures ops == [] ==> !Derived(ops, cs).CBinary?
    ensures ops != [] ==> Derived(ops, cs).CBinary? && Derived(ops, cs).op == ops[LastLoosest(ops)]
    decreases |ops|
  {
    hide Derivation;
    hide Looseness;
    hide LastLoosest;
    if ops != [] {
      var k := LastLoosest(ops);
      DerivedFollows(ops[..k], cs[..k + 1]);
      DerivedFollows(ops[k + 1..], cs[k + 1..]);
      JoinGrouped(ops[k], Derived(ops[..k], cs[..k + 1]), Derived(ops[k + 1..], cs[k + 1..]));
    }
  }

  lemma {:induction false} InterleavedAt(ops: seq<Fn>, cs: seq<Cst>, k: nat)
    requires |cs| == |ops| + 1 && k < |ops|
    ensures Interleaved(ops, cs)
         == Interleaved(ops[..k], cs[..k + 1]) + [OpToken(ops[k])] + Interleaved(ops[k + 1..], cs[k + 1..])
    decreases k
  {
    if k == 0 {
      assert ops[..0] == [] && cs[..1] == [cs[0]];
    } else {
      InterleavedAt(ops[1..], cs[1..], k - 1);
      assert ops[1..][..k - 1] == ops[..k][1..] && cs[1..][..k] == cs[..k + 1][1..];
      assert ops[1..][k..] == ops[k + 1..] && cs[1..][k..] == cs[k + 1..];
    }
  }

  lemma {:induction false} DerivedYields(ops: seq<Fn>, cs: seq<Cst>)
    requires |cs| == |ops| + 1
    ensures Yield(Derived(ops, cs)) == Interleaved(ops, cs)
    decreases |ops|
  {
    hide LastLoosest;
    hide OpToken;
    hide CallRest;
    if ops != [] {
      hide Interleaved;
      var k := LastLoosest(ops);
      DerivedYields(ops[..k], cs[..k + 1]);
      DerivedYields(ops[k + 1..], cs[k + 1..]);
      InterleavedAt(ops, cs, k);
    }
  }

  /** A chain of exponentiations only. */
  lemma {:induction false} DerivedPowers(ops: seq<Fn>, cs: seq<Cst>)
    requires |cs| == |ops| + 1 && OnlyPowers(ops)
    ensures Derived(ops, cs) == PowerChain(cs)
    decreases |ops|
  {
    var n := |ops|;
    if n > 0 {
      assert LastLoosest(ops) == n - 1;
      assert ops[n..] == [] && cs[n..] == [cs[n]];
      DerivedPowers(ops[..n - 1], cs[..n]);
      PowerChainStep(cs[..n], cs[n]);
      assert cs == cs[..n] + [cs[n]];
    }
  }

  /** The two halves around the last of the loosest operators. */
  lemma {:induction false} Halves(ops: seq<Fn>, cs: seq<Cst>, k: nat, right: bool)
    requires |cs| == |ops| + 1 && k < |ops|
    ensures DenoteAll(cs[..k + 1], right) == DenoteAll(cs, right)[..k + 1]
    ensures DenoteAll(cs[k + 1..], right) == DenoteAll(cs, right)[k + 1..]
  {
  }

  lemma {:induction false} DenoteLoosest(ops: seq<Fn>, left: Cst, r: Cst, right: bool)
    requires ops != [] && AreOperators(ops) && (right ==> !OnlyPowers(ops))
    ensures var op := ops[LastLoosest(ops)];
            Denote(CBinary(op, left, r), right) == Binary(op, Denote(left, right), Denote(r, right))
  {
    if right {
      var i :| 0 <= i < |ops| && ops[i] != Pow;
      var k := LastLoosest(ops);
      assert Looseness(ops[i]) <= Looseness(ops[k]);
      assert ops[k] != Pow;
    }
  }

  lemma {:induction false} PrecedenceSplits(ops: seq<Fn>, ts: seq<Tree>, right: bool)
    requires |ts| == |ops| + 1 && ops != [] && (right ==> !OnlyPowers(ops))
    ensures var k := LastLoosest(ops);
            ByPrecedence(ops, ts, right)
            == Binary(ops[k], ByPrecedence(ops[..k], ts[..k + 1], right), ByPrecedence(ops[k + 1..], ts[k + 1..], right))
  {
  }

  lemma {:induction false} DerivedSplits(ops: seq<Fn>, cs: seq<Cst>)
    requires |cs| == |ops| + 1 && ops != []
    ensures var k := LastLoosest(ops);
            Derived(ops, cs) == CBinary(ops[k], Derived(ops[..k], cs[..k + 1]), Derived(ops[k + 1..], cs[k + 1..]))
  {
  }

  lemma {:induction false} DerivedDenotes(ops: seq<Fn>, cs: seq<Cst>, right: bool)
    requires |cs| == |ops| + 1 && AreOperators(ops) && AreOperands(cs)
    ensures Denote(Derived(ops, cs), right) == ByPrecedence(ops, DenoteAll(cs, right), right)
    decreases |ops|, 1
  {
    hide Derivation;
    hide Looseness;
    hide LastLoosest;
    if ops == [] {
    } else if right && OnlyPowers(ops) {
      DerivedDenotesPowers(ops, cs);
    } else {
      DerivedDenotesSplit(ops, cs, right);
    }
  }

  lemma {:induction false} DerivedDenotesSplit(ops: seq<Fn>, cs: seq<Cst>, right: bool)
    requires |cs| == |ops| + 1 && AreOperators(ops) && AreOperands(cs) && ops != [] && (right ==> !OnlyPowers(ops))
    ensures Denote(Derived(ops, cs), right) == ByPrecedence(ops, DenoteAll(cs, right), right)
    decreases |ops|, 0
  {
    hide Derivation;
    hide Denote;
    hide DenoteAll;
    hide Looseness;
    hide LastLoosest;
    hide ByPrecedence;
    hide Derived;
    var k := LastLoosest(ops);
    PrecedenceSplits(ops, DenoteAll(cs, right), right);
    DerivedSplits(ops, cs);
    DerivedDenotes(ops[..k], cs[..k + 1], right);
    DerivedDenotes(ops[k + 1..], cs[k + 1..], right);
    Halves(ops, cs, k, right);
    DenoteLoosest(ops, Derived(ops[..k], cs[..k + 1]), Derived(ops[k + 1..], cs[k + 1..]), right);
  }

  lemma {:induction false} DerivedDenotesPowers(ops: seq<Fn>, cs: seq<Cst>)
    requires |cs| == |ops| + 1 && ops != [] && OnlyPowers(ops) && AreOperands(cs)
    ensures Denote(Derived(ops, cs), true) == ByPrecedence(ops, DenoteAll(cs, true), true)
  {
    hide Derivation;
    hide Denote;
    hide Derived;
    hide PowerChain;
    DerivedPowers(ops, cs);
    ChainGroupsToTheRight(cs);
    Halves(ops, cs, 0, true);
  }

  /** An input that reads operand, operator, operand, ..., operand is accepted, and its tree
      is grouped by precedence. An operand is anything but a binary operation without
      parentheses around it. */
  lemma {:induction false} ParsedByPrecedence(src: Source, ops: seq<Fn>, cs: seq<Cst>, end: Cursor)
    requires src.Valid() && |cs| == |ops| + 1 && AreOperators(ops) && AreOperands(cs)
    requires Reads(src, Start(src), Interleaved(ops, cs), end) && end.tok == TEnd
    ensures Accepted(src).Parsed?
    ensures Denote(Accepted(src).cst, src.powFromRight)
         == ByPrecedence(ops, DenoteAll(cs, src.powFromRight), src.powFromRight)
  {
    hide Reads;
    hide TokenFrom;
    hide Accepted;
    var c := Derived(ops, cs);
    DerivedFollows(ops, cs);
    DerivedYields(ops, cs);
    DerivedDenotes(ops, cs, src.powFromRight);
    AcceptsExactlyTheGrammar(src, c);
  }
}
