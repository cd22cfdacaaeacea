/** TinyExpr's grammar as derivations, with their token yield and the expression tree each
    one stands for.

    There are six symbols, told apart by level. A list (5) is a chain of expressions
    joined by commas, an expression (4) a chain of terms joined by the additive operators,
    a term (3) a chain of factors joined by the multiplicative ones, a factor (2) a chain
    of powers joined by `^`. A power (1) is a base behind any number of signs. The cases of
    a base (0) are the first four constructors of Cst.
 */
module Grammar {
  import opened Names
  import opened Lexer

  /** A derivation. `pairs` counts the pairs of parentheses that follow the name of a
      called function. */
  datatype Cst =
    | CNumber(value: Double)
    | CVariable(bound: Addr)
    | CCall(kind: Kind, fn: Fn, context: Addr, pairs: nat, args: seq<Cst>)
    | CParen(inner: Cst)
    | CSigned(signs: seq<Fn>, operand: Cst)
    | CBinary(op: Fn, left: Cst, right: Cst)

  const LIST: nat := 5
  const EXPR: nat := 4
  const FACTOR: nat := 2
  const POWER: nat := 1

  /** The level at which a token continues a repetition, 0 for none. */
  function InfixLevel(t: Token): nat {
    match t
    case TInfix(Pow) => 2
    case TInfix(Mul) => 3
    case TInfix(Divide) => 3
    case TInfix(Fmod) => 3
    case TInfix(Add) => 4
    case TInfix(Sub) => 4
    case TSep => 5
    case _ => 0
  }

  function InfixOp(t: Token): Fn
    requires InfixLevel(t) > 0
  {
    if t.TSep? then Comma else t.op
  }

  function OpToken(op: Fn): Token {
    if op.Comma? then TSep else TInfix(op)
  }

  function OpLevel(op: Fn): nat {
    InfixLevel(OpToken(op))
  }

  predicate IsSign(t: Token) {
    t == TInfix(Add) || t == TInfix(Sub)
  }

  function Level(c: Cst): nat {
    match c
    case CBinary(op, _, _) => OpLevel(op)
    case CSigned(_, _) => POWER
    case _ => 0
  }

  /** c follows the grammar of the code: a name without arguments takes one pair of
      parentheses at most, a function of one argument takes a power, any other takes its
      arguments in parentheses. */
  ghost predicate Derivation(c: Cst)
    decreases c
  {
    match c
    case CNumber(_) => true
    case CVariable(_) => true
    case CCall(kind, _, _, pairs, args) =>
      && kind.Legal() && |args| == kind.arity
      && (kind.arity == 0 ==> pairs <= 1)
      && (kind.arity == 1 ==> pairs == 0 && Level(args[0]) <= POWER)
      && (kind.arity >= 2 ==> pairs == 1)
      && (forall i :: 0 <= i < |args| ==> Derivation(args[i]) && Level(args[i]) <= EXPR)
    case CParen(inner) => Derivation(inner)
    case CSigned(signs, operand) =>
      && signs != [] && (forall i :: 0 <= i < |signs| ==> IsSign(TInfix(signs[i])))
      && Derivation(operand) && Level(operand) == 0
    case CBinary(op, left, right) =>
      && OpLevel(op) >= 2
      && Derivation(left) && Level(left) <= OpLevel(op)
      && Derivation(right) && Level(right) < OpLevel(op)
  }

  function SignTokens(signs: seq<Fn>): seq<Token> {
    seq(|signs|, i requires 0 <= i < |signs| => TInfix(signs[i]))
  }

  /** The tokens of a derivation. */
  function Yield(c: Cst): (ts: seq<Token>)
    decreases c, 1
  {
    match c
    case CNumber(v) => [TNumber(v)]
    case CVariable(b) => [TVariable(b)]
    case CCall(kind, fn, context, pairs, args) => [TCall(kind, fn, context)] + CallRest(pairs, args)
    case CParen(inner) => [TOpen] + Yield(inner) + [TClose]
    case CSigned(signs, operand) => SignTokens(signs) + Yield(operand)
    case CBinary(op, left, right) => Yield(left) + [OpToken(op)] + Yield(right)
  }

  /** The tokens of a call after its name. */
  function CallRest(pairs: nat, args: seq<Cst>): seq<Token>
    decreases args, 1
  {
    if args == [] then EmptyPairs(pairs)
    else if pairs > 0 then [TOpen] + YieldArgs(args)
    else Yield(args[0])
  }

  function EmptyPairs(pairs: nat): seq<Token> {
    if pairs == 0 then [] else [TOpen, TClose] + EmptyPairs(pairs - 1)
  }

  /** Arguments separated by commas and closed by a parenthesis. */
  function YieldArgs(args: seq<Cst>): seq<Token>
    decreases args, 0
  {
    if args == [] then []
    else if |args| == 1 then Yield(args[0]) + [TClose]
    else Yield(args[0]) + [TSep] + YieldArgs(args[1..])
  }

  /** Token sequences with a comma between any two of them. */
  function CommaSeparated(parts: seq<seq<Token>>): seq<Token> {
    if parts == [] then []
    else if |parts| == 1 then parts[0]
    else CommaSeparated(parts[..|parts| - 1]) + [TSep] + parts[|parts| - 1]
  }

  lemma {:induction false} CommaSeparatedFirst(first: seq<Token>, rest: seq<seq<Token>>)
    requires rest != []
    ensures CommaSeparated([first] + rest) == first + [TSep] + CommaSeparated(rest)
    decreases |rest|
  {
    var parts, n := [first] + rest, |rest|;
    if n == 1 {
      assert parts[..1] == [first];
    } else {
      CommaSeparatedFirst(first, rest[..n - 1]);
      assert parts[..n] == [first] + rest[..n - 1];
    }
  }

  function Yields(cs: seq<Cst>): (parts: seq<seq<Token>>)
    ensures |parts| == |cs|
  {
    seq(|cs|, i requires 0 <= i < |cs| => Yield(cs[i]))
  }

  /** The tokens of a call with its arguments in parentheses. */
  lemma {:induction false} CallTokens(args: seq<Cst>)
    requires args != []
    ensures CallRest(1, args) == [TOpen] + CommaSeparated(Yields(args)) + [TClose]
  {
    ArgsSeparated(args);
  }

  lemma {:induction false} ArgsSeparated(args: seq<Cst>)
    requires args != []
    ensures YieldArgs(args) == CommaSeparated(Yields(args)) + [TClose]
    decreases |args|
  {
    if |args| > 1 {
      ArgsSeparated(args[1..]);
      CommaSeparatedFirst(Yield(args[0]), Yields(args[1..]));
      assert Yields(args) == [Yield(args[0])] + Yields(args[1..]);
    }
  }

  lemma {:induction false} YieldNonEmpty(c: Cst)
    requires Derivation(c)
    ensures Yield(c) != []
    ensures Level(c) == 0 ==> !IsSign(Yield(c)[0])
    decreases c
  {
    match c
    case CBinary(op, left, right) => YieldNonEmpty(left);
    case CSigned(signs, operand) => YieldNonEmpty(operand);
    case _ =>
  }

  // ---------------------------------------------------------------------
  // Expression trees
  // ---------------------------------------------------------------------

  /** An expression tree. `Missing` stands for a null parameter and for the NaN
      placeholder that base leaves behind on an error. */
  datatype Tree =
    | Missing
    | Constant(value: Double)
    | Variable(bound: Addr)
    | Call(kind: Kind, fn: Fn, context: Addr, args: seq<Tree>)

  /** No part is missing and every call has as many arguments as its arity says. */
  ghost predicate WellFormed(t: Tree)
    decreases t
  {
    match t
    case Missing => false
    case Constant(_) => true
    case Variable(_) => true
    case Call(kind, _, _, args) =>
      kind.Legal() && |args| == kind.arity && forall i :: 0 <= i < |args| ==> WellFormed(args[i])
  }

  const UNARY: Kind := Kind(false, 1, true)
  const BINARY: Kind := Kind(false, 2, true)

  function Negation(t: Tree): Tree {
    Call(UNARY, Negate, 0, [t])
  }

  function Binary(op: Fn, left: Tree, right: Tree): Tree {
    Call(BINARY, op, 0, [left, right])
  }

  /** Whether an odd number of minus signs stands in front. */
  predicate OddMinuses(signs: seq<Fn>) {
    if signs == [] then false
    else if signs[|signs| - 1] == Sub then !OddMinuses(signs[..|signs| - 1])
    else OddMinuses(signs[..|signs| - 1])
  }

  /** It is the parity of the number of minus signs. */
  lemma {:induction false} ParityOfMinuses(signs: seq<Fn>)
    ensures OddMinuses(signs) <==> multiset(signs)[Sub] % 2 == 1
  {
    if signs != [] {
      var n := |signs| - 1;
      ParityOfMinuses(signs[..n]);
      assert signs == signs[..n] + [signs[n]];
    }
  }

  /** A context pointer is kept only for closures. */
  function Context(kind: Kind, context: Addr): Addr {
    if kind.closure then context else 0
  }

  predicate IsNegation(t: Tree) {
    t.Call? && t.kind == UNARY && t.fn == Negate && |t.args| == 1
  }

  /** base ^ exponent with TE_POW_FROM_RIGHT: a negation on top of the base is moved in
      front of the power. */
  function PowerOf(base: Tree, exponent: Tree): Tree {
    if IsNegation(base) then Negation(Binary(Pow, base.args[0], exponent)) else Binary(Pow, base, exponent)
  }

  /** The tree a derivation stands for. By default every operator groups to the left; with
      TE_POW_FROM_RIGHT the exponentiations group to the right. */
  function Denote(c: Cst, right: bool): Tree
    decreases c, 1
  {
    match c
    case CNumber(v) => Constant(v)
    case CVariable(b) => Variable(b)
    case CCall(kind, fn, context, _, args) => Call(kind, fn, Context(kind, context), DenoteAll(args, right))
    case CParen(inner) => Denote(inner, right)
    case CSigned(signs, operand) =>
      if OddMinuses(signs) then Negation(Denote(operand, right)) else Denote(operand, right)
    case CBinary(op, l, r) =>
      if right && op == Pow then RightPower(l, Denote(r, right)) else Binary(op, Denote(l, right), Denote(r, right))
  }

  /** c ^ exponent, where c may be an exponentiation itself. */
  function RightPower(c: Cst, exponent: Tree): Tree
    decreases c, 2
  {
    if c.CBinary? && c.op == Pow then RightPower(c.left, Binary(Pow, Denote(c.right, true), exponent))
    else PowerOf(Denote(c, true), exponent)
  }

  function DenoteAll(cs: seq<Cst>, right: bool): (ts: seq<Tree>)
    ensures |ts| == |cs|
    ensures forall i :: 0 <= i < |cs| ==> ts[i] == Denote(cs[i], right)
    decreases cs, 0
  {
    if cs == [] then [] else DenoteAll(cs[..|cs| - 1], right) + [Denote(cs[|cs| - 1], right)]
  }

  /** A derivation never stands for a tree with a missing part. */
  lemma {:induction false} DenotesWellFormed(c: Cst, right: bool)
    requires Derivation(c)
    ensures WellFormed(Denote(c, right))
    decreases c, 1
  {
    match c
    case CNumber(_) =>
    case CVariable(_) =>
    case CParen(inner) => DenotesWellFormed(inner, right);
    case CSigned(_, operand) => DenotesWellFormed(operand, right);
    case CBinary(op, l, r) =>
      DenotesWellFormed(r, right);
      if right && op == Pow {
        RightPowerWellFormed(l, Denote(r, right));
      } else {
        DenotesWellFormed(l, right);
      }
    case CCall(_, _, _, _, args) =>
      forall i | 0 <= i < |args|
        ensures WellFormed(Denote(args[i], right))
      {
        DenotesWellFormed(args[i], right);
      }
  }

  lemma {:induction false} RightPowerWellFormed(c: Cst, exponent: Tree)
    requires Derivation(c) && WellFormed(exponent)
    ensures WellFormed(RightPower(c, exponent))
    decreases c, 2
  {
    if c.CBinary? && c.op == Pow {
      DenotesWellFormed(c.right, true);
      RightPowerWellFormed(c.left, Binary(Pow, Denote(c.right, true), exponent));
    } else {
      DenotesWellFormed(c, true);
    }
  }
}
