/** The grammar as the comments of tinyexpr.c document it, compared with what the code
    accepts. The two differ in one place: after the name of a function without arguments
    the comment of base allows any number of empty pairs of parentheses. */
module DocumentedGrammar {
  import opened Names
  import opened Lexer
  import opened Grammar
  import opened ParserSpec
  import opened ParserProofs

  /** c follows the documented grammar. */
  ghost predicate Documented(c: Cst)
    decreases c
  {
    match c
    case CNumber(_) => true
    case CVariable(_) => true
    case CCall(kind, _, _, pairs, args) =>
      && kind.Legal() && |args| == kind.arity
      && (kind.arity == 1 ==> pairs == 0 && Level(args[0]) <= POWER)
      && (kind.arity >= 2 ==> pairs == 1)
      && (forall i :: 0 <= i < |args| ==> Documented(args[i]) && Level(args[i]) <= EXPR)
    case CParen(inner) => Documented(inner)
    case CSigned(signs, operand) =>
      && signs != [] && (forall i :: 0 <= i < |signs| ==> IsSign(TInfix(signs[i])))
      && Documented(operand) && Level(operand) == 0
    case CBinary(op, left, right) =>
      && OpLevel(op) >= 2
      && Documented(left) && Level(left) <= OpLevel(op)
      && Documented(right) && Level(right) < OpLevel(op)
  }

  /** Some call without arguments is followed by two pairs of parentheses or more. */
  predicate Repeats(c: Cst)
    decreases c
  {
    match c
    case CCall(_, _, _, pairs, args) =>
      (args == [] && pairs >= 2) || exists i :: 0 <= i < |args| && Repeats(args[i])
    case CParen(inner) => Repeats(inner)
    case CSigned(_, operand) => Repeats(operand)
    case CBinary(_, left, right) => Repeats(left) || Repeats(right)
    case _ => false
  }

  /** The repeated pairs are all that the two grammars differ in. */
  lemma {:induction false} DocumentedIsWider(c: Cst)
    ensures Derivation(c) <==> Documented(c) && !Repeats(c)
    decreases c
  {
    match c
    case CCall(_, _, _, _, args) =>
      forall i | 0 <= i < |args|
        ensures Derivation(args[i]) <==> Documented(args[i]) && !Repeats(args[i])
      {
        DocumentedIsWider(args[i]);
      }
    case CParen(inner) => DocumentedIsWider(inner);
    case CSigned(_, operand) => DocumentedIsWider(operand);
    case CBinary(_, left, right) =>
      DocumentedIsWider(left);
      DocumentedIsWider(right);
    case _ =>
  }

  // ---------------------------------------------------------------------
  // A closing parenthesis directly before an opening one
  // ---------------------------------------------------------------------

  predicate CloseOpenAt(ts: seq<Token>, i: int) {
    0 <= i < |ts| - 1 && ts[i] == TClose && ts[i + 1] == TOpen
  }

  ghost predicate CloseOpen(ts: seq<Token>) {
    exists i :: CloseOpenAt(ts, i)
  }

  lemma {:induction false} CloseOpenJoin(s: seq<Token>, t: seq<Token>)
    requires s == [] || t == [] || s[|s| - 1] != TClose || t[0] != TOpen
    ensures CloseOpen(s + t) <==> CloseOpen(s) || CloseOpen(t)
  {
    var u := s + t;
    if CloseOpen(u) {
      var i :| CloseOpenAt(u, i);
      assert CloseOpenAt(s, i) || CloseOpenAt(t, i - |s|);
    }
    if CloseOpen(s) {
      var i :| CloseOpenAt(s, i);
      assert CloseOpenAt(u, i);
    }
    if CloseOpen(t) {
      var i :| CloseOpenAt(t, i);
      assert CloseOpenAt(u, i + |s|);
    }
  }

  /** Two parts with another token between them. */
  lemma {:induction false} CloseOpenAround(s: seq<Token>, t: Token, u: seq<Token>)
    requires t != TOpen && t != TClose
    ensures CloseOpen(s + [t] + u) <==> CloseOpen(s) || CloseOpen(u)
  {
    CloseOpenJoin(s + [t], u);
    CloseOpenJoin(s, [t]);
    assert !CloseOpen([t]);
  }

  lemma {:induction false} CloseOpenInPairs(pairs: nat)
    ensures CloseOpen(EmptyPairs(pairs)) <==> pairs >= 2
  {
    if pairs == 1 {
      assert EmptyPairs(1) == [TOpen, TClose];
    } else if pairs >= 2 {
      assert EmptyPairs(pairs - 1)[0] == TOpen;
      assert CloseOpenAt(EmptyPairs(pairs), 1);
    }
  }

  /** In the tokens of a documented derivation a closing parenthesis stands directly before
      an opening one exactly when some pair is repeated. */
  lemma {:induction false} CloseOpenIffRepeats(c: Cst)
    requires Documented(c)
    ensures CloseOpen(Yield(c)) <==> Repeats(c)
    decreases c, 1
  {
    match c
    case CNumber(_) =>
    case CVariable(_) =>
    case CParen(inner) =>
      CloseOpenIffRepeats(inner);
      CloseOpenJoin([TOpen] + Yield(inner), [TClose]);
      CloseOpenJoin([TOpen], Yield(inner));
    case CSigned(signs, operand) =>
      CloseOpenIffRepeats(operand);
      CloseOpenJoin(SignTokens(signs), Yield(operand));
    case CBinary(op, left, right) =>
      CloseOpenIffRepeats(left);
      CloseOpenIffRepeats(right);
      CloseOpenAround(Yield(left), OpToken(op), Yield(right));
    case CCall(kind, fn, context, pairs, args) =>
      CloseOpenJoin([TCall(kind, fn, context)], CallRest(pairs, args));
      if args == [] {
        CloseOpenInPairs(pairs);
      } else if pairs > 0 {
        CloseOpenJoin([TOpen], YieldArgs(args));
        CloseOpenInArgs(args);
      } else {
        CloseOpenIffRepeats(args[0]);
      }
  }

  lemma {:induction false} CloseOpenInArgs(args: seq<Cst>)
    requires forall i :: 0 <= i < |args| ==> Documented(args[i])
    ensures CloseOpen(YieldArgs(args)) <==> exists i :: 0 <= i < |args| && Repeats(args[i])
    decreases args, 0
  {
    if |args| == 1 {
      CloseOpenIffRepeats(args[0]);
      CloseOpenJoin(Yield(args[0]), [TClose]);
    } else if |args| > 1 {
      var rest := args[1..];
      CloseOpenIffRepeats(args[0]);
      CloseOpenInArgs(rest);
      CloseOpenAround(Yield(args[0]), TSep, YieldArgs(rest));
      assert forall i :: 1 <= i < |args| ==> args[i] == rest[i - 1];
    }
  }

  // ---------------------------------------------------------------------
  // An input is one sequence of tokens
  // ---------------------------------------------------------------------

  lemma {:induction false} YieldHasNoEnd(c: Cst)
    ensures TEnd !in Yield(c)
    decreases c, 1
  {
    match c
    case CParen(inner) => YieldHasNoEnd(inner);
    case CSigned(_, operand) => YieldHasNoEnd(operand);
    case CBinary(_, left, right) =>
      YieldHasNoEnd(left);
      YieldHasNoEnd(right);
    case CCall(_, _, _, pairs, args) =>
      if args == [] {
        PairsHaveNoEnd(pairs);
      } else if pairs > 0 {
        ArgsHaveNoEnd(args);
      } else {
        YieldHasNoEnd(args[0]);
      }
    case _ =>
  }

  lemma {:induction false} PairsHaveNoEnd(pairs: nat)
    ensures TEnd !in EmptyPairs(pairs)
  {
    if pairs > 0 {
      PairsHaveNoEnd(pairs - 1);
    }
  }

  lemma {:induction false} ArgsHaveNoEnd(args: seq<Cst>)
    ensures TEnd !in YieldArgs(args)
    decreases args, 0
  {
    if args != [] {
      YieldHasNoEnd(args[0]);
      ArgsHaveNoEnd(args[1..]);
    }
  }

  lemma {:induction false} ReadsOnce(src: Source, a: Cursor, s: seq<Token>, b: Cursor, t: seq<Token>, c: Cursor)
    requires src.Valid() && ValidCursor(src, a) && Reads(src, a, s, b) && Reads(src, a, t, c)
    requires b.tok == TEnd && c.tok == TEnd && TEnd !in s && TEnd !in t
    ensures s == t
    decreases |s|
  {
    if s != [] && t != [] {
      ReadsOnce(src, Advance(src, a), s[1..], b, t[1..], c);
      assert s == [s[0]] + s[1..] && t == [t[0]] + t[1..];
    }
  }

  // ---------------------------------------------------------------------
  // What the code accepts of the documented grammar
  // ---------------------------------------------------------------------

  /** Of the inputs the documented grammar derives the code accepts exactly those in which
      no call without arguments is followed by more than one pair of parentheses. */
  lemma {:induction false} AcceptedIffNotRepeated(src: Source, c: Cst)
    requires src.Valid() && Documented(c) && ReadsAs(src, c)
    ensures Accepted(src).Parsed? <==> !Repeats(c)
    ensures Accepted(src).Parsed? ==> Accepted(src).cst == c
  {
    hide TokenFrom;
    hide Documented;
    DocumentedIsWider(c);
    AcceptsExactlyTheGrammar(src, c);
    if Accepted(src).Parsed? {
      var d := Accepted(src).cst;
      AcceptsExactlyTheGrammar(src, d);
      var b: Cursor :| b.tok == TEnd && Reads(src, Start(src), Yield(c), b);
      var b': Cursor :| b'.tok == TEnd && Reads(src, Start(src), Yield(d), b');
      YieldHasNoEnd(c);
      YieldHasNoEnd(d);
      ReadsOnce(src, Start(src), Yield(c), b, Yield(d), b');
      DocumentedIsWider(d);
      CloseOpenIffRepeats(c);
      CloseOpenIffRepeats(d);
    }
  }

  /** Whatever the function, f()() is documented and refused. */
  lemma {:induction false} TwoPairsRefused(src: Source, kind: Kind, fn: Fn, context: Addr, b: Cursor)
    requires src.Valid() && kind.Legal() && kind.arity == 0 && b.tok == TEnd
    requires Reads(src, Start(src), [TCall(kind, fn, context), TOpen, TClose, TOpen, TClose], b)
    ensures Documented(CCall(kind, fn, context, 2, [])) && Accepted(src).Failed?
  {
    hide Reads;
    hide TokenFrom;
    var c := CCall(kind, fn, context, 2, []);
    assert EmptyPairs(2) == [TOpen, TClose] + EmptyPairs(1) && EmptyPairs(1) == [TOpen, TClose];
    assert Yield(c) == [TCall(kind, fn, context), TOpen, TClose, TOpen, TClose];
    AcceptedIffNotRepeated(src, c);
  }

  lemma {:induction false} MeaningOfPi()
    ensures Lookup([], "pi") == TCall(Kind(false, 0, true), Extern("pi"), 0)
  {
    BuiltinsSorted();
    assert BUILTINS[17] == Pure0("pi", Extern("pi"));
    SearchUnique(BUILTINS, "pi", 17);
  }

  lemma {:induction false} TokensOfPi(src: Source)
    requires src.Valid() && src.text == "pi()()" && src.lookup == []
    ensures Start(src) == Cursor(TCall(Kind(false, 0, true), Extern("pi"), 0), 2, 1)
    ensures TokenFrom(src, 2, 2) == Cursor(TOpen, 3, 2) && TokenFrom(src, 3, 3) == Cursor(TClose, 4, 3)
    ensures TokenFrom(src, 4, 4) == Cursor(TOpen, 5, 4) && TokenFrom(src, 5, 5) == Cursor(TClose, 6, 5)
    ensures TokenFrom(src, 6, 6) == Cursor(TEnd, 6, 6)
  {
    hide Lookup;
    MeaningOfPi();
    assert src.text[0..2] == "pi";
    assert IdentifierEnd(src.text, 2) == 2;
    assert IdentifierEnd(src.text, 1) == 2;
  }

  /** Such an input is pi()(). */
  lemma {:induction false} TwoPairsOnPi(src: Source)
    requires src.Valid() && src.text == "pi()()" && src.lookup == []
    ensures Accepted(src).Failed?
  {
    hide TokenFrom;
    hide Accepted;
    hide Lookup;
    TokensOfPi(src);
    var end := Cursor(TEnd, 6, 6);
    var pi := TCall(Kind(false, 0, true), Extern("pi"), 0);
    var ts := [pi, TOpen, TClose, TOpen, TClose];
    assert ts[1..] == [TOpen, TClose, TOpen, TClose] && ts[1..][1..] == [TClose, TOpen, TClose];
    assert ts[1..][1..][1..] == [TOpen, TClose] && [TOpen, TClose][1..] == [TClose] && [TClose][1..] == [];
    assert Reads(src, Cursor(TClose, 6, 5), [TClose], end);
    assert Reads(src, Cursor(TOpen, 5, 4), [TOpen, TClose], end);
    assert Reads(src, Cursor(TClose, 4, 3), [TClose, TOpen, TClose], end);
    assert Reads(src, Cursor(TOpen, 3, 2), [TOpen, TClose, TOpen, TClose], end);
    assert Reads(src, Start(src), ts, end);
    TwoPairsRefused(src, Kind(false, 0, true), Extern("pi"), 0, end);
  }
}
