/** The parser accepts exactly the grammar, and every accepted token sequence has one
    derivation. */
module ParserProofs {
  import opened Names
  import opened Lexer
  import opened Grammar
  import opened ParserSpec

  // ---------------------------------------------------------------------
  // Soundness
  // ---------------------------------------------------------------------

  /** c is a derivation of the given level and its tokens lead from a to b. */
  ghost predicate Derives(src: Source, level: nat, a: Cursor, c: Cst, b: Cursor)
    requires src.Valid() && ValidCursor(src, a)
  {
    Derivation(c) && Level(c) <= level && Reads(src, a, Yield(c), b)
  }

  lemma {:induction false} LevelSound(src: Source, level: nat, at: Cursor)
    requires src.Valid() && ValidCursor(src, at) && level <= LIST
    ensures var r := ParseLevel(src, level, at); r.Parsed? ==> Derives(src, level, at, r.cst, r.at)
    decreases Measure(src, at), 2 * level + 1
  {
    if level == 0 {
      BaseSound(src, at);
    } else if level == POWER {
      SignedSound(src, [], at, at);
    } else {
      LevelSound(src, level - 1, at);
      var r := ParseLevel(src, level - 1, at);
      if r.Parsed? {
        TailSound(src, level, at, r.cst, r.at);
      }
    }
  }

  lemma {:induction false} TailSound(src: Source, level: nat, start: Cursor, left: Cst, at: Cursor)
    requires src.Valid() && ValidCursor(src, start) && ValidCursor(src, at) && 2 <= level <= LIST
    requires Derives(src, level, start, left, at)
    ensures var r := ParseTail(src, level, left, at); r.Parsed? ==> Derives(src, level, start, r.cst, r.at)
    decreases Measure(src, at), 2 * level
  {
    hide Reads;
    hide TokenFrom;
    if InfixLevel(at.tok) == level {
      var a1 := Advance(src, at);
      LevelSound(src, level - 1, a1);
      var r := ParseLevel(src, level - 1, a1);
      if r.Parsed? {
        var op := InfixOp(at.tok);
        assert OpToken(op) == at.tok;
        var c := CBinary(op, left, r.cst);
        ReadsThenOne(src, start, Yield(left), at);
        ReadsConcat(src, start, Yield(left) + [at.tok], a1, Yield(r.cst), r.at);
        TailSound(src, level, start, c, r.at);
      }
    }
  }

  lemma {:induction false} SignedSound(src: Source, signs: seq<Fn>, start: Cursor, at: Cursor)
    requires src.Valid() && ValidCursor(src, start) && ValidCursor(src, at)
    requires Reads(src, start, SignTokens(signs), at)
    requires forall i :: 0 <= i < |signs| ==> IsSign(TInfix(signs[i]))
    ensures var r := ParseSigned(src, signs, at); r.Parsed? ==> Derives(src, POWER, start, r.cst, r.at)
    decreases Measure(src, at), 2
  {
    hide Reads;
    hide TokenFrom;
    if IsSign(at.tok) {
      ReadsThenOne(src, start, SignTokens(signs), at);
      assert SignTokens(signs + [at.tok.op]) == SignTokens(signs) + [at.tok];
      SignedSound(src, signs + [at.tok.op], start, Advance(src, at));
    } else {
      BaseSound(src, at);
      var r := ParseBase(src, at);
      if r.Parsed? {
        ReadsConcat(src, start, SignTokens(signs), at, Yield(r.cst), r.at);
        if signs == [] {
          assert SignTokens(signs) + Yield(r.cst) == Yield(r.cst);
        }
      }
    }
  }

  lemma {:induction false} BaseSound(src: Source, at: Cursor)
    requires src.Valid() && ValidCursor(src, at)
    ensures var r := ParseBase(src, at); r.Parsed? ==> Derives(src, 0, at, r.cst, r.at)
    decreases Measure(src, at), 0
  {
    hide Reads;
    hide TokenFrom;
    ReadsOne(src, at);
    match at.tok
    case TCall(kind, fn, context) =>
      CallSound(src, kind, fn, context, Advance(src, at));
      var r := ParseCall(src, kind, fn, context, Advance(src, at));
      if r.Parsed? {
        ReadsConcat(src, at, [at.tok], Advance(src, at), Yield(r.cst)[1..], r.at);
        assert [at.tok] + Yield(r.cst)[1..] == Yield(r.cst);
      }
    case TOpen =>
      var a := Advance(src, at);
      LevelSound(src, LIST, a);
      var r := ParseLevel(src, LIST, a);
      if r.Parsed? && r.at.tok == TClose {
        ReadsConcat(src, at, [TOpen], a, Yield(r.cst), r.at);
        ReadsThenOne(src, at, [TOpen] + Yield(r.cst), r.at);
      }
    case _ =>
  }

  /** After the name of a function the rest of the call's tokens follow. */
  lemma {:induction false} CallSound(src: Source, kind: Kind, fn: Fn, context: Addr, at: Cursor)
    requires src.Valid() && ValidCursor(src, at) && kind.Legal()
    ensures var r := ParseCall(src, kind, fn, context, at);
            r.Parsed? ==>
              && Derivation(r.cst) && Level(r.cst) == 0
              && Yield(r.cst) != [] && Yield(r.cst)[0] == TCall(kind, fn, context)
              && Reads(src, at, Yield(r.cst)[1..], r.at)
    decreases Measure(src, at), 20
  {
    hide Reads;
    hide TokenFrom;
    var name := TCall(kind, fn, context);
    if kind.arity == 0 {
      if at.tok == TOpen {
        ReadsOne(src, at);
        ReadsThenOne(src, at, [TOpen], Advance(src, at));
        assert EmptyPairs(1) == [TOpen] + [TClose];
      } else {
        ReadsNothing(src, at);
      }
    } else if kind.arity == 1 {
      LevelSound(src, POWER, at);
    } else if at.tok == TOpen {
      ArgsSound(src, kind.arity, [], at);
      var r := ParseArgs(src, kind.arity, [], at);
      if r.ParsedArgs? {
        assert r.args[0..] == r.args;
        ReadsOne(src, at);
        ReadsConcat(src, at, [TOpen], Advance(src, at), YieldArgs(r.args), r.at);
      }
    }
    var r := ParseCall(src, kind, fn, context, at);
    if r.Parsed? {
      assert Yield(r.cst)[1..] == CallRest(r.cst.pairs, r.cst.args);
    }
  }

  lemma {:induction false} ReadsNothing(src: Source, a: Cursor)
    requires src.Valid() && ValidCursor(src, a)
    ensures Reads(src, a, [], a)
  {
  }

  lemma {:induction false} ArgsSound(src: Source, n: nat, done: seq<Cst>, at: Cursor)
    requires src.Valid() && ValidCursor(src, at) && n >= 1 && Consumes(at.tok)
    ensures var r := ParseArgs(src, n, done, at);
            r.ParsedArgs? ==>
              && |r.args| == |done| + n && r.args[..|done|] == done
              && (forall i :: |done| <= i < |r.args| ==> Derivation(r.args[i]) && Level(r.args[i]) <= EXPR)
              && Reads(src, Advance(src, at), YieldArgs(r.args[|done|..]), r.at)
    decreases Measure(src, at), 0
  {
    hide Reads;
    hide TokenFrom;
    var a := Advance(src, at);
    LevelSound(src, EXPR, a);
    var e := ParseLevel(src, EXPR, a);
    var r := ParseArgs(src, n, done, at);
    if e.Parsed? && r.ParsedArgs? {
      ReadsThenOne(src, a, Yield(e.cst), e.at);
      if n > 1 {
        ArgsSound(src, n - 1, done + [e.cst], e.at);
        var rest := r.args[|done| + 1..];
        assert r.args[|done|] == r.args[..|done| + 1][|done|] == e.cst;
        assert r.args[..|done|] == r.args[..|done| + 1][..|done|] == done;
        ReadsConcat(src, a, Yield(e.cst) + [TSep], Advance(src, e.at), YieldArgs(rest), r.at);
        assert r.args[|done|..][1..] == rest;
        assert r.args[|done|..][0] == e.cst;
      } else {
        assert r.args[|done|..] == [e.cst];
      }
    }
  }

  // ---------------------------------------------------------------------
  // Completeness
  // ---------------------------------------------------------------------

  /** A token that cannot continue a symbol of the given level. */
  predicate Follows(level: nat, t: Token) {
    t != TOpen && !(2 <= InfixLevel(t) <= level)
  }

  /** Every derivation is what the parser finds. */
  lemma {:induction false} LevelComplete(src: Source, level: nat, at: Cursor, c: Cst, b: Cursor)
    requires src.Valid() && ValidCursor(src, at) && level <= LIST
    requires Derives(src, level, at, c, b) && Follows(level, b.tok)
    ensures ParseLevel(src, level, at) == Parsed(c, b)
    decreases c, 2 * level + 1
  {
    hide Reads;
    hide TokenFrom;
    if level == 0 {
      BaseComplete(src, at, c, b);
    } else if level == POWER {
      if c.CSigned? {
        var m := ReadsSplit(src, at, SignTokens(c.signs), Yield(c.operand), b);
        SignsComplete(src, [], c.signs, c.operand, at, m, b);
        assert [] + c.signs == c.signs;
      } else {
        FirstToken(src, at, c, b);
        BaseComplete(src, at, c, b);
      }
    } else {
      ReadsValid(src, at, Yield(c), b);
      PrefixComplete(src, level, at, c, b);
    }
  }

  lemma {:induction false} FirstToken(src: Source, at: Cursor, c: Cst, b: Cursor)
    requires src.Valid() && ValidCursor(src, at) && Derives(src, 0, at, c, b)
    ensures !IsSign(at.tok)
  {
    YieldNonEmpty(c);
  }

  lemma {:induction false} SignsComplete(src: Source, done: seq<Fn>, signs: seq<Fn>, c: Cst, at: Cursor, m: Cursor, b: Cursor)
    requires src.Valid() && ValidCursor(src, at) && ValidCursor(src, m)
    requires Reads(src, at, SignTokens(signs), m) && Derives(src, 0, m, c, b) && b.tok != TOpen
    requires forall i :: 0 <= i < |signs| ==> IsSign(TInfix(signs[i]))
    ensures ParseSigned(src, done, at) == Parsed(if done + signs == [] then c else CSigned(done + signs, c), b)
    decreases c, 1, |signs|
  {
    hide TokenFrom;
    hide Measure;
    hide Derivation;
    if signs == [] {
      assert done + signs == done;
      FirstToken(src, at, c, b);
      BaseComplete(src, at, c, b);
    } else {
      assert SignTokens(signs)[1..] == SignTokens(signs[1..]);
      SignsComplete(src, done + [signs[0]], signs[1..], c, Advance(src, at), m, b);
      assert done + [signs[0]] + signs[1..] == done + signs;
    }
  }

  /** Up to a token that may continue the repetition, the parser has collected c. */
  lemma {:induction false} PrefixComplete(src: Source, level: nat, at: Cursor, c: Cst, b: Cursor)
    requires src.Valid() && ValidCursor(src, at) && ValidCursor(src, b) && 2 <= level <= LIST
    requires Derives(src, level, at, c, b) && Follows(level - 1, b.tok)
    ensures ParseLevel(src, level, at) == ParseTail(src, level, c, b)
    decreases c, 2 * level
  {
    hide Reads;
    hide TokenFrom;
    if Level(c) < level {
      LevelComplete(src, level - 1, at, c, b);
    } else {
      var l, t, r := Yield(c.left), OpToken(c.op), Yield(c.right);
      assert l + [t] + r == l + ([t] + r);
      var b1 := ReadsSplit(src, at, l, [t] + r, b);
      var b2 := ReadsSplit(src, b1, [t], r, b);
      ReadsOneBack(src, b1, t, b2);
      PrefixComplete(src, level, at, c.left, b1);
      LevelComplete(src, level - 1, b2, c.right, b);
      assert InfixOp(t) == c.op;
    }
  }

  lemma {:induction false} ReadsOneBack(src: Source, a: Cursor, t: Token, b: Cursor)
    requires src.Valid() && ValidCursor(src, a) && Reads(src, a, [t], b)
    ensures a.tok == t && b == Advance(src, a)
  {
    assert [t][1..] == [];
  }

  lemma {:induction false} BaseComplete(src: Source, at: Cursor, c: Cst, b: Cursor)
    requires src.Valid() && ValidCursor(src, at)
    requires Derives(src, 0, at, c, b) && b.tok != TOpen
    ensures ParseBase(src, at) == Parsed(c, b)
    decreases c, 0
  {
    hide Reads;
    hide TokenFrom;
    match c
    case CNumber(v) => ReadsOneBack(src, at, TNumber(v), b);
    case CVariable(x) => ReadsOneBack(src, at, TVariable(x), b);
    case CParen(inner) =>
      var open, ts := [TOpen], Yield(inner);
      assert open + ts + [TClose] == open + (ts + [TClose]);
      var b1 := ReadsSplit(src, at, open, ts + [TClose], b);
      var b2 := ReadsSplit(src, b1, ts, [TClose], b);
      ReadsOneBack(src, at, TOpen, b1);
      ReadsOneBack(src, b2, TClose, b);
      LevelComplete(src, LIST, b1, inner, b2);
    case CCall(kind, fn, context, pairs, args) =>
      var name := TCall(kind, fn, context);
      var ts := CallRest(pairs, args);
      assert Yield(c) == [name] + ts;
      var b1 := ReadsSplit(src, at, [name], ts, b);
      ReadsOneBack(src, at, name, b1);
      CallComplete(src, c, b1, b);
  }

  lemma {:induction false} CallComplete(src: Source, c: Cst, at: Cursor, b: Cursor)
    requires src.Valid() && ValidCursor(src, at)
    requires c.CCall? && Derivation(c) && b.tok != TOpen
    requires Reads(src, at, CallRest(c.pairs, c.args), b)
    ensures ParseCall(src, c.kind, c.fn, c.context, at) == Parsed(c, b)
    decreases c, 0, 1
  {
    var args := c.args;
    if c.kind.arity == 0 {
      if c.pairs > 0 {
        assert [TOpen, TClose][1..] == [TClose];
        ReadsOneBack(src, Advance(src, at), TClose, b);
      }
    } else if c.kind.arity == 1 {
      LevelComplete(src, POWER, at, args[0], b);
    } else {
      assert ([TOpen] + YieldArgs(args))[1..] == YieldArgs(args);
      ArgsComplete(src, [], args, at, b);
      assert [] + args == args;
    }
  }

  lemma {:induction false} ArgsComplete(src: Source, done: seq<Cst>, args: seq<Cst>, at: Cursor, b: Cursor)
    requires src.Valid() && ValidCursor(src, at) && args != [] && Consumes(at.tok)
    requires forall i :: 0 <= i < |args| ==> Derivation(args[i]) && Level(args[i]) <= EXPR
    requires Reads(src, Advance(src, at), YieldArgs(args), b)
    ensures ParseArgs(src, |args|, done, at) == ParsedArgs(done + args, b)
    decreases args, 0
  {
    hide Reads;
    hide TokenFrom;
    hide Measure;
    hide Derivation;
    var a, ts := Advance(src, at), Yield(args[0]);
    if |args| == 1 {
      var b1 := ReadsSplit(src, a, ts, [TClose], b);
      ReadsOneBack(src, b1, TClose, b);
      LevelComplete(src, EXPR, a, args[0], b1);
      assert args == [args[0]];
    } else {
      var rest := YieldArgs(args[1..]);
      assert ts + [TSep] + rest == ts + ([TSep] + rest);
      var b1 := ReadsSplit(src, a, ts, [TSep] + rest, b);
      var b2 := ReadsSplit(src, b1, [TSep], rest, b);
      ReadsOneBack(src, b1, TSep, b2);
      LevelComplete(src, EXPR, a, args[0], b1);
      ArgsComplete(src, done + [args[0]], args[1..], b1, b);
      assert done + [args[0]] + args[1..] == done + args;
    }
  }

  // ---------------------------------------------------------------------
  // The whole input
  // ---------------------------------------------------------------------

  /** The first token of the input. */
  function Start(src: Source): (c: Cursor)
    requires src.Valid()
    ensures ValidCursor(src, c) && c.index == 1
  {
    TokenFrom(src, 0, 1)
  }

  /** The input is, token by token, the whole of c. */
  ghost predicate ReadsAs(src: Source, c: Cst)
    requires src.Valid()
  {
    exists b: Cursor :: b.tok == TEnd && Reads(src, Start(src), Yield(c), b)
  }

  ghost predicate IsDerivationOf(src: Source, c: Cst)
    requires src.Valid()
  {
    Derivation(c) && ReadsAs(src, c)
  }

  /** The derivation the parser finds for the whole input. */
  function Accepted(src: Source): (r: Parsed)
    requires src.Valid()
    ensures r.Failed? ==> ValidCursor(src, r.bad)
  {
    match ParseLevel(src, LIST, Start(src))
    case Failed(p) => Failed(p)
    case Parsed(c, a) => if a.tok == TEnd then Parsed(c, a) else Failed(a)
  }

  lemma {:induction false} LevelBound(c: Cst)
    requires Derivation(c)
    ensures Level(c) <= LIST
  {
  }

  /** The parser accepts the input exactly when some derivation yields it, and then
      it returns that derivation. */
  lemma {:induction false} AcceptsExactlyTheGrammar(src: Source, c: Cst)
    requires src.Valid()
    ensures IsDerivationOf(src, c) <==> Accepted(src).Parsed? && Accepted(src).cst == c
  {
    hide Reads;
    hide TokenFrom;
    if IsDerivationOf(src, c) {
      var b: Cursor :| b.tok == TEnd && Reads(src, Start(src), Yield(c), b);
      LevelBound(c);
      LevelComplete(src, LIST, Start(src), c, b);
    }
    LevelSound(src, LIST, Start(src));
  }

  /** No input has two derivations. */
  lemma {:induction false} DerivationUnique(src: Source, c: Cst, d: Cst)
    requires src.Valid() && IsDerivationOf(src, c) && IsDerivationOf(src, d)
    ensures c == d
  {
    AcceptsExactlyTheGrammar(src, c);
    AcceptsExactlyTheGrammar(src, d);
  }
}
