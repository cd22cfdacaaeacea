/** Where the parser stops on an input that is not in the grammar: at the first token that
    no derivation could go on with. */
module SyntaxError {
  import opened Names
  import opened Lexer
  import opened Grammar
  import opened ParserSpec
  import opened ParserProofs

  /** The tokens ts lead to f, some derivation begins with them, but none, with the end of
      the input counted as a token, begins with them and the token at f. */
  ghost predicate FirstOffending(src: Source, ts: seq<Token>, f: Cursor)
    requires src.Valid()
  {
    && Reads(src, Start(src), ts, f)
    && (exists c :: Derivation(c) && ts <= Yield(c))
    && forall c :: Derivation(c) ==> !(ts + [f.tok] <= Yield(c) + [TEnd])
  }

  // ---------------------------------------------------------------------
  // What has been read can be completed
  // ---------------------------------------------------------------------

  /** ts leads from a to f and begins a derivation of the given level. */
  ghost predicate Begins(src: Source, level: nat, a: Cursor, ts: seq<Token>, f: Cursor, c: Cst)
    requires src.Valid() && ValidCursor(src, a)
  {
    Reads(src, a, ts, f) && Derivation(c) && Level(c) <= level && ts <= Yield(c)
  }

  lemma {:induction false} LevelViable(src: Source, level: nat, at: Cursor) returns (ts: seq<Token>, c: Cst)
    requires src.Valid() && ValidCursor(src, at) && level <= LIST && ParseLevel(src, level, at).Failed?
    ensures Begins(src, level, at, ts, ParseLevel(src, level, at).bad, c)
    decreases Measure(src, at), 2 * level + 1
  {
    hide Reads;
    hide TokenFrom;
    if level == 0 {
      ts, c := BaseViable(src, at);
    } else if level == POWER {
      ReadsNothing(src, at);
      assert SignTokens([]) == [];
      ts, c := SignedViable(src, [], at, at);
    } else {
      var r := ParseLevel(src, level - 1, at);
      if r.Failed? {
        ts, c := LevelViable(src, level - 1, at);
      } else {
        LevelSound(src, level - 1, at);
        ts, c := TailViable(src, level, at, r.cst, r.at);
      }
    }
  }

  lemma {:induction false} TailViable(src: Source, level: nat, start: Cursor, left: Cst, at: Cursor)
    returns (ts: seq<Token>, c: Cst)
    requires src.Valid() && ValidCursor(src, start) && ValidCursor(src, at) && 2 <= level <= LIST
    requires Derives(src, level, start, left, at) && ParseTail(src, level, left, at).Failed?
    ensures Begins(src, level, start, ts, ParseTail(src, level, left, at).bad, c)
    decreases Measure(src, at), 2 * level
  {
    hide Reads;
    hide TokenFrom;
    var a1 := Advance(src, at);
    var r := ParseLevel(src, level - 1, a1);
    var op := InfixOp(at.tok);
    assert OpToken(op) == at.tok;
    ReadsThenOne(src, start, Yield(left), at);
    if r.Failed? {
      var ts', c' := LevelViable(src, level - 1, a1);
      ts, c := Yield(left) + [at.tok] + ts', CBinary(op, left, c');
      ReadsConcat(src, start, Yield(left) + [at.tok], a1, ts', r.bad);
    } else {
      LevelSound(src, level - 1, a1);
      ReadsConcat(src, start, Yield(left) + [at.tok], a1, Yield(r.cst), r.at);
      ts, c := TailViable(src, level, start, CBinary(op, left, r.cst), r.at);
    }
  }

  lemma {:induction false} SignedViable(src: Source, signs: seq<Fn>, start: Cursor, at: Cursor)
    returns (ts: seq<Token>, c: Cst)
    requires src.Valid() && ValidCursor(src, start) && ValidCursor(src, at)
    requires Reads(src, start, SignTokens(signs), at)
    requires forall i :: 0 <= i < |signs| ==> IsSign(TInfix(signs[i]))
    requires ParseSigned(src, signs, at).Failed?
    ensures Begins(src, POWER, start, ts, ParseSigned(src, signs, at).bad, c)
    decreases Measure(src, at), 2
  {
    hide Reads;
    hide TokenFrom;
    if IsSign(at.tok) {
      ReadsThenOne(src, start, SignTokens(signs), at);
      assert SignTokens(signs + [at.tok.op]) == SignTokens(signs) + [at.tok];
      ts, c := SignedViable(src, signs + [at.tok.op], start, Advance(src, at));
    } else {
      var ts', c' := BaseViable(src, at);
      ts := SignTokens(signs) + ts';
      c := if signs == [] then c' else CSigned(signs, c');
      ReadsConcat(src, start, SignTokens(signs), at, ts', ParseBase(src, at).bad);
      if signs == [] {
        assert SignTokens(signs) + Yield(c') == Yield(c');
      }
    }
  }

  lemma {:induction false} BaseViable(src: Source, at: Cursor) returns (ts: seq<Token>, c: Cst)
    requires src.Valid() && ValidCursor(src, at) && ParseBase(src, at).Failed?
    ensures Begins(src, 0, at, ts, ParseBase(src, at).bad, c)
    decreases Measure(src, at), 0
  {
    hide Reads;
    hide TokenFrom;
    ReadsOne(src, at);
    var a := Advance(src, at);
    match at.tok
    case TCall(kind, fn, context) =>
      var ts';
      ts', c := CallViable(src, kind, fn, context, a);
      ts := [at.tok] + ts';
      ReadsConcat(src, at, [at.tok], a, ts', ParseCall(src, kind, fn, context, a).bad);
      assert [at.tok] + CallRest(c.pairs, c.args) == Yield(c);
    case TOpen =>
      var r := ParseLevel(src, LIST, a);
      if r.Failed? {
        var ts', c' := LevelViable(src, LIST, a);
        ts, c := [TOpen] + ts', CParen(c');
        ReadsConcat(src, at, [TOpen], a, ts', r.bad);
      } else {
        LevelSound(src, LIST, a);
        ts, c := [TOpen] + Yield(r.cst), CParen(r.cst);
        ReadsConcat(src, at, [TOpen], a, Yield(r.cst), r.at);
      }
    case _ =>
      ReadsNothing(src, at);
      ts, c := [], CNumber(NAN);
  }

  /** What follows the name of a function. */
  lemma {:induction false} CallViable(src: Source, kind: Kind, fn: Fn, context: Addr, at: Cursor)
    returns (ts: seq<Token>, c: Cst)
    requires src.Valid() && ValidCursor(src, at) && kind.Legal() && ParseCall(src, kind, fn, context, at).Failed?
    ensures c.CCall? && c.kind == kind && c.fn == fn && c.context == context && Derivation(c)
    ensures Reads(src, at, ts, ParseCall(src, kind, fn, context, at).bad) && ts <= CallRest(c.pairs, c.args)
    decreases Measure(src, at), 20
  {
    hide Reads;
    hide TokenFrom;
    if kind.arity == 0 {
      ReadsOne(src, at);
      ts, c := [TOpen], CCall(kind, fn, context, 1, []);
      assert EmptyPairs(1) == [TOpen] + [TClose];
    } else if kind.arity == 1 {
      var c';
      ts, c' := LevelViable(src, POWER, at);
      c := CCall(kind, fn, context, 0, [c']);
    } else if at.tok != TOpen {
      ReadsNothing(src, at);
      ts, c := [], CCall(kind, fn, context, 1, Fill(kind.arity));
    } else {
      var ts', args := ArgsViable(src, kind.arity, [], at);
      ts, c := [TOpen] + ts', CCall(kind, fn, context, 1, args);
      ReadsOne(src, at);
      ReadsConcat(src, at, [TOpen], Advance(src, at), ts', ParseArgs(src, kind.arity, [], at).bad);
    }
  }

  /** Any arguments will do to complete a call. */
  function Fill(n: nat): (args: seq<Cst>)
    ensures |args| == n
    ensures forall i :: 0 <= i < n ==> args[i] == CNumber(NAN)
  {
    seq(n, i => CNumber(NAN))
  }

  ghost predicate Arguments(args: seq<Cst>) {
    forall i :: 0 <= i < |args| ==> Derivation(args[i]) && Level(args[i]) <= EXPR
  }

  /** n more arguments. */
  lemma {:induction false} ArgsViable(src: Source, n: nat, done: seq<Cst>, at: Cursor)
    returns (ts: seq<Token>, args: seq<Cst>)
    requires src.Valid() && ValidCursor(src, at) && n >= 1 && Consumes(at.tok)
    requires ParseArgs(src, n, done, at).FailedArgs?
    ensures |args| == n && Arguments(args)
    ensures Reads(src, Advance(src, at), ts, ParseArgs(src, n, done, at).bad) && ts <= YieldArgs(args)
    decreases Measure(src, at), 0
  {
    hide Reads;
    hide TokenFrom;
    var a := Advance(src, at);
    var e := ParseLevel(src, EXPR, a);
    if e.Failed? {
      var c;
      ts, c := LevelViable(src, EXPR, a);
      args := [c] + Fill(n - 1);
      FirstArgument(c, Fill(n - 1));
    } else {
      LevelSound(src, EXPR, a);
      if n > 1 && e.at.tok == TSep {
        var ts', args' := ArgsViable(src, n - 1, done + [e.cst], e.at);
        ReadsThenOne(src, a, Yield(e.cst), e.at);
        ReadsConcat(src, a, Yield(e.cst) + [TSep], Advance(src, e.at), ts', ParseArgs(src, n, done, at).bad);
        ts, args := Yield(e.cst) + [TSep] + ts', [e.cst] + args';
        assert args[1..] == args';
      } else {
        ts, args := Yield(e.cst), [e.cst] + Fill(n - 1);
        FirstArgument(e.cst, Fill(n - 1));
      }
    }
  }

  lemma {:induction false} FirstArgument(c: Cst, rest: seq<Cst>)
    ensures Yield(c) <= YieldArgs([c] + rest)
  {
    assert ([c] + rest)[1..] == rest;
  }

  // ---------------------------------------------------------------------
  // As long as the tokens begin a derivation the parser goes on
  // ---------------------------------------------------------------------

  /** The parser gets past token number i, whether it fails later or not. */
  ghost predicate Past(r: Parsed, i: nat) {
    match r
    case Parsed(_, at) => at.index > i
    case Failed(bad) => bad.index > i
  }

  ghost predicate PastArgs(r: ParsedArgs, i: nat) {
    match r
    case ParsedArgs(_, at) => at.index > i
    case FailedArgs(bad) => bad.index > i
  }

  /** The tokens from a to e and the token at e begin the sequence us. */
  ghost predicate Agrees(src: Source, a: Cursor, ts: seq<Token>, e: Cursor, us: seq<Token>)
    requires src.Valid() && ValidCursor(src, a)
  {
    Reads(src, a, ts, e) && ts + [e.tok] <= us
  }

  lemma {:induction false} ReadsCounts(src: Source, a: Cursor, ts: seq<Token>, e: Cursor)
    requires src.Valid() && ValidCursor(src, a) && Reads(src, a, ts, e)
    ensures e.index == a.index + |ts|
    decreases |ts|
  {
    if ts != [] {
      ReadsCounts(src, Advance(src, a), ts[1..], e);
    }
  }

  /** When the tokens agree with a + b, they end within a, or a has been read and they go on
      in b. */
  lemma {:induction false} AgreesSplit(src: Source, at: Cursor, ts: seq<Token>, e: Cursor, a: seq<Token>, b: seq<Token>)
    returns (m: Cursor)
    requires src.Valid() && ValidCursor(src, at) && Agrees(src, at, ts, e, a + b)
    ensures |ts| < |a| ==> Agrees(src, at, ts, e, a)
    ensures |ts| >= |a| ==>
              ValidCursor(src, m) && Reads(src, at, a, m) && Agrees(src, m, ts[|a|..], e, b)
  {
    var us := ts + [e.tok];
    if |ts| < |a| {
      m := at;
      assert us == (a + b)[..|us|] == a[..|us|];
    } else {
      assert us == (a + b)[..|us|];
      assert ts == us[..|ts|];
      assert ts[..|a|] == a;
      assert ts == a + ts[|a|..];
      m := ReadsSplit(src, at, a, ts[|a|..], e);
      assert ts[|a|..] + [e.tok] == us[|a|..] == (a + b)[..|us|][|a|..] == b[..|us| - |a|];
    }
  }

  lemma {:induction false} AgreesOne(src: Source, at: Cursor, ts: seq<Token>, e: Cursor, t: Token)
    requires src.Valid() && ValidCursor(src, at) && Agrees(src, at, ts, e, [t])
    ensures ts == [] && e == at && at.tok == t
  {
    assert |ts + [e.tok]| <= 1;
    assert (ts + [e.tok])[0] == [t][0];
  }

  lemma {:induction false} LevelPast(src: Source, level: nat, at: Cursor, c: Cst, ts: seq<Token>, e: Cursor)
    requires src.Valid() && ValidCursor(src, at) && level <= LIST
    requires Derivation(c) && Level(c) <= level && Agrees(src, at, ts, e, Yield(c))
    ensures Past(ParseLevel(src, level, at), e.index)
    decreases c, 2 * level + 1
  {
    hide Reads;
    hide Agrees;
    hide TokenFrom;
    if level == 0 {
      BasePast(src, at, c, ts, e);
    } else if level == POWER {
      if c.CSigned? {
        SignsPast(src, [], c.signs, c.operand, at, ts, e);
      } else {
        AgreesFirst(src, at, ts, e, Yield(c));
        YieldNonEmpty(c);
        BasePast(src, at, c, ts, e);
      }
    } else if Level(c) < level {
      LevelPast(src, level - 1, at, c, ts, e);
    } else {
      BinaryPast(src, level, at, c, ts, e);
    }
  }

  lemma {:induction false} AgreesFirst(src: Source, at: Cursor, ts: seq<Token>, e: Cursor, us: seq<Token>)
    requires src.Valid() && ValidCursor(src, at) && Agrees(src, at, ts, e, us)
    ensures us != [] && at.tok == us[0]
  {
    assert (ts + [e.tok])[0] == us[0];
  }

  lemma {:induction false} BinaryPast(src: Source, level: nat, at: Cursor, c: Cst, ts: seq<Token>, e: Cursor)
    requires src.Valid() && ValidCursor(src, at) && 2 <= level <= LIST && c.CBinary?
    requires Derivation(c) && Level(c) == level && Agrees(src, at, ts, e, Yield(c))
    ensures Past(ParseLevel(src, level, at), e.index)
    decreases c, 2 * level
  {
    hide Reads;
    hide Agrees;
    hide TokenFrom;
    var l, t, r := Yield(c.left), OpToken(c.op), Yield(c.right);
    assert l + [t] + r == l + ([t] + r);
    var m := AgreesSplit(src, at, ts, e, l, [t] + r);
    if |ts| < |l| {
      LevelPast(src, level, at, c.left, ts, e);
    } else {
      var us := ts[|l|..];
      AgreesFirst(src, m, us, e, [t] + r);
      PrefixComplete(src, level, at, c.left, m);
      var m2 := AgreesSplit(src, m, us, e, [t], r);
      if |us| < 1 {
        AgreesOne(src, m, us, e, t);
      } else {
        ReadsOneBack(src, m, t, m2);
        LevelPast(src, level - 1, m2, c.right, us[1..], e);
      }
    }
  }

  lemma {:induction false} SignsPast(src: Source, done: seq<Fn>, signs: seq<Fn>, c: Cst, at: Cursor, ts: seq<Token>, e: Cursor)
    requires src.Valid() && ValidCursor(src, at) && Derivation(c) && Level(c) == 0
    requires forall i :: 0 <= i < |signs| ==> IsSign(TInfix(signs[i]))
    requires Agrees(src, at, ts, e, SignTokens(signs) + Yield(c))
    ensures Past(ParseSigned(src, done, at), e.index)
    decreases c, 1, |signs|
  {
    hide Reads;
    hide Agrees;
    hide TokenFrom;
    hide Derivation;
    AgreesFirst(src, at, ts, e, SignTokens(signs) + Yield(c));
    if signs == [] {
      assert SignTokens(signs) + Yield(c) == Yield(c);
      YieldNonEmpty(c);
      BasePast(src, at, c, ts, e);
    } else {
      var t := TInfix(signs[0]);
      assert SignTokens(signs) == [t] + SignTokens(signs[1..]);
      var rest := SignTokens(signs[1..]) + Yield(c);
      assert SignTokens(signs) + Yield(c) == [t] + rest;
      var m := AgreesSplit(src, at, ts, e, [t], rest);
      if |ts| < 1 {
        AgreesOne(src, at, ts, e, t);
      } else {
        ReadsOneBack(src, at, t, m);
        SignsPast(src, done + [signs[0]], signs[1..], c, m, ts[1..], e);
      }
    }
  }

  lemma {:induction false} BasePast(src: Source, at: Cursor, c: Cst, ts: seq<Token>, e: Cursor)
    requires src.Valid() && ValidCursor(src, at)
    requires Derivation(c) && Level(c) == 0 && Agrees(src, at, ts, e, Yield(c))
    ensures Past(ParseBase(src, at), e.index)
    decreases c, 0
  {
    hide Reads;
    hide Agrees;
    hide TokenFrom;
    match c
    case CNumber(v) => AgreesOne(src, at, ts, e, TNumber(v));
    case CVariable(x) => AgreesOne(src, at, ts, e, TVariable(x));
    case CParen(inner) =>
      assert Yield(c) == [TOpen] + (Yield(inner) + [TClose]);
      var m := AgreesSplit(src, at, ts, e, [TOpen], Yield(inner) + [TClose]);
      if |ts| < 1 {
        AgreesOne(src, at, ts, e, TOpen);
      } else {
        ReadsOneBack(src, at, TOpen, m);
        InnerPast(src, LIST, m, inner, TClose, ts[1..], e);
      }
    case CCall(kind, fn, context, pairs, args) =>
      var name := TCall(kind, fn, context);
      var m := AgreesSplit(src, at, ts, e, [name], CallRest(pairs, args));
      if |ts| < 1 {
        AgreesOne(src, at, ts, e, name);
      } else {
        ReadsOneBack(src, at, name, m);
        CallPast(src, c, m, ts[1..], e);
      }
  }

  /** A symbol with a token after it that cannot continue it: the parser gets past the
      agreed tokens, or has read the whole symbol and stands on that token. */
  lemma {:induction false} InnerPast(src: Source, level: nat, at: Cursor, c: Cst, t: Token, ts: seq<Token>, e: Cursor)
    requires src.Valid() && ValidCursor(src, at) && level <= LIST && Follows(level, t)
    requires Derivation(c) && Level(c) <= level && Agrees(src, at, ts, e, Yield(c) + [t])
    ensures Past(ParseLevel(src, level, at), e.index)
         || (e.tok == t && ts == Yield(c) && ParseLevel(src, level, at) == Parsed(c, e))
    decreases c, 2 * level + 2
  {
    hide Reads;
    hide Agrees;
    hide TokenFrom;
    var m := AgreesSplit(src, at, ts, e, Yield(c), [t]);
    if |ts| < |Yield(c)| {
      LevelPast(src, level, at, c, ts, e);
    } else {
      AgreesOne(src, m, ts[|Yield(c)|..], e, t);
      assert ts == ts[..|Yield(c)|] + ts[|Yield(c)|..];
      LevelComplete(src, level, at, c, e);
      AgreesPrefix(src, at, ts, e, Yield(c) + [t]);
    }
  }

  lemma {:induction false} AgreesPrefix(src: Source, at: Cursor, ts: seq<Token>, e: Cursor, us: seq<Token>)
    requires src.Valid() && ValidCursor(src, at) && Agrees(src, at, ts, e, us)
    ensures |ts| < |us| && ts == us[..|ts|] && e.tok == us[|ts|]
  {
    assert (ts + [e.tok])[..|ts|] == ts;
    assert (ts + [e.tok]) == us[..|ts| + 1];
    assert us[..|ts| + 1][..|ts|] == us[..|ts|];
  }

  lemma {:induction false} CallPast(src: Source, c: Cst, at: Cursor, ts: seq<Token>, e: Cursor)
    requires src.Valid() && ValidCursor(src, at) && c.CCall? && Derivation(c)
    requires Agrees(src, at, ts, e, CallRest(c.pairs, c.args))
    ensures Past(ParseCall(src, c.kind, c.fn, c.context, at), e.index)
    decreases c, 0, 1
  {
    hide Reads;
    hide Agrees;
    hide TokenFrom;
    var args := c.args;
    AgreesFirst(src, at, ts, e, CallRest(c.pairs, args));
    if c.kind.arity == 0 {
      assert EmptyPairs(1) == [TOpen] + [TClose];
      var m := AgreesSplit(src, at, ts, e, [TOpen], [TClose]);
      if |ts| < 1 {
        AgreesOne(src, at, ts, e, TOpen);
      } else {
        ReadsOneBack(src, at, TOpen, m);
        AgreesOne(src, m, ts[1..], e, TClose);
      }
    } else if c.kind.arity == 1 {
      LevelPast(src, POWER, at, args[0], ts, e);
    } else {
      var m := AgreesSplit(src, at, ts, e, [TOpen], YieldArgs(args));
      if |ts| < 1 {
        AgreesOne(src, at, ts, e, TOpen);
      } else {
        ReadsOneBack(src, at, TOpen, m);
        ArgsPast(src, [], args, at, ts[1..], e);
      }
    }
  }

  lemma {:induction false} ArgsPast(src: Source, done: seq<Cst>, args: seq<Cst>, at: Cursor, ts: seq<Token>, e: Cursor)
    requires src.Valid() && ValidCursor(src, at) && args != [] && Consumes(at.tok) && Arguments(args)
    requires Agrees(src, Advance(src, at), ts, e, YieldArgs(args))
    ensures PastArgs(ParseArgs(src, |args|, done, at), e.index)
    decreases args, 0
  {
    hide Reads;
    hide Agrees;
    hide TokenFrom;
    hide Measure;
    hide Derivation;
    hide Level;
    var a, c := Advance(src, at), args[0];
    if |args| == 1 {
      InnerPast(src, EXPR, a, c, TClose, ts, e);
    } else {
      var us, rest := Yield(c), YieldArgs(args[1..]);
      assert YieldArgs(args) == us + [TSep] + rest;
      var m := AgreesSplit(src, a, ts, e, us + [TSep], rest);
      if |ts| < |us| + 1 {
        InnerPast(src, EXPR, a, c, TSep, ts, e);
      } else {
        var b := ReadsSplit(src, a, us, [TSep], m);
        ReadsOneBack(src, b, TSep, m);
        LevelComplete(src, EXPR, a, c, b);
        ArgsPast(src, done + [c], args[1..], b, ts[|us| + 1..], e);
      }
    }
  }

  // ---------------------------------------------------------------------
  // The whole input
  // ---------------------------------------------------------------------

  /** A refused input is refused at its first offending token. */
  lemma {:induction false} FailsAtFirstOffending(src: Source) returns (ts: seq<Token>)
    requires src.Valid() && Accepted(src).Failed?
    ensures FirstOffending(src, ts, Accepted(src).bad)
  {
    hide Reads;
    hide TokenFrom;
    hide ParseLevel;
    var start := Start(src);
    var r, f := ParseLevel(src, LIST, start), Accepted(src).bad;
    var c;
    if r.Failed? {
      ts, c := LevelViable(src, LIST, start);
    } else {
      LevelSound(src, LIST, start);
      ts, c := Yield(r.cst), r.cst;
    }
    forall d | Derivation(d)
      ensures !(ts + [f.tok] <= Yield(d) + [TEnd])
    {
      NothingContinues(src, ts, d);
    }
  }

  lemma {:induction false} NothingContinues(src: Source, ts: seq<Token>, d: Cst)
    requires src.Valid() && Accepted(src).Failed? && Derivation(d)
    ensures !Agrees(src, Start(src), ts, Accepted(src).bad, Yield(d) + [TEnd])
  {
    hide Reads;
    hide Agrees;
    hide TokenFrom;
    if Agrees(src, Start(src), ts, Accepted(src).bad, Yield(d) + [TEnd]) {
      LevelBound(d);
      InnerPast(src, LIST, Start(src), d, TEnd, ts, Accepted(src).bad);
    }
  }

  /** There is one first offending token at most. */
  lemma {:induction false} FirstOffendingUnique(src: Source, ts: seq<Token>, f: Cursor, us: seq<Token>, g: Cursor)
    requires src.Valid() && FirstOffending(src, ts, f) && FirstOffending(src, us, g)
    ensures ts == us && f == g
  {
    hide Derivation;
    hide TokenFrom;
    hide Reads;
    if |us| < |ts| {
      LongerReading(src, us, g, ts, f);
    } else if |ts| < |us| {
      LongerReading(src, ts, f, us, g);
    } else {
      SameReading(src, Start(src), ts, f, us, g);
    }
  }

  lemma {:induction false} LongerReading(src: Source, ts: seq<Token>, f: Cursor, us: seq<Token>, g: Cursor)
    requires src.Valid() && Reads(src, Start(src), ts, f) && Reads(src, Start(src), us, g) && |ts| < |us|
    ensures forall vs: seq<Token> :: us <= vs ==> ts + [f.tok] <= vs + [TEnd]
  {
    hide TokenFrom;
    hide Reads;
    var n := |ts|;
    assert us == us[..n] + us[n..];
    var m := ReadsSplit(src, Start(src), us[..n], us[n..], g);
    SameReading(src, Start(src), ts, f, us[..n], m);
    ReadsHead(src, f, us[n..], g);
    assert us[..n + 1] == ts + [f.tok];
  }

  lemma {:induction false} ReadsHead(src: Source, a: Cursor, ts: seq<Token>, b: Cursor)
    requires src.Valid() && ValidCursor(src, a) && Reads(src, a, ts, b) && ts != []
    ensures a.tok == ts[0]
  {
  }

  lemma {:induction false} SameReading(src: Source, a: Cursor, ts: seq<Token>, f: Cursor, us: seq<Token>, g: Cursor)
    requires src.Valid() && ValidCursor(src, a) && |ts| == |us| && Reads(src, a, ts, f) && Reads(src, a, us, g)
    ensures ts == us && f == g
    decreases |ts|
  {
    if ts != [] {
      SameReading(src, Advance(src, a), ts[1..], f, us[1..], g);
      assert ts == [ts[0]] + ts[1..] && us == [us[0]] + us[1..];
    }
  }
}
