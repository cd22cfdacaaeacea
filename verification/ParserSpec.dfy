/** The recursive-descent parser as pure functions that stop at the first error, and
    what it means to read a sequence of tokens. The module ParserProofs shows that the
    functions accept exactly the grammar.

    The C code keeps going after an error with the token type set to TOK_ERROR; the
    module Parser shows that it computes these functions.
 */
module ParserSpec {
  import opened Names
  import opened Lexer
  import opened Grammar

  /** A failure holds the token that could not be used. */
  datatype Parsed = Parsed(cst: Cst, at: Cursor) | Failed(bad: Cursor)

  datatype ParsedArgs = ParsedArgs(args: seq<Cst>, at: Cursor) | FailedArgs(bad: Cursor)

  /** Parses the symbol of the given level from the cursor. The recursion ends on every
      input because each cycle passes a token that consumed a character. */
  function ParseLevel(src: Source, level: nat, at: Cursor): (r: Parsed)
    requires src.Valid() && ValidCursor(src, at) && level <= LIST
    ensures r.Parsed? ==> ValidCursor(src, r.at) && Measure(src, r.at) <= Measure(src, at) && r.at.index >= at.index
    ensures r.Failed? ==> ValidCursor(src, r.bad) && at.pos <= r.bad.pos && r.bad.index >= at.index
    decreases Measure(src, at), 2 * level + 1
  {
    if level == 0 then ParseBase(src, at)
    else if level == POWER then ParseSigned(src, [], at)
    else
      match ParseLevel(src, level - 1, at)
      case Failed(p) => Failed(p)
      case Parsed(c, a) => ParseTail(src, level, c, a)
  }

  /** The repetition of a level, with what has been parsed of it so far. */
  function ParseTail(src: Source, level: nat, left: Cst, at: Cursor): (r: Parsed)
    requires src.Valid() && ValidCursor(src, at) && 2 <= level <= LIST
    ensures r.Parsed? ==> ValidCursor(src, r.at) && Measure(src, r.at) <= Measure(src, at) && r.at.index >= at.index
    ensures r.Failed? ==> ValidCursor(src, r.bad) && at.pos <= r.bad.pos && r.bad.index >= at.index
    decreases Measure(src, at), 2 * level
  {
    if InfixLevel(at.tok) != level then Parsed(left, at)
    else
      match ParseLevel(src, level - 1, Advance(src, at))
      case Failed(p) => Failed(p)
      case Parsed(right, a) => ParseTail(src, level, CBinary(InfixOp(at.tok), left, right), a)
  }

  function ParseSigned(src: Source, signs: seq<Fn>, at: Cursor): (r: Parsed)
    requires src.Valid() && ValidCursor(src, at)
    ensures r.Parsed? ==> ValidCursor(src, r.at) && Measure(src, r.at) <= Measure(src, at) && r.at.index >= at.index
    ensures r.Failed? ==> ValidCursor(src, r.bad) && at.pos <= r.bad.pos && r.bad.index >= at.index
    decreases Measure(src, at), 2
  {
    if IsSign(at.tok) then ParseSigned(src, signs + [at.tok.op], Advance(src, at))
    else
      match ParseBase(src, at)
      case Failed(p) => Failed(p)
      case Parsed(c, a) => Parsed(if signs == [] then c else CSigned(signs, c), a)
  }

  function ParseBase(src: Source, at: Cursor): (r: Parsed)
    requires src.Valid() && ValidCursor(src, at)
    ensures r.Parsed? ==> ValidCursor(src, r.at) && Measure(src, r.at) <= Measure(src, at) && r.at.index >= at.index
    ensures r.Failed? ==> ValidCursor(src, r.bad) && at.pos <= r.bad.pos && r.bad.index >= at.index
    decreases Measure(src, at), 0
  {
    match at.tok
    case TNumber(v) => Parsed(CNumber(v), Advance(src, at))
    case TVariable(b) => Parsed(CVariable(b), Advance(src, at))
    case TCall(kind, fn, context) => ParseCall(src, kind, fn, context, Advance(src, at))
    case TOpen =>
      (match ParseLevel(src, LIST, Advance(src, at))
       case Failed(p) => Failed(p)
       case Parsed(c, a) => if a.tok != TClose then Failed(a) else Parsed(CParen(c), Advance(src, a)))
    case _ => Failed(at)
  }

  /** What follows the name of a function or closure. */
  function ParseCall(src: Source, kind: Kind, fn: Fn, context: Addr, at: Cursor): (r: Parsed)
    requires src.Valid() && ValidCursor(src, at) && kind.Legal()
    ensures r.Parsed? ==> ValidCursor(src, r.at) && Measure(src, r.at) <= Measure(src, at) && r.at.index >= at.index
    ensures r.Failed? ==> ValidCursor(src, r.bad) && at.pos <= r.bad.pos && r.bad.index >= at.index
    decreases Measure(src, at), 20
  {
    if kind.arity == 0 then
      if at.tok != TOpen then Parsed(CCall(kind, fn, context, 0, []), at)
      else
        var a := Advance(src, at);
        if a.tok != TClose then Failed(a)
        else Parsed(CCall(kind, fn, context, 1, []), Advance(src, a))
    else if kind.arity == 1 then
      match ParseLevel(src, POWER, at)
      case Failed(p) => Failed(p)
      case Parsed(c, a) => Parsed(CCall(kind, fn, context, 0, [c]), a)
    else if at.tok != TOpen then Failed(at)
    else
      match ParseArgs(src, kind.arity, [], at)
      case FailedArgs(p) => Failed(p)
      case ParsedArgs(args, a) => Parsed(CCall(kind, fn, context, 1, args), a)
  }

  /** n more arguments; the cursor is on the parenthesis or comma before the next one. */
  function ParseArgs(src: Source, n: nat, done: seq<Cst>, at: Cursor): (r: ParsedArgs)
    requires src.Valid() && ValidCursor(src, at) && n >= 1 && Consumes(at.tok)
    ensures r.ParsedArgs? ==> ValidCursor(src, r.at) && Measure(src, r.at) <= Measure(src, at) && r.at.index >= at.index
    ensures r.FailedArgs? ==> ValidCursor(src, r.bad) && at.pos <= r.bad.pos && r.bad.index >= at.index
    decreases Measure(src, at), 0
  {
    match ParseLevel(src, EXPR, Advance(src, at))
    case Failed(p) => FailedArgs(p)
    case Parsed(c, a) =>
      if n > 1 && a.tok == TSep then ParseArgs(src, n - 1, done + [c], a)
      else if n == 1 && a.tok == TClose then ParsedArgs(done + [c], Advance(src, a))
      else FailedArgs(a)
  }

  // ---------------------------------------------------------------------
  // Reading a token sequence
  // ---------------------------------------------------------------------

  /** From cursor a the tokens ts are read and b is reached. */
  ghost predicate Reads(src: Source, a: Cursor, ts: seq<Token>, b: Cursor)
    requires src.Valid() && ValidCursor(src, a)
    decreases |ts|
  {
    if ts == [] then a == b else a.tok == ts[0] && Reads(src, Advance(src, a), ts[1..], b)
  }

  lemma {:induction false} ReadsOne(src: Source, a: Cursor)
    requires src.Valid() && ValidCursor(src, a)
    ensures Reads(src, a, [a.tok], Advance(src, a))
  {
    assert [a.tok][1..] == [];
  }

  lemma {:induction false} ReadsValid(src: Source, a: Cursor, ts: seq<Token>, b: Cursor)
    requires src.Valid() && ValidCursor(src, a) && Reads(src, a, ts, b)
    ensures ValidCursor(src, b)
    decreases |ts|
  {
    if ts != [] {
      ReadsValid(src, Advance(src, a), ts[1..], b);
    }
  }

  lemma {:induction false} ReadsConcat(src: Source, a: Cursor, s: seq<Token>, b: Cursor, t: seq<Token>, c: Cursor)
    requires src.Valid() && ValidCursor(src, a) && ValidCursor(src, b)
    requires Reads(src, a, s, b) && Reads(src, b, t, c)
    ensures Reads(src, a, s + t, c)
    decreases |s|
  {
    if s == [] {
      assert s + t == t;
    } else {
      ReadsConcat(src, Advance(src, a), s[1..], b, t, c);
      assert (s + t)[1..] == s[1..] + t;
    }
  }

  lemma {:induction false} ReadsThenOne(src: Source, a: Cursor, s: seq<Token>, b: Cursor)
    requires src.Valid() && ValidCursor(src, a) && ValidCursor(src, b) && Reads(src, a, s, b)
    ensures Reads(src, a, s + [b.tok], Advance(src, b))
  {
    ReadsOne(src, b);
    ReadsConcat(src, a, s, b, [b.tok], Advance(src, b));
  }

  lemma {:induction false} ReadsSplit(src: Source, a: Cursor, s: seq<Token>, t: seq<Token>, c: Cursor) returns (b: Cursor)
    requires src.Valid() && ValidCursor(src, a) && Reads(src, a, s + t, c)
    ensures ValidCursor(src, b) && Reads(src, a, s, b) && Reads(src, b, t, c)
    decreases |s|
  {
    if s == [] {
      assert s + t == t;
      b := a;
    } else {
      assert (s + t)[1..] == s[1..] + t;
      b := ReadsSplit(src, Advance(src, a), s[1..], t, c);
    }
  }
}
