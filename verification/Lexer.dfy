/** TinyExpr's lexer, next_token. */
module Lexer {
  import opened Names

  /** A double, kept opaque: only its identity as a bit pattern matters. */
  datatype Double = Double(bits: nat)

  const NAN: Double := Double(0x7ff8_0000_0000_0000)

  /** The token classes with the union members that are valid for each. */
  datatype Token =
    | TNull
    | TError
    | TEnd
    | TSep
    | TOpen
    | TClose
    | TNumber(value: Double)
    | TVariable(bound: Addr)
    | TInfix(op: Fn)
    | TCall(kind: Kind, fn: Fn, context: Addr)

  /** What te_compile is given: the expression, the user's table, the C library's strtod,
      which returns a value and the position after it, and whether the library was built
      with TE_POW_FROM_RIGHT. */
  datatype Source = Source(text: string, lookup: seq<Entry>, strtod: (string, nat) -> (Double, nat), powFromRight: bool) {

    /** strtod by section 7.22.1.3 of ISO/IEC 9899:2011, as far as it is relied on: it
        never moves backwards or past the end, and it moves on over a digit. On a
        lone '.' it need not move at all. */
    ghost predicate StrtodContract() {
      forall p: nat :: p < |text| ==>
                         && p <= strtod(text, p).1 <= |text|
                         && (IsDigit(text[p]) ==> p < strtod(text, p).1)
    }

    ghost predicate Valid() {
      && StrtodContract()
      && LegalTable(lookup)
      && forall i :: 0 <= i < |text| ==> text[i] != '\0'
    }
  }

  predicate IsDigit(c: char) {
    '0' <= c <= '9'
  }

  predicate IsAlpha(c: char) {
    'a' <= c <= 'z' || 'A' <= c <= 'Z'
  }

  predicate IsIdentifierChar(c: char) {
    IsAlpha(c) || IsDigit(c) || c == '_'
  }

  predicate IsSpace(c: char) {
    c == ' ' || c == '\t' || c == '\n' || c == '\r'
  }

  /** The end of the longest identifier from p. */
  function IdentifierEnd(text: string, p: nat): (q: nat)
    requires p <= |text|
    ensures p <= q <= |text|
    ensures forall i :: p <= i < q ==> IsIdentifierChar(text[i])
    ensures q < |text| ==> !IsIdentifierChar(text[q])
    decreases |text| - p
  {
    if p < |text| && IsIdentifierChar(text[p]) then IdentifierEnd(text, p + 1) else p
  }

  function EntryToken(e: Entry): Token {
    match e
    case VariableEntry(_, bound) => TVariable(bound)
    case CallEntry(_, kind, fn, context) => TCall(kind, fn, context)
  }

  /** What an identifier means: the user's first entry with that name, else the
      builtin, else an error. */
  function Lookup(lookup: seq<Entry>, name: string): Token {
    var i := Search(lookup, name);
    if i >= 0 then EntryToken(lookup[i])
    else
      var j := Search(BUILTINS, name);
      if j >= 0 then EntryToken(BUILTINS[j]) else TError
  }

  function OperatorToken(c: char): Token {
    match c
    case '+' => TInfix(Add)
    case '-' => TInfix(Sub)
    case '*' => TInfix(Mul)
    case '/' => TInfix(Divide)
    case '^' => TInfix(Pow)
    case '%' => TInfix(Fmod)
    case '(' => TOpen
    case ')' => TClose
    case ',' => TSep
    case _ => TError
  }

  /** The current token, the position after it and its number in the input, from 1. */
  datatype Cursor = Cursor(tok: Token, pos: nat, index: nat)

  /** The token read from position p, token number i. */
  function TokenFrom(src: Source, p: nat, i: nat): (c: Cursor)
    requires src.Valid() && p <= |src.text|
    ensures p <= c.pos <= |src.text| && c.index == i
    ensures Consumes(c.tok) ==> p < c.pos
    ensures c.tok != TNull
    ensures c.tok.TCall? ==> c.tok.kind.Legal()
    decreases |src.text| - p
  {
    if p == |src.text| then Cursor(TEnd, p, i)
    else
      var ch := src.text[p];
      if IsDigit(ch) || ch == '.' then
        var (v, q) := src.strtod(src.text, p);
        Cursor(TNumber(v), q, i)
      else if IsAlpha(ch) then
        var q := IdentifierEnd(src.text, p);
        LookupLegal(src.lookup, src.text[p..q]);
        Cursor(Lookup(src.lookup, src.text[p..q]), q, i)
      else if IsSpace(ch) then TokenFrom(src, p + 1, i)
      else Cursor(OperatorToken(ch), p + 1, i)
  }

  lemma {:induction false} LookupLegal(lookup: seq<Entry>, name: string)
    requires LegalTable(lookup)
    ensures var t := Lookup(lookup, name); t != TNull && (t.TCall? ==> t.kind.Legal())
  {
    var j := Search(BUILTINS, name);
    if j >= 0 {
      BuiltinLegal(j);
    }
  }

  /** The tokens the parser goes on after. Unlike a number, which may be empty, each of
      them stands for at least one character. */
  predicate Consumes(t: Token) {
    t.TSep? || t.TOpen? || t.TClose? || t.TVariable? || t.TInfix? || t.TCall?
  }

  ghost predicate ValidCursor(src: Source, c: Cursor) {
    && c.pos <= |src.text|
    && (c.tok.TCall? ==> c.tok.kind.Legal())
  }

  function Advance(src: Source, c: Cursor): (r: Cursor)
    requires src.Valid() && ValidCursor(src, c)
    ensures ValidCursor(src, r) && r.index == c.index + 1
    ensures Measure(src, r) <= Measure(src, c)
    ensures Consumes(c.tok) ==> Measure(src, r) < Measure(src, c)
  {
    TokenFrom(src, c.pos, c.index + 1)
  }

  /** The parser's termination measure: it also falls when a token that consumed
      input is followed by a number that did not. */
  function Measure(src: Source, c: Cursor): nat
    requires c.pos <= |src.text|
  {
    2 * (|src.text| - c.pos) + if Consumes(c.tok) then 1 else 0
  }

  /** A lone '.' may be read as a number again and again without moving, so a token
      need not consume input. */
  lemma {:induction false} NumberNeedNotConsume(lookup: seq<Entry>)
    requires LegalTable(lookup)
    ensures var src := Source(".", lookup, (t: string, p: nat) => (NAN, p + if p < |t| && IsDigit(t[p]) then 1 else 0), false);
            src.Valid() && TokenFrom(src, 0, 1) == Cursor(TNumber(NAN), 0, 1)
  {
  }

  /** find_lookup, then find_builtin. */
  method FindName(lookup: seq<Entry>, name: string) returns (tok: Token)
    requires LegalTable(lookup) && IsName(name)
    ensures tok == Lookup(lookup, name)
  {
    var i := FindLookup(lookup, name);
    if i >= 0 {
      return EntryToken(lookup[i]);
    }
    BuiltinsSorted();
    var j := FindBuiltin(BUILTINS, name);
    if j >= 0 {
      SearchUnique(BUILTINS, name, j);
      return EntryToken(BUILTINS[j]);
    }
    return TError;
  }

  /** The parser state of the source, without the fields that never change. */
  class State {
    const src: Source
    var tok: Token
    var next: nat
    ghost var index: nat

    ghost predicate Valid()
      reads this
    {
      src.Valid() && ValidCursor(src, Cursor(tok, next, index))
    }

    ghost function Here(): Cursor
      reads this
    {
      Cursor(tok, next, index)
    }

    constructor (src: Source)
      requires src.Valid()
      ensures Valid() && this.src == src && Here() == Cursor(TNull, 0, 0)
    {
      this.src := src;
      next := 0;
      tok := TNull;
      index := 0;
    }

    /** next_token */
    method NextToken()
      requires Valid()
      modifies this
      ensures Valid() && Here() == old(Advance(src, Here()))
    {
      ghost var goal := TokenFrom(src, next, index + 1);
      tok := TNull;
      index := index + 1;
      while tok == TNull
        invariant next <= |src.text|
        invariant tok == TNull ==> TokenFrom(src, next, index) == goal
        invariant tok != TNull ==> Cursor(tok, next, index) == goal
        decreases |src.text| - next, tok == TNull
      {
        if next == |src.text| {
          tok := TEnd;
          return;
        }
        var ch := src.text[next];
        if IsDigit(ch) || ch == '.' {
          var (v, q) := src.strtod(src.text, next);
          tok, next := TNumber(v), q;
        } else if IsAlpha(ch) {
          ReadIdentifier();
        } else {
          next := next + 1;
          if !IsSpace(ch) {
            tok := OperatorToken(ch);
          }
        }
      }
    }

    method ReadIdentifier()
      requires src.Valid() && next < |src.text| && IsAlpha(src.text[next])
      modifies this
      ensures next == IdentifierEnd(src.text, old(next)) && next > old(next) && index == old(index)
      ensures tok == Lookup(src.lookup, src.text[old(next)..next]) && tok != TNull
    {
      var start := next;
      while next < |src.text| && IsIdentifierChar(src.text[next])
        invariant start <= next <= |src.text| && index == old(index)
        invariant IdentifierEnd(src.text, next) == IdentifierEnd(src.text, start)
      {
        next := next + 1;
      }
      var name := src.text[start..next];
      LookupLegal(src.lookup, name);
      tok := FindName(src.lookup, name);
    }
  }

  /** User entries shadow builtins. */
  lemma {:induction false} UserEntriesShadow(lookup: seq<Entry>, name: string, i: nat)
    requires i < |lookup| && lookup[i].name == name
    ensures exists t :: 0 <= t <= i && lookup[t].name == name && Lookup(lookup, name) == EntryToken(lookup[t])
  {
    var t := Search(lookup, name);
    assert lookup[t].name == name;
  }
}
