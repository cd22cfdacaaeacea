/** How the tokens are spelled, and that the lexer reads every spelling. */
module Spelling {
  import opened Names
  import opened Lexer
  import opened Grammar
  import opened Grouping
  import opened ParserSpec
  import opened ParserProofs
  import opened Precedence

  predicate IsLower(c: char) {
    c in {'a', 'b', 'c', 'd', 'e', 'f', 'g', 'h', 'i', 'j', 'k', 'l', 'm',
          'n', 'o', 'p', 'q', 'r', 's', 't', 'u', 'v', 'w', 'x', 'y', 'z'}
  }

  predicate IsUpper(c: char) {
    c in {'A', 'B', 'C', 'D', 'E', 'F', 'G', 'H', 'I', 'J', 'K', 'L', 'M',
          'N', 'O', 'P', 'Q', 'R', 'S', 'T', 'U', 'V', 'W', 'X', 'Y', 'Z'}
  }

  predicate IsLetter(c: char) {
    IsLower(c) || IsUpper(c)
  }

  predicate IsNumeral(c: char) {
    c in {'0', '1', '2', '3', '4', '5', '6', '7', '8', '9'}
  }

  predicate IsBlankChar(c: char) {
    c in {' ', '\t', '\n', '\r'}
  }

  /** The operators and the punctuation; TNull for no sign. */
  function Sign(c: char): Token {
    var signs := map['+' := TInfix(Add), '-' := TInfix(Sub), '*' := TInfix(Mul), '/' := TInfix(Divide),
                     '%' := TInfix(Fmod), '^' := TInfix(Pow), '(' := TOpen, ')' := TClose, ',' := TSep];
    if c in signs then signs[c] else TNull
  }

  predicate IsWordChar(c: char) {
    IsLetter(c) || IsNumeral(c) || c == '_'
  }

  predicate IsWord(s: string) {
    s != "" && IsLetter(s[0]) && AllWordChars(s, 0, |s|)
  }

  predicate AllWordChars(s: string, lo: nat, hi: nat)
    requires lo <= hi <= |s|
  {
    forall i :: lo <= i < hi ==> IsWordChar(s[i])
  }

  // ---------------------------------------------------------------------
  // What a name stands for
  // ---------------------------------------------------------------------

  /** The token carries exactly what the entry says. */
  predicate Carries(tok: Token, e: Entry) {
    match e
    case VariableEntry(_, bound) => tok.TVariable? && tok.bound == bound
    case CallEntry(_, kind, fn, context) => tok.TCall? && tok.kind == kind && tok.fn == fn && tok.context == context
  }

  predicate IsNamed(table: seq<Entry>, name: string) {
    exists i :: 0 <= i < |table| && table[i].name == name
  }

  /** tok carries the first entry of that name. */
  predicate FirstOf(table: seq<Entry>, name: string, tok: Token) {
    exists i :: 0 <= i < |table| && table[i].name == name && Carries(tok, table[i]) && !IsNamed(table[..i], name)
  }

  /** The user's table comes first, then the builtins; any other name is an error. */
  predicate StandsFor(lookup: seq<Entry>, name: string, tok: Token) {
    if IsNamed(lookup, name) then FirstOf(lookup, name, tok)
    else if IsNamed(BUILTINS, name) then FirstOf(BUILTINS, name, tok)
    else tok == TError
  }

  lemma {:induction false} SearchFinds(table: seq<Entry>, name: string)
    ensures IsNamed(table, name) <==> Search(table, name) >= 0
    ensures IsNamed(table, name) ==> forall tok ::
              FirstOf(table, name, tok) <==> tok == EntryToken(table[Search(table, name)])
  {
    var r := Search(table, name);
    if r >= 0 {
      forall tok
        ensures FirstOf(table, name, tok) <==> tok == EntryToken(table[r])
      {
        assert table[r].name == name && !IsNamed(table[..r], name);
        if FirstOf(table, name, tok) {
          var i :| 0 <= i < |table| && table[i].name == name && Carries(tok, table[i]) && !IsNamed(table[..i], name);
          assert i == r;
        }
      }
    }
  }

  lemma {:induction false} LookupStandsFor(lookup: seq<Entry>, name: string, tok: Token)
    ensures StandsFor(lookup, name, tok) <==> tok == Lookup(lookup, name)
  {
    hide EntryToken;
    hide Search;
    hide IsNamed;
    hide FirstOf;
    SearchFinds(lookup, name);
    SearchFinds(BUILTINS, name);
  }

  // ---------------------------------------------------------------------
  // Spelled tokens
  // ---------------------------------------------------------------------

  /** Some white space, then the text of a token. */
  datatype Piece = Piece(space: string, text: string, tok: Token)

  predicate IsBlank(s: string) {
    forall i :: 0 <= i < |s| ==> IsBlankChar(s[i])
  }

  /** At position q of the input stands the token: a sign, a whole word, a number as far as
      strtod reads it, or a character that belongs to no token. */
  predicate Spells(src: Source, q: nat, text: string, tok: Token) {
    && q < |src.text| && q + |text| <= |src.text| && src.text[q..q + |text|] == text
    && var ch := src.text[q];
       if IsNumeral(ch) || ch == '.' then tok.TNumber? && src.strtod(src.text, q) == (tok.value, q + |text|)
       else if IsLetter(ch) then
         && IsWord(text) && (q + |text| < |src.text| ==> !IsWordChar(src.text[q + |text|]))
         && StandsFor(src.lookup, text, tok)
       else if Sign(ch) != TNull then |text| == 1 && tok == Sign(ch)
       else |text| == 1 && !IsBlankChar(ch) && tok == TError
  }

  predicate SpelledAt(src: Source, p: nat, piece: Piece) {
    && p + |piece.space| <= |src.text|
    && src.text[p..p + |piece.space|] == piece.space && IsBlank(piece.space)
    && Spells(src, p + |piece.space|, piece.text, piece.tok)
  }

  function After(p: nat, piece: Piece): nat {
    p + |piece.space| + |piece.text|
  }

  /** From position p the input is the pieces one after the other, then white space. */
  predicate Spelled(src: Source, p: nat, pieces: seq<Piece>)
    decreases |pieces|
  {
    if pieces == [] then p <= |src.text| && IsBlank(src.text[p..])
    else SpelledAt(src, p, pieces[0]) && Spelled(src, After(p, pieces[0]), pieces[1..])
  }

  function Tokens(pieces: seq<Piece>): seq<Token> {
    seq(|pieces|, i requires 0 <= i < |pieces| => pieces[i].tok)
  }

  // ---------------------------------------------------------------------
  // Characters
  // ---------------------------------------------------------------------

  lemma {:induction false} Letters(c: char)
    ensures IsAlpha(c) <==> IsLetter(c)
  {
    Lower(c);
    Upper(c);
  }

  lemma {:induction false} Lower(c: char)
    ensures IsLower(c) <==> 'a' <= c <= 'z'
  {
  }

  lemma {:induction false} Upper(c: char)
    ensures IsUpper(c) <==> 'A' <= c <= 'Z'
  {
  }

  lemma {:induction false} Numerals(c: char)
    ensures IsDigit(c) <==> IsNumeral(c)
  {
  }

  lemma {:induction false} Blanks(c: char)
    ensures IsSpace(c) <==> IsBlankChar(c)
  {
  }

  lemma {:induction false} Signs(c: char)
    ensures Sign(c) != TNull ==> OperatorToken(c) == Sign(c) && !IsAlpha(c) && !IsDigit(c) && c != '.' && !IsSpace(c)
    ensures Sign(c) == TNull ==> OperatorToken(c) == TError
  {
  }

  lemma {:induction false} WordChars(c: char)
    ensures IsIdentifierChar(c) <==> IsWordChar(c)
  {
    hide IsAlpha;
    hide IsDigit;
    hide IsLetter;
    hide IsNumeral;
    Letters(c);
    Numerals(c);
  }

  lemma {:induction false} WordEnd(text: string, p: nat, q: nat)
    requires p <= q <= |text| && AllWordChars(text, p, q)
    requires q < |text| ==> !IsWordChar(text[q])
    ensures IdentifierEnd(text, p) == q
    decreases q - p
  {
    hide IsWordChar;
    hide IsIdentifierChar;
    if p < |text| {
      WordChars(text[p]);
    }
    if p < q {
      WordEnd(text, p + 1, q);
    }
  }

  // ---------------------------------------------------------------------
  // The lexer reads every spelling
  // ---------------------------------------------------------------------

  lemma {:induction false} SkipsBlanks(src: Source, p: nat, q: nat, i: nat)
    requires src.Valid() && p <= q <= |src.text| && IsBlank(src.text[p..q])
    ensures TokenFrom(src, p, i) == TokenFrom(src, q, i)
    decreases q - p
  {
    if p < q {
      hide IsBlankChar;
      var ch := src.text[p];
      assert src.text[p..q][0] == ch;
      Blanks(ch);
      assert src.text[p + 1..q] == src.text[p..q][1..];
      SkipsBlanks(src, p + 1, q, i);
    }
  }

  lemma {:induction false} ReadsSpelled(src: Source, q: nat, text: string, tok: Token, i: nat)
    requires src.Valid() && Spells(src, q, text, tok)
    ensures TokenFrom(src, q, i) == Cursor(tok, q + |text|, i)
  {
    hide IsAlpha;
    hide IsDigit;
    hide IsSpace;
    hide OperatorToken;
    hide Lookup;
    hide StandsFor;
    hide IsWordChar;
    hide IdentifierEnd;
    hide IsLetter;
    hide IsNumeral;
    hide IsBlankChar;
    hide Sign;
    var ch := src.text[q];
    Letters(ch);
    Numerals(ch);
    Blanks(ch);
    Signs(ch);
    if !(IsNumeral(ch) || ch == '.') && IsLetter(ch) {
      var end := q + |text|;
      forall k | q <= k < end
        ensures IsWordChar(src.text[k])
      {
        assert src.text[k] == text[k - q];
      }
      WordEnd(src.text, q, end);
      LookupStandsFor(src.lookup, text, tok);
    }
  }

  lemma {:induction false} ReadsPiece(src: Source, p: nat, piece: Piece, i: nat)
    requires src.Valid() && SpelledAt(src, p, piece)
    ensures TokenFrom(src, p, i) == Cursor(piece.tok, After(p, piece), i)
  {
    hide TokenFrom;
    hide Spells;
    SkipsBlanks(src, p, p + |piece.space|, i);
    ReadsSpelled(src, p + |piece.space|, piece.text, piece.tok, i);
  }

  lemma {:induction false} ReadsPieces(src: Source, p: nat, pieces: seq<Piece>, i: nat)
    requires src.Valid() && p <= |src.text| && Spelled(src, p, pieces)
    ensures Reads(src, TokenFrom(src, p, i), Tokens(pieces), Cursor(TEnd, |src.text|, i + |pieces|))
    decreases |pieces|
  {
    hide SpelledAt;
    hide IsBlank;
    hide TokenFrom;
    if pieces == [] {
      assert src.text[p..|src.text|] == src.text[p..];
      SkipsBlanks(src, p, |src.text|, i);
      AtEnd(src, i);
    } else {
      ReadsPiece(src, p, pieces[0], i);
      ReadsPieces(src, After(p, pieces[0]), pieces[1..], i + 1);
      assert Tokens(pieces)[1..] == Tokens(pieces[1..]);
    }
  }

  lemma {:induction false} AtEnd(src: Source, i: nat)
    requires src.Valid()
    ensures TokenFrom(src, |src.text|, i) == Cursor(TEnd, |src.text|, i)
  {
  }

  /** Whatever tokens the input spells, with whatever white space between them, the lexer
      reads exactly those, one after the other, and then the end. */
  lemma {:induction false} ReadsSpelling(src: Source, pieces: seq<Piece>)
    requires src.Valid() && Spelled(src, 0, pieces)
    ensures Reads(src, Start(src), Tokens(pieces), Cursor(TEnd, |src.text|, 1 + |pieces|))
  {
    ReadsPieces(src, 0, pieces, 1);
  }

  /** At every position either only white space is left or a token is spelled. */
  lemma {:induction false} EverythingIsSpelled(src: Source, p: nat) returns (piece: Piece)
    requires src.Valid() && p <= |src.text|
    ensures IsBlank(src.text[p..]) || SpelledAt(src, p, piece)
    decreases |src.text| - p
  {
    hide Spells;
    hide IsBlankChar;
    if p == |src.text| {
      piece := Piece("", "", TEnd);
    } else if IsBlankChar(src.text[p]) {
      piece := EverythingIsSpelled(src, p + 1);
      var space := [src.text[p]] + piece.space;
      assert src.text[p..] == [src.text[p]] + src.text[p + 1..];
      if SpelledAt(src, p + 1, piece) {
        assert src.text[p..p + |space|] == space;
      }
      piece := piece.(space := space);
    } else {
      var text, tok := TextAt(src, p);
      piece := Piece("", text, tok);
    }
  }

  lemma {:induction false} TextAt(src: Source, p: nat) returns (text: string, tok: Token)
    requires src.Valid() && p < |src.text| && !IsBlankChar(src.text[p])
    ensures Spells(src, p, text, tok)
  {
    hide StandsFor;
    hide Lookup;
    hide IsWordChar;
    hide IsIdentifierChar;
    hide IdentifierEnd;
    hide IsLetter;
    hide IsNumeral;
    hide IsBlankChar;
    hide Sign;
    var ch := src.text[p];
    if IsNumeral(ch) || ch == '.' {
      var (v, q) := src.strtod(src.text, p);
      text, tok := src.text[p..q], TNumber(v);
    } else if IsLetter(ch) {
      text := WordAt(src.text, p);
      tok := Lookup(src.lookup, text);
      LookupStandsFor(src.lookup, text, tok);
    } else {
      text := [ch];
      tok := if Sign(ch) != TNull then Sign(ch) else TError;
      assert src.text[p..p + 1] == [ch];
    }
  }

  lemma {:induction false} WordAt(text: string, p: nat) returns (word: string)
    requires p < |text| && IsLetter(text[p])
    ensures p + |word| <= |text| && text[p..p + |word|] == word && IsWord(word)
    ensures p + |word| < |text| ==> !IsWordChar(text[p + |word|])
  {
    hide IsLetter;
    hide IsNumeral;
    var q := IdentifierEnd(text, p);
    forall k | p <= k < |text|
      ensures IsIdentifierChar(text[k]) <==> IsWordChar(text[k])
    {
      WordChars(text[k]);
    }
    assert IsWordChar(text[p]);
    word := text[p..q];
    assert q > p;
  }

  // ---------------------------------------------------------------------
  // From text to tree
  // ---------------------------------------------------------------------

  predicate Writes(text: string, op: Fn) {
    match op
    case Add => text == "+"
    case Sub => text == "-"
    case Mul => text == "*"
    case Divide => text == "/"
    case Fmod => text == "%"
    case Pow => text == "^"
    case Comma => text == ","
    case _ => false
  }

  /** A binary operation on two variables, spelled with any white space: x + y, x - y, x * y,
      x / y, x % y, x ^ y and x , y each stand for the operator of that sign. */
  lemma {:induction false} BinaryText(src: Source, x: Piece, sign: Piece, y: Piece, op: Fn)
    requires src.Valid() && Spelled(src, 0, [x, sign, y]) && x.tok.TVariable? && y.tok.TVariable?
    requires Writes(sign.text, op)
    ensures Accepted(src).Parsed?
    ensures Denote(Accepted(src).cst, src.powFromRight) == Binary(op, Variable(x.tok.bound), Variable(y.tok.bound))
  {
    hide TokenFrom;
    hide Accepted;
    hide Reads;
    hide SpelledAt;
    hide Writes;
    hide ByPrecedence;
    hide Denote;
    var pieces := [x, sign, y];
    ReadsSpelling(src, pieces);
    assert pieces[1..] == [sign, y] && [sign, y][1..] == [y];
    assert SpelledAt(src, After(0, x), sign);
    SignToken(src, After(0, x), sign, op);
    var cs := [CVariable(x.tok.bound), CVariable(y.tok.bound)];
    assert Tokens(pieces) == Yield(cs[0]) + [OpToken(op)] + Yield(cs[1]);
    assert cs[1..] == [cs[1]] && [op][1..] == [];
    assert Interleaved([op], cs) == Tokens(pieces);
    ParsedByPrecedence(src, [op], cs, Cursor(TEnd, |src.text|, 4));
    TwoVariables(op, cs[0].bound, cs[1].bound, src.powFromRight);
  }

  lemma {:induction false} SignToken(src: Source, p: nat, sign: Piece, op: Fn)
    requires SpelledAt(src, p, sign)
    requires Writes(sign.text, op)
    ensures sign.tok == OpToken(op) && Looseness(op) > 0
  {
    hide StandsFor;
    hide IsWordChar;
    var ch := src.text[p + |sign.space|];
    assert |sign.text| == 1 && ch == sign.text[0];
    SignChar(ch, op);
  }

  lemma {:induction false} SignChar(ch: char, op: Fn)
    requires Writes([ch], op)
    ensures !IsNumeral(ch) && ch != '.' && !IsLetter(ch) && Sign(ch) == OpToken(op) && Looseness(op) > 0
  {
    Letters(ch);
    Numerals(ch);
    Signs(ch);
  }

  lemma {:induction false} TwoVariables(op: Fn, a: Addr, b: Addr, right: bool)
    ensures ByPrecedence([op], DenoteAll([CVariable(a), CVariable(b)], right), right) == Binary(op, Variable(a), Variable(b))
  {
    var ts := DenoteAll([CVariable(a), CVariable(b)], right);
    assert ts == [Variable(a), Variable(b)];
    OneOperator(op, ts[0], ts[1]);
    assert ts[1..] == [Variable(b)] && ts[..1] == [Variable(a)] && [op][..0] == [] && [op][1..] == [];
  }
}
