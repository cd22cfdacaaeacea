/** The recursive-descent parser as the C code runs it: it builds nodes on the heap,
    goes on after a syntax error with the token type set to TOK_ERROR, and unwinds
    when an allocation fails.

    factor, term, expr and list have one shape and differ only in their operators;
    they are the method Chain at the levels 2 to 5. The factor of a library built with
    TE_POW_FROM_RIGHT is the method FactorRight.
 */
module Parser {
  import opened Names
  import opened Lexer
  import opened Grammar
  import opened Grouping
  import opened ParserSpec
  import opened NodeHeap
  import opened PowerFromRight

  /** The sticky error: TOK_ERROR in place of the token that could not be used. */
  function Stuck(bad: Cursor): Cursor {
    bad.(tok := TError)
  }

  /** What a parsing function has done when it returns a node: the state is where the
      specification stops, and the tree is the one it stands for. After an error the
      tree is some tree and the state is stuck on TOK_ERROR. */
  ghost predicate Computes(src: Source, r: Parsed, here: Cursor, t: HTree) {
    match r
    case Parsed(c, at) => here == at && Erase(t) == Denote(c, src.powFromRight)
    case Failed(bad) => here == Stuck(bad)
  }

  ghost predicate Matching(kids: seq<HTree>, csts: seq<Cst>, right: bool) {
    EraseAll(kids) == DenoteAll(csts, right)
  }

  ghost predicate ComputesArgs(src: Source, r: ParsedArgs, here: Cursor, kids: seq<HTree>) {
    match r
    case ParsedArgs(args, at) => here == at && Matching(kids, args, src.powFromRight)
    case FailedArgs(bad) => here == Stuck(bad)
  }

  /** The state does not climb in the termination measure. */
  ghost predicate Below(src: Source, here: Cursor, start: Cursor) {
    here.pos <= |src.text| && start.pos <= |src.text| && Measure(src, here) <= Measure(src, start)
  }

  /** The outcome of a parsing function: a null pointer after exactly one failed
      allocation, with the heap as it was, or a tree that accounts for everything
      allocated. */
  ghost predicate Outcome(before: map<Addr, Cell>, after: map<Addr, Cell>, failed: nat, p: Addr, t: HTree) {
    if p == 0 then t == Nil && after == before && failed == 1
    else t.Node? && t.addr == p && Grew(before, after, t) && failed == 0 && OperandSet(t)
  }

  /** A node with one parameter is never returned without it. */
  ghost predicate OperandSet(t: HTree) {
    t.Node? && Arity(t.ty) == 1 ==> |t.kids| == 1 && t.kids[0].Node?
  }

  /** s->type = TOK_ERROR */
  method SetError(s: State)
    requires s.Valid()
    modifies s
    ensures s.Valid() && s.Here() == Stuck(old(s.Here()))
    ensures Below(s.src, s.Here(), old(s.Here()))
  {
    s.tok := TError;
  }

  /** new_expr followed by setting the function pointer. */
  method NewCall(h: Heap, kind: Kind, fn: Fn, parameters: seq<Addr>) returns (p: Addr)
    requires |parameters| == kind.arity >= 1 && !kind.closure
    modifies h
    ensures p == 0 ==> h.cells == old(h.cells) && h.failures == old(h.failures) + 1
    ensures p != 0 ==>
              && p !in old(h.cells) && h.failures == old(h.failures)
              && h.cells == old(h.cells)[p := Cell(TyCall(kind), Code(fn), parameters)]
  {
    p := h.NewExpr(TyCall(kind), parameters);
    if p == 0 {
      return;
    }
    h.SetPayload(p, Code(fn));
    assert InitialSlots(TyCall(kind), parameters) == parameters;
  }

  lemma {:induction false} EraseBinary(p: Addr, op: Fn, a: HTree, b: HTree)
    ensures Erase(Node(p, TyCall(BINARY), Code(op), [a, b], [])) == Binary(op, Erase(a), Erase(b))
  {
    assert EraseAll([a, b]) == [Erase(a), Erase(b)];
  }

  lemma {:induction false} DenoteBinary(op: Fn, l: Cst, r: Cst, right: bool)
    requires !right || op != Pow
    ensures Denote(CBinary(op, l, r), right) == Binary(op, Denote(l, right), Denote(r, right))
  {
  }

  lemma {:induction false} DenoteSigned(signs: seq<Fn>, c: Cst, right: bool)
    ensures Denote(CSigned(signs, c), right) == if OddMinuses(signs) then Negation(Denote(c, right)) else Denote(c, right)
    ensures signs == [] ==> !OddMinuses(signs)
  {
  }

  lemma {:induction false} EraseUnary(p: Addr, kind: Kind, fn: Fn, a: HTree, extra: seq<Addr>)
    ensures EraseAll([a]) == [Erase(a)]
    ensures Erase(Node(p, TyCall(kind), Code(fn), [a], extra))
         == Call(kind, fn, if kind.closure && extra != [] then extra[0] else 0, [Erase(a)])
  {
    assert EraseAll([a]) == [Erase(a)];
  }

  /** The definitions of the repetition, for use where they are hidden. */
  lemma {:induction false} LevelStarts(src: Source, level: nat, at: Cursor)
    requires src.Valid() && ValidCursor(src, at) && 2 <= level <= LIST
    ensures ParseLevel(src, level, at)
         == var r := ParseLevel(src, level - 1, at); if r.Failed? then r else ParseTail(src, level, r.cst, r.at)
  {
    hide TokenFrom;
  }

  lemma {:induction false} TailContinues(src: Source, level: nat, left: Cst, at: Cursor)
    requires src.Valid() && ValidCursor(src, at) && 2 <= level <= LIST && InfixLevel(at.tok) == level
    ensures ParseTail(src, level, left, at)
         == var r := ParseLevel(src, level - 1, Advance(src, at));
            if r.Failed? then r else ParseTail(src, level, CBinary(InfixOp(at.tok), left, r.cst), r.at)
  {
    hide TokenFrom;
  }

  lemma {:induction false} TailEnds(src: Source, level: nat, left: Cst, at: Cursor)
    requires src.Valid() && ValidCursor(src, at) && 2 <= level <= LIST && InfixLevel(at.tok) != level
    ensures ParseTail(src, level, left, at) == Parsed(left, at)
  {
  }

  /** factor, term, expr and list: an operand of the level below, then as many operators
      of this level with another operand as there are, grouped to the left. */
  method Chain(h: Heap, s: State, level: nat) returns (p: Addr, ghost t: HTree)
    requires s.Valid() && 2 <= level <= LIST && (s.src.powFromRight ==> level > FACTOR)
    modifies h, s
    ensures s.Valid() && h.failures >= old(h.failures)
    ensures Outcome(old(h.cells), h.cells, h.failures - old(h.failures), p, t)
    ensures p != 0 ==> Below(s.src, s.Here(), old(s.Here()))
    ensures p != 0 ==> Computes(s.src, ParseLevel(s.src, level, old(s.Here())), s.Here(), t)
    decreases Measure(s.src, s.Here()), 2 * level + 1
  {
    hide HeapOf;
    hide HeapOfAll;
    hide Proper;
    hide ProperAll;
    hide Grew;
    hide TokenFrom;
    hide Erase;
    hide Denote;
    hide Binary;
    hide ParseLevel;
    hide ParseTail;
    hide Measure;
    ghost var before, start, count := h.cells, s.Here(), h.failures;
    ghost var goal := ParseLevel(s.src, level, start);
    LevelStarts(s.src, level, start);
    p, t := Symbol(h, s, level - 1);
    if p == 0 {
      return;
    }
    ghost var first := ParseLevel(s.src, level - 1, start);
    ghost var left := if first.Parsed? then first.cst else CNumber(NAN);
    while InfixLevel(s.tok) == level
      invariant s.Valid() && p != 0 && Outcome(before, h.cells, 0, p, t) && h.failures == count
      invariant Below(s.src, s.Here(), start)
      invariant (Erase(t) == Denote(left, s.src.powFromRight) && goal == ParseTail(s.src, level, left, s.Here()))
             || (goal.Failed? && s.Here() == Stuck(goal.bad))
      decreases Measure(s.src, s.Here())
    {
      var op := InfixOp(s.tok);
      TailContinues(s.src, level, left, s.Here());
      s.NextToken();
      ghost var c1 := h.cells;
      ghost var here := s.Here();
      var q;
      ghost var u;
      q, u := Symbol(h, s, level - 1);
      if q == 0 {
        GrewUndone(before, h.cells, t);
        h.TeFree(p, t);
        return 0, Nil;
      }
      ghost var c2 := h.cells;
      var prev := p;
      p := NewCall(h, BINARY, op, [prev, q]);
      if p == 0 {
        GrewUndone(c1, h.cells, u);
        h.TeFree(q, u);
        GrewUndone(before, h.cells, t);
        h.TeFree(prev, t);
        return 0, Nil;
      }
      ghost var node := Node(p, TyCall(BINARY), Code(op), [t, u], []);
      assert Roots([t, u]) + [] == [prev, q];
      GrewBinary(before, c1, c2, h.cells, t, u, node);
      EraseBinary(p, op, t, u);
      t := node;
      ghost var right := ParseLevel(s.src, level - 1, here);
      if right.Parsed? {
        DenoteBinary(op, left, right.cst, s.src.powFromRight);
        left := CBinary(op, left, right.cst);
      }
    }
    TailEnds(s.src, level, left, s.Here());
  }

  /** The parsing function of a level. */
  method Symbol(h: Heap, s: State, level: nat) returns (p: Addr, ghost t: HTree)
    requires s.Valid() && 1 <= level <= LIST
    modifies h, s
    ensures s.Valid() && h.failures >= old(h.failures)
    ensures Outcome(old(h.cells), h.cells, h.failures - old(h.failures), p, t)
    ensures p != 0 ==> Below(s.src, s.Here(), old(s.Here()))
    ensures p != 0 ==> Computes(s.src, ParseLevel(s.src, level, old(s.Here())), s.Here(), t)
    decreases Measure(s.src, s.Here()), 2 * level + 2
  {
    if level == POWER {
      p, t := Power(h, s);
    } else if level == FACTOR && s.src.powFromRight {
      p, t := FactorRight(h, s);
    } else {
      p, t := Chain(h, s, level);
    }
  }

  /** power: the parity of the minus signs decides whether a negation is added. */
  method Power(h: Heap, s: State) returns (p: Addr, ghost t: HTree)
    requires s.Valid()
    modifies h, s
    ensures s.Valid() && h.failures >= old(h.failures)
    ensures Outcome(old(h.cells), h.cells, h.failures - old(h.failures), p, t)
    ensures p != 0 ==> Below(s.src, s.Here(), old(s.Here()))
    ensures p != 0 ==> Computes(s.src, ParseLevel(s.src, POWER, old(s.Here())), s.Here(), t)
    decreases Measure(s.src, s.Here()), 3
  {
    hide HeapOf;
    hide HeapOfAll;
    hide Proper;
    hide ProperAll;
    hide Grew;
    hide TokenFrom;
    hide Erase;
    hide Denote;
    ghost var before, start := h.cells, s.Here();
    ghost var goal := ParseLevel(s.src, POWER, start);
    ghost var signs: seq<Fn> := [];
    var sign := 1;
    while s.tok.TInfix? && (s.tok.op == Add || s.tok.op == Sub)
      invariant s.Valid() && Below(s.src, s.Here(), start)
      invariant h.cells == before && h.failures == old(h.failures)
      invariant sign == if OddMinuses(signs) then -1 else 1
      invariant goal == ParseSigned(s.src, signs, s.Here())
      decreases Measure(s.src, s.Here())
    {
      if s.tok.op == Sub {
        sign := -sign;
      }
      assert (signs + [s.tok.op])[..|signs|] == signs;
      signs := signs + [s.tok.op];
      s.NextToken();
    }
    ghost var inner := ParseBase(s.src, s.Here());
    if inner.Parsed? {
      DenoteSigned(signs, inner.cst, s.src.powFromRight);
    }
    if sign == 1 {
      p, t := Base(h, s);
    } else {
      var b;
      ghost var u;
      b, u := Base(h, s);
      if b == 0 {
        return 0, Nil;
      }
      ghost var mid := h.cells;
      p := NewCall(h, UNARY, Negate, [b]);
      if p == 0 {
        GrewUndone(before, h.cells, u);
        h.TeFree(b, u);
        return 0, Nil;
      }
      t := Node(p, TyCall(UNARY), Code(Negate), [u], []);
      assert Roots([u]) + [] == [b];
      GrewUnary(before, mid, h.cells, u, t);
      EraseUnary(p, UNARY, Negate, u, []);
    }
  }

  // ---------------------------------------------------------------------
  // factor with TE_POW_FROM_RIGHT
  // ---------------------------------------------------------------------

  /** The operands read so far and their trees. A negation on top of the first operand
      has been taken off and remembered. */
  ghost predicate OperandsMatch(cs: seq<Cst>, us: seq<HTree>, neg: bool) {
    && |cs| == |us| >= 1 && !cs[0].CBinary?
    && (forall i :: 1 <= i < |us| ==> Erase(us[i]) == Denote(cs[i], true))
    && Denote(cs[0], true) == (if neg then Negation(Erase(us[0])) else Erase(us[0]))
    && (!neg ==> !IsNegation(Erase(us[0])))
  }

  lemma {:induction false} OperandsDenote(cs: seq<Cst>, ss: seq<Addr>, us: seq<HTree>, neg: bool)
    requires OperandsMatch(cs, us, neg) && |us| == |ss| + 1
    ensures var t := Erase(Spine(ss, us));
            Denote(PowerChain(cs), true) == if neg then Negation(t) else t
  {
    EraseSpine(ss, us);
    if |cs| > 1 {
      ChainGroupsToTheRight(cs);
      assert EraseAll(us)[1..] == DenoteAll(cs[1..], true);
    }
  }

  lemma {:induction false} OperandsNext(cs: seq<Cst>, us: seq<HTree>, neg: bool, c: Cst, u: HTree)
    requires OperandsMatch(cs, us, neg) && Erase(u) == Denote(c, true)
    ensures OperandsMatch(cs + [c], us + [u], neg)
    ensures PowerChain(cs + [c]) == CBinary(Pow, PowerChain(cs), c)
  {
    PowerChainStep(cs, c);
    assert (cs + [c])[..|cs|] == cs;
  }

  lemma {:induction false} BaseIsNotBinary(src: Source, at: Cursor)
    requires src.Valid() && ValidCursor(src, at)
    ensures var r := ParseBase(src, at); r.Parsed? ==> !r.cst.CBinary?
  {
    hide TokenFrom;
    if at.tok.TCall? {
      var r := ParseCall(src, at.tok.kind, at.tok.fn, at.tok.context, Advance(src, at));
      assert r.Parsed? ==> r.cst.CCall?;
    }
  }

  /** A power is never derived as a binary operation. */
  lemma {:induction false} PowerIsNotBinary(src: Source, signs: seq<Fn>, at: Cursor)
    requires src.Valid() && ValidCursor(src, at)
    ensures var r := ParseSigned(src, signs, at); r.Parsed? ==> !r.cst.CBinary?
    decreases Measure(src, at)
  {
    hide TokenFrom;
    BaseIsNotBinary(src, at);
    if IsSign(at.tok) {
      PowerIsNotBinary(src, signs + [at.tok.op], Advance(src, at));
    }
  }

  lemma {:induction false} NegationOnTop(t: HTree)
    requires t.Node? && |t.kids| == Arity(t.ty)
    ensures t.ty == TyCall(UNARY) && t.payload == Code(Negate) ==> Erase(t) == Negation(Erase(t.kids[0]))
    ensures IsNegation(Erase(t)) ==> t.ty == TyCall(UNARY) && t.payload == Code(Negate)
  {
    if t.ty == TyCall(UNARY) && t.payload == Code(Negate) {
      assert EraseAll(t.kids) == [Erase(t.kids[0])];
    }
  }

  lemma {:induction false} KidCount(before: map<Addr, Cell>, cells: map<Addr, Cell>, t: HTree)
    requires t.Node? && Grew(before, cells, t)
    ensures |t.kids| == Arity(t.ty) && t.addr in cells
    ensures cells[t.addr] == Cell(t.ty, t.payload, Roots(t.kids) + t.extra)
  {
    hide HeapOfAll;
    hide ProperAll;
    assert t.addr in HeapOf(t);
  }

  /** The first operand of factor, with a negation on top of it taken off. */
  method StripNegation(h: Heap, p: Addr, ghost before: map<Addr, Cell>, ghost t: HTree)
    returns (ret: Addr, neg: bool, ghost u: HTree)
    requires p != 0 && Outcome(before, h.cells, 0, p, t)
    modifies h
    ensures h.failures == old(h.failures) && u.Node? && u.addr == ret != 0
    ensures Grew(before, h.cells, u)
    ensures Erase(t) == (if neg then Negation(Erase(u)) else Erase(u))
    ensures !neg ==> u == t && !IsNegation(Erase(u))
  {
    hide Grew;
    hide Erase;
    KidCount(before, h.cells, t);
    NegationOnTop(t);
    ret, neg, u := p, false, t;
    if h.cells[ret].ty == TyCall(UNARY) && h.cells[ret].payload == Code(Negate) {
      StripUnary(before, h.cells, t);
      var se := h.cells[ret].slots[0];
      h.Free(ret);
      ret, neg, u := se, true, t.kids[0];
      NonzeroRoot(before, h.cells, u);
    }
  }

  lemma {:induction false} NonzeroRoot(before: map<Addr, Cell>, cells: map<Addr, Cell>, t: HTree)
    requires t.Node? && Grew(before, cells, t)
    ensures t.addr != 0
  {
  }

  /** Hangs one more operand at the end of the chain of exponentiations. */
  method AppendPower(h: Heap, ret0: Addr, insertion0: Addr, q: Addr, ghost before: map<Addr, Cell>, ghost c1: map<Addr, Cell>,
                     ghost ss0: seq<Addr>, ghost us: seq<HTree>, ghost u: HTree)
    returns (ret: Addr, insertion: Addr, ghost ss: seq<Addr>)
    requires |us| == |ss0| + 1 && ret0 != 0 && ret0 == Root(Spine(ss0, us)) && q == Root(u) != 0
    requires insertion0 == if ss0 == [] then 0 else ss0[|ss0| - 1]
    requires Grew(before, c1, Spine(ss0, us)) && Grew(c1, h.cells, u) && 0 !in ss0
    modifies h
    ensures ret == 0 ==> h.cells == before && h.failures == old(h.failures) + 1
    ensures ret != 0 ==>
              && h.failures == old(h.failures) && |ss| == |ss0| + 1 && 0 !in ss
              && Grew(before, h.cells, Spine(ss, us + [u])) && ret == Root(Spine(ss, us + [u]))
              && insertion == ss[|ss| - 1]
  {
    hide Grew;
    hide HeapOf;
    hide Proper;
    hide Spine;
    ghost var c2 := h.cells;
    ss := ss0;
    ret, insertion := ret0, insertion0;
    if insertion != 0 {
      LastOfSpine(before, c1, ss0, us);
      GrewOld(c1, c2, u, insertion);
      var insert := NewCall(h, BINARY, Pow, [h.cells[insertion].slots[1], q]);
      if insert == 0 {
        UndoTwo(before, c1, h.cells, Spine(ss0, us), u);
        h.TeFree(q, u);
        h.TeFree(ret, Spine(ss0, us));
        return 0, insertion, ss;
      }
      assert h.cells[insertion] == PowerCell(Root(us[|ss0| - 1]), Root(us[|ss0|]));
      h.SetSlot(insertion, 1, insert);
      assert [Root(us[|ss0| - 1]), Root(us[|ss0|])][1 := insert] == [Root(us[|ss0| - 1]), insert];
      InsertAtTail(before, c1, c2, h.cells, ss0, us, u, insert);
      SpineRoot(ss0, us);
      ss := ss0 + [insert];
      SpineRoot(ss, us + [u]);
      insertion := insert;
    } else {
      SpineOfOne(0, us[0], u);
      assert us == [us[0]] && us + [u] == [us[0], u];
      var prev := ret;
      ret := NewCall(h, BINARY, Pow, [prev, q]);
      if ret == 0 {
        UndoTwo(before, c1, h.cells, us[0], u);
        h.TeFree(q, u);
        h.TeFree(prev, us[0]);
        return 0, insertion, ss;
      }
      SpineOfOne(ret, us[0], u);
      assert Roots([us[0], u]) + [] == [prev, q];
      GrewBinary(before, c1, c2, h.cells, us[0], u, PowerNode(ret, us[0], u));
      ss := [ret];
      insertion := ret;
    }
  }

  lemma {:induction false} GrewOld(c1: map<Addr, Cell>, c2: map<Addr, Cell>, u: HTree, p: Addr)
    requires Grew(c1, c2, u) && p in c1
    ensures p in c2 && c2[p] == c1[p]
  {
    hide HeapOf;
    hide Proper;
  }

  /** Freeing the later tree and then the earlier one. */
  lemma {:induction false} UndoTwo(before: map<Addr, Cell>, c1: map<Addr, Cell>, c2: map<Addr, Cell>, t: HTree, u: HTree)
    requires Grew(before, c1, t) && Grew(c1, c2, u)
    ensures Holds(c2, u) && c2 - HeapOf(u).Keys == c1 && Holds(c1, t) && c1 - HeapOf(t).Keys == before
  {
    hide HeapOf;
    hide Proper;
    GrewUndone(before, c1, t);
    GrewUndone(c1, c2, u);
  }

  /** factor with TE_POW_FROM_RIGHT. */
  method FactorRight(h: Heap, s: State) returns (p: Addr, ghost t: HTree)
    requires s.Valid() && s.src.powFromRight
    modifies h, s
    ensures s.Valid() && h.failures >= old(h.failures)
    ensures Outcome(old(h.cells), h.cells, h.failures - old(h.failures), p, t)
    ensures p != 0 ==> Below(s.src, s.Here(), old(s.Here()))
    ensures p != 0 ==> Computes(s.src, ParseLevel(s.src, FACTOR, old(s.Here())), s.Here(), t)
    decreases Measure(s.src, s.Here()), 2 * FACTOR + 1
  {
    hide HeapOf;
    hide HeapOfAll;
    hide Proper;
    hide ProperAll;
    hide Grew;
    hide TokenFrom;
    hide Erase;
    hide Denote;
    hide OperandsMatch;
    hide Spine;
    hide PowerChain;
    hide ParseLevel;
    hide ParseTail;
    hide Measure;
    ghost var before, start := h.cells, s.Here();
    ghost var goal := ParseLevel(s.src, FACTOR, start);
    LevelStarts(s.src, FACTOR, start);
    ghost var first := ParseLevel(s.src, POWER, start);
    ghost var us, ss: seq<Addr>, cs: seq<Cst>;
    p, t := Power(h, s);
    if p == 0 {
      return;
    }
    var ret, neg;
    ghost var u;
    ret, neg, u := StripNegation(h, p, before, t);
    us, ss := [u], [];
    SpineOfOne(0, u, u);
    cs := [if first.Parsed? then first.cst else CNumber(NAN)];
    if first.Parsed? {
      FirstOperand(s.src, start, cs[0], u, neg);
    }
    var insertion := 0;
    while s.tok == TInfix(Pow)
      invariant s.Valid() && h.failures == old(h.failures) && Below(s.src, s.Here(), start)
      invariant |us| == |ss| + 1 && ret != 0 && ret == Root(Spine(ss, us)) && 0 !in ss
      invariant insertion == if ss == [] then 0 else ss[|ss| - 1]
      invariant ss == [] && !neg ==> OperandSet(us[0])
      invariant Grew(before, h.cells, Spine(ss, us))
      invariant |cs| >= 1
      invariant (OperandsMatch(cs, us, neg) && goal == ParseTail(s.src, FACTOR, PowerChain(cs), s.Here()))
             || (goal.Failed? && s.Here() == Stuck(goal.bad))
      decreases Measure(s.src, s.Here())
    {
      TailContinues(s.src, FACTOR, PowerChain(cs), s.Here());
      s.NextToken();
      ghost var c1 := h.cells;
      ghost var next := ParseLevel(s.src, POWER, s.Here());
      var q;
      ghost var v;
      q, v := Power(h, s);
      if q == 0 {
        GrewUndone(before, h.cells, Spine(ss, us));
        h.TeFree(ret, Spine(ss, us));
        return 0, Nil;
      }
      ret, insertion, ss := AppendPower(h, ret, insertion, q, before, c1, ss, us, v);
      if ret == 0 {
        return 0, Nil;
      }
      if next.Parsed? {
        OperandsNext(cs, us, neg, next.cst, v);
        cs := cs + [next.cst];
      }
      us := us + [v];
    }
    TailEnds(s.src, FACTOR, PowerChain(cs), s.Here());
    if goal.Parsed? {
      OperandsDenote(cs, ss, us, neg);
    }
    SpineOperand(ss, us);
    p, t := Finish(h, ret, neg, before, Spine(ss, us));
  }

  lemma {:induction false} FirstOperand(src: Source, start: Cursor, c: Cst, u: HTree, neg: bool)
    requires src.Valid() && ValidCursor(src, start)
    requires ParseLevel(src, POWER, start).Parsed? && c == ParseLevel(src, POWER, start).cst
    requires Denote(c, true) == (if neg then Negation(Erase(u)) else Erase(u)) && (!neg ==> !IsNegation(Erase(u)))
    ensures OperandsMatch([c], [u], neg) && PowerChain([c]) == c
  {
    PowerIsNotBinary(src, [], start);
  }

  lemma {:induction false} SpineOperand(ss: seq<Addr>, us: seq<HTree>)
    requires |us| == |ss| + 1
    ensures if ss == [] then Spine(ss, us) == us[0] else OperandSet(Spine(ss, us))
  {
  }

  /** Puts a negation that was taken off back in front of the chain. */
  method Finish(h: Heap, ret: Addr, neg: bool, ghost before: map<Addr, Cell>, ghost u: HTree)
    returns (p: Addr, ghost t: HTree)
    requires ret == Root(u) != 0 && Grew(before, h.cells, u) && (!neg ==> OperandSet(u))
    modifies h
    ensures h.failures >= old(h.failures)
    ensures Outcome(before, h.cells, h.failures - old(h.failures), p, t)
    ensures p != 0 ==> Erase(t) == if neg then Negation(Erase(u)) else Erase(u)
  {
    hide HeapOf;
    hide Proper;
    hide Grew;
    hide Erase;
    p, t := ret, u;
    if neg {
      ghost var mid := h.cells;
      p := NewCall(h, UNARY, Negate, [ret]);
      if p == 0 {
        GrewUndone(before, h.cells, u);
        h.TeFree(ret, u);
        return 0, Nil;
      }
      t := Node(p, TyCall(UNARY), Code(Negate), [u], []);
      assert Roots([u]) + [] == [ret];
      GrewUnary(before, mid, h.cells, u, t);
      EraseUnary(p, UNARY, Negate, u, []);
    }
  }

  /** base */
  method Base(h: Heap, s: State) returns (p: Addr, ghost t: HTree)
    requires s.Valid()
    modifies h, s
    ensures s.Valid() && h.failures >= old(h.failures)
    ensures Outcome(old(h.cells), h.cells, h.failures - old(h.failures), p, t)
    ensures p != 0 ==> Below(s.src, s.Here(), old(s.Here()))
    ensures p != 0 ==> Computes(s.src, ParseBase(s.src, old(s.Here())), s.Here(), t)
    decreases Measure(s.src, s.Here()), 2
  {
    hide HeapOf;
    hide HeapOfAll;
    hide Proper;
    hide ProperAll;
    hide Grew;
    hide TokenFrom;
    hide ParseLevel;
    hide ParseCall;
    hide Measure;
    match s.tok
    case TNumber(v) =>
      p, t := Leaf(h, TyConstant, Value(v));
      if p == 0 {
        return;
      }
      s.NextToken();
    case TVariable(b) =>
      p, t := Leaf(h, TyVariable, Bound(b));
      if p == 0 {
        return;
      }
      s.NextToken();
    case TCall(kind, fn, context) =>
      p, t := CallNode(h, s, kind, fn, context);
    case TOpen =>
      s.NextToken();
      p, t := Chain(h, s, LIST);
      if p == 0 {
        return;
      }
      if s.tok != TClose {
        SetError(s);
      } else {
        s.NextToken();
      }
    case _ =>
      p, t := Leaf(h, TyVariable, Value(NAN));
      if p == 0 {
        return;
      }
      SetError(s);
  }

  /** A node without parameters. */
  method Leaf(h: Heap, ty: Ty, payload: Payload) returns (p: Addr, ghost t: HTree)
    requires !ty.TyCall?
    modifies h
    ensures h.failures >= old(h.failures)
    ensures Outcome(old(h.cells), h.cells, h.failures - old(h.failures), p, t)
    ensures p != 0 ==> t == Node(p, ty, payload, [], [])
  {
    ghost var before := h.cells;
    p := h.NewExpr(ty, []);
    if p == 0 {
      return 0, Nil;
    }
    h.SetPayload(p, payload);
    t := Node(p, ty, payload, [], []);
    assert Nils(0) == [];
    GrewLeaf(before, h.cells, t);
  }

  /** The slots behind the parameters. */
  function ContextSlots(kind: Kind, context: Addr): seq<Addr> {
    if kind.closure then [context] else []
  }

  /** A function or closure node with its context in place and no argument yet. */
  method EmptyCall(h: Heap, kind: Kind, fn: Fn, context: Addr) returns (p: Addr, ghost t: HTree)
    modifies h
    ensures p == 0 ==> t == Nil && h.cells == old(h.cells) && h.failures == old(h.failures) + 1
    ensures p != 0 ==>
              && h.failures == old(h.failures) && Grew(old(h.cells), h.cells, t)
              && t == Node(p, TyCall(kind), Code(fn), Nils(kind.arity), ContextSlots(kind, context))
  {
    ghost var before := h.cells;
    p := h.NewExpr(TyCall(kind), []);
    if p == 0 {
      return 0, Nil;
    }
    h.SetPayload(p, Code(fn));
    if kind.closure {
      h.SetSlot(p, kind.arity, context);
    }
    t := Node(p, TyCall(kind), Code(fn), Nils(kind.arity), ContextSlots(kind, context));
    assert h.cells[p].slots == Roots(Nils(kind.arity)) + ContextSlots(kind, context);
    GrewLeaf(before, h.cells, t);
  }

  lemma {:induction false} EraseCall(p: Addr, kind: Kind, fn: Fn, context: Addr, kids: seq<HTree>)
    ensures Erase(Node(p, TyCall(kind), Code(fn), kids, ContextSlots(kind, context)))
         == Call(kind, fn, Context(kind, context), EraseAll(kids))
  {
  }

  lemma {:induction false} DenoteCall(kind: Kind, fn: Fn, context: Addr, args: seq<Cst>, right: bool)
    ensures forall pairs: nat ::
              Denote(CCall(kind, fn, context, pairs, args), right)
              == Call(kind, fn, Context(kind, context), DenoteAll(args, right))
  {
  }

  /** The function and closure cases of base. */
  method CallNode(h: Heap, s: State, kind: Kind, fn: Fn, context: Addr) returns (p: Addr, ghost t: HTree)
    requires s.Valid() && s.tok == TCall(kind, fn, context)
    modifies h, s
    ensures s.Valid() && h.failures >= old(h.failures)
    ensures Outcome(old(h.cells), h.cells, h.failures - old(h.failures), p, t)
    ensures p != 0 ==> Below(s.src, s.Here(), old(s.Here()))
    ensures p != 0 ==> Computes(s.src, ParseBase(s.src, old(s.Here())), s.Here(), t)
    decreases Measure(s.src, s.Here()), 1
  {
    hide HeapOf;
    hide HeapOfAll;
    hide Proper;
    hide ProperAll;
    hide Grew;
    hide TokenFrom;
    hide Erase;
    hide Denote;
    hide ParseLevel;
    hide ParseArgs;
    hide Measure;
    ghost var before := h.cells;
    p, t := EmptyCall(h, kind, fn, context);
    if p == 0 {
      return;
    }
    s.NextToken();
    if kind.arity == 0 {
      EraseCall(p, kind, fn, context, t.kids);
      DenoteCall(kind, fn, context, [], s.src.powFromRight);
      assert EraseAll(t.kids) == DenoteAll([], s.src.powFromRight);
      OptionalParentheses(s);
    } else if kind.arity == 1 {
      var ok;
      ok, t := OneArgument(h, s, p, kind, fn, context, before, t);
      if !ok {
        return 0, Nil;
      }
    } else if s.tok != TOpen {
      SetError(s);
    } else {
      ghost var r := ParseArgs(s.src, kind.arity, [], s.Here());
      var ok;
      ok, t := Arguments(h, s, p, kind.arity, before, t);
      if !ok {
        return 0, Nil;
      }
      EraseCall(p, kind, fn, context, t.kids);
      if r.ParsedArgs? {
        DenoteCall(kind, fn, context, r.args, s.src.powFromRight);
      }
    }
  }

  /** The empty parentheses a function without arguments may have. */
  method OptionalParentheses(s: State)
    requires s.Valid()
    modifies s
    ensures s.Valid() && Below(s.src, s.Here(), old(s.Here()))
    ensures old(s.tok) != TOpen ==> s.Here() == old(s.Here())
    ensures old(s.tok) == TOpen ==>
              var a := Advance(s.src, old(s.Here()));
              s.Here() == if a.tok == TClose then Advance(s.src, a) else Stuck(a)
  {
    hide TokenFrom;
    if s.tok == TOpen {
      s.NextToken();
      if s.tok != TClose {
        SetError(s);
      } else {
        s.NextToken();
      }
    }
  }

  /** The argument of a function with one argument: a power, without parentheses. */
  method OneArgument(h: Heap, s: State, p: Addr, kind: Kind, fn: Fn, context: Addr,
                     ghost before: map<Addr, Cell>, ghost t0: HTree)
    returns (ok: bool, ghost t: HTree)
    requires s.Valid() && kind.arity == 1
    requires t0 == Node(p, TyCall(kind), Code(fn), Nils(1), ContextSlots(kind, context))
    requires Grew(before, h.cells, t0)
    modifies h, s
    ensures s.Valid() && h.failures >= old(h.failures)
    ensures !ok ==> h.cells == before && h.failures == old(h.failures) + 1
    ensures ok ==>
              && h.failures == old(h.failures) && t.Node? && t.addr == p && OperandSet(t)
              && Grew(before, h.cells, t)
              && Below(s.src, s.Here(), old(s.Here()))
              && Computes(s.src, ParseCall(s.src, kind, fn, context, old(s.Here())), s.Here(), t)
    decreases Measure(s.src, s.Here()), 4
  {
    hide HeapOf;
    hide HeapOfAll;
    hide Proper;
    hide ProperAll;
    hide Grew;
    hide TokenFrom;
    hide Erase;
    hide Denote;
    hide Measure;
    hide ParseLevel;
    hide ParseCall;
    hide Computes;
    ghost var c1, start := h.cells, s.Here();
    var q;
    ghost var u;
    q, u := Power(h, s);
    if q == 0 {
      GrewUndone(before, h.cells, t0);
      h.TeFree(p, t0);
      return false, t0;
    }
    ghost var c2 := h.cells;
    GrewKeeps(before, c1, c2, t0, u);
    h.SetSlot(p, 0, q);
    t := t0.(kids := [u]);
    assert [] + Nils(1) == Nils(1) && [] + [u] + Nils(0) == [u];
    SlotWritten([], 1, u, t.extra);
    GrewArgument(before, c1, c2, h.cells, t0, [], 1, u, t);
    CallOfPower(s.src, p, kind, fn, context, start, s.Here(), u);
    ok := true;
  }

  lemma {:induction false} CallOfPower(src: Source, p: Addr, kind: Kind, fn: Fn, context: Addr,
                                       start: Cursor, here: Cursor, u: HTree)
    requires src.Valid() && ValidCursor(src, start) && kind.arity == 1
    requires Computes(src, ParseLevel(src, POWER, start), here, u)
    ensures Computes(src, ParseCall(src, kind, fn, context, start), here,
                     Node(p, TyCall(kind), Code(fn), [u], ContextSlots(kind, context)))
  {
    hide TokenFrom;
    hide ParseLevel;
    hide Erase;
    hide Denote;
    EraseCall(p, kind, fn, context, [u]);
    SnocErasedOne(u);
    var r := ParseLevel(src, POWER, start);
    if r.Parsed? {
      DenoteCall(kind, fn, context, [r.cst], src.powFromRight);
    }
  }


  lemma {:induction false} SnocErasedOne(u: HTree)
    ensures EraseAll([u]) == [Erase(u)]
    ensures forall c: Cst, right: bool :: DenoteAll([c], right) == [Denote(c, right)]
  {
  }

  /** A node stays in place while a later tree is built. */
  lemma {:induction false} GrewKeeps(before: map<Addr, Cell>, c1: map<Addr, Cell>, c2: map<Addr, Cell>, t: HTree, u: HTree)
    requires t.Node? && Grew(before, c1, t) && Grew(c1, c2, u)
    ensures t.addr in c2 && c2[t.addr] == Cell(t.ty, t.payload, Roots(t.kids) + t.extra)
  {
    hide HeapOfAll;
    hide Proper;
    assert t.addr in HeapOf(t);
  }

  /** Reads the next argument of a call and stores it. */
  method NextArgument(h: Heap, s: State, p: Addr, i: nat, ghost k: nat, ghost before: map<Addr, Cell>,
                      ghost t0: HTree, ghost done: seq<HTree>)
    returns (ok: bool, ghost t: HTree, ghost u: HTree)
    requires s.Valid() && (s.tok == TOpen || s.tok == TSep)
    requires t0.Node? && t0.addr == p && |done| == i && k >= 1 && t0.kids == done + Nils(k)
    requires Grew(before, h.cells, t0)
    modifies h, s
    ensures s.Valid() && h.failures >= old(h.failures)
    ensures !ok ==> h.cells == before && h.failures == old(h.failures) + 1
    ensures ok ==>
              && h.failures == old(h.failures)
              && t == t0.(kids := done + [u] + Nils(k - 1)) && Grew(before, h.cells, t)
              && Below(s.src, s.Here(), old(s.Here())) && Measure(s.src, s.Here()) < Measure(s.src, old(s.Here()))
              && Computes(s.src, ParseLevel(s.src, EXPR, Advance(s.src, old(s.Here()))), s.Here(), u)
    decreases Measure(s.src, s.Here()), 0
  {
    hide HeapOf;
    hide HeapOfAll;
    hide Proper;
    hide ProperAll;
    hide Grew;
    hide TokenFrom;
    hide Erase;
    s.NextToken();
    ghost var c1 := h.cells;
    var q;
    q, u := Chain(h, s, EXPR);
    if q == 0 {
      GrewUndone(before, h.cells, t0);
      h.TeFree(p, t0);
      return false, t0, u;
    }
    ghost var c2 := h.cells;
    GrewKeeps(before, c1, c2, t0, u);
    h.SetSlot(p, i, q);
    t := t0.(kids := done + [u] + Nils(k - 1));
    SlotWritten(done, k, u, t.extra);
    GrewArgument(before, c1, c2, h.cells, t0, done, k, u, t);
    ok := true;
  }

  /** The argument list of a function with two or more arguments. */
  method Arguments(h: Heap, s: State, p: Addr, arity: nat, ghost before: map<Addr, Cell>, ghost t0: HTree)
    returns (ok: bool, ghost t: HTree)
    requires s.Valid() && s.tok == TOpen && arity >= 2
    requires t0.Node? && t0.addr == p && t0.kids == Nils(arity) && Arity(t0.ty) == arity
    requires Grew(before, h.cells, t0)
    modifies h, s
    ensures s.Valid() && h.failures >= old(h.failures)
    ensures !ok ==> h.cells == before && h.failures == old(h.failures) + 1
    ensures ok ==>
              && h.failures == old(h.failures) && t.Node? && t == t0.(kids := t.kids)
              && Grew(before, h.cells, t)
              && Below(s.src, s.Here(), old(s.Here()))
              && ComputesArgs(s.src, ParseArgs(s.src, arity, [], old(s.Here())), s.Here(), t.kids)
    decreases Measure(s.src, s.Here()), 1
  {
    hide Grew;
    hide TokenFrom;
    hide Erase;
    hide ParseLevel;
    hide Measure;
    hide Matching;
    ghost var start := s.Here();
    ghost var goal := ParseArgs(s.src, arity, [], start);
    ghost var done: seq<HTree>, csts: seq<Cst> := [], [];
    t := t0;
    assert [] + Nils(arity) == Nils(arity);
    NothingMatches(s.src.powFromRight);
    var i := 0;
    while i < arity
      invariant 0 <= i <= arity && s.Valid() && Below(s.src, s.Here(), start)
      invariant h.failures == old(h.failures)
      invariant |done| == i && t == t0.(kids := done + Nils(arity - i)) && Grew(before, h.cells, t)
      invariant s.tok == TOpen || s.tok == TSep
      invariant Matching(done, csts, s.src.powFromRight)
      invariant i < arity ==> goal == ParseArgs(s.src, arity - i, csts, s.Here())
      invariant i == arity ==> goal == FailedArgs(s.Here()) && s.tok == TSep
    {
      ghost var e := ParseLevel(s.src, EXPR, Advance(s.src, s.Here()));
      ghost var u;
      ok, t, u := NextArgument(h, s, p, i, arity - i, before, t, done);
      if !ok {
        return;
      }
      if e.Parsed? {
        SnocErased(done, u, csts, e.cst, s.src.powFromRight);
        csts := csts + [e.cst];
      }
      done := done + [u];
      if s.tok != TSep {
        break;
      }
      i := i + 1;
    }
    ok := true;
    if s.tok != TClose || i != arity - 1 {
      SetError(s);
    } else {
      s.NextToken();
      assert done + Nils(0) == done;
    }
  }

  lemma {:induction false} SlotWritten(done: seq<HTree>, k: nat, u: HTree, extra: seq<Addr>)
    requires k >= 1
    ensures (Roots(done + Nils(k)) + extra)[|done| := Root(u)] == Roots(done + [u] + Nils(k - 1)) + extra
  {
  }

  lemma {:induction false} NothingMatches(right: bool)
    ensures Matching([], [], right)
  {
  }

  lemma {:induction false} SnocErased(done: seq<HTree>, u: HTree, csts: seq<Cst>, c: Cst, right: bool)
    requires Matching(done, csts, right) && Erase(u) == Denote(c, right)
    ensures Matching(done + [u], csts + [c], right)
  {
    assert (done + [u])[..|done|] == done;
    assert (csts + [c])[..|csts|] == csts;
  }
}
