/** te_eval and optimize on the heap, and the entry points te_compile and te_interp. */
module Compiler {
  import opened Names
  import opened Lexer
  import opened Grammar
  import opened ParserSpec
  import opened ParserProofs
  import opened SyntaxError
  import opened NodeHeap
  import opened Evaluator
  import opened Meaning
  import Parser

  // ---------------------------------------------------------------------
  // te_eval
  // ---------------------------------------------------------------------

  /** What a well-formed tree's root looks like in the heap. */
  lemma {:induction false} RootCell(cells: map<Addr, Cell>, t: HTree)
    requires t.Node? && Holds(cells, t)
    ensures t.addr in cells && cells[t.addr] == Cell(t.ty, t.payload, Roots(t.kids) + t.extra)
    ensures Shaped(t) && ProperAll(t.kids) && t.addr != 0
  {
    hide HeapOfAll;
    hide ProperAll;
    assert t.addr in HeapOf(t);
  }

  lemma {:induction false} KidHeld(cells: map<Addr, Cell>, t: HTree, i: nat)
    requires t.Node? && Holds(cells, t) && i < |t.kids|
    ensures Holds(cells, t.kids[i])
  {
    hide HeapOf;
    hide HeapOfAll;
    hide Proper;
    hide ProperAll;
    HoldsKids(cells, t);
    KidHeap(t.kids, i);
    HoldsWithin(cells, t.kids[i]);
  }

  /** A well-formed tree has the payload its type calls for. */
  lemma {:induction false} WellFormedNode(t: HTree)
    requires WellFormed(Erase(t))
    ensures t.Node?
    ensures t.ty.TyConstant? ==> t.payload.Value? && Erase(t) == Constant(t.payload.value)
    ensures t.ty.TyVariable? ==> t.payload.Bound? && Erase(t) == Variable(t.payload.bound)
    ensures t.ty.TyCall? ==>
              && t.payload.Code? && t.ty.kind.Legal() && |t.kids| == t.ty.kind.arity
              && Erase(t) == Call(t.ty.kind, t.payload.fn, NodeContext(t), EraseAll(t.kids))
              && forall i :: 0 <= i < |t.kids| ==> WellFormed(Erase(t.kids[i]))
  {
    if t.Node? && t.ty.TyCall? && t.payload.Code? {
      forall i | 0 <= i < |t.kids|
        ensures WellFormed(Erase(t.kids[i]))
      {
        assert EraseAll(t.kids)[i] == Erase(t.kids[i]);
      }
    }
  }

  function NodeContext(t: HTree): Addr
    requires t.Node? && t.ty.TyCall?
  {
    if t.ty.kind.closure && t.extra != [] then t.extra[0] else 0
  }

  /** te_eval */
  method TeEval<W>(h: Heap, p: Addr, m: Machine<W>, w: W, ghost t: HTree) returns (r: Result<W>)
    requires m.Valid() && p == Root(t) && Holds(h.cells, t)
    requires t == Nil || WellFormed(Erase(t))
    ensures r == Eval(m, Erase(t), w)
    decreases t
  {
    if p == 0 {
      return Result(NAN, w, []);
    }
    RootCell(h.cells, t);
    WellFormedNode(t);
    var n := h.cells[p];
    match n.ty
    case TyConstant => return Result(n.payload.value, w, []);
    case TyVariable => return Result(m.read(n.payload.bound, w), w, []);
    case TyCall(kind) =>
      var context := if kind.closure then n.slots[kind.arity] else 0;
      var a := EvalParameters(h, n.slots, kind, m, w, t);
      assert context == NodeContext(t);
      return Apply(m, kind, n.payload.fn, context, a);
  }

  /** The arguments of a call, in the order the compiled code evaluates them. */
  method EvalParameters<W>(h: Heap, slots: seq<Addr>, kind: Kind, m: Machine<W>, w: W, ghost t: HTree)
    returns (a: ArgResult<W>)
    requires m.Valid() && t.Node? && t.ty == TyCall(kind) && Holds(h.cells, t) && slots == Roots(t.kids) + t.extra
    requires WellFormed(Erase(t))
    ensures a == EvalArgs(m, EraseAll(t.kids), m.order(kind.closure, kind.arity), Unset(kind.arity), w)
    decreases t, 0
  {
    WellFormedNode(t);
    RootCell(h.cells, t);
    hide Eval;
    hide Holds;
    hide WellFormed;
    var arity := kind.arity;
    ghost var args := EraseAll(t.kids);
    var order := m.order(kind.closure, arity);
    assert IsPermutation(order, arity);
    var values, world, effects := Unset(arity), w, [];
    ghost var goal := EvalArgs(m, args, order, Unset(arity), w);
    for k := 0 to arity
      invariant |values| == arity
      invariant forall j :: 0 <= j < |order[k..]| ==> order[k..][j] < arity
      invariant var rest := EvalArgs(m, args, order[k..], values, world);
                goal == ArgResult(rest.values, rest.world, effects + rest.effects)
    {
      var i := order[k];
      KidHeld(h.cells, t, i);
      KidReady(t, i);
      var r := TeEval(h, slots[i], m, world, t.kids[i]);
      EvalArgsNext(m, args, order, k, values, world, effects);
      values := values[i := r.value];
      world := r.world;
      effects := effects + r.effects;
    }
    assert order[arity..] == [];
    a := ArgResult(values, world, effects);
  }

  lemma {:induction false} KidReady(t: HTree, i: nat)
    requires t.Node? && t.ty.TyCall? && WellFormed(Erase(t)) && i < |t.kids|
    ensures WellFormed(Erase(t.kids[i]))
  {
    WellFormedNode(t);
  }

  lemma {:induction false} EvalArgsNext<W>(m: Machine<W>, args: seq<Tree>, order: seq<nat>, k: nat,
                                          values: seq<Double>, world: W, effects: seq<Effect>)
    requires m.Valid() && |values| == |args| && k < |order|
    requires forall j :: 0 <= j < |order| ==> order[j] < |args|
    ensures var i := order[k];
            var r := Eval(m, args[i], world);
            var before := EvalArgs(m, args, order[k..], values, world);
            var after := EvalArgs(m, args, order[k + 1..], values[i := r.value], r.world);
            && before.values == after.values && before.world == after.world
            && effects + before.effects == effects + r.effects + after.effects
  {
    assert order[k..][1..] == order[k + 1..];
  }

  // ---------------------------------------------------------------------
  // optimize
  // ---------------------------------------------------------------------

  /** optimize: folds the tree in place. It calls no impure function and leaves the
      world as it is. */
  method Optimize<W>(h: Heap, p: Addr, m: Machine<W>, w: W, ghost t: HTree)
    returns (world: W, effects: seq<Effect>, ghost t': HTree)
    requires m.Valid() && p == Root(t) && Holds(h.cells, t) && WellFormed(Erase(t))
    modifies h
    ensures world == w && effects == [] && h.failures == old(h.failures)
    ensures Rebuilt(old(h.cells), h.cells, t, t')
    ensures Erase(t') == Optimized(m, Erase(t))
    decreases t, 1
  {
    hide HeapOf;
    hide HeapOfAll;
    hide Proper;
    hide ProperAll;
    hide Holds;
    hide Rebuilt;
    hide Erase;
    hide WellFormed;
    hide OptimizedAll;
    WellFormedNode(t);
    RootCell(h.cells, t);
    RebuiltSame(h.cells, t);
    world, effects, t' := w, [], t;
    var n := h.cells[p];
    if n.ty == TyConstant {
      return;
    }
    if n.ty == TyVariable {
      return;
    }
    if n.ty.kind.pure {
      ghost var before := h.cells;
      var known;
      known, world, effects, t' := OptimizeParameters(h, p, m, w, t);
      FoldedNode(m, t, t');
      if known {
        var e;
        world, e, t' := Fold(h, p, m, world, before, t, t');
        effects := effects + e;
      }
    }
  }

  /** The end of optimize: evaluates a pure call on constants, frees its parameters and
      turns the node into the constant. */
  method Fold<W>(h: Heap, p: Addr, m: Machine<W>, w: W, ghost before: map<Addr, Cell>, ghost t: HTree, ghost cur: HTree)
    returns (world: W, effects: seq<Effect>, ghost t': HTree)
    requires m.Valid() && t.Node? && cur.Node? && p == cur.addr && Rebuilt(before, h.cells, t, cur)
    requires WellFormed(Erase(cur)) && Erase(cur).Call? && Erase(cur).kind.pure && AllConstant(Erase(cur).args)
    modifies h
    ensures world == w && effects == [] && h.failures == old(h.failures)
    ensures Rebuilt(before, h.cells, t, t')
    ensures Erase(t') == Constant(m.pure(Erase(cur).fn, Erase(cur).context, Values(Erase(cur).args)))
  {
    hide HeapOf;
    hide HeapOfAll;
    hide Proper;
    hide ProperAll;
    hide Holds;
    hide Rebuilt;
    hide Erase;
    hide Eval;
    ghost var c1 := h.cells;
    RebuiltHolds(before, h.cells, t, cur);
    RootCell(h.cells, cur);
    var r := TeEval(h, p, m, w, cur);
    FoldedValue(m, Erase(cur), w);
    world, effects := r.world, r.effects;
    h.TeFreeParameters(p, cur);
    RootSurvives(c1, cur);
    h.SetType(p, TyConstant);
    h.SetPayload(p, Value(r.value));
    t' := Node(p, TyConstant, Value(r.value), [], Roots(cur.kids) + cur.extra);
    RebuiltFolded(before, c1, h.cells, t, cur, r.value, t');
    WellFormedConstant(t');
  }

  lemma {:induction false} WellFormedConstant(t: HTree)
    requires t.Node? && t.ty == TyConstant && t.payload.Value?
    ensures Erase(t) == Constant(t.payload.value)
  {
  }

  lemma {:induction false} RootSurvives(cells: map<Addr, Cell>, t: HTree)
    requires t.Node? && Holds(cells, t)
    ensures t.addr in cells - HeapOfAll(t.kids).Keys
    ensures (cells - HeapOfAll(t.kids).Keys)[t.addr] == Cell(t.ty, t.payload, Roots(t.kids) + t.extra)
  {
    hide HeapOf;
    hide HeapOfAll;
    hide ProperAll;
    OwnedByNode(t);
  }

  /** The node after its parameters have been optimised. */
  lemma {:induction false} FoldedNode<W>(m: Machine<W>, t: HTree, cur: HTree)
    requires WellFormed(Erase(t)) && t.Node? && t.ty.TyCall? && t.ty.kind.pure
    requires cur.Node? && cur == t.(kids := cur.kids) && EraseAll(cur.kids) == OptimizedAll(m, EraseAll(t.kids))
    ensures var args := OptimizedAll(m, EraseAll(t.kids));
            && Erase(cur) == Call(t.ty.kind, t.payload.fn, NodeContext(t), args)
            && WellFormed(Erase(cur))
            && Optimized(m, Erase(t)) == if AllConstant(args)
                                         then Constant(m.pure(t.payload.fn, NodeContext(t), Values(args))) else Erase(cur)
  {
    WellFormedNode(t);
    forall i | 0 <= i < |t.kids|
      ensures WellFormed(Optimized(m, Erase(t.kids[i])))
    {
      OptimizeKeepsWellFormed(m, Erase(t.kids[i]));
    }
  }

  method OptimizeParameters<W>(h: Heap, p: Addr, m: Machine<W>, w: W, ghost t: HTree)
    returns (known: bool, world: W, effects: seq<Effect>, ghost t': HTree)
    requires m.Valid() && p == Root(t) && Holds(h.cells, t) && WellFormed(Erase(t)) && t.Node? && t.ty.TyCall?
    modifies h
    ensures world == w && effects == [] && h.failures == old(h.failures)
    ensures t'.Node? && t' == t.(kids := t'.kids) && Rebuilt(old(h.cells), h.cells, t, t')
    ensures EraseAll(t'.kids) == OptimizedAll(m, EraseAll(t.kids))
    ensures known <==> AllConstant(EraseAll(t'.kids))
    decreases t, 0
  {
    hide HeapOf;
    hide HeapOfAll;
    hide Proper;
    hide ProperAll;
    hide Holds;
    hide Rebuilt;
    hide Erase;
    hide WellFormed;
    hide Optimized;
    ghost var before := h.cells;
    RootCell(h.cells, t);
    WellFormedNode(t);
    RebuiltSame(h.cells, t);
    known, world, effects, t' := true, w, [], t;
    var arity := Arity(h.cells[p].ty);
    for i := 0 to arity
      invariant world == w && effects == [] && h.failures == old(h.failures)
      invariant t'.Node? && t' == t.(kids := t'.kids) && |t'.kids| == arity && Rebuilt(before, h.cells, t, t')
      invariant forall j :: 0 <= j < i ==> Erase(t'.kids[j]) == Optimized(m, Erase(t.kids[j]))
      invariant forall j :: i <= j < arity ==> t'.kids[j] == t.kids[j]
      invariant known <==> forall j :: 0 <= j < i ==> Erase(t'.kids[j]).Constant?
    {
      ghost var cur, c1 := t', h.cells;
      RebuiltHolds(before, h.cells, t, cur);
      RootCell(h.cells, cur);
      KidHeld(h.cells, cur, i);
      var q := h.cells[p].slots[i];
      assert q == Root(t.kids[i]);
      var e;
      ghost var k;
      world, e, k := Optimize(h, q, m, world, t.kids[i]);
      effects := effects + e;
      RebuiltKid(before, c1, h.cells, t, cur, i, k);
      OptimizedRoot(m, h.cells, c1, t.kids[i], k);
      t' := cur.(kids := cur.kids[i := k]);
      if h.cells[q].ty != TyConstant {
        known := false;
      }
    }
    assert EraseAll(t'.kids) == OptimizedAll(m, EraseAll(t.kids));
  }

  /** The type of an optimised child tells whether it is a constant. */
  lemma {:induction false} OptimizedRoot<W>(m: Machine<W>, cells: map<Addr, Cell>, before: map<Addr, Cell>, t: HTree, k: HTree)
    requires WellFormed(Erase(t)) && Erase(k) == Optimized(m, Erase(t)) && Rebuilt(before, cells, t, k)
    ensures k.Node? && k.addr == Root(t) && k.addr in cells
    ensures cells[k.addr].ty == TyConstant <==> Erase(k).Constant?
  {
    hide HeapOf;
    hide HeapOfAll;
    OptimizeKeepsWellFormed(m, Erase(t));
    WellFormedNode(k);
    RebuiltHolds(before, cells, t, k);
    RootCell(cells, k);
  }

  // ---------------------------------------------------------------------
  // te_compile and te_interp
  // ---------------------------------------------------------------------

  /** error is the position just after the first offending token, but 1 when that is 0, which
      would mean success. */
  ghost predicate Reported(src: Source, error: int)
    requires src.Valid()
  {
    exists ts, f :: FirstOffending(src, ts, f) && error == if f.pos == 0 then 1 else f.pos
  }

  /** te_compile. When no allocation fails it succeeds exactly on the inputs the grammar
      derives, and then it returns the optimised tree of the one derivation, which owns
      everything the call has left on the heap. A syntax error is reported at
      the first token no derivation could go on with. After any failure the heap is as it was before. */
  method TeCompile<W>(h: Heap, src: Source, m: Machine<W>, w: W)
    returns (root: Addr, error: int, ghost t: HTree)
    requires src.Valid() && m.Valid()
    modifies h
    ensures h.failures == old(h.failures) || h.failures == old(h.failures) + 1
    ensures h.failures > old(h.failures) <==> error == -1
    ensures error >= -1
    ensures root == 0 <==> error != 0
    ensures root == 0 ==> h.cells == old(h.cells)
    ensures error != -1 ==> (error == 0 <==> Accepted(src).Parsed?)
    ensures error > 0 ==> Reported(src, error)
    ensures error > 0 ==> 1 <= error <= if |src.text| > 1 then |src.text| else 1
    ensures root != 0 ==>
              && t.Node? && t.addr == root && Grew(old(h.cells), h.cells, t)
              && Erase(t) == Optimized(m, Denote(Accepted(src).cst, src.powFromRight)) && WellFormed(Erase(t))
  {
    hide HeapOf;
    hide HeapOfAll;
    hide Proper;
    hide ProperAll;
    hide Grew;
    hide Rebuilt;
    hide TokenFrom;
    hide Erase;
    hide Denote;
    hide FirstOffending;
    ghost var before := h.cells;
    var s := new State(src);
    s.NextToken();
    assert s.Here() == Start(src);
    root, t := Parser.Chain(h, s, LIST);
    if root == 0 {
      return 0, -1, Nil;
    }
    GrewUndone(before, h.cells, t);
    if s.tok != TEnd {
      h.TeFree(root, t);
      error := s.next;
      if error == 0 {
        error := 1;
      }
      ghost var ts := FailsAtFirstOffending(src);
      return 0, error, Nil;
    } else {
      LevelSound(src, LIST, Start(src));
      DenotesWellFormed(Accepted(src).cst, src.powFromRight);
      ghost var mid, world, effects, t' := h.cells, w, [], t;
      world, effects, t' := Optimize(h, root, m, w, t);
      GrewRebuilt(before, mid, h.cells, t, t');
      OptimizeKeepsWellFormed(m, Erase(t));
      WellFormedNode(t');
      OptimizedRoot(m, h.cells, mid, t, t');
      t := t';
      error := 0;
    }
  }

  /** Without user entries no token is a variable or an impure function. */
  predicate BuiltinToken(t: Token) {
    !t.TVariable? && (t.TCall? ==> t.kind.pure)
  }

  lemma {:induction false} TokensAreBuiltin(src: Source, p: nat, i: nat)
    requires src.Valid() && src.lookup == [] && p <= |src.text|
    ensures BuiltinToken(TokenFrom(src, p, i).tok)
    decreases |src.text| - p
  {
    if p < |src.text| {
      var ch := src.text[p];
      if IsDigit(ch) || ch == '.' {
      } else if IsAlpha(ch) {
        NamesAreBuiltin(src.text[p..IdentifierEnd(src.text, p)]);
      } else if IsSpace(ch) {
        TokensAreBuiltin(src, p + 1, i);
      }
    }
  }

  lemma {:induction false} NamesAreBuiltin(name: string)
    ensures BuiltinToken(Lookup([], name))
  {
    var j := Search(BUILTINS, name);
    if j >= 0 {
      BuiltinLegal(j);
    }
  }

  lemma {:induction false} ReadsBuiltin(src: Source, a: Cursor, ts: seq<Token>, b: Cursor)
    requires src.Valid() && src.lookup == [] && ValidCursor(src, a) && Reads(src, a, ts, b)
    requires BuiltinToken(a.tok)
    ensures forall i :: 0 <= i < |ts| ==> BuiltinToken(ts[i])
    decreases |ts|
  {
    if ts != [] {
      TokensAreBuiltin(src, a.pos, a.index + 1);
      ReadsBuiltin(src, Advance(src, a), ts[1..], b);
      forall i | 0 <= i < |ts|
        ensures BuiltinToken(ts[i])
      {
        assert i > 0 ==> ts[i] == ts[1..][i - 1];
      }
    }
  }

  ghost predicate AllBuiltin(ts: seq<Token>) {
    forall i :: 0 <= i < |ts| ==> BuiltinToken(ts[i])
  }

  lemma {:induction false} BuiltinParts(s: seq<Token>, t: seq<Token>)
    requires AllBuiltin(s + t)
    ensures AllBuiltin(s) && AllBuiltin(t)
  {
    forall i | 0 <= i < |s|
      ensures BuiltinToken(s[i])
    {
      assert s[i] == (s + t)[i];
    }
    forall i | 0 <= i < |t|
      ensures BuiltinToken(t[i])
    {
      assert t[i] == (s + t)[|s| + i];
    }
  }

  lemma {:induction false} DenotesClosed(c: Cst, right: bool)
    requires Derivation(c) && AllBuiltin(Yield(c))
    ensures Closed(Denote(c, right))
    decreases c, 1
  {
    YieldNonEmpty(c);
    assert BuiltinToken(Yield(c)[0]);
    match c
    case CNumber(_) =>
    case CVariable(_) =>
    case CParen(inner) =>
      BuiltinParts([TOpen] + Yield(inner), [TClose]);
      BuiltinParts([TOpen], Yield(inner));
      DenotesClosed(inner, right);
    case CSigned(signs, operand) =>
      BuiltinParts(SignTokens(signs), Yield(operand));
      DenotesClosed(operand, right);
    case CBinary(op, l, r) =>
      BuiltinParts(Yield(l) + [OpToken(op)], Yield(r));
      BuiltinParts(Yield(l), [OpToken(op)]);
      DenotesClosed(r, right);
      if right && op == Pow {
        RightPowerClosed(l, Denote(r, right));
      } else {
        DenotesClosed(l, right);
      }
    case CCall(kind, fn, context, pairs, args) =>
      var rest := CallRest(pairs, args);
      assert Yield(c) == [TCall(kind, fn, context)] + rest;
      assert Yield(c)[0] == TCall(kind, fn, context);
      BuiltinParts([TCall(kind, fn, context)], rest);
      if args != [] {
        if pairs > 0 {
          BuiltinParts([TOpen], YieldArgs(args));
          ArgsClosed(args, right);
        } else {
          DenotesClosed(args[0], right);
        }
      }
      assert Denote(c, right).args == DenoteAll(args, right);
  }

  lemma {:induction false} RightPowerClosed(c: Cst, exponent: Tree)
    requires Derivation(c) && AllBuiltin(Yield(c)) && Closed(exponent)
    ensures Closed(RightPower(c, exponent))
    decreases c, 2
  {
    if c.CBinary? && c.op == Pow {
      BuiltinParts(Yield(c.left) + [OpToken(c.op)], Yield(c.right));
      BuiltinParts(Yield(c.left), [OpToken(c.op)]);
      DenotesClosed(c.right, true);
      RightPowerClosed(c.left, Binary(Pow, Denote(c.right, true), exponent));
    } else {
      DenotesClosed(c, true);
    }
  }

  lemma {:induction false} ArgsClosed(args: seq<Cst>, right: bool)
    requires AllBuiltin(YieldArgs(args))
    requires forall i :: 0 <= i < |args| ==> Derivation(args[i])
    ensures forall i :: 0 <= i < |args| ==> Closed(Denote(args[i], right))
    decreases args, 0
  {
    if |args| == 1 {
      BuiltinParts(Yield(args[0]), [TClose]);
      DenotesClosed(args[0], right);
    } else if |args| > 1 {
      BuiltinParts(Yield(args[0]) + [TSep], YieldArgs(args[1..]));
      BuiltinParts(Yield(args[0]), [TSep]);
      DenotesClosed(args[0], right);
      ArgsClosed(args[1..], right);
      forall i | 0 <= i < |args|
        ensures Closed(Denote(args[i], right))
      {
        assert i > 0 ==> args[i] == args[1..][i - 1];
      }
    }
  }

  /** An expression over the builtins only always compiles to a single constant. */
  lemma {:induction false} WithoutVariablesFoldsToConstant<W>(src: Source, m: Machine<W>)
    requires src.Valid() && src.lookup == [] && Accepted(src).Parsed?
    ensures Optimized(m, Denote(Accepted(src).cst, src.powFromRight)).Constant?
  {
    BuiltinsClosed(src);
    ClosedFolds(m, Denote(Accepted(src).cst, src.powFromRight));
  }

  lemma {:induction false} BuiltinsClosed(src: Source)
    requires src.Valid() && src.lookup == [] && Accepted(src).Parsed?
    ensures Closed(Denote(Accepted(src).cst, src.powFromRight))
  {
    var c := Accepted(src).cst;
    LevelSound(src, LIST, Start(src));
    TokensAreBuiltin(src, 0, 1);
    ReadsBuiltin(src, Start(src), Yield(c), Accepted(src).at);
    DenotesClosed(c, src.powFromRight);
  }

  /** Such an expression evaluates to its value as written, in the default build. */
  lemma {:induction false} BuiltinsWorth<W>(src: Source, m: Machine<W>, w: W)
    requires src.Valid() && src.lookup == [] && Accepted(src).Parsed? && m.Valid() && !src.powFromRight
    ensures Eval(m, Denote(Accepted(src).cst, false), w).value == Worth(Accepted(src).cst, Memory(m, w), m.pure)
  {
    hide Closed;
    hide Accepted;
    BuiltinsClosed(src);
    ClosedIsPure(Denote(Accepted(src).cst, false));
    EvalIsValue(m, Denote(Accepted(src).cst, false), w);
    TreeHasWorth(Accepted(src).cst, Memory(m, w), m.pure);
  }

  /** te_interp: the value of the expression as it is written when it is one, NaN otherwise,
      and in every case nothing stays on the heap. */
  method TeInterp<W>(h: Heap, src: Source, m: Machine<W>, w: W) returns (value: Double, error: int)
    requires src.Valid() && src.lookup == [] && m.Valid()
    modifies h
    ensures h.cells == old(h.cells)
    ensures error == -1 <==> h.failures > old(h.failures)
    ensures error == 0 ==> Accepted(src).Parsed? && value == Eval(m, Denote(Accepted(src).cst, src.powFromRight), w).value
    ensures error == 0 && !src.powFromRight ==> value == Worth(Accepted(src).cst, Memory(m, w), m.pure)
    ensures error != 0 ==> value == NAN
    ensures error > 0 ==> Accepted(src).Failed? && Reported(src, error)
  {
    hide HeapOf;
    hide Proper;
    hide Grew;
    hide Erase;
    hide Denote;
    hide WellFormed;
    var root;
    ghost var t;
    ghost var before := h.cells;
    root, error, t := TeCompile(h, src, m, w);
    if root != 0 {
      GrewUndone(before, h.cells, t);
      var r := TeEval(h, root, m, w, t);
      OptimizePreservesMeaning(m, Denote(Accepted(src).cst, src.powFromRight), w);
      value := r.value;
      if !src.powFromRight {
        BuiltinsWorth(src, m, w);
      }
      h.TeFree(root, t);
    } else {
      value := NAN;
    }
  }
}
