/** What expression trees mean, and the optimiser as a function on trees. */
module Evaluator {
  import opened Names
  import opened Lexer
  import opened Grammar

  /** A call of a function that is not flagged pure. */
  datatype Effect = Effect(fn: Fn, context: Addr, args: seq<Double>)

  /** The world an expression is evaluated in. A bound variable is read when it is
      needed. A pure function depends on its arguments and its context pointer only;
      any other function may read and change the world. `order` is the order in which
      the compiled code evaluates the arguments of a call, which C leaves open. */
  datatype Machine<!W> = Machine(
    read: (Addr, W) -> Double,
    pure: (Fn, Addr, seq<Double>) -> Double,
    impure: (Fn, Addr, seq<Double>, W) -> (Double, W),
    order: (bool, nat) -> seq<nat>)
  {
    /** The order is a permutation of the arguments. */
    ghost predicate Valid() {
      forall closure: bool, n: nat :: IsPermutation(order(closure, n), n)
    }
  }

  ghost predicate IsPermutation(order: seq<nat>, n: nat) {
    && |order| == n
    && (forall k :: 0 <= k < n ==> order[k] < n)
    && (forall i :: 0 <= i < n ==> i in order)
    && Distinct(order)
  }

  predicate Distinct(order: seq<nat>) {
    forall j, k :: 0 <= j < k < |order| ==> order[j] != order[k]
  }

  datatype Result<W> = Result(value: Double, world: W, effects: seq<Effect>)

  datatype ArgResult<W> = ArgResult(values: seq<Double>, world: W, effects: seq<Effect>)

  /** te_eval */
  function Eval<W>(m: Machine<W>, t: Tree, w: W): Result<W>
    requires m.Valid()
    decreases t, 1
  {
    match t
    case Missing => Result(NAN, w, [])
    case Constant(v) => Result(v, w, [])
    case Variable(b) => Result(m.read(b, w), w, [])
    case Call(kind, fn, context, args) =>
      assert IsPermutation(m.order(kind.closure, |args|), |args|);
      var a := EvalArgs(m, args, m.order(kind.closure, |args|), Unset(|args|), w);
      Apply(m, kind, fn, context, a)
  }

  function Unset(n: nat): seq<Double> {
    seq(n, _ => NAN)
  }

  /** The call itself, once its arguments are known. */
  function Apply<W>(m: Machine<W>, kind: Kind, fn: Fn, context: Addr, a: ArgResult<W>): Result<W> {
    if kind.pure then Result(m.pure(fn, context, a.values), a.world, a.effects)
    else
      var (v, w) := m.impure(fn, context, a.values, a.world);
      Result(v, w, a.effects + [Effect(fn, context, a.values)])
  }

  /** Evaluates the arguments in the given order into the argument array. */
  function EvalArgs<W>(m: Machine<W>, args: seq<Tree>, order: seq<nat>, values: seq<Double>, w: W): (r: ArgResult<W>)
    requires m.Valid() && |values| == |args|
    requires forall k :: 0 <= k < |order| ==> order[k] < |args|
    ensures |r.values| == |args|
    decreases args, 0, |order|
  {
    if order == [] then ArgResult(values, w, [])
    else
      var first := Eval(m, args[order[0]], w);
      var rest := EvalArgs(m, args, order[1..], values[order[0] := first.value], first.world);
      ArgResult(rest.values, rest.world, first.effects + rest.effects)
  }

  predicate AllConstant(ts: seq<Tree>) {
    forall i :: 0 <= i < |ts| ==> ts[i].Constant?
  }

  function Values(ts: seq<Tree>): seq<Double>
    requires AllConstant(ts)
  {
    seq(|ts|, i requires 0 <= i < |ts| => ts[i].value)
  }

  /** optimize: folds every call flagged pure whose arguments fold to constants. Below a
      call that is not pure nothing is touched. */
  function Optimized<W>(m: Machine<W>, t: Tree): Tree
    decreases t, 1
  {
    if !t.Call? || !t.kind.pure then t
    else
      var args := OptimizedAll(m, t.args);
      if AllConstant(args) then Constant(m.pure(t.fn, t.context, Values(args)))
      else Call(t.kind, t.fn, t.context, args)
  }

  function OptimizedAll<W>(m: Machine<W>, ts: seq<Tree>): (r: seq<Tree>)
    ensures |r| == |ts|
    ensures forall i :: 0 <= i < |ts| ==> r[i] == Optimized(m, ts[i])
    decreases ts, 0
  {
    if ts == [] then [] else OptimizedAll(m, ts[..|ts| - 1]) + [Optimized(m, ts[|ts| - 1])]
  }

  // ---------------------------------------------------------------------
  // Constant arguments
  // ---------------------------------------------------------------------

  /** Evaluating constants changes nothing and leaves the constants in the array. */
  lemma {:induction false} EvalConstants<W>(m: Machine<W>, args: seq<Tree>, order: seq<nat>, values: seq<Double>, w: W)
    requires m.Valid() && |values| == |args| && AllConstant(args)
    requires forall k :: 0 <= k < |order| ==> order[k] < |args|
    ensures var r := EvalArgs(m, args, order, values, w);
            && r.world == w && r.effects == []
            && (forall i :: 0 <= i < |args| ==> r.values[i] == if i in order then args[i].value else values[i])
    decreases |order|
  {
    if order != [] {
      EvalConstants(m, args, order[1..], values[order[0] := args[order[0]].value], w);
      forall i | 0 <= i < |args|
        ensures i in order <==> i == order[0] || i in order[1..]
      {
        assert order == [order[0]] + order[1..];
      }
    }
  }

  /** A pure call on constants has the folded value, in every world and without any
      effect. */
  lemma {:induction false} FoldedValue<W>(m: Machine<W>, t: Tree, w: W)
    requires m.Valid() && t.Call? && t.kind.pure && AllConstant(t.args)
    ensures Eval(m, t, w) == Result(m.pure(t.fn, t.context, Values(t.args)), w, [])
  {
    var n := |t.args|;
    var order := m.order(t.kind.closure, n);
    assert IsPermutation(order, n);
    EvalConstants(m, t.args, order, Unset(n), w);
    var r := EvalArgs(m, t.args, order, Unset(n), w);
    assert r.values == Values(t.args);
  }

  // ---------------------------------------------------------------------
  // Meaning is preserved
  // ---------------------------------------------------------------------

  /** The optimised tree evaluates to the same value, leaves the same world and makes
      the same impure calls in the same order, from every world. */
  lemma {:induction false} OptimizePreservesMeaning<W>(m: Machine<W>, t: Tree, w: W)
    requires m.Valid()
    ensures Eval(m, Optimized(m, t), w) == Eval(m, t, w)
    decreases t, 1
  {
    if t.Call? && t.kind.pure {
      var args := OptimizedAll(m, t.args);
      var folded := Call(t.kind, t.fn, t.context, args);
      var order := m.order(t.kind.closure, |args|);
      assert IsPermutation(order, |args|);
      ArgsPreserved(m, t.args, args, order, Unset(|args|), w);
      assert Eval(m, folded, w) == Eval(m, t, w);
      if AllConstant(args) {
        FoldedValue(m, folded, w);
      }
    }
  }

  lemma {:induction false} ArgsPreserved<W>(m: Machine<W>, before: seq<Tree>, after: seq<Tree>, order: seq<nat>, values: seq<Double>, w: W)
    requires m.Valid() && |values| == |before| == |after|
    requires forall i :: 0 <= i < |before| ==> after[i] == Optimized(m, before[i])
    requires forall k :: 0 <= k < |order| ==> order[k] < |before|
    ensures EvalArgs(m, after, order, values, w) == EvalArgs(m, before, order, values, w)
    decreases before, 0, |order|
  {
    if order != [] {
      var i := order[0];
      OptimizePreservesMeaning(m, before[i], w);
      var first := Eval(m, before[i], w);
      ArgsPreserved(m, before, after, order[1..], values[i := first.value], first.world);
    }
  }

  // ---------------------------------------------------------------------
  // Shape of the result
  // ---------------------------------------------------------------------

  lemma {:induction false} OptimizeKeepsWellFormed<W>(m: Machine<W>, t: Tree)
    requires WellFormed(t)
    ensures WellFormed(Optimized(m, t))
    decreases t
  {
    if t.Call? && t.kind.pure {
      forall i | 0 <= i < |t.args|
        ensures WellFormed(Optimized(m, t.args[i]))
      {
        OptimizeKeepsWellFormed(m, t.args[i]);
      }
    }
  }

  /** Optimising twice is optimising once. */
  lemma {:induction false} OptimizeIdempotent<W>(m: Machine<W>, t: Tree)
    ensures Optimized(m, Optimized(m, t)) == Optimized(m, t)
    decreases t
  {
    if t.Call? && t.kind.pure {
      var args := OptimizedAll(m, t.args);
      forall i | 0 <= i < |args|
        ensures Optimized(m, args[i]) == args[i]
      {
        OptimizeIdempotent(m, t.args[i]);
      }
      assert OptimizedAll(m, args) == args;
    }
  }

  /** No variable and no impure call occurs. */
  ghost predicate Closed(t: Tree)
    decreases t
  {
    t.Constant? || (t.Call? && t.kind.pure && forall i :: 0 <= i < |t.args| ==> Closed(t.args[i]))
  }

  /** A tree folds to a single constant exactly when it has no variables and no impure
      calls. */
  lemma {:induction false} ClosedFolds<W>(m: Machine<W>, t: Tree)
    ensures Closed(t) <==> Optimized(m, t).Constant?
    decreases t
  {
    if t.Call? && t.kind.pure {
      var args := OptimizedAll(m, t.args);
      forall i | 0 <= i < |args|
        ensures Closed(t.args[i]) <==> args[i].Constant?
      {
        ClosedFolds(m, t.args[i]);
      }
    }
  }
}
