/** What evaluation gives, without argument arrays and without a fixed order: the value of
    an expression, the worlds its evaluation passes through and the calls it makes. */
module Meaning {
  import opened Names
  import opened Lexer
  import opened Grammar
  import opened Evaluator

  // ---------------------------------------------------------------------
  // Evaluation as a relation
  // ---------------------------------------------------------------------

  /** The world before the k-th argument is evaluated, and for k = |rs| after the last. */
  function WorldAt<W>(w: W, rs: seq<Result<W>>, k: nat): W
    requires k <= |rs|
  {
    if k == 0 then w else rs[k - 1].world
  }

  function AllEffects<W>(rs: seq<Result<W>>): seq<Effect> {
    if rs == [] then [] else AllEffects(rs[..|rs| - 1]) + rs[|rs| - 1].effects
  }

  /** Evaluating t in the world w may give r: a constant is its value, a variable is what its
      address holds at that moment, and a call passes to its function, in the positions of
      the arguments, the values they evaluate to one after the other. Only a call of an
      impure function is an effect of its own and may change the world. */
  ghost predicate Evaluates<W(!new)>(m: Machine<W>, t: Tree, w: W, r: Result<W>)
    requires m.Valid()
    decreases t, 1
  {
    match t
    case Missing => r == Result(NAN, w, [])
    case Constant(v) => r == Result(v, w, [])
    case Variable(b) => r == Result(m.read(b, w), w, [])
    case Call(_, _, _, args) =>
      exists rs: seq<Result<W>>, values: seq<Double> ::
        |rs| == |values| == |args| && CallEvaluates(m, t, w, r, rs, values)
  }

  /** rs are the results of the arguments in the order of evaluation, values their values in
      the order of the arguments. */
  ghost predicate CallEvaluates<W(!new)>(m: Machine<W>, t: Tree, w: W, r: Result<W>, rs: seq<Result<W>>, values: seq<Double>)
    requires m.Valid() && t.Call? && |rs| == |values| == |t.args|
    decreases t, 0
  {
    var n := |t.args|;
    var order := m.order(t.kind.closure, n);
    assert IsPermutation(order, n);
    && (forall k :: 0 <= k < n ==> Evaluates(m, t.args[order[k]], WorldAt(w, rs, k), rs[k]))
    && (forall k :: 0 <= k < n ==> values[order[k]] == rs[k].value)
    && var last, effects := WorldAt(w, rs, n), AllEffects(rs);
       if t.kind.pure then r == Result(m.pure(t.fn, t.context, values), last, effects)
       else
         && (r.value, r.world) == m.impure(t.fn, t.context, values, last)
         && r.effects == effects + [Effect(t.fn, t.context, values)]
  }

  // ---------------------------------------------------------------------
  // te_eval computes the relation
  // ---------------------------------------------------------------------

  lemma {:induction false} EffectsFirst<W>(first: Result<W>, rest: seq<Result<W>>)
    ensures AllEffects([first] + rest) == first.effects + AllEffects(rest)
    decreases |rest|
  {
    var rs, n := [first] + rest, |rest|;
    if n == 0 {
      assert rs[..0] == [];
    } else {
      EffectsFirst(first, rest[..n - 1]);
      assert rs[..n] == [first] + rest[..n - 1];
    }
  }

  ghost predicate IsSuccessive<W>(m: Machine<W>, args: seq<Tree>, order: seq<nat>, w: W, rs: seq<Result<W>>)
    requires m.Valid()
  {
    && |rs| == |order|
    && (forall k :: 0 <= k < |order| ==> order[k] < |args|)
    && forall k :: 0 <= k < |order| ==> rs[k] == Eval(m, args[order[k]], WorldAt(w, rs, k))
  }

  /** The results of the arguments one after the other. */
  function Successive<W>(m: Machine<W>, args: seq<Tree>, order: seq<nat>, w: W): (rs: seq<Result<W>>)
    requires m.Valid() && forall k :: 0 <= k < |order| ==> order[k] < |args|
    ensures |rs| == |order|
  {
    if order == [] then []
    else
      var first := Eval(m, args[order[0]], w);
      [first] + Successive(m, args, order[1..], first.world)
  }

  lemma {:induction false} SuccessiveIs<W>(m: Machine<W>, args: seq<Tree>, order: seq<nat>, w: W)
    requires m.Valid() && forall k :: 0 <= k < |order| ==> order[k] < |args|
    ensures IsSuccessive(m, args, order, w, Successive(m, args, order, w))
    decreases |order|
  {
    hide Eval;
    if order != [] {
      var rs := Successive(m, args, order, w);
      var first, rest, more := rs[0], rs[1..], order[1..];
      SuccessiveIs(m, args, more, first.world);
      assert rest == Successive(m, args, more, first.world);
      forall k | 0 <= k < |order|
        ensures rs[k] == Eval(m, args[order[k]], WorldAt(w, rs, k))
      {
        if k > 0 {
          assert rs[k] == rest[k - 1] && order[k] == more[k - 1];
          assert rest[k - 1] == Eval(m, args[more[k - 1]], WorldAt(first.world, rest, k - 1));
          assert WorldAt(first.world, rest, k - 1) == WorldAt(w, rs, k);
        }
      }
    }
  }

  lemma {:induction false} SuccessiveRest<W>(m: Machine<W>, args: seq<Tree>, order: seq<nat>, w: W, rs: seq<Result<W>>)
    requires m.Valid() && order != [] && IsSuccessive(m, args, order, w, rs)
    ensures order[0] < |args| && rs[0] == Eval(m, args[order[0]], w)
    ensures IsSuccessive(m, args, order[1..], rs[0].world, rs[1..])
    ensures WorldAt(w, rs, |rs|) == WorldAt(rs[0].world, rs[1..], |rs[1..]|)
  {
    hide Eval;
    var first, rest, more := rs[0], rs[1..], order[1..];
    assert first == Eval(m, args[order[0]], WorldAt(w, rs, 0));
    forall k | 0 <= k < |more|
      ensures rest[k] == Eval(m, args[more[k]], WorldAt(first.world, rest, k))
    {
      assert rs[k + 1] == Eval(m, args[order[k + 1]], WorldAt(w, rs, k + 1));
      assert WorldAt(first.world, rest, k) == WorldAt(w, rs, k + 1);
    }
  }

  /** The arguments lead through their worlds and effects. */
  lemma {:induction false} EvalArgsWorlds<W>(m: Machine<W>, args: seq<Tree>, order: seq<nat>, values: seq<Double>, w: W,
                                             rs: seq<Result<W>>)
    requires m.Valid() && |values| == |args| && IsSuccessive(m, args, order, w, rs)
    ensures var a := EvalArgs(m, args, order, values, w); a.world == WorldAt(w, rs, |rs|) && a.effects == AllEffects(rs)
    decreases |order|
  {
    if order != [] {
      hide Eval;
      SuccessiveRest(m, args, order, w, rs);
      EvalArgsWorlds(m, args, order[1..], values[order[0] := rs[0].value], rs[0].world, rs[1..]);
      assert rs == [rs[0]] + rs[1..];
      EffectsFirst(rs[0], rs[1..]);
    }
  }

  lemma {:induction false} EvalArgsFirst<W>(m: Machine<W>, args: seq<Tree>, order: seq<nat>, values: seq<Double>, w: W)
    requires m.Valid() && |values| == |args| && order != [] && forall k :: 0 <= k < |order| ==> order[k] < |args|
    ensures var first := Eval(m, args[order[0]], w);
            EvalArgs(m, args, order, values, w).values
            == EvalArgs(m, args, order[1..], values[order[0] := first.value], first.world).values
  {
    hide Eval;
  }

  lemma {:induction false} EvalArgsNone<W>(m: Machine<W>, args: seq<Tree>, values: seq<Double>, w: W)
    requires m.Valid() && |values| == |args|
    ensures Placed(EvalArgs(m, args, [], values, w).values, [], [], values)
  {
  }

  lemma {:induction false} Bounded<W>(m: Machine<W>, args: seq<Tree>, order: seq<nat>, w: W, rs: seq<Result<W>>)
    requires m.Valid() && IsSuccessive(m, args, order, w, rs)
    ensures |rs| == |order| && forall k :: 0 <= k < |order| ==> order[k] < |args|
  {
  }

  /** The array a holds x[k] at position order[k], and is otherwise like values. */
  ghost predicate Placed(a: seq<Double>, order: seq<nat>, x: seq<Double>, values: seq<Double>) {
    && |a| == |values| && |x| == |order|
    && (forall k :: 0 <= k < |order| ==> order[k] < |a| && a[order[k]] == x[k])
    && (forall i :: 0 <= i < |a| && i !in order ==> a[i] == values[i])
  }

  lemma {:induction false} PlacedFirst(a: seq<Double>, order: seq<nat>, x: seq<Double>, values: seq<Double>)
    requires order != [] && Distinct(order) && |x| == |order| && order[0] < |values|
    requires Placed(a, order[1..], x[1..], values[order[0] := x[0]])
    ensures Placed(a, order, x, values) && Distinct(order[1..])
  {
    var more := order[1..];
    assert order == [order[0]] + more;
    assert order[0] !in more;
    forall k | 0 <= k < |order|
      ensures order[k] < |a| && a[order[k]] == x[k]
    {
      if k > 0 {
        assert order[k] == more[k - 1] && x[k] == x[1..][k - 1];
      }
    }
  }

  lemma {:induction false} DistinctRest(order: seq<nat>)
    requires order != [] && Distinct(order)
    ensures Distinct(order[1..])
  {
  }

  function ValuesOf<W>(rs: seq<Result<W>>): (x: seq<Double>)
    ensures |x| == |rs|
  {
    seq(|rs|, k requires 0 <= k < |rs| => rs[k].value)
  }

  /** The argument array holds, at each argument, the value it evaluated to. */
  lemma {:induction false} EvalArgsValues<W>(m: Machine<W>, args: seq<Tree>, order: seq<nat>, values: seq<Double>, w: W,
                                             rs: seq<Result<W>>)
    requires m.Valid() && |values| == |args| && IsSuccessive(m, args, order, w, rs) && Distinct(order)
    ensures Placed(EvalArgs(m, args, order, values, w).values, order, ValuesOf(rs), values)
    decreases |order|
  {
    hide Eval;
    hide Distinct;
    hide EvalArgs;
    hide IsSuccessive;
    hide Placed;
    if order == [] {
      Bounded(m, args, order, w, rs);
      EvalArgsNone(m, args, values, w);
      assert ValuesOf(rs) == [];
    } else {
      Bounded(m, args, order, w, rs);
      SuccessiveRest(m, args, order, w, rs);
      EvalArgsFirst(m, args, order, values, w);
      DistinctRest(order);
      EvalArgsValues(m, args, order[1..], values[order[0] := rs[0].value], rs[0].world, rs[1..]);
      assert ValuesOf(rs)[1..] == ValuesOf(rs[1..]);
      PlacedFirst(EvalArgs(m, args, order, values, w).values, order, ValuesOf(rs), values);
    }
  }

  lemma {:induction false} ValuesDetermined(order: seq<nat>, a: seq<Double>, b: seq<Double>)
    requires IsPermutation(order, |a|) && |a| == |b|
    requires forall k :: 0 <= k < |order| ==> a[order[k]] == b[order[k]]
    ensures a == b
  {
    forall i | 0 <= i < |a|
      ensures a[i] == b[i]
    {
      assert i in order;
      var k :| 0 <= k < |order| && order[k] == i;
    }
  }

  /** Evaluation gives the one result the relation allows. */
  lemma {:induction false} EvalIsRelation<W(!new)>(m: Machine<W>, t: Tree, w: W, r: Result<W>)
    requires m.Valid()
    ensures Evaluates(m, t, w, r) <==> r == Eval(m, t, w)
    decreases t, 2
  {
    if t.Call? {
      hide CallEvaluates;
      hide Eval;
      var rs, values := CallHappens(m, t, w);
      forall rs': seq<Result<W>>, values': seq<Double> |
        |rs'| == |values'| == |t.args| && CallEvaluates(m, t, w, r, rs', values')
        ensures r == Eval(m, t, w)
      {
        CallDetermined(m, t, w, r, rs', values');
      }
    }
  }

  ghost predicate Delivered<W>(values: seq<Double>, order: seq<nat>, rs: seq<Result<W>>) {
    |rs| == |order| && forall k :: 0 <= k < |order| ==> order[k] < |values| && values[order[k]] == rs[k].value
  }

  lemma {:induction false} PlacedIsDelivered<W>(a: seq<Double>, order: seq<nat>, rs: seq<Result<W>>, unset: seq<Double>)
    requires Placed(a, order, ValuesOf(rs), unset)
    ensures Delivered(a, order, rs)
  {
  }

  lemma {:induction false} DeliveredOnce<W>(a: seq<Double>, b: seq<Double>, order: seq<nat>, rs: seq<Result<W>>)
    requires IsPermutation(order, |a|) && |a| == |b| && Delivered(a, order, rs) && Delivered(b, order, rs)
    ensures a == b
  {
    hide Distinct;
    ValuesDetermined(order, a, b);
  }

  lemma {:induction false} CallHappens<W(!new)>(m: Machine<W>, t: Tree, w: W) returns (rs: seq<Result<W>>, values: seq<Double>)
    requires m.Valid() && t.Call?
    ensures |rs| == |values| == |t.args| && CallEvaluates(m, t, w, Eval(m, t, w), rs, values)
    decreases t, 1
  {
    hide CallEvaluates;
    hide EvalArgs;
    hide IsSuccessive;
    hide Placed;
    hide Delivered;
    hide Distinct;
    var n := |t.args|;
    var order := m.order(t.kind.closure, n);
    assert IsPermutation(order, n);
    rs := Successive(m, t.args, order, w);
    SuccessiveIs(m, t.args, order, w);
    EvalArgsWorlds(m, t.args, order, Unset(n), w, rs);
    EvalArgsValues(m, t.args, order, Unset(n), w, rs);
    values := EvalArgs(m, t.args, order, Unset(n), w).values;
    PlacedIsDelivered(values, order, rs, Unset(n));
    Bounded(m, t.args, order, w, rs);
    CallRelation(m, t, w, Eval(m, t, w), rs, values);
  }

  lemma {:induction false} CallDetermined<W(!new)>(m: Machine<W>, t: Tree, w: W, r: Result<W>, rs: seq<Result<W>>, values: seq<Double>)
    requires m.Valid() && t.Call? && |rs| == |values| == |t.args| && CallEvaluates(m, t, w, r, rs, values)
    ensures r == Eval(m, t, w)
    decreases t, 1
  {
    hide CallEvaluates;
    hide EvalArgs;
    hide IsSuccessive;
    hide Placed;
    hide Delivered;
    hide Distinct;
    var n := |t.args|;
    var order := m.order(t.kind.closure, n);
    CallRelation(m, t, w, r, rs, values);
    EvalArgsWorlds(m, t.args, order, Unset(n), w, rs);
    EvalArgsValues(m, t.args, order, Unset(n), w, rs);
    var a := EvalArgs(m, t.args, order, Unset(n), w).values;
    PlacedIsDelivered(a, order, rs, Unset(n));
    DeliveredOnce(a, values, order, rs);
  }

  /** The relation for a call, when it is known for the arguments. */
  lemma {:induction false} CallRelation<W(!new)>(m: Machine<W>, t: Tree, w: W, r: Result<W>, rs: seq<Result<W>>, values: seq<Double>)
    requires m.Valid() && t.Call? && |rs| == |values| == |t.args|
    ensures var n := |t.args|;
            var order := m.order(t.kind.closure, n);
            && IsPermutation(order, n)
            && (CallEvaluates(m, t, w, r, rs, values) <==>
                  && IsSuccessive(m, t.args, order, w, rs)
                  && Delivered(values, order, rs)
                  && r == Apply(m, t.kind, t.fn, t.context, ArgResult(values, WorldAt(w, rs, n), AllEffects(rs))))
    decreases t, 0
  {
    hide Eval;
    var n := |t.args|;
    var order := m.order(t.kind.closure, n);
    assert IsPermutation(order, n);
    forall k | 0 <= k < n
      ensures Evaluates(m, t.args[order[k]], WorldAt(w, rs, k), rs[k])
         <==> rs[k] == Eval(m, t.args[order[k]], WorldAt(w, rs, k))
    {
      EvalIsRelation(m, t.args[order[k]], WorldAt(w, rs, k), rs[k]);
    }
  }

  // ---------------------------------------------------------------------
  // The value of a tree without impure calls
  // ---------------------------------------------------------------------

  type Env = Addr -> Double

  type Functions = (Fn, Addr, seq<Double>) -> Double

  /** The value of a tree, given what the variables hold and what the functions compute. */
  function ValueOf(t: Tree, env: Env, functions: Functions): Double
    decreases t
  {
    match t
    case Missing => NAN
    case Constant(v) => v
    case Variable(b) => env(b)
    case Call(_, fn, context, args) =>
      functions(fn, context, seq(|args|, i requires 0 <= i < |args| => ValueOf(args[i], env, functions)))
  }

  ghost predicate OnlyPure(t: Tree)
    decreases t
  {
    t.Call? ==> t.kind.pure && forall i :: 0 <= i < |t.args| ==> OnlyPure(t.args[i])
  }

  function Memory<W>(m: Machine<W>, w: W): Env {
    (b: Addr) => m.read(b, w)
  }

  /** Arguments that leave the world alone just give their values. */
  lemma {:induction false} EvalArgsPure<W>(m: Machine<W>, args: seq<Tree>, order: seq<nat>, values: seq<Double>, w: W)
    requires m.Valid() && IsPermutation(order, |args|) && |values| == |args|
    requires forall i :: 0 <= i < |args| ==> Eval(m, args[i], w) == Result(values[i], w, [])
    ensures EvalArgs(m, args, order, Unset(|args|), w) == ArgResult(values, w, [])
  {
    hide Eval;
    hide EvalArgs;
    hide Distinct;
    hide IsSuccessive;
    hide Placed;
    hide Delivered;
    var n := |args|;
    var rs := Unchanged(values, order, w);
    UnchangedIs(m, args, order, values, w);
    EvalArgsWorlds(m, args, order, Unset(n), w, rs);
    EvalArgsValues(m, args, order, Unset(n), w, rs);
    NoEffects(rs);
    var a := EvalArgs(m, args, order, Unset(n), w).values;
    PlacedIsDelivered(a, order, rs, Unset(n));
    DeliveredOnce(a, values, order, rs);
  }

  function Unchanged<W>(values: seq<Double>, order: seq<nat>, w: W): (rs: seq<Result<W>>)
    requires forall k :: 0 <= k < |order| ==> order[k] < |values|
    ensures |rs| == |order|
    ensures forall k :: 0 <= k < |rs| ==> rs[k] == Result(values[order[k]], w, [])
  {
    seq(|order|, k requires 0 <= k < |order| => Result(values[order[k]], w, []))
  }

  lemma {:induction false} UnchangedIs<W>(m: Machine<W>, args: seq<Tree>, order: seq<nat>, values: seq<Double>, w: W)
    requires m.Valid() && |values| == |args| && forall k :: 0 <= k < |order| ==> order[k] < |args|
    requires forall i :: 0 <= i < |args| ==> Eval(m, args[i], w) == Result(values[i], w, [])
    ensures IsSuccessive(m, args, order, w, Unchanged(values, order, w)) && Delivered(values, order, Unchanged(values, order, w))
  {
    hide Eval;
  }

  function ValuesIn(ts: seq<Tree>, env: Env, functions: Functions): (values: seq<Double>)
    ensures |values| == |ts|
  {
    seq(|ts|, i requires 0 <= i < |ts| => ValueOf(ts[i], env, functions))
  }

  /** Without impure calls evaluation gives that value, changes nothing and has no effect. */
  lemma {:induction false} EvalIsValue<W>(m: Machine<W>, t: Tree, w: W)
    requires m.Valid() && OnlyPure(t)
    ensures Eval(m, t, w) == Result(ValueOf(t, Memory(m, w), m.pure), w, [])
    decreases t
  {
    if t.Call? {
      hide EvalArgs;
      var n, env := |t.args|, Memory(m, w);
      var order := m.order(t.kind.closure, n);
      assert IsPermutation(order, n);
      var values := ValuesIn(t.args, env, m.pure);
      forall i | 0 <= i < n
        ensures Eval(m, t.args[i], w) == Result(values[i], w, [])
      {
        EvalIsValue(m, t.args[i], w);
      }
      EvalArgsPure(m, t.args, order, values, w);
      assert ValueOf(t, env, m.pure) == m.pure(t.fn, t.context, values);
    }
  }

  lemma {:induction false} NoEffects<W>(rs: seq<Result<W>>)
    requires forall k :: 0 <= k < |rs| ==> rs[k].effects == []
    ensures AllEffects(rs) == []
  {
    if rs != [] {
      NoEffects(rs[..|rs| - 1]);
    }
  }

  lemma {:induction false} ClosedIsPure(t: Tree)
    requires Closed(t)
    ensures OnlyPure(t)
    decreases t
  {
    if t.Call? {
      forall i | 0 <= i < |t.args|
        ensures OnlyPure(t.args[i])
      {
        ClosedIsPure(t.args[i]);
      }
    }
  }

  /** Optimising replaces, below calls of pure functions, exactly the parts without variables
      and impure calls, each by its value. */
  lemma {:induction false} OptimizeFoldsClosedParts<W>(m: Machine<W>, t: Tree, env: Env)
    ensures Optimized(m, t)
         == if Closed(t) then Constant(ValueOf(t, env, m.pure))
            else if t.Call? && t.kind.pure then Call(t.kind, t.fn, t.context, OptimizedAll(m, t.args))
            else t
    decreases t
  {
    ClosedFolds(m, t);
    if Closed(t) && t.Call? {
      var args := OptimizedAll(m, t.args);
      forall i | 0 <= i < |args|
        ensures args[i] == Constant(ValueOf(t.args[i], env, m.pure))
      {
        OptimizeFoldsClosedParts(m, t.args[i], env);
      }
      assert Values(args) == seq(|t.args|, i requires 0 <= i < |t.args| => ValueOf(t.args[i], env, m.pure));
    }
  }

  // ---------------------------------------------------------------------
  // The effects
  // ---------------------------------------------------------------------

  /** The impure calls written in a tree: their functions and context pointers. */
  function ImpureCalls(t: Tree): multiset<(Fn, Addr)>
    decreases t, 1
  {
    if !t.Call? then multiset{}
    else ImpureCallsOf(t.args) + if t.kind.pure then multiset{} else multiset{(t.fn, t.context)}
  }

  function ImpureCallsOf(ts: seq<Tree>): multiset<(Fn, Addr)>
    decreases ts, 0
  {
    if ts == [] then multiset{} else ImpureCallsOf(ts[..|ts| - 1]) + ImpureCalls(ts[|ts| - 1])
  }

  function CallOf(e: Effect): (Fn, Addr) {
    (e.fn, e.context)
  }

  /** The calls made. */
  function CallsMade(effects: seq<Effect>): multiset<(Fn, Addr)> {
    if effects == [] then multiset{}
    else CallsMade(effects[..|effects| - 1]) + multiset{CallOf(effects[|effects| - 1])}
  }

  lemma {:induction false} CallsMadeConcat(a: seq<Effect>, b: seq<Effect>)
    ensures CallsMade(a + b) == CallsMade(a) + CallsMade(b)
    decreases |b|
  {
    if b == [] {
      assert a + b == a;
    } else {
      hide CallOf;
      var n := |b| - 1;
      var front, last := b[..n], multiset{CallOf(b[n])};
      CallsMadeConcat(a, front);
      assert (a + b)[..|a + b| - 1] == a + front && (a + b)[|a + b| - 1] == b[n];
      assert CallsMade(a + b) == CallsMade(a + front) + last;
      assert CallsMade(b) == CallsMade(front) + last;
    }
  }

  /** The impure calls of some of the arguments, in any order. */
  function ImpureCallsAt(ts: seq<Tree>, order: seq<nat>): multiset<(Fn, Addr)>
    requires forall k :: 0 <= k < |order| ==> order[k] < |ts|
  {
    if order == [] then multiset{} else ImpureCalls(ts[order[0]]) + ImpureCallsAt(ts, order[1..])
  }

  lemma {:induction false} ImpureCallsWithout(ts: seq<Tree>, order: seq<nat>, k: nat)
    requires k < |order| && forall j :: 0 <= j < |order| ==> order[j] < |ts|
    ensures ImpureCallsAt(ts, order) == ImpureCallsAt(ts, order[..k] + order[k + 1..]) + ImpureCalls(ts[order[k]])
    decreases k
  {
    hide ImpureCalls;
    if k == 0 {
      assert order[..0] + order[1..] == order[1..];
    } else {
      ImpureCallsWithout(ts, order[1..], k - 1);
      var rest := order[..k] + order[k + 1..];
      assert rest[1..] == order[1..][..k - 1] + order[1..][k..];
    }
  }

  lemma {:induction false} ImpureCallsFrame(ts: seq<Tree>, us: seq<Tree>, order: seq<nat>)
    requires forall k :: 0 <= k < |order| ==> order[k] < |ts| && order[k] < |us| && ts[order[k]] == us[order[k]]
    ensures ImpureCallsAt(ts, order) == ImpureCallsAt(us, order)
    decreases |order|
  {
    if order != [] {
      ImpureCallsFrame(ts, us, order[1..]);
    }
  }

  /** The order does not matter. */
  lemma {:induction false} ImpureCallsPermuted(ts: seq<Tree>, order: seq<nat>)
    requires IsPermutation(order, |ts|)
    ensures ImpureCallsAt(ts, order) == ImpureCallsOf(ts)
    decreases |ts|
  {
    hide ImpureCalls;
    hide Distinct;
    var n := |ts| - 1;
    if n >= 0 {
      assert n in order;
      var k :| 0 <= k < |order| && order[k] == n;
      var rest := order[..k] + order[k + 1..];
      ImpureCallsWithout(ts, order, k);
      WithoutLast(order, rest, n, k);
      ImpureCallsFrame(ts, ts[..n], rest);
      ImpureCallsPermuted(ts[..n], rest);
    }
  }

  lemma {:induction false} WithoutLast(order: seq<nat>, rest: seq<nat>, n: nat, k: nat)
    requires IsPermutation(order, n + 1) && k <= n && order[k] == n && rest == order[..k] + order[k + 1..]
    ensures IsPermutation(rest, n)
  {
    forall i | 0 <= i < n
      ensures i in rest
    {
      assert i in order;
      var j :| 0 <= j < |order| && order[j] == i;
      assert rest[if j < k then j else j - 1] == i;
    }
    forall j | 0 <= j < n
      ensures rest[j] < n
    {
      var o := if j < k then j else j + 1;
      assert rest[j] == order[o] && order[o] != order[k];
    }
    forall i, j | 0 <= i < j < n
      ensures rest[i] != rest[j]
    {
      assert rest[i] == order[if i < k then i else i + 1] && rest[j] == order[if j < k then j else j + 1];
    }
  }

  /** Evaluation makes exactly the impure calls written in the tree, each once. */
  lemma {:induction false} EffectsAreImpureCalls<W>(m: Machine<W>, t: Tree, w: W)
    requires m.Valid()
    ensures CallsMade(Eval(m, t, w).effects) == ImpureCalls(t)
    ensures |Eval(m, t, w).effects| == |ImpureCalls(t)|
    decreases t, 1
  {
    if t.Call? {
      var n := |t.args|;
      var order := m.order(t.kind.closure, n);
      assert IsPermutation(order, n);
      ArgEffects(m, t.args, order, Unset(n), w);
      ImpureCallsPermuted(t.args, order);
      var a := EvalArgs(m, t.args, order, Unset(n), w);
      var own := Effect(t.fn, t.context, a.values);
      CallsMadeConcat(a.effects, [own]);
      assert CallsMade([own]) == multiset{(t.fn, t.context)};
    }
    CallsCounted(Eval(m, t, w).effects);
  }

  lemma {:induction false} CallsCounted(effects: seq<Effect>)
    ensures |CallsMade(effects)| == |effects|
  {
    if effects != [] {
      CallsCounted(effects[..|effects| - 1]);
    }
  }

  lemma {:induction false} ArgEffects<W>(m: Machine<W>, args: seq<Tree>, order: seq<nat>, values: seq<Double>, w: W)
    requires m.Valid() && |values| == |args| && forall k :: 0 <= k < |order| ==> order[k] < |args|
    ensures CallsMade(EvalArgs(m, args, order, values, w).effects) == ImpureCallsAt(args, order)
    decreases args, 0, |order|
  {
    if order != [] {
      var first := Eval(m, args[order[0]], w);
      EffectsAreImpureCalls(m, args[order[0]], w);
      ArgEffects(m, args, order[1..], values[order[0] := first.value], first.world);
      CallsMadeConcat(first.effects, EvalArgs(m, args, order[1..], values[order[0] := first.value], first.world).effects);
    }
  }

  // ---------------------------------------------------------------------
  // The value of an expression
  // ---------------------------------------------------------------------

  /** The value of an expression as it is written, in the default build: parentheses only
      group, an odd number of minus signs negates, an operator or function is applied to
      the values of its operands in order, and a closure gets its own context pointer. */
  function Worth(c: Cst, env: Env, functions: Functions): Double
    decreases c
  {
    match c
    case CNumber(v) => v
    case CVariable(b) => env(b)
    case CParen(inner) => Worth(inner, env, functions)
    case CSigned(signs, operand) =>
      var x := Worth(operand, env, functions);
      if multiset(signs)[Sub] % 2 == 1 then functions(Negate, 0, [x]) else x
    case CCall(kind, fn, context, _, args) =>
      functions(fn, if kind.closure then context else 0,
                seq(|args|, i requires 0 <= i < |args| => Worth(args[i], env, functions)))
    case CBinary(op, left, right) => functions(op, 0, [Worth(left, env, functions), Worth(right, env, functions)])
  }

  /** The tree of an expression has its value. */
  lemma {:induction false} TreeHasWorth(c: Cst, env: Env, functions: Functions)
    ensures ValueOf(Denote(c, false), env, functions) == Worth(c, env, functions)
    decreases c
  {
    match c
    case CNumber(_) =>
    case CVariable(_) =>
    case CParen(inner) => TreeHasWorth(inner, env, functions);
    case CSigned(signs, operand) =>
      TreeHasWorth(operand, env, functions);
      ParityOfMinuses(signs);
      ValueOfOne(Negate, Denote(operand, false), env, functions);
    case CBinary(op, left, right) =>
      TreeHasWorth(left, env, functions);
      TreeHasWorth(right, env, functions);
      ValueOfTwo(op, Denote(left, false), Denote(right, false), env, functions);
    case CCall(kind, fn, context, _, args) =>
      var ts := DenoteAll(args, false);
      forall i | 0 <= i < |args|
        ensures ValueOf(ts[i], env, functions) == Worth(args[i], env, functions)
      {
        TreeHasWorth(args[i], env, functions);
      }
      assert seq(|ts|, i requires 0 <= i < |ts| => ValueOf(ts[i], env, functions))
          == seq(|args|, i requires 0 <= i < |args| => Worth(args[i], env, functions));
  }

  lemma {:induction false} ValueOfOne(fn: Fn, t: Tree, env: Env, functions: Functions)
    ensures ValueOf(Call(UNARY, fn, 0, [t]), env, functions) == functions(fn, 0, [ValueOf(t, env, functions)])
  {
    var args := [t];
    assert seq(|args|, i requires 0 <= i < |args| => ValueOf(args[i], env, functions)) == [ValueOf(t, env, functions)];
  }

  lemma {:induction false} ValueOfTwo(op: Fn, t: Tree, u: Tree, env: Env, functions: Functions)
    ensures ValueOf(Binary(op, t, u), env, functions) == functions(op, 0, [ValueOf(t, env, functions), ValueOf(u, env, functions)])
  {
    var args := [t, u];
    assert seq(|args|, i requires 0 <= i < |args| => ValueOf(args[i], env, functions))
        == [ValueOf(t, env, functions), ValueOf(u, env, functions)];
  }

  /** No impure function is called. */
  ghost predicate CallsPureOnly(c: Cst)
    decreases c
  {
    match c
    case CCall(kind, _, _, _, args) => kind.pure && forall i :: 0 <= i < |args| ==> CallsPureOnly(args[i])
    case CParen(inner) => CallsPureOnly(inner)
    case CSigned(_, operand) => CallsPureOnly(operand)
    case CBinary(_, left, right) => CallsPureOnly(left) && CallsPureOnly(right)
    case _ => true
  }

  lemma {:induction false} DenotesPure(c: Cst)
    requires CallsPureOnly(c)
    ensures OnlyPure(Denote(c, false))
    decreases c
  {
    match c
    case CParen(inner) => DenotesPure(inner);
    case CSigned(_, operand) => DenotesPure(operand);
    case CBinary(_, left, right) =>
      DenotesPure(left);
      DenotesPure(right);
    case CCall(_, _, _, _, args) =>
      forall i | 0 <= i < |args|
        ensures OnlyPure(Denote(args[i], false))
      {
        DenotesPure(args[i]);
      }
    case _ =>
  }

  /** Compiling, optimising and evaluating an expression gives its value at the time of the
      evaluation. */
  lemma {:induction false} CompiledWorth<W>(m: Machine<W>, c: Cst, w: W)
    requires m.Valid() && CallsPureOnly(c)
    ensures Eval(m, Optimized(m, Denote(c, false)), w) == Result(Worth(c, Memory(m, w), m.pure), w, [])
  {
    OptimizePreservesMeaning(m, Denote(c, false), w);
    DenotesPure(c);
    EvalIsValue(m, Denote(c, false), w);
    TreeHasWorth(c, Memory(m, w), m.pure);
  }
}
