/** Expression nodes on the C heap: allocation that may fail, explicit freeing, and the
    trees that live there.

    A tree owns exactly the cells of `HeapOf`. Since every cell it owns is determined
    by the tree, ownership is stated as an equation between whole heaps.
 */
module NodeHeap {
  import opened Names
  import opened Lexer
  import opened Grammar

  /** The type of a node: TE_CONSTANT, TE_VARIABLE, or a function or closure code. */
  datatype Ty = TyConstant | TyVariable | TyCall(kind: Kind)

  function Arity(ty: Ty): nat {
    if ty.TyCall? then ty.kind.arity else 0
  }

  predicate IsClosure(ty: Ty) {
    ty.TyCall? && ty.kind.closure
  }

  /** The union of value, bound and function. */
  datatype Payload = Value(value: Double) | Bound(bound: Addr) | Code(fn: Fn)

  /** One allocated te_expr with room for its parameters and a closure's context. */
  datatype Cell = Cell(ty: Ty, payload: Payload, slots: seq<Addr>)

  /** A tree together with the addresses of its nodes. `extra` holds the slots that are
      not children: the context of a closure, or what folding left behind. */
  datatype HTree = Nil | Node(addr: Addr, ty: Ty, payload: Payload, kids: seq<HTree>, extra: seq<Addr>)

  function Root(t: HTree): Addr {
    if t.Nil? then 0 else t.addr
  }

  function Roots(ts: seq<HTree>): (r: seq<Addr>)
    ensures |r| == |ts|
  {
    seq(|ts|, i requires 0 <= i < |ts| => Root(ts[i]))
  }

  /** The cells a tree owns. */
  function HeapOf(t: HTree): map<Addr, Cell>
    decreases t, 1
  {
    if t.Nil? then map[]
    else HeapOfAll(t.kids)[t.addr := Cell(t.ty, t.payload, Roots(t.kids) + t.extra)]
  }

  function HeapOfAll(ts: seq<HTree>): map<Addr, Cell>
    decreases ts, 0
  {
    if ts == [] then map[] else HeapOfAll(ts[..|ts| - 1]) + HeapOf(ts[|ts| - 1])
  }

  /** No node occurs twice, every node has as many children as its type says, and a
      closure has its context. */
  ghost predicate Proper(t: HTree)
    decreases t, 1
  {
    t.Node? ==>
      && t.addr != 0 && t.addr !in HeapOfAll(t.kids)
      && Shaped(t)
      && ProperAll(t.kids)
  }

  predicate Shaped(t: HTree)
    requires t.Node?
  {
    |t.kids| == Arity(t.ty) && (IsClosure(t.ty) ==> |t.extra| == 1)
  }

  ghost predicate ProperAll(ts: seq<HTree>)
    decreases ts, 0
  {
    ts != [] ==>
      && ProperAll(ts[..|ts| - 1]) && Proper(ts[|ts| - 1])
      && HeapOfAll(ts[..|ts| - 1]).Keys !! HeapOf(ts[|ts| - 1]).Keys
  }

  /** The tree is laid out in the heap. */
  ghost predicate Holds(cells: map<Addr, Cell>, t: HTree) {
    && Proper(t)
    && forall a :: a in HeapOf(t) ==> a in cells && cells[a] == HeapOf(t)[a]
  }

  /** The heap has grown by exactly the nodes of t. */
  ghost predicate Grew(before: map<Addr, Cell>, after: map<Addr, Cell>, t: HTree) {
    && Proper(t)
    && HeapOf(t).Keys !! before.Keys
    && after == before + HeapOf(t)
  }

  /** The expression tree without its addresses. */
  function Erase(t: HTree): Tree
    decreases t, 1
  {
    match t
    case Nil => Missing
    case Node(_, TyConstant, Value(d), _, _) => Constant(d)
    case Node(_, TyVariable, Bound(b), _, _) => Variable(b)
    case Node(_, TyCall(kind), Code(fn), kids, extra) =>
      Call(kind, fn, if kind.closure && extra != [] then extra[0] else 0, EraseAll(kids))
    case _ => Missing
  }

  function EraseAll(ts: seq<HTree>): (r: seq<Tree>)
    ensures |r| == |ts|
    ensures forall i :: 0 <= i < |ts| ==> r[i] == Erase(ts[i])
    decreases ts, 0
  {
    if ts == [] then [] else EraseAll(ts[..|ts| - 1]) + [Erase(ts[|ts| - 1])]
  }

  // ---------------------------------------------------------------------
  // Lemmas on ownership
  // ---------------------------------------------------------------------

  lemma {:induction false} KidHeap(ts: seq<HTree>, i: nat)
    requires i < |ts| && ProperAll(ts)
    ensures Proper(ts[i])
    ensures forall a :: a in HeapOf(ts[i]) ==> a in HeapOfAll(ts) && HeapOfAll(ts)[a] == HeapOf(ts[i])[a]
    ensures HeapOfAll(ts[..i]).Keys !! HeapOf(ts[i]).Keys
    decreases |ts|
  {
    var n := |ts| - 1;
    if i < n {
      KidHeap(ts[..n], i);
      assert ts[..n][..i] == ts[..i];
    }
  }

  /** A prefix of the children owns part of what all of them own. */
  lemma {:induction false} PrefixHeap(ts: seq<HTree>, i: nat)
    requires i <= |ts| && ProperAll(ts)
    ensures ProperAll(ts[..i])
    ensures forall a :: a in HeapOfAll(ts[..i]) ==> a in HeapOfAll(ts) && HeapOfAll(ts)[a] == HeapOfAll(ts[..i])[a]
    decreases |ts|
  {
    if i == |ts| {
      assert ts[..i] == ts;
    } else {
      var n := |ts| - 1;
      PrefixHeap(ts[..n], i);
      assert ts[..n][..i] == ts[..i];
    }
  }

  lemma {:induction false} HeapOfSnoc(ts: seq<HTree>, t: HTree)
    ensures HeapOfAll(ts + [t]) == HeapOfAll(ts) + HeapOf(t)
    ensures ProperAll(ts + [t]) <==> ProperAll(ts) && Proper(t) && HeapOfAll(ts).Keys !! HeapOf(t).Keys
  {
    assert (ts + [t])[..|ts|] == ts;
    assert (ts + [t])[|ts|] == t;
  }

  function Nils(n: nat): seq<HTree> {
    seq(n, _ => Nil)
  }

  /** Unset parameters own nothing. */
  lemma {:induction false} HeapOfNils(ts: seq<HTree>, n: nat)
    ensures HeapOfAll(ts + Nils(n)) == HeapOfAll(ts)
    ensures ProperAll(ts + Nils(n)) <==> ProperAll(ts)
    decreases n
  {
    if n == 0 {
      assert ts + Nils(0) == ts;
    } else {
      HeapOfNils(ts, n - 1);
      HeapOfSnoc(ts + Nils(n - 1), Nil);
      assert ts + Nils(n - 1) + [Nil] == ts + Nils(n);
    }
  }

  /** A new node on top of children allocated after `before`. */
  lemma {:induction false} GrewNode(before: map<Addr, Cell>, mid: map<Addr, Cell>, after: map<Addr, Cell>, t: HTree)
    requires t.Node? && t.addr != 0 && Shaped(t)
    requires ProperAll(t.kids) && HeapOfAll(t.kids).Keys !! before.Keys
    requires mid == before + HeapOfAll(t.kids) && t.addr !in mid
    requires after == mid[t.addr := Cell(t.ty, t.payload, Roots(t.kids) + t.extra)]
    ensures Grew(before, after, t)
  {
    hide HeapOf;
    hide HeapOfAll;
    hide Proper;
    hide ProperAll;
    OwnedByNode(t);
  }

  lemma {:induction false} HeapOfOne(t: HTree)
    ensures HeapOfAll([t]) == HeapOf(t)
    ensures ProperAll([t]) <==> Proper(t)
  {
    assert [] + [t] == [t];
    HeapOfSnoc([], t);
    assert HeapOfAll([]) + HeapOf(t) == HeapOf(t);
  }

  /** A new node without children yet. */
  lemma {:induction false} GrewLeaf(before: map<Addr, Cell>, after: map<Addr, Cell>, t: HTree)
    requires t.Node? && t.addr != 0 && t.addr !in before && t.kids == Nils(Arity(t.ty)) && Shaped(t)
    requires after == before[t.addr := Cell(t.ty, t.payload, Roots(t.kids) + t.extra)]
    ensures Grew(before, after, t)
  {
    assert [] + Nils(Arity(t.ty)) == Nils(Arity(t.ty));
    HeapOfNils([], Arity(t.ty));
    hide HeapOfAll;
    assert HeapOfAll(t.kids) == map[] by { NothingOwned(); }
    GrewNode(before, before, after, t);
  }

  lemma {:induction false} NothingOwned()
    ensures HeapOfAll([]) == map[] && ProperAll([])
  {
  }

  /** A new node on top of one subtree. */
  lemma {:induction false} GrewUnary(before: map<Addr, Cell>, mid: map<Addr, Cell>, after: map<Addr, Cell>, a: HTree, t: HTree)
    requires Grew(before, mid, a)
    requires t.Node? && t.addr != 0 && t.addr !in mid && t.kids == [a] && Shaped(t)
    requires after == mid[t.addr := Cell(t.ty, t.payload, Roots(t.kids) + t.extra)]
    ensures Grew(before, after, t)
  {
    HeapOfOne(a);
    GrewNode(before, mid, after, t);
  }

  /** A new node on top of two subtrees, the second allocated after the first. */
  lemma {:induction false} GrewBinary(before: map<Addr, Cell>, c1: map<Addr, Cell>, c2: map<Addr, Cell>,
                                      after: map<Addr, Cell>, a: HTree, b: HTree, t: HTree)
    requires Grew(before, c1, a) && Grew(c1, c2, b)
    requires t.Node? && t.addr != 0 && t.addr !in c2 && t.kids == [a, b] && Shaped(t)
    requires after == c2[t.addr := Cell(t.ty, t.payload, Roots(t.kids) + t.extra)]
    ensures Grew(before, after, t)
  {
    hide HeapOf;
    hide HeapOfAll;
    hide Proper;
    hide ProperAll;
    assert [a] + [b] == [a, b];
    HeapOfOne(a);
    HeapOfSnoc([a], b);
    assert before + (HeapOf(a) + HeapOf(b)) == c2;
    GrewNode(before, c2, after, t);
  }

  /** Filling in the next argument of a node whose earlier arguments are set. */
  lemma {:induction false} GrewArgument(before: map<Addr, Cell>, c1: map<Addr, Cell>, c2: map<Addr, Cell>,
                                        after: map<Addr, Cell>, t: HTree, done: seq<HTree>, k: nat, a: HTree, t': HTree)
    requires Grew(before, c1, t) && Grew(c1, c2, a)
    requires t.Node? && k >= 1 && t.kids == done + Nils(k)
    requires t' == t.(kids := done + [a] + Nils(k - 1))
    requires after == c2[t.addr := Cell(t.ty, t.payload, Roots(t'.kids) + t.extra)]
    ensures Grew(before, after, t')
  {
    hide HeapOfAll;
    hide ProperAll;
    HeapOfNils(done, k);
    HeapOfNils(done + [a], k - 1);
    HeapOfSnoc(done, a);
    hide HeapOf;
    ArgumentMaps(before, c1, c2, after, HeapOfAll(done), HeapOf(a), t.addr,
                 Cell(t.ty, t.payload, Roots(t.kids) + t.extra), Cell(t.ty, t.payload, Roots(t'.kids) + t.extra));
    OwnedByNode(t);
    OwnedByNode(t');
  }

  lemma {:induction false} OwnedByNode(t: HTree)
    requires t.Node?
    ensures HeapOf(t) == HeapOfAll(t.kids)[t.addr := Cell(t.ty, t.payload, Roots(t.kids) + t.extra)]
    ensures Proper(t) <==> t.addr != 0 && t.addr !in HeapOfAll(t.kids) && Shaped(t) && ProperAll(t.kids)
  {
  }

  lemma {:induction false} ArgumentMaps(before: map<Addr, Cell>, c1: map<Addr, Cell>, c2: map<Addr, Cell>, after: map<Addr, Cell>,
                                        done: map<Addr, Cell>, a: map<Addr, Cell>, p: Addr, old_cell: Cell, new_cell: Cell)
    requires p !in done && p !in before && done.Keys !! before.Keys
    requires c1 == before + done[p := old_cell]
    requires a.Keys !! c1.Keys && c2 == c1 + a
    requires after == c2[p := new_cell]
    ensures after == before + (done + a)[p := new_cell]
    ensures p !in done + a && done.Keys !! a.Keys && (done + a)[p := new_cell].Keys !! before.Keys
  {
  }

  /** Freeing what was added restores the heap. */
  lemma {:induction false} GrewUndone(before: map<Addr, Cell>, after: map<Addr, Cell>, t: HTree)
    requires Grew(before, after, t)
    ensures after - HeapOf(t).Keys == before
    ensures Holds(after, t)
  {
  }

  // ---------------------------------------------------------------------
  // The allocator and the node primitives
  // ---------------------------------------------------------------------

  class Heap {
    var cells: map<Addr, Cell>
    var failures: nat

    constructor ()
      ensures cells == map[] && failures == 0
    {
      cells, failures := map[], 0;
    }

    /** malloc: null at any time, or the address of a cell that is not live. */
    method Malloc(size: nat) returns (p: Addr)
      modifies this
      ensures p == 0 ==> cells == old(cells) && failures == old(failures) + 1
      ensures p != 0 ==>
                && p !in old(cells) && failures == old(failures)
                && cells == old(cells)[p := Cell(TyVariable, Bound(0), seq(size, _ => 0))]
    {
      if * {
        failures := failures + 1;
        return 0;
      }
      p := FreshAddress(cells.Keys);
      cells := cells[p := Cell(TyVariable, Bound(0), seq(size, _ => 0))];
    }

    /** free: only for a live cell. */
    method Free(p: Addr)
      requires p in cells
      modifies this
      ensures cells == old(cells) - {p} && failures == old(failures)
    {
      cells := cells - {p};
    }

    /** new_expr: a zeroed node of the given type, with its parameters if there are any. */
    method NewExpr(ty: Ty, parameters: seq<Addr>) returns (p: Addr)
      requires parameters == [] || |parameters| == Arity(ty)
      modifies this
      ensures p == 0 ==> cells == old(cells) && failures == old(failures) + 1
      ensures p != 0 ==>
                && p !in old(cells) && failures == old(failures)
                && cells == old(cells)[p := Cell(ty, Bound(0), InitialSlots(ty, parameters))]
    {
      var arity := Arity(ty);
      var size := arity + if IsClosure(ty) then 1 else 0;
      p := Malloc(size);
      if p == 0 {
        return;
      }
      cells := cells[p := Cell(ty, Bound(0), InitialSlots(ty, parameters))];
    }

    method SetType(p: Addr, ty: Ty)
      requires p in cells
      modifies this
      ensures failures == old(failures)
      ensures cells == old(cells)[p := old(cells)[p].(ty := ty)]
    {
      cells := cells[p := cells[p].(ty := ty)];
    }

    method SetPayload(p: Addr, payload: Payload)
      requires p in cells
      modifies this
      ensures failures == old(failures)
      ensures cells == old(cells)[p := old(cells)[p].(payload := payload)]
    {
      cells := cells[p := cells[p].(payload := payload)];
    }

    /** Writes one slot; the index must lie inside the allocation. */
    method SetSlot(p: Addr, i: nat, q: Addr)
      requires p in cells && i < |cells[p].slots|
      modifies this
      ensures failures == old(failures)
      ensures cells == old(cells)[p := old(cells)[p].(slots := old(cells)[p].slots[i := q])]
    {
      cells := cells[p := cells[p].(slots := cells[p].slots[i := q])];
    }

    /** te_free_parameters: frees the children from the last to the first. A closure's
        context lies behind them and is not touched. */
    method TeFreeParameters(p: Addr, ghost t: HTree)
      requires p == Root(t) && Holds(cells, t)
      modifies this
      ensures failures == old(failures)
      ensures t.Node? ==> cells == old(cells) - HeapOfAll(t.kids).Keys
      ensures t.Nil? ==> cells == old(cells)
      decreases t, 0
    {
      if p == 0 {
        return;
      }
      ghost var all := HeapOfAll(t.kids).Keys;
      var arity := Arity(cells[p].ty);
      var slots := cells[p].slots;
      assert t.kids[..arity] == t.kids;
      var i := arity;
      while i > 0
        invariant 0 <= i <= arity && failures == old(failures)
        invariant cells == old(cells) - (all - HeapOfAll(t.kids[..i]).Keys)
      {
        i := i - 1;
        KidStillHeld(old(cells), cells, t, i);
        assert slots[i] == Root(t.kids[i]);
        TeFree(slots[i], t.kids[i]);
      }
      assert t.kids[..0] == [];
    }

    /** te_free: frees every node of the tree exactly once and nothing else. */
    method TeFree(p: Addr, ghost t: HTree)
      requires p == Root(t) && Holds(cells, t)
      modifies this
      ensures failures == old(failures)
      ensures cells == old(cells) - HeapOf(t).Keys
      decreases t, 1
    {
      if p == 0 {
        return;
      }
      TeFreeParameters(p, t);
      Free(p);
    }
  }

  function InitialSlots(ty: Ty, parameters: seq<Addr>): (r: seq<Addr>)
    requires parameters == [] || |parameters| == Arity(ty)
    ensures |r| == Arity(ty) + if IsClosure(ty) then 1 else 0
  {
    (if parameters == [] then seq(Arity(ty), _ => 0) else parameters) + if IsClosure(ty) then [0] else []
  }

  method FreshAddress(used: set<Addr>) returns (p: Addr)
    ensures p != 0 && p !in used
  {
    p := 1;
    var rest := used;
    while p in used
      invariant p != 0
      invariant forall a :: a in used && a >= p ==> a in rest
      decreases rest
    {
      rest := rest - {p};
      p := p + 1;
    }
  }

  /** While the later children go, the earlier ones stay in place. */
  lemma {:induction false} KidStillHeld(before: map<Addr, Cell>, cells: map<Addr, Cell>, t: HTree, i: nat)
    requires t.Node? && Holds(before, t) && i < |t.kids|
    requires cells == before - (HeapOfAll(t.kids).Keys - HeapOfAll(t.kids[..i + 1]).Keys)
    ensures Holds(cells, t.kids[i])
    ensures cells - HeapOf(t.kids[i]).Keys == before - (HeapOfAll(t.kids).Keys - HeapOfAll(t.kids[..i]).Keys)
  {
    hide Holds;
    hide Proper;
    hide HeapOf;
    hide HeapOfAll;
    hide ProperAll;
    var ks := t.kids;
    HoldsKids(before, t);
    KidHeap(ks, i);
    PrefixHeap(ks, i + 1);
    assert ks[..i + 1] == ks[..i] + [ks[i]];
    HeapOfSnoc(ks[..i], ks[i]);
    var all, upTo, prefix := HeapOfAll(ks).Keys, HeapOfAll(ks[..i + 1]).Keys, HeapOfAll(ks[..i]).Keys;
    StillIn(before, cells, all, upTo, HeapOf(ks[i]));
    RemoveMore(before, cells, all, upTo, prefix, HeapOf(ks[i]).Keys);
    HoldsWithin(cells, ks[i]);
  }

  lemma {:induction false} RemoveMore(before: map<Addr, Cell>, cells: map<Addr, Cell>,
                                      all: set<Addr>, upTo: set<Addr>, prefix: set<Addr>, kid: set<Addr>)
    requires cells == before - (all - upTo)
    requires upTo == prefix + kid && prefix !! kid && kid <= all
    ensures cells - kid == before - (all - prefix)
  {
    assert (all - upTo) + kid == all - prefix;
  }

  lemma {:induction false} StillIn(before: map<Addr, Cell>, cells: map<Addr, Cell>,
                                   all: set<Addr>, upTo: set<Addr>, kid: map<Addr, Cell>)
    requires cells == before - (all - upTo) && kid.Keys <= upTo
    requires forall a :: a in kid ==> a in before && before[a] == kid[a]
    ensures forall a :: a in kid ==> a in cells && cells[a] == kid[a]
  {
  }

  lemma {:induction false} HoldsKids(cells: map<Addr, Cell>, t: HTree)
    requires t.Node? && Holds(cells, t)
    ensures ProperAll(t.kids)
    ensures forall a :: a in HeapOfAll(t.kids) ==> a in cells && cells[a] == HeapOfAll(t.kids)[a]
  {
    forall a | a in HeapOfAll(t.kids)
      ensures a in cells && cells[a] == HeapOfAll(t.kids)[a]
    {
      assert a in HeapOf(t);
    }
  }

  lemma {:induction false} HoldsWithin(cells: map<Addr, Cell>, t: HTree)
    requires Proper(t)
    requires forall a :: a in HeapOf(t) ==> a in cells && cells[a] == HeapOf(t)[a]
    ensures Holds(cells, t)
  {
  }

  // ---------------------------------------------------------------------
  // Changing a tree in place
  // ---------------------------------------------------------------------

  /** The tree t has been turned into t' in place: nothing outside t has changed, no
      node has been added, and the nodes of t that t' does not have are free. */
  ghost predicate Rebuilt(before: map<Addr, Cell>, after: map<Addr, Cell>, t: HTree, t': HTree) {
    && Proper(t') && Root(t') == Root(t)
    && HeapOf(t').Keys <= HeapOf(t).Keys
    && after == (before - HeapOf(t).Keys) + HeapOf(t')
  }

  lemma {:induction false} RebuiltSame(cells: map<Addr, Cell>, t: HTree)
    requires Holds(cells, t)
    ensures Rebuilt(cells, cells, t, t)
  {
    hide HeapOf;
    hide Proper;
  }

  lemma {:induction false} RebuiltHolds(before: map<Addr, Cell>, after: map<Addr, Cell>, t: HTree, t': HTree)
    requires Rebuilt(before, after, t, t')
    ensures Holds(after, t')
  {
    hide HeapOf;
    hide Proper;
  }

  lemma {:induction false} GrewRebuilt(before: map<Addr, Cell>, mid: map<Addr, Cell>, after: map<Addr, Cell>, t: HTree, t': HTree)
    requires Grew(before, mid, t) && Rebuilt(mid, after, t, t')
    ensures Grew(before, after, t')
  {
    hide HeapOf;
    hide Proper;
  }

  /** Replacing one child by a tree with a subset of its nodes. */
  lemma {:induction false} ReplaceKid(ts: seq<HTree>, i: nat, k: HTree)
    requires i < |ts| && ProperAll(ts) && Proper(k) && HeapOf(k).Keys <= HeapOf(ts[i]).Keys
    ensures ProperAll(ts[i := k])
    ensures HeapOf(ts[i]).Keys <= HeapOfAll(ts).Keys
    ensures HeapOfAll(ts[i := k]) == (HeapOfAll(ts) - HeapOf(ts[i]).Keys) + HeapOf(k)
    decreases |ts|
  {
    hide HeapOf;
    hide HeapOfAll;
    hide Proper;
    hide ProperAll;
    var n := |ts| - 1;
    var init, last := ts[..n], ts[n];
    assert ts == init + [last];
    HeapOfSnoc(init, last);
    if i == n {
      assert ts[i := k] == init + [k];
      HeapOfSnoc(init, k);
      ReplaceLast(HeapOfAll(init), HeapOf(last), HeapOf(k));
    } else {
      ReplaceKid(init, i, k);
      assert ts[i := k] == init[i := k] + [last];
      HeapOfSnoc(init[i := k], last);
      ReplaceEarlier(HeapOfAll(init), HeapOf(init[i]).Keys, HeapOf(k), HeapOf(last));
    }
  }

  lemma {:induction false} ReplaceLast(init: map<Addr, Cell>, last: map<Addr, Cell>, k: map<Addr, Cell>)
    requires init.Keys !! last.Keys && k.Keys <= last.Keys
    ensures init.Keys !! k.Keys
    ensures init + k == ((init + last) - last.Keys) + k
  {
  }

  lemma {:induction false} ReplaceEarlier(init: map<Addr, Cell>, old_kid: set<Addr>, k: map<Addr, Cell>, last: map<Addr, Cell>)
    requires init.Keys !! last.Keys && old_kid <= init.Keys && k.Keys <= old_kid
    ensures ((init - old_kid) + k).Keys !! last.Keys
    ensures ((init - old_kid) + k) + last == ((init + last) - old_kid) + k
  {
  }

  lemma {:induction false} RebuiltKid(before: map<Addr, Cell>, c1: map<Addr, Cell>, c2: map<Addr, Cell>,
                                      t: HTree, cur: HTree, i: nat, k: HTree)
    requires t.Node? && cur.Node? && i < |cur.kids|
    requires Rebuilt(before, c1, t, cur) && Rebuilt(c1, c2, cur.kids[i], k)
    ensures Rebuilt(before, c2, t, cur.(kids := cur.kids[i := k]))
  {
    hide HeapOf;
    hide HeapOfAll;
    hide Proper;
    hide ProperAll;
    var next := cur.(kids := cur.kids[i := k]);
    OwnedByNode(cur);
    OwnedByNode(next);
    ReplaceKid(cur.kids, i, k);
    assert Roots(next.kids) == Roots(cur.kids);
    KidMaps(before, c1, c2, HeapOf(t).Keys, HeapOfAll(cur.kids), HeapOf(cur.kids[i]).Keys, HeapOf(k),
            cur.addr, Cell(cur.ty, cur.payload, Roots(cur.kids) + cur.extra));
  }

  lemma {:induction false} KidMaps(before: map<Addr, Cell>, c1: map<Addr, Cell>, c2: map<Addr, Cell>, owned: set<Addr>,
                                   kids: map<Addr, Cell>, old_kid: set<Addr>, new_kid: map<Addr, Cell>, p: Addr, cell: Cell)
    requires p !in kids && kids[p := cell].Keys <= owned && old_kid <= kids.Keys && new_kid.Keys <= old_kid
    requires c1 == (before - owned) + kids[p := cell]
    requires c2 == (c1 - old_kid) + new_kid
    ensures c2 == (before - owned) + ((kids - old_kid) + new_kid)[p := cell]
    ensures p !in (kids - old_kid) + new_kid && ((kids - old_kid) + new_kid)[p := cell].Keys <= owned
  {
  }

  /** Folding: the children go and the node becomes a constant that keeps its slots. */
  lemma {:induction false} RebuiltFolded(before: map<Addr, Cell>, c1: map<Addr, Cell>, after: map<Addr, Cell>,
                                         t: HTree, cur: HTree, v: Double, folded: HTree)
    requires t.Node? && cur.Node? && Rebuilt(before, c1, t, cur)
    requires folded == Node(cur.addr, TyConstant, Value(v), [], Roots(cur.kids) + cur.extra)
    requires after == (c1 - HeapOfAll(cur.kids).Keys)[cur.addr := Cell(TyConstant, Value(v), Roots(cur.kids) + cur.extra)]
    ensures Rebuilt(before, after, t, folded)
  {
    hide HeapOf;
    hide HeapOfAll;
    hide Proper;
    hide ProperAll;
    OwnedByNode(cur);
    OwnedByNode(folded);
    NothingOwned();
    assert Roots(folded.kids) + folded.extra == folded.extra;
  }
}
