/** The tail insertion of factor under TE_POW_FROM_RIGHT: a chain of exponentiations is
    kept as a right-leaning spine in the heap, and each further operand is hung below
    the last node of the spine by overwriting one of its slots. */
module PowerFromRight {
  import opened Names
  import opened Lexer
  import opened Grammar
  import opened Grouping
  import opened NodeHeap

  /** The spine with nodes at addresses ss and operands us. */
  function Spine(ss: seq<Addr>, us: seq<HTree>): HTree
    requires |us| == |ss| + 1
    decreases |ss|
  {
    if ss == [] then us[0] else PowerNode(ss[0], us[0], Spine(ss[1..], us[1..]))
  }

  function PowerNode(p: Addr, a: HTree, b: HTree): HTree {
    Node(p, TyCall(BINARY), Code(Pow), [a, b], [])
  }

  function PowerCell(a: Addr, b: Addr): Cell {
    Cell(TyCall(BINARY), Code(Pow), [a, b])
  }

  lemma {:induction false} PowerNodeHeap(p: Addr, a: HTree, b: HTree)
    ensures HeapOf(PowerNode(p, a, b)) == (HeapOf(a) + HeapOf(b))[p := PowerCell(Root(a), Root(b))]
    ensures Proper(PowerNode(p, a, b)) <==>
              && p != 0 && p !in HeapOf(a) && p !in HeapOf(b)
              && Proper(a) && Proper(b) && HeapOf(a).Keys !! HeapOf(b).Keys
  {
    hide HeapOf;
    hide HeapOfAll;
    hide Proper;
    hide ProperAll;
    var t := PowerNode(p, a, b);
    assert [a] + [b] == [a, b];
    HeapOfOne(a);
    HeapOfSnoc([a], b);
    OwnedByNode(t);
    assert Roots([a, b]) + [] == [Root(a), Root(b)];
  }

  /** What surrounds the right operand of a power node. */
  function Around(before: map<Addr, Cell>, p: Addr, a: HTree, right: Addr): map<Addr, Cell> {
    before + HeapOf(a)[p := PowerCell(Root(a), right)]
  }

  ghost predicate CanSurround(before: map<Addr, Cell>, p: Addr, a: HTree) {
    p != 0 && p !in before && p !in HeapOf(a) && Proper(a) && HeapOf(a).Keys !! before.Keys
  }

  /** A heap with a power node is a heap with its right operand, seen from inside. */
  lemma {:induction false} PeelPower(before: map<Addr, Cell>, cells: map<Addr, Cell>, p: Addr, a: HTree, b: HTree)
    requires Grew(before, cells, PowerNode(p, a, b))
    ensures CanSurround(before, p, a) && Grew(Around(before, p, a, Root(b)), cells, b)
  {
    hide HeapOf;
    hide Proper;
    PowerNodeHeap(p, a, b);
  }

  lemma {:induction false} WrapPower(before: map<Addr, Cell>, cells: map<Addr, Cell>, p: Addr, a: HTree, b: HTree)
    requires CanSurround(before, p, a) && Grew(Around(before, p, a, Root(b)), cells, b)
    ensures Grew(before, cells, PowerNode(p, a, b))
  {
    hide HeapOf;
    hide Proper;
    PowerNodeHeap(p, a, b);
  }

  /** Overwriting a cell outside the tree. */
  lemma {:induction false} GrewPoke(before: map<Addr, Cell>, cells: map<Addr, Cell>, t: HTree, p: Addr, cell: Cell)
    requires Grew(before, cells, t) && p in before
    ensures Grew(before[p := cell], cells[p := cell], t)
  {
    hide HeapOf;
    hide Proper;
  }

  lemma {:induction false} SpineRoot(ss: seq<Addr>, us: seq<HTree>)
    requires |us| == |ss| + 1
    ensures Root(Spine(ss, us)) == if ss == [] then Root(us[0]) else ss[0]
  {
  }

  /** The last node of the spine and its cell. */
  lemma {:induction false} LastOfSpine(before: map<Addr, Cell>, cells: map<Addr, Cell>, ss: seq<Addr>, us: seq<HTree>)
    requires |us| == |ss| + 1 && ss != [] && Grew(before, cells, Spine(ss, us))
    ensures var p := ss[|ss| - 1];
            p in cells && p !in before && cells[p] == PowerCell(Root(us[|ss| - 1]), Root(us[|ss|]))
    decreases |ss|
  {
    hide HeapOf;
    hide Proper;
    var rest := Spine(ss[1..], us[1..]);
    PeelPower(before, cells, ss[0], us[0], rest);
    if |ss| == 1 {
      PowerNodeHeap(ss[0], us[0], rest);
    } else {
      LastOfSpine(Around(before, ss[0], us[0], Root(rest)), cells, ss[1..], us[1..]);
    }
  }

  /** Tail insertion: a new node takes over the last operand and the new one, and the last
      node of the spine is redirected to it. */
  lemma {:induction false} InsertAtTail(before: map<Addr, Cell>, c1: map<Addr, Cell>, c2: map<Addr, Cell>, after: map<Addr, Cell>,
                                        ss: seq<Addr>, us: seq<HTree>, q: HTree, p: Addr)
    requires |us| == |ss| + 1 && ss != [] && Grew(before, c1, Spine(ss, us)) && Grew(c1, c2, q)
    requires p != 0 && p !in c2
    requires var n := |ss|;
             after == c2[p := PowerCell(Root(us[n]), Root(q))][ss[n - 1] := PowerCell(Root(us[n - 1]), p)]
    ensures Grew(before, after, Spine(ss + [p], us + [q]))
    decreases |ss|
  {
    hide HeapOf;
    hide Proper;
    hide Grew;
    var s, a, rest := ss[0], us[0], Spine(ss[1..], us[1..]);
    PeelPower(before, c1, s, a, rest);
    var inside := Around(before, s, a, Root(rest));
    assert (ss + [p])[1..] == ss[1..] + [p] && (us + [q])[1..] == us[1..] + [q];
    if |ss| == 1 {
      var node := PowerNode(p, us[1], q);
      assert Roots([us[1], q]) + [] == [Root(us[1]), Root(q)];
      GrewBinary(inside, c1, c2, c2[p := PowerCell(Root(us[1]), Root(q))], us[1], q, node);
      GrewPoke(inside, c2[p := PowerCell(Root(us[1]), Root(q))], node, s, PowerCell(Root(a), p));
      assert inside[s := PowerCell(Root(a), p)] == Around(before, s, a, p);
      WrapPower(before, after, s, a, node);
      assert Spine(ss[1..] + [p], us[1..] + [q]) == node by { SpineOfTwo(p, us[1], q, ss, us); }
    } else {
      var rest' := Spine(ss[1..] + [p], us[1..] + [q]);
      InsertAtTail(inside, c1, c2, after, ss[1..], us[1..], q, p);
      SpineRoot(ss[1..], us[1..]);
      SpineRoot(ss[1..] + [p], us[1..] + [q]);
      WrapPower(before, after, s, a, rest');
    }
  }

  lemma {:induction false} SpineOfTwo(p: Addr, u: HTree, q: HTree, ss: seq<Addr>, us: seq<HTree>)
    requires |ss| == 1 && |us| == 2 && us[1] == u
    ensures Spine(ss[1..] + [p], us[1..] + [q]) == PowerNode(p, u, q)
  {
    assert ss[1..] + [p] == [p] && us[1..] + [q] == [u, q];
    assert [p][1..] == [] && [u, q][1..] == [q];
  }

  /** The first exponentiation. */
  lemma {:induction false} SpineOfOne(p: Addr, u: HTree, q: HTree)
    ensures Spine([p], [u, q]) == PowerNode(p, u, q)
    ensures Spine([], [u]) == u
  {
    assert [p][1..] == [] && [u, q][1..] == [q];
  }

  lemma {:induction false} EraseSpine(ss: seq<Addr>, us: seq<HTree>)
    requires |us| == |ss| + 1
    ensures Erase(Spine(ss, us)) == RightFold(EraseAll(us))
    decreases |ss|
  {
    if ss == [] {
      assert EraseAll(us) == [Erase(us[0])];
    } else {
      var rest := Spine(ss[1..], us[1..]);
      EraseSpine(ss[1..], us[1..]);
      assert EraseAll([us[0], rest]) == [Erase(us[0]), Erase(rest)];
      assert EraseAll(us)[1..] == EraseAll(us[1..]);
    }
  }

  /** Taking a negation off the top frees one node and leaves its operand. */
  lemma {:induction false} StripUnary(before: map<Addr, Cell>, cells: map<Addr, Cell>, t: HTree)
    requires t.Node? && |t.kids| == 1 && Grew(before, cells, t)
    ensures t.addr in cells && cells[t.addr] == Cell(t.ty, t.payload, Roots(t.kids) + t.extra)
    ensures Grew(before, cells - {t.addr}, t.kids[0])
  {
    hide HeapOf;
    hide HeapOfAll;
    hide Proper;
    hide ProperAll;
    OwnedByNode(t);
    assert t.kids == [t.kids[0]];
    HeapOfOne(t.kids[0]);
  }
}
