/** The rounds of the loader's worklist loop, and exactly when they come to an end. */
module LoadRun {
  import opened IncludeGraph

  datatype Run = Running(work: seq<File>) | Ended(ok: bool)

  /** One round of the loop: it takes the first file off the worklist and puts the files it
      includes in front. It ends when the worklist is empty, or at once with a line the
      loader rejects. */
  function Round(fs: Tree, work: seq<File>): Run {
    if work == [] then Ended(true)
    else if work[0] !in fs then Running(work[1..])
    else if HasBadLine(fs, work[0]) then Ended(false)
    else Running(Included(fs[work[0]]) + work[1..])
  }

  function After(fs: Tree, run: Run, k: nat): Run
    decreases k
  {
    if k == 0 || run.Ended? then run else After(fs, Round(fs, run.work), k - 1)
  }

  ghost predicate Ends(fs: Tree, roots: seq<File>) {
    exists k: nat :: After(fs, Running(roots), k).Ended?
  }

  lemma {:induction false} AfterMore(fs: Tree, run: Run, j: nat, k: nat)
    ensures After(fs, run, j + k) == After(fs, After(fs, run, j), k)
    decreases j
  {
    if j > 0 && run.Running? {
      AfterMore(fs, Round(fs, run.work), j - 1, k);
    }
  }

  lemma {:induction false} AfterOne(fs: Tree, work: seq<File>)
    ensures After(fs, Running(work), 1) == Round(fs, work)
  {
    assert After(fs, Round(fs, work), 0) == Round(fs, work);
  }

  // ---------------------------------------------------------------------
  // The files before the first one that leads to a cycle
  // ---------------------------------------------------------------------

  /** The front of the worklist, as far as it leads to no cycle, is worked off completely,
      unless a file below it has a line the loader rejects. */
  lemma {:induction false} WorkOff(fs: Tree, front: seq<File>, rest: seq<File>) returns (k: nat)
    requires Consistent(fs) && CycleFree(fs, front)
    ensures After(fs, Running(front + rest), k) == if CleanBelow(fs, front) then Running(rest) else Ended(false)
    decreases Total(fs, front)
  {
    hide LeadsToCycle;
    hide Reachable;
    hide Total;
    hide HasBadLine;
    if front == [] {
      k := 0;
      assert front + rest == rest;
      NothingReachable(fs);
    } else {
      var f, more := front[0], front[1..];
      assert front == [f] + more && (front + rest)[1..] == more + rest;
      AfterOne(fs, front + rest);
      if f in fs && HasBadLine(fs, f) {
        k := 1;
        StartReachable(fs, front, f);
      } else {
        var next := if f in fs then Included(fs[f]) + more else more;
        RoundShrinks(fs, f, more);
        RoundKeepsClean(fs, f, more);
        assert Round(fs, front + rest) == Running(next + rest) by {
          if f in fs {
            assert Included(fs[f]) + (more + rest) == next + rest;
          }
        }
        k := WorkOff(fs, next, rest);
        AfterMore(fs, Running(front + rest), 1, k);
        k := k + 1;
      }
    }
  }

  lemma {:induction false} NothingReachable(fs: Tree)
    ensures CleanBelow(fs, [])
  {
  }

  lemma {:induction false} StartReachable(fs: Tree, gs: seq<File>, f: File)
    requires f in gs && f in fs
    ensures Reachable(fs, gs, f)
  {
  }

  lemma {:induction false} RoundShrinks(fs: Tree, f: File, more: seq<File>)
    requires Consistent(fs) && CycleFree(fs, [f] + more)
    ensures var next := if f in fs then Included(fs[f]) + more else more;
            CycleFree(fs, next) && Total(fs, next) < Total(fs, [f] + more)
  {
    hide LeadsToCycle;
    if f in fs {
      ExpandingShrinks(fs, f, more);
    } else {
      assert f in [f] + more;
      assert forall g :: g in more ==> g in [f] + more;
      assert ([f] + more)[1..] == more;
    }
  }

  lemma {:induction false} RoundKeepsClean(fs: Tree, f: File, more: seq<File>)
    requires Consistent(fs) && (f in fs ==> !HasBadLine(fs, f))
    ensures CleanBelow(fs, [f] + more) <==> CleanBelow(fs, if f in fs then Included(fs[f]) + more else more)
  {
    hide Reachable;
    var work, next := [f] + more, if f in fs then Included(fs[f]) + more else more;
    forall x
      ensures Reachable(fs, next, x) ==> Reachable(fs, work, x)
      ensures Reachable(fs, work, x) ==> x == f || Reachable(fs, next, x)
    {
      if f in fs {
        ReachableExpanded(fs, f, more, x);
      } else {
        ReachableDropped(fs, f, more, x);
      }
    }
  }

  /** Without a cycle in reach the loop ends. */
  lemma {:induction false} CycleFreeEnds(fs: Tree, roots: seq<File>)
    requires Consistent(fs) && CycleFree(fs, roots)
    ensures Ends(fs, roots)
  {
    var k := WorkOff(fs, roots, []);
    assert roots + [] == roots;
    AfterMore(fs, Running(roots), k, 1);
    AfterOne(fs, []);
  }

  // ---------------------------------------------------------------------
  // The way into a cycle
  // ---------------------------------------------------------------------

  /** The position of the first file that leads to a cycle. */
  ghost function FirstCyclic(fs: Tree, gs: seq<File>): (i: nat)
    requires !CycleFree(fs, gs)
    ensures i < |gs| && LeadsToCycle(fs, gs[i]) && CycleFree(fs, gs[..i])
  {
    if LeadsToCycle(fs, gs[0]) then 0
    else
      assert gs == [gs[0]] + gs[1..];
      var i := FirstCyclic(fs, gs[1..]);
      assert gs[..i + 1] == [gs[0]] + gs[1..][..i];
      i + 1
  }

  ghost function Culprit(fs: Tree, gs: seq<File>): File
    requires !CycleFree(fs, gs)
  {
    gs[FirstCyclic(fs, gs)]
  }

  lemma {:induction false} CycleContinues(fs: Tree, f: File)
    requires LeadsToCycle(fs, f)
    ensures f in fs && !CycleFree(fs, Included(fs[f]))
  {
    var c :| PathBetween(fs, c, c) && (c == f || PathBetween(fs, f, c));
    var p :| IsPath(fs, p) && p[0] == f && p[|p| - 1] == c;
    PathTail(fs, p);
    assert LeadsToCycle(fs, p[1]);
    assert p[1] in Included(fs[f]);
  }

  /** Following the first file that leads to a cycle: the start files, then the includes of
      the first such file among them, and so on. */
  ghost function Descent(fs: Tree, roots: seq<File>, i: nat): (gs: seq<File>)
    requires !CycleFree(fs, roots)
    ensures !CycleFree(fs, gs)
  {
    if i == 0 then roots
    else
      var f := Culprit(fs, Descent(fs, roots, i - 1));
      CycleContinues(fs, f);
      Included(fs[f])
  }

  lemma {:induction false} DescentNext(fs: Tree, roots: seq<File>, i: nat)
    requires !CycleFree(fs, roots)
    ensures var f := Culprit(fs, Descent(fs, roots, i)); f in fs && Descent(fs, roots, i + 1) == Included(fs[f])
  {
    CycleContinues(fs, Culprit(fs, Descent(fs, roots, i)));
  }

  /** The loader meets a line it rejects before it gets past the first file that leads to a
      cycle: in that file or below one of those before it. */
  ghost predicate Blocked(fs: Tree, gs: seq<File>)
    requires !CycleFree(fs, gs)
  {
    HasBadLine(fs, Culprit(fs, gs)) || !CleanBelow(fs, gs[..FirstCyclic(fs, gs)])
  }

  ghost predicate BlockedAt(fs: Tree, roots: seq<File>, i: nat)
    requires !CycleFree(fs, roots)
  {
    Blocked(fs, Descent(fs, roots, i))
  }

  /** From a worklist that starts with gs: into the first file that leads to a cycle, or to
      the end. */
  lemma {:induction false} DescendOnce(fs: Tree, gs: seq<File>, rest: seq<File>) returns (k: nat, after: seq<File>)
    requires Consistent(fs) && !CycleFree(fs, gs)
    ensures k >= 1 && Culprit(fs, gs) in fs
    ensures After(fs, Running(gs + rest), k)
         == if Blocked(fs, gs) then Ended(false) else Running(Included(fs[Culprit(fs, gs)]) + after)
  {
    hide LeadsToCycle;
    hide CleanBelow;
    hide HasBadLine;
    hide Included;
    var i, f := FirstCyclic(fs, gs), Culprit(fs, gs);
    CycleContinues(fs, f);
    after := gs[i + 1..] + rest;
    var work := [f] + after;
    assert gs + rest == gs[..i] + work;
    k := WorkOff(fs, gs[..i], work);
    AfterMore(fs, Running(gs + rest), k, 1);
    if CleanBelow(fs, gs[..i]) {
      AfterOne(fs, work);
      assert work[1..] == after;
    }
    k := k + 1;
  }

  lemma {:induction false} DescendTo(fs: Tree, roots: seq<File>, i: nat) returns (k: nat, rest: seq<File>)
    requires Consistent(fs) && !CycleFree(fs, roots)
    requires forall j: nat :: j < i ==> !BlockedAt(fs, roots, j)
    ensures k >= i && After(fs, Running(roots), k) == Running(Descent(fs, roots, i) + rest)
    decreases i
  {
    hide CycleFree;
    hide Blocked;
    hide Culprit;
    hide FirstCyclic;
    hide Included;
    if i == 0 {
      k, rest := 0, [];
      assert roots + [] == roots;
    } else {
      hide Descent;
      DescentNext(fs, roots, i - 1);
      k, rest := DescendTo(fs, roots, i - 1);
      assert !BlockedAt(fs, roots, i - 1);
      var k', rest' := DescendOnce(fs, Descent(fs, roots, i - 1), rest);
      AfterMore(fs, Running(roots), k, k');
      k, rest := k + k', rest';
    }
  }

  lemma {:induction false} NeverBlockedNeverEnds(fs: Tree, roots: seq<File>, k: nat)
    requires Consistent(fs) && !CycleFree(fs, roots)
    requires forall i: nat :: !BlockedAt(fs, roots, i)
    ensures After(fs, Running(roots), k).Running?
  {
    hide CycleFree;
    hide BlockedAt;
    var m, rest := DescendTo(fs, roots, k);
    AfterMore(fs, Running(roots), k, m - k);
    assert k + (m - k) == m;
  }

  lemma {:induction false} BlockedEnds(fs: Tree, roots: seq<File>, i: nat)
    requires Consistent(fs) && !CycleFree(fs, roots)
    requires BlockedAt(fs, roots, i) && forall j: nat :: j < i ==> !BlockedAt(fs, roots, j)
    ensures Ends(fs, roots)
  {
    hide CycleFree;
    hide Blocked;
    var k, rest := DescendTo(fs, roots, i);
    var k', rest' := DescendOnce(fs, Descent(fs, roots, i), rest);
    AfterMore(fs, Running(roots), k, k');
  }

  // ---------------------------------------------------------------------
  // The way repeats itself
  // ---------------------------------------------------------------------

  lemma {:induction false} Pigeonhole(s: seq<File>, holes: set<File>) returns (a: nat, b: nat)
    requires (forall x :: x in s ==> x in holes) && |s| > |holes|
    ensures a < b < |s| && s[a] == s[b]
    decreases |s|
  {
    var n := |s| - 1;
    if s[n] in s[..n] {
      a :| a < n && s[..n][a] == s[n];
      b := n;
    } else {
      assert s[n] in s;
      forall x | x in s[..n]
        ensures x in holes - {s[n]}
      {
        assert x in s;
      }
      a, b := Pigeonhole(s[..n], holes - {s[n]});
    }
  }

  lemma {:induction false} DescentShifts(fs: Tree, roots: seq<File>, a: nat, b: nat, t: nat)
    requires !CycleFree(fs, roots) && Descent(fs, roots, a) == Descent(fs, roots, b)
    ensures Descent(fs, roots, a + t) == Descent(fs, roots, b + t)
    decreases t
  {
    hide CycleFree;
    hide Culprit;
    hide Included;
    hide Descent;
    if t > 0 {
      DescentShifts(fs, roots, a, b, t - 1);
      DescentNext(fs, roots, a + t - 1);
      DescentNext(fs, roots, b + t - 1);
    }
  }

  /** A blocked place late on the way has been passed before. */
  lemma {:induction false} BlockRepeats(fs: Tree, roots: seq<File>, i: nat) returns (j: nat)
    requires !CycleFree(fs, roots) && BlockedAt(fs, roots, i) && i > |fs|
    ensures j < i && BlockedAt(fs, roots, j)
  {
    hide CycleFree;
    hide Blocked;
    hide Culprit;
    hide Descent;
    var way := seq(i, j requires 0 <= j < i => Culprit(fs, Descent(fs, roots, j)));
    forall x | x in way
      ensures x in fs.Keys
    {
      var j :| 0 <= j < i && way[j] == x;
      DescentNext(fs, roots, j);
    }
    assert |fs.Keys| == |fs|;
    var a, b := Pigeonhole(way, fs.Keys);
    DescentNext(fs, roots, a);
    DescentNext(fs, roots, b);
    DescentShifts(fs, roots, a + 1, b + 1, i - b - 1);
    j := a + 1 + (i - b - 1);
  }

  lemma {:induction false} LeastBlocked(fs: Tree, roots: seq<File>, i: nat) returns (j: nat)
    requires !CycleFree(fs, roots) && BlockedAt(fs, roots, i)
    ensures j <= i && BlockedAt(fs, roots, j) && forall t: nat :: t < j ==> !BlockedAt(fs, roots, t)
    decreases i
  {
    hide CycleFree;
    hide BlockedAt;
    if t: nat :| t < i && BlockedAt(fs, roots, t) {
      j := LeastBlocked(fs, roots, t);
    } else {
      j := i;
    }
  }

  // ---------------------------------------------------------------------
  // Exactly when loading ends
  // ---------------------------------------------------------------------

  /** Loading ends exactly when no start file leads to a cycle, or the loader is stopped by
      a line it rejects on its way into one. Only as many steps of that way matter as there
      are files. */
  lemma {:induction false} EndsIff(fs: Tree, roots: seq<File>)
    requires Consistent(fs)
    ensures Ends(fs, roots) <==>
              || CycleFree(fs, roots)
              || exists i: nat :: i <= |fs| && BlockedAt(fs, roots, i)
  {
    hide CycleFree;
    hide BlockedAt;
    hide After;
    if CycleFree(fs, roots) {
      CycleFreeEnds(fs, roots);
    } else if i: nat :| BlockedAt(fs, roots, i) {
      var j := LeastBlocked(fs, roots, i);
      if j > |fs| {
        var t := BlockRepeats(fs, roots, j);
      }
      BlockedEnds(fs, roots, j);
    } else {
      forall k: nat
        ensures !After(fs, Running(roots), k).Ended?
      {
        NeverBlockedNeverEnds(fs, roots, k);
      }
    }
  }

  lemma {:induction false} DescentReachable(fs: Tree, roots: seq<File>, i: nat, f: File)
    requires Consistent(fs) && !CycleFree(fs, roots) && Reachable(fs, Descent(fs, roots, i), f)
    ensures Reachable(fs, roots, f)
    decreases i
  {
    hide CycleFree;
    hide LeadsToCycle;
    hide Reachable;
    hide Included;
    if i > 0 {
      DescentNext(fs, roots, i - 1);
      var gs := Descent(fs, roots, i - 1);
      hide Descent;
      var c := Culprit(fs, gs);
      assert Included(fs[c]) + [] == Included(fs[c]);
      ReachableExpanded(fs, c, [], f);
      assert c in gs;
      ReachableFromMore(fs, [c] + [], gs, f);
      DescentReachable(fs, roots, i - 1, f);
    }
  }

  lemma {:induction false} ReachableFromMore(fs: Tree, gs: seq<File>, hs: seq<File>, f: File)
    requires Reachable(fs, gs, f) && forall g :: g in gs ==> g in hs
    ensures Reachable(fs, hs, f)
  {
  }

  /** When no reachable file has a line the loader rejects, loading ends exactly when no
      start file leads to a cycle. */
  lemma {:induction false} CleanEndsIff(fs: Tree, roots: seq<File>)
    requires Consistent(fs) && CleanBelow(fs, roots)
    ensures Ends(fs, roots) <==> CycleFree(fs, roots)
  {
    hide CycleFree;
    hide Reachable;
    hide Ends;
    EndsIff(fs, roots);
    if !CycleFree(fs, roots) {
      forall i: nat
        ensures !BlockedAt(fs, roots, i)
      {
        var gs := Descent(fs, roots, i);
        var n := FirstCyclic(fs, gs);
        CycleContinues(fs, gs[n]);
        StartReachable(fs, gs, gs[n]);
        DescentReachable(fs, roots, i, gs[n]);
        forall f | Reachable(fs, gs[..n], f)
          ensures !HasBadLine(fs, f)
        {
          ReachableFromMore(fs, gs[..n], gs, f);
          DescentReachable(fs, roots, i, f);
        }
      }
    }
  }

  /** A file that includes itself is loaded without end, unless a line after the include
      stops the loader. */
  lemma {:induction false} SelfInclude(rest: seq<Line>)
    requires forall i :: 0 <= i < |rest| ==> !rest[i].Include?
    ensures var fs := map["a" := [Include(true, "a")] + rest];
            Ends(fs, ["a"]) <==> exists i :: 0 <= i < |rest| && rest[i].Malformed?
  {
    hide After;
    hide Included;
    var lines := [Include(true, "a")] + rest;
    var fs: Tree := map["a" := lines];
    assert fs["a"][0] == Include(true, "a");
    assert Edge(fs, "a", "a");
    EdgeIsPath(fs, "a", "a");
    assert LeadsToCycle(fs, "a");
    assert "a" in ["a"];
    if i :| 0 <= i < |rest| && rest[i].Malformed? {
      assert Bad(fs["a"][i + 1]);
      AfterOne(fs, ["a"]);
    } else {
      assert !HasBadLine(fs, "a");
      CleanEndsIff(fs, ["a"]);
    }
  }
}
