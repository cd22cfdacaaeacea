/** Test configuration files and the includes between them. */
module IncludeGraph {

  type File = string

  datatype Section = Exclude | ExpectedFail | UserInput | Indeterminate | Benchmark | RegexExclude | RegexInclude

  /** A line of a configuration file, once cleaned and split: an include with the path
      that was found for it, if any, a list of names under a state, build flags, an
      empty line, or anything the loader rejects. */
  datatype Line =
    | Blank
    | Include(found: bool, file: File)
    | Tests(section: Section, names: seq<string>)
    | Flags(tests: seq<string>, flags: string)
    | Malformed

  /** The files that exist, with their lines. */
  type Tree = map<File, seq<Line>>

  /** An include is only found when the file exists. */
  predicate Consistent(fs: Tree) {
    forall f, i :: f in fs && 0 <= i < |fs[f]| && fs[f][i].Include? && fs[f][i].found ==> fs[f][i].file in fs
  }

  predicate Bad(line: Line) {
    line.Malformed? || (line.Include? && !line.found)
  }

  predicate HasBadLine(fs: Tree, f: File) {
    f in fs && exists i :: 0 <= i < |fs[f]| && Bad(fs[f][i])
  }

  /** f has a line that includes g. */
  predicate Edge(fs: Tree, f: File, g: File) {
    f in fs && exists i :: 0 <= i < |fs[f]| && fs[f][i] == Include(true, g)
  }

  ghost predicate IsPath(fs: Tree, p: seq<File>) {
    |p| >= 2 && forall i :: 0 <= i < |p| - 1 ==> Edge(fs, p[i], p[i + 1])
  }

  ghost predicate PathBetween(fs: Tree, f: File, g: File) {
    exists p :: IsPath(fs, p) && p[0] == f && p[|p| - 1] == g
  }

  /** What f includes, directly or not. */
  ghost function Below(fs: Tree, f: File): set<File> {
    set g | g in fs && PathBetween(fs, f, g)
  }

  /** f is on a cycle of includes or includes, directly or not, a file that is. */
  ghost predicate LeadsToCycle(fs: Tree, f: File) {
    exists c :: PathBetween(fs, c, c) && (c == f || PathBetween(fs, f, c))
  }

  ghost predicate CycleFree(fs: Tree, gs: seq<File>) {
    forall g :: g in gs ==> !LeadsToCycle(fs, g)
  }

  lemma {:induction false} EdgeIsPath(fs: Tree, f: File, g: File)
    requires Edge(fs, f, g)
    ensures PathBetween(fs, f, g)
  {
    assert IsPath(fs, [f, g]);
  }

  lemma {:induction false} EdgeThenPath(fs: Tree, f: File, g: File, h: File)
    requires Edge(fs, f, g) && PathBetween(fs, g, h)
    ensures PathBetween(fs, f, h)
  {
    var p :| IsPath(fs, p) && p[0] == g && p[|p| - 1] == h;
    var q := [f] + p;
    forall i | 0 <= i < |q| - 1
      ensures Edge(fs, q[i], q[i + 1])
    {
      assert i > 0 ==> q[i] == p[i - 1] && q[i + 1] == p[i];
    }
    assert IsPath(fs, q);
  }

  lemma {:induction false} EdgeToCycle(fs: Tree, f: File, g: File)
    requires Edge(fs, f, g) && LeadsToCycle(fs, g)
    ensures LeadsToCycle(fs, f)
  {
    var c :| PathBetween(fs, c, c) && (c == g || PathBetween(fs, g, c));
    if c == g {
      EdgeIsPath(fs, f, g);
    } else {
      EdgeThenPath(fs, f, g, c);
    }
  }

  /** Away from cycles an included file has less below it than the file that includes
      it. */
  lemma {:induction false} IncludesDescend(fs: Tree, f: File, g: File)
    requires Consistent(fs) && !LeadsToCycle(fs, f) && Edge(fs, f, g)
    ensures |Below(fs, g)| < |Below(fs, f)| && !LeadsToCycle(fs, g)
  {
    if LeadsToCycle(fs, g) {
      EdgeToCycle(fs, f, g);
    }
    EdgeIsPath(fs, f, g);
    assert g in Below(fs, f);
    assert g !in Below(fs, g);
    forall h | h in Below(fs, g)
      ensures h in Below(fs, f)
    {
      EdgeThenPath(fs, f, g, h);
    }
    Smaller(Below(fs, g), Below(fs, f), g);
  }

  lemma {:induction false} Smaller(a: set<File>, b: set<File>, x: File)
    requires a <= b && x in b && x !in a
    ensures |a| < |b|
  {
    SubsetSize(a, b - {x});
  }

  lemma {:induction false} SubsetSize(a: set<File>, b: set<File>)
    requires a <= b
    ensures |a| <= |b|
    decreases |a|
  {
    if a != {} {
      var x :| x in a;
      SubsetSize(a - {x}, b - {x});
    }
  }

  /** The includes a list of lines asks for, the last one first: each is put at the front
      of the worklist. */
  function Included(lines: seq<Line>): (r: seq<File>)
    ensures forall g :: g in r <==> exists i :: 0 <= i < |lines| && lines[i] == Include(true, g)
  {
    if lines == [] then []
    else
      var n := |lines| - 1;
      var rest := Included(lines[..n]);
      if lines[n].Include? && lines[n].found then [lines[n].file] + rest else rest
  }

  /** The includes in the order of the lines. */
  function InOrder(lines: seq<Line>): seq<File> {
    if lines == [] then []
    else (if lines[0].Include? && lines[0].found then [lines[0].file] else []) + InOrder(lines[1..])
  }

  lemma {:induction false} InOrderLast(lines: seq<Line>, line: Line)
    ensures InOrder(lines + [line]) == InOrder(lines) + if line.Include? && line.found then [line.file] else []
    decreases |lines|
  {
    if lines == [] {
      assert [line][1..] == [] && lines + [line] == [line];
    } else {
      InOrderLast(lines[1..], line);
      assert (lines + [line])[1..] == lines[1..] + [line];
    }
  }

  /** They stand in the worklist the other way round. */
  lemma {:induction false} IncludedBackwards(lines: seq<Line>)
    ensures var fs, gs := InOrder(lines), Included(lines);
            |fs| == |gs| && forall i :: 0 <= i < |gs| ==> gs[i] == fs[|fs| - 1 - i]
    decreases |lines|
  {
    if lines != [] {
      var n := |lines| - 1;
      IncludedBackwards(lines[..n]);
      InOrderLast(lines[..n], lines[n]);
      assert lines == lines[..n] + [lines[n]];
    }
  }

  /** How many files are read for f: itself and everything it includes, each as often as
      it is asked for. */
  ghost function Weight(fs: Tree, f: File): nat
    requires Consistent(fs) && !LeadsToCycle(fs, f)
    decreases |Below(fs, f)|, 1, 0
  {
    if f !in fs then 1
    else
      var gs := Included(fs[f]);
      assert forall g :: g in gs ==> Edge(fs, f, g);
      1 + TotalBelow(fs, f, gs)
  }

  ghost function TotalBelow(fs: Tree, f: File, gs: seq<File>): nat
    requires Consistent(fs) && !LeadsToCycle(fs, f)
    requires forall g :: g in gs ==> Edge(fs, f, g)
    decreases |Below(fs, f)|, 0, |gs|
  {
    if gs == [] then 0
    else
      IncludesDescend(fs, f, gs[0]);
      Weight(fs, gs[0]) + TotalBelow(fs, f, gs[1..])
  }

  /** The total over a worklist. */
  ghost function Total(fs: Tree, gs: seq<File>): nat
    requires Consistent(fs) && CycleFree(fs, gs)
  {
    if gs == [] then 0 else Weight(fs, gs[0]) + Total(fs, gs[1..])
  }

  lemma {:induction false} TotalIsTotalBelow(fs: Tree, f: File, gs: seq<File>)
    requires Consistent(fs) && !LeadsToCycle(fs, f)
    requires forall g :: g in gs ==> Edge(fs, f, g)
    ensures CycleFree(fs, gs) && TotalBelow(fs, f, gs) == Total(fs, gs)
    decreases |gs|
  {
    hide LeadsToCycle;
    forall g | g in gs
      ensures !LeadsToCycle(fs, g)
    {
      IncludesDescend(fs, f, g);
    }
    if gs != [] {
      TotalIsTotalBelow(fs, f, gs[1..]);
    }
  }

  lemma {:induction false} TotalConcat(fs: Tree, a: seq<File>, b: seq<File>)
    requires Consistent(fs) && CycleFree(fs, a) && CycleFree(fs, b)
    ensures CycleFree(fs, a + b) && Total(fs, a + b) == Total(fs, a) + Total(fs, b)
    decreases |a|
  {
    hide LeadsToCycle;
    if a == [] {
      assert a + b == b;
    } else {
      assert (a + b)[1..] == a[1..] + b;
      TotalConcat(fs, a[1..], b);
    }
  }

  /** Replacing a file by its includes makes the worklist lighter, however often the same
      file is queued. */
  lemma {:induction false} ExpandingShrinks(fs: Tree, f: File, rest: seq<File>)
    requires Consistent(fs) && CycleFree(fs, [f] + rest) && f in fs
    ensures CycleFree(fs, Included(fs[f]) + rest)
    ensures Total(fs, Included(fs[f]) + rest) < Total(fs, [f] + rest)
  {
    hide LeadsToCycle;
    var gs := Included(fs[f]);
    assert f in [f] + rest;
    assert CycleFree(fs, rest) by {
      assert forall g :: g in rest ==> g in [f] + rest;
    }
    assert forall g :: g in gs ==> Edge(fs, f, g);
    TotalIsTotalBelow(fs, f, gs);
    TotalConcat(fs, gs, rest);
    assert ([f] + rest)[1..] == rest;
  }

  // ---------------------------------------------------------------------
  // Reachability from the start files
  // ---------------------------------------------------------------------

  ghost predicate Reachable(fs: Tree, roots: seq<File>, f: File) {
    f in fs && (f in roots || exists r :: r in roots && PathBetween(fs, r, f))
  }

  lemma {:induction false} PathThenEdge(fs: Tree, f: File, g: File, h: File)
    requires PathBetween(fs, f, g) && Edge(fs, g, h)
    ensures PathBetween(fs, f, h)
  {
    var p :| IsPath(fs, p) && p[0] == f && p[|p| - 1] == g;
    var q := p + [h];
    forall i | 0 <= i < |q| - 1
      ensures Edge(fs, q[i], q[i + 1])
    {
      assert i < |p| - 1 ==> q[i] == p[i] && q[i + 1] == p[i + 1];
    }
    assert IsPath(fs, q);
  }

  lemma {:induction false} ReachableStep(fs: Tree, roots: seq<File>, f: File, g: File)
    requires Consistent(fs) && Reachable(fs, roots, f) && Edge(fs, f, g)
    ensures Reachable(fs, roots, g)
  {
    if f in roots {
      EdgeIsPath(fs, f, g);
    } else {
      var r :| r in roots && PathBetween(fs, r, f);
      PathThenEdge(fs, r, f, g);
    }
  }

  /** A set with the existing start files that is closed under includes has everything
      reachable. */
  lemma {:induction false} ClosedHasReachable(fs: Tree, roots: seq<File>, done: set<File>, f: File)
    requires Consistent(fs) && Reachable(fs, roots, f)
    requires forall r :: r in roots && r in fs ==> r in done
    requires forall a, b :: a in done && Edge(fs, a, b) ==> b in done
    ensures f in done
  {
    if f !in roots {
      var r :| r in roots && PathBetween(fs, r, f);
      var p :| IsPath(fs, p) && p[0] == r && p[|p| - 1] == f;
      assert Edge(fs, p[0], p[1]);
      AlongPath(fs, done, p, |p| - 1);
    }
  }

  lemma {:induction false} AlongPath(fs: Tree, done: set<File>, p: seq<File>, i: nat)
    requires IsPath(fs, p) && i < |p| && p[0] in done
    requires forall a, b :: a in done && Edge(fs, a, b) ==> b in done
    ensures p[i] in done
  {
    if i > 0 {
      AlongPath(fs, done, p, i - 1);
      assert Edge(fs, p[i - 1], p[i - 1 + 1]);
    }
  }

  /** No file that can be reached from the given ones has a line the loader rejects. */
  ghost predicate CleanBelow(fs: Tree, gs: seq<File>) {
    forall f :: Reachable(fs, gs, f) ==> !HasBadLine(fs, f)
  }

  lemma {:induction false} PathTail(fs: Tree, p: seq<File>)
    requires IsPath(fs, p)
    ensures Edge(fs, p[0], p[1])
    ensures |p| == 2 || PathBetween(fs, p[1], p[|p| - 1])
  {
    assert Edge(fs, p[0], p[0 + 1]);
    if |p| > 2 {
      var q := p[1..];
      forall i | 0 <= i < |q| - 1
        ensures Edge(fs, q[i], q[i + 1])
      {
        assert Edge(fs, p[i + 1], p[i + 1 + 1]);
      }
      assert IsPath(fs, q);
    }
  }

  /** Reading a file replaces it by what it includes. */
  lemma {:induction false} ReachableExpanded(fs: Tree, f: File, rest: seq<File>, x: File)
    requires Consistent(fs) && f in fs
    ensures Reachable(fs, [f] + rest, x) <==> x == f || Reachable(fs, Included(fs[f]) + rest, x)
  {
    var work, next := [f] + rest, Included(fs[f]) + rest;
    if Reachable(fs, work, x) && x != f && x !in rest {
      var r :| r in work && PathBetween(fs, r, x);
      if r == f {
        var p :| IsPath(fs, p) && p[0] == f && p[|p| - 1] == x;
        PathTail(fs, p);
        assert p[1] in Included(fs[f]);
        assert p[1] in next;
      } else {
        assert r in next;
      }
    }
    if Reachable(fs, next, x) && x !in rest {
      if x in Included(fs[f]) {
        assert Edge(fs, f, x);
        EdgeIsPath(fs, f, x);
        assert f in work;
      } else {
        var r :| r in next && PathBetween(fs, r, x);
        if r in rest {
          assert r in work;
        } else {
          assert Edge(fs, f, r);
          EdgeThenPath(fs, f, r, x);
          assert f in work;
        }
      }
    }
  }

  /** A file that does not exist adds nothing. */
  lemma {:induction false} ReachableDropped(fs: Tree, f: File, rest: seq<File>, x: File)
    requires f !in fs
    ensures Reachable(fs, [f] + rest, x) <==> Reachable(fs, rest, x)
  {
    var work := [f] + rest;
    if Reachable(fs, work, x) && x !in rest {
      var r :| r in work && PathBetween(fs, r, x);
      if r == f {
        var p :| IsPath(fs, p) && p[0] == f && p[|p| - 1] == x;
        PathTail(fs, p);
      }
      assert r in rest;
    }
    if Reachable(fs, rest, x) && x !in rest {
      var r :| r in rest && PathBetween(fs, r, x);
      assert r in work;
    }
  }
}
