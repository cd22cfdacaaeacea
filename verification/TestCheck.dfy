/** rtems-test-check in exclude mode: load the configuration files, then print the tests
    that are not excluded. */
module TestCheck {
  import opened IncludeGraph
  import opened LoadRun
  import opened Names

  // ---------------------------------------------------------------------
  // What the files say
  // ---------------------------------------------------------------------

  /** The names listed under a section, in order. */
  function NamesUnder(lines: seq<Line>, section: Section): seq<string> {
    if lines == [] then []
    else
      var n := |lines| - 1;
      NamesUnder(lines[..n], section)
      + if lines[n].Tests? && lines[n].section == section then lines[n].names else []
  }

  /** A line of the file names x under the section. */
  predicate Lists(fs: Tree, f: File, section: Section, x: string) {
    f in fs && exists i :: 0 <= i < |fs[f]| && fs[f][i].Tests? && fs[f][i].section == section && x in fs[f][i].names
  }

  lemma {:induction false} NamedOnALine(lines: seq<Line>, section: Section, x: string)
    ensures x in NamesUnder(lines, section) <==>
            exists i :: 0 <= i < |lines| && lines[i].Tests? && lines[i].section == section && x in lines[i].names
  {
    if lines != [] {
      var n := |lines| - 1;
      NamedOnALine(lines[..n], section, x);
      assert forall i :: 0 <= i < n ==> lines[..n][i] == lines[i];
    }
  }

  /** The tests a section names, over all files that are reached. */
  ghost predicate Configured(fs: Tree, roots: seq<File>, section: Section, x: string) {
    exists f :: Reachable(fs, roots, f) && Lists(fs, f, section, x)
  }

  // ---------------------------------------------------------------------
  // The loader
  // ---------------------------------------------------------------------

  type TestData = map<Section, seq<string>>

  function Entries(data: TestData, section: Section): seq<string> {
    if section in data then data[section] else []
  }

  /** The dictionary holds exactly what the given files list. */
  ghost predicate Collected(fs: Tree, data: TestData, read: set<File>) {
    forall section: Section, x: string ::
      x in Entries(data, section) <==> exists f :: f in read && Lists(fs, f, section, x)
  }

  /** Every start file and every include of a file read so far has been read or is still
      queued, and nothing else has. */
  ghost predicate OnTrack(fs: Tree, roots: seq<File>, read: set<File>, work: seq<File>) {
    && (forall r :: r in roots && r in fs ==> r in read || r in work)
    && (forall f, g :: f in read && Edge(fs, f, g) ==> g in read || g in work)
    && (forall f :: f in read ==> Reachable(fs, roots, f) && !HasBadLine(fs, f))
    && (forall f :: f in work && f in fs ==> Reachable(fs, roots, f))
  }

  lemma {:induction false} TrackStarts(fs: Tree, roots: seq<File>)
    ensures OnTrack(fs, roots, {}, roots) && Collected(fs, map[], {})
  {
  }

  lemma {:induction false} TrackDrop(fs: Tree, roots: seq<File>, read: set<File>, f: File, rest: seq<File>)
    requires Consistent(fs) && OnTrack(fs, roots, read, [f] + rest) && f !in fs
    ensures OnTrack(fs, roots, read, rest)
  {
    forall a, b | a in read && Edge(fs, a, b)
      ensures b in read || b in rest
    {
      assert b in fs;
      assert b in read || b in [f] + rest;
    }
  }

  /** Reading a file keeps the worklist on track. */
  lemma {:induction false} TrackRead(fs: Tree, roots: seq<File>, read: set<File>, f: File, rest: seq<File>)
    requires Consistent(fs) && OnTrack(fs, roots, read, [f] + rest) && f in fs && !HasBadLine(fs, f)
    ensures OnTrack(fs, roots, read + {f}, Included(fs[f]) + rest)
  {
    var work := Included(fs[f]) + rest;
    assert f in [f] + rest;
    forall g | g in work && g in fs
      ensures Reachable(fs, roots, g)
    {
      if g in rest {
        assert g in [f] + rest;
      } else {
        assert Edge(fs, f, g);
        ReachableStep(fs, roots, f, g);
      }
    }
    forall a, b | a in read + {f} && Edge(fs, a, b)
      ensures b in read + {f} || b in work
    {
      if a in read {
        assert b in read || b in [f] + rest;
      } else {
        assert b in Included(fs[f]);
      }
    }
    forall r | r in roots && r in fs
      ensures r in read + {f} || r in work
    {
      assert r in read || r in [f] + rest;
    }
  }

  lemma {:induction false} CollectRead(fs: Tree, data: TestData, data': TestData, read: set<File>, f: File)
    requires Collected(fs, data, read) && f in fs
    requires forall section: Section :: Entries(data', section) == Entries(data, section) + NamesUnder(fs[f], section)
    ensures Collected(fs, data', read + {f})
  {
    forall section: Section, x: string
      ensures x in Entries(data', section) <==> exists g :: g in read + {f} && Lists(fs, g, section, x)
    {
      assert x in Entries(data', section) <==> x in Entries(data, section) || x in NamesUnder(fs[f], section);
      NamedOnALine(fs[f], section, x);
      if x in NamesUnder(fs[f], section) {
        assert f in read + {f} && Lists(fs, f, section, x);
      } else if x in Entries(data, section) {
        var g :| g in read && Lists(fs, g, section, x);
        assert g in read + {f};
      }
    }
  }

  /** When the worklist is empty everything reachable has been read. */
  lemma {:induction false} TrackDone(fs: Tree, roots: seq<File>, data: TestData, read: set<File>)
    requires Consistent(fs) && OnTrack(fs, roots, read, []) && Collected(fs, data, read)
    ensures forall f :: Reachable(fs, roots, f) ==> !HasBadLine(fs, f)
    ensures forall section: Section, x: string :: x in Entries(data, section) <==> Configured(fs, roots, section, x)
  {
    forall f | Reachable(fs, roots, f)
      ensures f in read
    {
      ClosedHasReachable(fs, roots, read, f);
    }
    forall section: Section, x: string
      ensures x in Entries(data, section) <==> Configured(fs, roots, section, x)
    {
      if x in Entries(data, section) {
        var f :| f in read && Lists(fs, f, section, x);
        assert Reachable(fs, roots, f);
      }
    }
  }

  lemma {:induction false} NoLines(lines: seq<Line>, queue: seq<File>)
    ensures Included(lines[..0]) + queue == queue
    ensures forall s: Section :: NamesUnder(lines[..0], s) == []
  {
    assert lines[..0] == [];
  }

  /** What one more line adds. */
  lemma {:induction false} NextLine(lines: seq<Line>, k: nat, queue: seq<File>)
    requires k < |lines|
    ensures Included(lines[..k + 1]) + queue
         == (if lines[k].Include? && lines[k].found then [lines[k].file] else []) + (Included(lines[..k]) + queue)
    ensures forall s: Section ::
              NamesUnder(lines[..k + 1], s)
              == NamesUnder(lines[..k], s) + if lines[k].Tests? && lines[k].section == s then lines[k].names else []
  {
    assert lines[..k + 1][..k] == lines[..k];
  }

  /** The loader's worklist and dictionary. */
  class Loader {
    var testconfig: seq<File>
    var testdata: TestData

    constructor (roots: seq<File>)
      ensures testconfig == roots && testdata == map[]
    {
      testconfig, testdata := roots, map[];
    }

    /** Adds names to a section of the dictionary. */
    method AddNames(section: Section, names: seq<string>)
      modifies this`testdata
      ensures forall s: Section ::
                Entries(testdata, s) == old(Entries(testdata, s)) + if s == section then names else []
    {
      if section !in testdata {
        testdata := testdata[section := names];
      } else {
        testdata := testdata[section := testdata[section] + names];
      }
    }

    /** Reads the lines of one file; stops at the first line it rejects. */
    method ReadLines(lines: seq<Line>) returns (ok: bool)
      modifies this
      ensures ok <==> forall i :: 0 <= i < |lines| ==> !Bad(lines[i])
      ensures ok ==> testconfig == Included(lines) + old(testconfig)
      ensures ok ==> forall s: Section :: Entries(testdata, s) == old(Entries(testdata, s)) + NamesUnder(lines, s)
    {
      hide NamesUnder;
      hide Included;
      hide Entries;
      ghost var queue, data := testconfig, testdata;
      NoLines(lines, queue);
      var lc := 0;
      while lc < |lines|
        invariant 0 <= lc <= |lines|
        invariant forall i :: 0 <= i < lc ==> !Bad(lines[i])
        invariant testconfig == Included(lines[..lc]) + queue
        invariant forall s: Section :: Entries(testdata, s) == Entries(data, s) + NamesUnder(lines[..lc], s)
      {
        NextLine(lines, lc, queue);
        match lines[lc] {
          case Blank =>
          case Flags(_, _) =>
          case Malformed =>
            return false;
          case Include(found, file) =>
            if !found {
              return false;
            }
            testconfig := [file] + testconfig;
          case Tests(section, names) =>
            AddNames(section, names);
        }
        lc := lc + 1;
      }
      assert lines[..|lines|] == lines;
      return true;
    }

    /** The worklist loop, on all inputs on which it ends: LoadRun.EndsIff says which. It
        runs as Round says, also when a file is queued many times. It fails exactly when a
        reachable file has a line it rejects, and otherwise it collects exactly what the
        reachable files list. */
    method Load(fs: Tree, ghost roots: seq<File>) returns (ok: bool)
      requires Consistent(fs) && Ends(fs, roots)
      requires testconfig == roots && testdata == map[]
      modifies this
      ensures exists k: nat :: After(fs, Running(roots), k) == Ended(ok)
      ensures ok <==> forall f :: Reachable(fs, roots, f) ==> !HasBadLine(fs, f)
      ensures ok ==> forall section: Section, x: string ::
                       x in Entries(testdata, section) <==> Configured(fs, roots, section, x)
    {
      hide OnTrack;
      hide Collected;
      hide Reachable;
      hide Configured;
      hide NamesUnder;
      hide Included;
      ghost var read: set<File> := {};
      TrackStarts(fs, roots);
      ghost var rounds: nat :| After(fs, Running(roots), rounds).Ended?;
      ghost var left := rounds;
      while |testconfig| > 0
        invariant OnTrack(fs, roots, read, testconfig) && Collected(fs, testdata, read)
        invariant After(fs, Running(testconfig), left) == After(fs, Running(roots), rounds)
        decreases left
      {
        var tc := testconfig[0];
        ghost var rest, data := testconfig[1..], testdata;
        assert testconfig == [tc] + rest;
        testconfig := testconfig[1..];
        left := left - 1;
        if tc !in fs {
          TrackDrop(fs, roots, read, tc, rest);
          continue;
        }
        ok := ReadLines(fs[tc]);
        if !ok {
          QueuedReachable(fs, roots, read, tc, rest);
          assert HasBadLine(fs, tc);
          assert After(fs, Running(roots), rounds) == Ended(false);
          return;
        }
        TrackRead(fs, roots, read, tc, rest);
        CollectRead(fs, data, testdata, read, tc);
        read := read + {tc};
      }
      TrackDone(fs, roots, testdata, read);
      assert After(fs, Running(roots), rounds) == Ended(true);
      return true;
    }
  }

  lemma {:induction false} QueuedReachable(fs: Tree, roots: seq<File>, read: set<File>, f: File, rest: seq<File>)
    requires OnTrack(fs, roots, read, [f] + rest) && f in fs
    ensures Reachable(fs, roots, f)
  {
    assert f in [f] + rest;
  }

  // ---------------------------------------------------------------------
  // The filter
  // ---------------------------------------------------------------------

  /** Regular expressions, as far as the tool relies on them. */
  datatype Regexes = Regexes(valid: string -> bool, matches: (string, string) -> bool)

  predicate AnyMatch(re: Regexes, patterns: seq<string>, test: string) {
    exists i :: 0 <= i < |patterns| && re.matches(patterns[i], test)
  }

  predicate AllValid(re: Regexes, patterns: seq<string>) {
    forall i :: 0 <= i < |patterns| ==> re.valid(patterns[i])
  }

  /** A test is left out when it is excluded by name, or matched by some rexclude pattern
      and by no rinclude pattern. */
  predicate LeftOut(re: Regexes, data: TestData, test: string) {
    || test in Entries(data, Exclude)
    || (AnyMatch(re, Entries(data, RegexExclude), test) && !AnyMatch(re, Entries(data, RegexInclude), test))
  }

  /** Deciding about a test compiles no invalid pattern. The rinclude patterns are only
      compiled once a rexclude pattern has matched. */
  predicate Decidable(re: Regexes, data: TestData, test: string) {
    || test in Entries(data, Exclude)
    || (&& AllValid(re, Entries(data, RegexExclude))
        && (AnyMatch(re, Entries(data, RegexExclude), test) ==> AllValid(re, Entries(data, RegexInclude))))
  }

  /** The inner loop over rinclude, after a rexclude pattern has matched. */
  method Reinclude(re: Regexes, patterns: seq<string>, test: string) returns (ok: bool, exclude: bool)
    ensures ok <==> AllValid(re, patterns)
    ensures ok ==> (exclude <==> !AnyMatch(re, patterns, test))
  {
    exclude := true;
    for i := 0 to |patterns|
      invariant forall k :: 0 <= k < i ==> re.valid(patterns[k])
      invariant exclude <==> forall k :: 0 <= k < i ==> !re.matches(patterns[k], test)
    {
      if !re.valid(patterns[i]) {
        return false, exclude;
      }
      if re.matches(patterns[i], test) {
        exclude := false;
      }
    }
    return true, exclude;
  }

  /** The decision about one test. */
  method Decide(re: Regexes, data: TestData, test: string) returns (ok: bool, exclude: bool)
    ensures ok <==> Decidable(re, data, test)
    ensures ok ==> (exclude <==> LeftOut(re, data, test))
  {
    if Exclude in data && test in data[Exclude] {
      return true, true;
    }
    exclude := false;
    if RegexExclude in data {
      var patterns := data[RegexExclude];
      var back := Entries(data, RegexInclude);
      for i := 0 to |patterns|
        invariant forall k :: 0 <= k < i ==> re.valid(patterns[k])
        invariant (exists k :: 0 <= k < i && re.matches(patterns[k], test)) ==> AllValid(re, back)
        invariant exclude <==> (exists k :: 0 <= k < i && re.matches(patterns[k], test)) && !AnyMatch(re, back, test)
      {
        if !re.valid(patterns[i]) {
          return false, exclude;
        }
        if re.matches(patterns[i], test) {
          exclude := true;
          if RegexInclude in data {
            var fine;
            fine, exclude := Reinclude(re, data[RegexInclude], test);
            if !fine {
              return false, exclude;
            }
          }
        }
      }
    }
    return true, exclude;
  }

  // ---------------------------------------------------------------------
  // The sorted output
  // ---------------------------------------------------------------------

  predicate Ascending(s: seq<string>) {
    forall i, j :: 0 <= i < j < |s| ==> Before(s[i], s[j])
  }

  lemma {:induction false} BeforeTotal(a: string, b: string)
    ensures a == b || Before(a, b) || Before(b, a)
    ensures a == b ==> !Before(a, b)
  {
    if a != [] && b != [] {
      BeforeTotal(a[1..], b[1..]);
      assert a == [a[0]] + a[1..] && b == [b[0]] + b[1..];
    }
  }

  /** Puts a name into a sorted list unless it is there already. */
  method Insert(s: seq<string>, x: string) returns (r: seq<string>)
    requires Ascending(s)
    ensures Ascending(r)
    ensures forall y :: y in r <==> y in s || y == x
  {
    var i := 0;
    while i < |s| && Before(s[i], x)
      invariant 0 <= i <= |s|
      invariant forall k :: 0 <= k < i ==> Before(s[k], x)
    {
      i := i + 1;
    }
    if i < |s| && s[i] == x {
      return s;
    }
    if i < |s| {
      BeforeTotal(s[i], x);
      forall k | i <= k < |s|
        ensures Before(x, s[k])
      {
        if k > i {
          BeforeTransitive(x, s[i], s[k]);
        }
      }
    }
    r := s[..i] + [x] + s[i..];
    forall y | y in r
      ensures y in s || y == x
    {
      assert y in s[..i] || y == x || y in s[i..];
    }
    forall y | y in s
      ensures y in r
    {
      assert s == s[..i] + s[i..];
    }
  }

  /** sorted(set(output)) */
  method SortedSet(output: seq<string>) returns (r: seq<string>)
    ensures Ascending(r)
    ensures forall x :: x in r <==> x in output
  {
    r := [];
    for i := 0 to |output|
      invariant Ascending(r)
      invariant forall x :: x in r <==> x in output[..i]
    {
      assert output[..i + 1] == output[..i] + [output[i]];
      r := Insert(r, output[i]);
    }
    assert output[..|output|] == output;
  }

  datatype Outcome = InvalidTestData | Printed(tests: seq<string>)

  /** The loop over the tests and the printed result. */
  method Filter(re: Regexes, data: TestData, tests: seq<string>) returns (r: Outcome)
    ensures r == InvalidTestData <==> exists t :: t in tests && !Decidable(re, data, t)
    ensures r.Printed? ==> Ascending(r.tests)
    ensures r.Printed? ==> forall t :: t in r.tests <==> t in tests && !LeftOut(re, data, t)
  {
    hide Decidable;
    hide LeftOut;
    var output := [];
    for i := 0 to |tests|
      invariant forall t :: t in tests[..i] ==> Decidable(re, data, t)
      invariant forall t :: t in output <==> t in tests[..i] && !LeftOut(re, data, t)
    {
      assert tests[..i + 1] == tests[..i] + [tests[i]];
      var ok, exclude := Decide(re, data, tests[i]);
      if !ok {
        assert tests[i] in tests && !Decidable(re, data, tests[i]);
        return InvalidTestData;
      }
      if !exclude {
        output := output + [tests[i]];
      }
    }
    assert tests[..|tests|] == tests;
    var printed := SortedSet(output);
    return Printed(printed);
  }

  // ---------------------------------------------------------------------
  // The whole tool
  // ---------------------------------------------------------------------

  /** Some configured pattern of a section matches. */
  ghost predicate ConfiguredMatch(fs: Tree, roots: seq<File>, re: Regexes, section: Section, test: string) {
    exists e :: Configured(fs, roots, section, e) && re.matches(e, test)
  }

  ghost predicate ConfiguredValid(fs: Tree, roots: seq<File>, re: Regexes, section: Section) {
    forall e :: Configured(fs, roots, section, e) ==> re.valid(e)
  }

  /** The documented rule, in terms of the files alone. */
  ghost predicate Excluded(fs: Tree, roots: seq<File>, re: Regexes, test: string) {
    || Configured(fs, roots, Exclude, test)
    || (ConfiguredMatch(fs, roots, re, RegexExclude, test) && !ConfiguredMatch(fs, roots, re, RegexInclude, test))
  }

  /** Deciding about the test meets no invalid pattern. */
  ghost predicate PatternsFine(fs: Tree, roots: seq<File>, re: Regexes, test: string) {
    || Configured(fs, roots, Exclude, test)
    || (&& ConfiguredValid(fs, roots, re, RegexExclude)
        && (ConfiguredMatch(fs, roots, re, RegexExclude, test) ==> ConfiguredValid(fs, roots, re, RegexInclude)))
  }

  lemma {:induction false} ConfiguredPatterns(fs: Tree, roots: seq<File>, re: Regexes, data: TestData, section: Section, test: string)
    requires forall x :: x in Entries(data, section) <==> Configured(fs, roots, section, x)
    ensures AnyMatch(re, Entries(data, section), test) <==> ConfiguredMatch(fs, roots, re, section, test)
    ensures AllValid(re, Entries(data, section)) <==> ConfiguredValid(fs, roots, re, section)
  {
    hide Configured;
    var ps := Entries(data, section);
    if ConfiguredMatch(fs, roots, re, section, test) {
      var e :| Configured(fs, roots, section, e) && re.matches(e, test);
      assert e in ps;
    }
    forall i | 0 <= i < |ps|
      ensures Configured(fs, roots, section, ps[i])
    {
      assert ps[i] in ps;
    }
    if AllValid(re, ps) {
      forall e | Configured(fs, roots, section, e)
        ensures re.valid(e)
      {
        assert e in ps;
      }
    }
  }

  /** The decision about a test depends on the files only, not on the order in which
      they are read. */
  lemma {:induction false} DecisionFromFiles(fs: Tree, roots: seq<File>, re: Regexes, data: TestData, test: string)
    requires forall section: Section, x: string :: x in Entries(data, section) <==> Configured(fs, roots, section, x)
    ensures LeftOut(re, data, test) <==> Excluded(fs, roots, re, test)
    ensures Decidable(re, data, test) <==> PatternsFine(fs, roots, re, test)
  {
    hide Configured;
    hide ConfiguredMatch;
    hide ConfiguredValid;
    hide AnyMatch;
    hide AllValid;
    hide Entries;
    ConfiguredPatterns(fs, roots, re, data, RegexExclude, test);
    ConfiguredPatterns(fs, roots, re, data, RegexInclude, test);
  }

  /** Exclude mode from the start files to the printed line: sorted, without duplicates,
      exactly the given tests that the reachable files do not exclude. */
  method Check(fs: Tree, roots: seq<File>, re: Regexes, tests: seq<string>) returns (r: Outcome)
    requires Consistent(fs) && Ends(fs, roots)
    ensures r == InvalidTestData <==>
              || (exists f :: Reachable(fs, roots, f) && HasBadLine(fs, f))
              || (exists t :: t in tests && !PatternsFine(fs, roots, re, t))
    ensures r.Printed? ==> Ascending(r.tests)
    ensures r.Printed? ==> forall t :: t in r.tests <==> t in tests && !Excluded(fs, roots, re, t)
  {
    hide Reachable;
    hide HasBadLine;
    hide Configured;
    hide LeftOut;
    hide Decidable;
    hide Excluded;
    hide PatternsFine;
    var loader := new Loader(roots);
    var ok := loader.Load(fs, roots);
    if !ok {
      return InvalidTestData;
    }
    r := Filter(re, loader.testdata, tests);
    forall t | t in tests
      ensures LeftOut(re, loader.testdata, t) <==> Excluded(fs, roots, re, t)
      ensures Decidable(re, loader.testdata, t) <==> PatternsFine(fs, roots, re, t)
    {
      DecisionFromFiles(fs, roots, re, loader.testdata, t);
    }
  }
}
