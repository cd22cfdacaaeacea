/** TinyExpr's name tables: the sorted builtin table with its binary search, and the
    user's table with its linear search. */
module Names {

  type Addr = nat

  /** A C function pointer. The operators are told apart by comparing pointers; any other
      function is known by its symbol. */
  datatype Fn = Add | Sub | Mul | Divide | Pow | Fmod | Negate | Comma | Extern(symbol: string)

  /** The type code of a function or closure entry, without its encoding. */
  datatype Kind = Kind(closure: bool, arity: nat, pure: bool) {
    predicate Legal() {
      arity <= 7
    }
  }

  /** An entry of a lookup table: a bound variable, or a function or closure with
      its context pointer. */
  datatype Entry =
    | VariableEntry(name: string, bound: Addr)
    | CallEntry(name: string, kind: Kind, fn: Fn, context: Addr)

  /** A C string: no byte is the terminating NUL. */
  predicate IsCString(s: string) {
    forall i :: 0 <= i < |s| ==> s[i] as int > 0
  }

  /** A string of ASCII characters, which are positive as a plain char, too. */
  predicate IsName(s: string) {
    forall i :: 0 <= i < |s| ==> 0 < s[i] as int < 128
  }

  predicate LegalTable(table: seq<Entry>) {
    forall i :: 0 <= i < |table| ==>
                  IsCString(table[i].name) && (table[i].CallEntry? ==> table[i].kind.Legal())
  }

  predicate AsciiTable(table: seq<Entry>) {
    forall i :: 0 <= i < |table| ==> IsName(table[i].name)
  }

  // ---------------------------------------------------------------------
  // Comparison
  // ---------------------------------------------------------------------

  /** strncmp(a, f, |a|) for an `a` without NUL: only the sign matters. */
  function Strncmp(a: string, f: string): int {
    if a == [] then 0
    else if f == [] then a[0] as int
    else if a[0] != f[0] then a[0] as int - f[0] as int
    else Strncmp(a[1..], f[1..])
  }

  /** The byte at index i of a NUL-terminated string. */
  function ByteAt(f: string, i: nat): int {
    if i < |f| then f[i] as int else 0
  }

  /** The comparison of find_builtin: length-limited, then corrected by the byte
      after the matched part. */
  function Compare(a: string, f: string): int {
    var c := Strncmp(a, f);
    if c == 0 then 0 - ByteAt(f, |a|) else c
  }

  /** Alphabetical order of NUL-terminated strings. */
  predicate Before(a: string, b: string) {
    if b == [] then false
    else if a == [] then true
    else a[0] < b[0] || (a[0] == b[0] && Before(a[1..], b[1..]))
  }

  /** The corrected comparison is exact, also when one name is a proper prefix of
      the other, as with atan and atan2. */
  lemma {:induction false} CompareIsExact(a: string, f: string)
    requires IsName(a) && IsName(f)
    ensures Compare(a, f) == 0 <==> a == f
    ensures Compare(a, f) < 0 <==> Before(a, f)
    ensures Compare(a, f) > 0 <==> Before(f, a)
  {
    if a != [] && f != [] && a[0] == f[0] {
      CompareIsExact(a[1..], f[1..]);
      assert a == [a[0]] + a[1..] && f == [f[0]] + f[1..];
      assert ByteAt(f, |a|) == ByteAt(f[1..], |a[1..]|);
    }
  }

  lemma {:induction false} BeforeTransitive(a: string, b: string, c: string)
    requires Before(a, b) && Before(b, c)
    ensures Before(a, c)
  {
    if a != [] && a[0] == b[0] == c[0] {
      BeforeTransitive(a[1..], b[1..], c[1..]);
    }
  }

  predicate Sorted(table: seq<Entry>) {
    forall i, j :: 0 <= i < j < |table| ==> Before(table[i].name, table[j].name)
  }

  // ---------------------------------------------------------------------
  // The searches
  // ---------------------------------------------------------------------

  /** find_builtin: on any strictly sorted table the binary search finds exactly the
      entry with this very name, and -1 stands for the null pointer. */
  method FindBuiltin(table: seq<Entry>, name: string) returns (r: int)
    requires AsciiTable(table) && Sorted(table) && IsName(name)
    ensures -1 <= r < |table|
    ensures r >= 0 ==> table[r].name == name
    ensures r < 0 ==> forall i :: 0 <= i < |table| ==> table[i].name != name
  {
    var imin, imax := 0, |table| - 1;
    while imax >= imin
      invariant 0 <= imin <= imax + 1 <= |table|
      invariant forall i :: 0 <= i < imin ==> Before(table[i].name, name)
      invariant forall i :: imax < i < |table| ==> Before(name, table[i].name)
    {
      var i := imin + (imax - imin) / 2;
      CompareIsExact(name, table[i].name);
      var c := Compare(name, table[i].name);
      if c == 0 {
        return i;
      } else if c > 0 {
        forall t | 0 <= t < i
          ensures Before(table[t].name, name)
        {
          BeforeTransitive(table[t].name, table[i].name, name);
        }
        imin := i + 1;
      } else {
        forall t | i < t < |table|
          ensures Before(name, table[t].name)
        {
          BeforeTransitive(name, table[i].name, table[t].name);
        }
        imax := i - 1;
      }
    }
    forall i | 0 <= i < |table|
      ensures table[i].name != name
    {
      CompareIsExact(table[i].name, name);
    }
    return -1;
  }

  /** The first entry with the given name, by linear search. */
  function Search(table: seq<Entry>, name: string): (r: int)
    ensures -1 <= r < |table|
    ensures r >= 0 ==> table[r].name == name && forall i :: 0 <= i < r ==> table[i].name != name
    ensures r < 0 ==> forall i :: 0 <= i < |table| ==> table[i].name != name
  {
    if table == [] then -1
    else if table[0].name == name then 0
    else
      var r := Search(table[1..], name);
      if r < 0 then -1 else r + 1
  }

  lemma {:induction false} SearchUnique(table: seq<Entry>, name: string, i: nat)
    requires Sorted(table) && AsciiTable(table) && i < |table| && table[i].name == name
    ensures Search(table, name) == i
  {
    var r := Search(table, name);
    if r < i {
      CompareIsExact(table[r].name, table[i].name);
    }
  }

  /** The test of find_lookup: equal over len bytes and ended there. */
  lemma {:induction false} PrefixTestIsEquality(a: string, f: string)
    requires IsCString(a) && IsCString(f)
    ensures Strncmp(a, f) == 0 && ByteAt(f, |a|) == 0 <==> a == f
  {
    if a != [] && f != [] && a[0] == f[0] {
      PrefixTestIsEquality(a[1..], f[1..]);
      assert a == [a[0]] + a[1..] && f == [f[0]] + f[1..];
      assert ByteAt(f, |a|) == ByteAt(f[1..], |a[1..]|);
    }
  }

  /** find_lookup: the first user entry with this name. */
  method FindLookup(table: seq<Entry>, name: string) returns (r: int)
    requires LegalTable(table) && IsCString(name)
    ensures r == Search(table, name)
  {
    var i := 0;
    while i < |table|
      invariant 0 <= i <= |table|
      invariant forall t :: 0 <= t < i ==> table[t].name != name
    {
      PrefixTestIsEquality(name, table[i].name);
      if Strncmp(name, table[i].name) == 0 && ByteAt(table[i].name, |name|) == 0 {
        return i;
      }
      i := i + 1;
    }
    return -1;
  }

  // ---------------------------------------------------------------------
  // The builtin table
  // ---------------------------------------------------------------------

  function Pure1(name: string, fn: Fn): Entry {
    CallEntry(name, Kind(false, 1, true), fn, 0)
  }

  function Pure2(name: string, fn: Fn): Entry {
    CallEntry(name, Kind(false, 2, true), fn, 0)
  }

  function Pure0(name: string, fn: Fn): Entry {
    CallEntry(name, Kind(false, 0, true), fn, 0)
  }

  const BUILTINS: seq<Entry> := [
    Pure1("abs", Extern("fabs")), Pure1("acos", Extern("acos")), Pure1("asin", Extern("asin")),
    Pure1("atan", Extern("atan")), Pure2("atan2", Extern("atan2")), Pure1("ceil", Extern("ceil")),
    Pure1("cos", Extern("cos")), Pure1("cosh", Extern("cosh")), Pure0("e", Extern("e")),
    Pure1("exp", Extern("exp")), Pure1("fac", Extern("fac")), Pure1("floor", Extern("floor")),
    Pure1("ln", Extern("log")), Pure1("log", Extern("log10")), Pure1("log10", Extern("log10")),
    Pure2("ncr", Extern("ncr")), Pure2("npr", Extern("npr")), Pure0("pi", Extern("pi")),
    Pure2("pow", Pow), Pure1("sin", Extern("sin")), Pure1("sinh", Extern("sinh")),
    Pure1("sqrt", Extern("sqrt")), Pure1("tan", Extern("tan")), Pure1("tanh", Extern("tanh"))]

  /** The function behind a builtin name: the one of that name, except that abs is C's fabs,
      ln its log and log its log10, and pow is the function of the operator ^. */
  function FunctionBehind(name: string): Fn {
    if name == "pow" then Pow
    else Extern(if name == "abs" then "fabs" else if name == "ln" then "log" else if name == "log" then "log10" else name)
  }

  /** The entry of a builtin name. Each is a pure function without context; the constants
      take no argument, the functions of two variables two, all others one. */
  function Builtin(name: string): Entry {
    var arity := if name in {"e", "pi"} then 0 else if name in {"atan2", "ncr", "npr", "pow"} then 2 else 1;
    CallEntry(name, Kind(false, arity, true), FunctionBehind(name), 0)
  }

  /** A name that can be told from the special ones by its length or first letter. */
  lemma {:induction false} OrdinaryName(name: string)
    requires |name| == 4 || (|name| == 5 && name[0] != 'a') || (|name| == 3 && name[0] !in {'a', 'l', 'n', 'p'})
    ensures Builtin(name) == Pure1(name, Extern(name))
  {
  }

  lemma {:induction false} ShortNames()
    ensures Builtin("e") == Pure0("e", Extern("e"))
    ensures Builtin("ln") == Pure1("ln", Extern("log"))
    ensures Builtin("pi") == Pure0("pi", Extern("pi"))
  {
    assert "ln"[0] == 'l' && "pi"[0] == 'p';
  }

  lemma {:induction false} LongNames()
    ensures Builtin("abs") == Pure1("abs", Extern("fabs"))
    ensures Builtin("atan2") == Pure2("atan2", Extern("atan2"))
    ensures Builtin("log") == Pure1("log", Extern("log10"))
  {
    assert "abs"[0] == 'a' && "log"[0] == 'l' && "ncr"[0] == 'n' && "npr"[0] == 'n' && "pow"[0] == 'p';
  }

  lemma {:induction false} PairNames()
    ensures Builtin("ncr") == Pure2("ncr", Extern("ncr"))
    ensures Builtin("npr") == Pure2("npr", Extern("npr"))
    ensures Builtin("pow") == Pure2("pow", Pow)
  {
    assert "abs"[0] == 'a' && "log"[0] == 'l' && "ncr"[0] == 'n' && "npr"[0] == 'n' && "pow"[0] == 'p';
  }

  /** The table holds what its names say. */
  lemma {:induction false} BuiltinEntries(i: nat)
    requires i < |BUILTINS|
    ensures BUILTINS[i] == Builtin(BUILTINS[i].name)
  {
    hide Builtin;
    ShortNames();
    LongNames();
    PairNames();
    var name := BUILTINS[i].name;
    if |name| == 4 || (|name| == 5 && name[0] != 'a') || (|name| == 3 && name[0] !in {'a', 'l', 'n', 'p'}) {
      OrdinaryName(name);
    }
  }

  /** It is enough to compare neighbours. */
  lemma {:induction false} SortedByNeighbours(table: seq<Entry>)
    requires forall i :: 0 < i < |table| ==> Before(table[i - 1].name, table[i].name)
    ensures Sorted(table)
  {
    forall i, j | 0 <= i < j < |table|
      ensures Before(table[i].name, table[j].name)
    {
      Ascend(table, i, j);
    }
  }

  lemma {:induction false} Ascend(table: seq<Entry>, i: nat, j: nat)
    requires i < j < |table|
    requires forall k :: 0 < k < |table| ==> Before(table[k - 1].name, table[k].name)
    ensures Before(table[i].name, table[j].name)
    decreases j
  {
    if i < j - 1 {
      Ascend(table, i, j - 1);
      BeforeTransitive(table[i].name, table[j - 1].name, table[j].name);
    }
  }

  /** The table of the source is in alphabetical order, as its comment demands. */
  lemma {:induction false} BuiltinsSorted()
    ensures Sorted(BUILTINS) && AsciiTable(BUILTINS)
  {
    var t := BUILTINS;
    assert |t| == 24;
    forall i | 0 < i < |t|
      ensures Before(t[i - 1].name, t[i].name)
    {
      BuiltinNeighbours(i);
    }
    SortedByNeighbours(t);
    forall i | 0 <= i < |t|
      ensures IsName(t[i].name)
    {
      BuiltinLegal(i);
    }
  }

  lemma {:induction false} NamesAToCosh()
    ensures Before("abs", "acos") && Before("acos", "asin") && Before("asin", "atan")
    ensures Before("atan", "atan2") && Before("atan2", "ceil") && Before("ceil", "cos") && Before("cos", "cosh")
  {
  }

  lemma {:induction false} NamesCoshToNcr()
    ensures Before("cosh", "e") && Before("e", "exp") && Before("exp", "fac") && Before("fac", "floor")
    ensures Before("floor", "ln") && Before("ln", "log") && Before("log", "log10") && Before("log10", "ncr")
  {
  }

  lemma {:induction false} NamesNcrToTanh()
    ensures Before("ncr", "npr") && Before("npr", "pi") && Before("pi", "pow") && Before("pow", "sin")
    ensures Before("sin", "sinh") && Before("sinh", "sqrt") && Before("sqrt", "tan") && Before("tan", "tanh")
  {
  }

  lemma {:induction false} BuiltinNeighbours(i: nat)
    requires 0 < i < |BUILTINS|
    ensures Before(BUILTINS[i - 1].name, BUILTINS[i].name)
  {
    hide Before;
    NamesAToCosh();
    NamesCoshToNcr();
    NamesNcrToTanh();
  }

  lemma {:induction false} BuiltinLegal(i: nat)
    requires i < |BUILTINS|
    ensures IsName(BUILTINS[i].name) && BUILTINS[i].CallEntry?
    ensures BUILTINS[i].kind.Legal() && BUILTINS[i].kind.pure
  {
  }
}
