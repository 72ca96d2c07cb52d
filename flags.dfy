/**
 * Compiler-flag helpers: the per-module macros of `generate_self_macros` and
 * the `-isystem` reordering of `reorganize_isystem`.
 */
module Flags {

  import opened Wrappers
  import opened Errors
  import opened PyStrings
  import opened Lists
  import opened Utils

  // -------------------------------------------------- generate_self_macros

  /** A `(name, value)` macro definition. */
  type Macro = (string, string)

  /** `'"%s"' % s`. */
  function Quote(s: string): string {
    "\"" + s + "\""
  }

  /**
   * `generate_self_macros(extname, version)` on a Python whose major version
   * is `pythonMajor`. A dotted name is required once a version is given:
   * without a '.', `rsplit` yields one piece and `s[1]` raises.
   */
  function SelfMacros(extname: string, version: Option<string>, pythonMajor: int): Result<seq<Macro>, Error> {
    if version.None? then Ok([])
    else match RSplitOnce(extname, '.')
      case None => Err(NoModuleName(extname))
      case Some((prefix, name)) =>
        var entry := if pythonMajor >= 3 then "PyInit_" + name else "init" + name;
        var macros := [("BOB_EXT_MODULE_PREFIX", Quote(prefix)), ("BOB_EXT_MODULE_NAME", Quote(name)), ("BOB_EXT_ENTRY_NAME", entry)];
        if version.value != "" then Ok(macros + [("BOB_EXT_MODULE_VERSION", Quote(version.value))])
        else Ok(macros)
  }

  /**
   * No version, no macros. With a version: an error exactly when the name
   * has no '.'; otherwise the prefix before the last '.', the module name
   * after it, the entry point for the Python major version, and the version
   * macro only when the version is not empty.
   */
  lemma SelfMacrosSpec(extname: string, version: Option<string>, pythonMajor: int)
    ensures version.None? ==> SelfMacros(extname, version, pythonMajor) == Ok([])
    ensures version.Some? ==> (SelfMacros(extname, version, pythonMajor).Err? <==> '.' !in extname)
    ensures version.Some? && '.' in extname ==>
      var r := SelfMacros(extname, version, pythonMajor).value;
      && |r| == (if version.value == "" then 3 else 4)
      && r[0].0 == "BOB_EXT_MODULE_PREFIX" && r[1].0 == "BOB_EXT_MODULE_NAME" && r[2].0 == "BOB_EXT_ENTRY_NAME"
      && (|r| == 4 ==> r[3] == ("BOB_EXT_MODULE_VERSION", Quote(version.value)))
      && exists prefix, name ::
           && '.' !in name && extname == prefix + "." + name
           && r[0].1 == Quote(prefix) && r[1].1 == Quote(name)
           && r[2].1 == (if pythonMajor >= 3 then "PyInit_" else "init") + name
  {
    if version.Some? && '.' in extname {
      var (prefix, name) := RSplitOnce(extname, '.').value;
      var r := SelfMacros(extname, version, pythonMajor).value;
      assert extname == prefix + "." + name;
      assert r[0].1 == Quote(prefix) && r[1].1 == Quote(name);
    }
  }

  // ---------------------------------------------------- reorganize_isystem

  const ISystem := "-isystem"

  function Prepend(rem: seq<string>, inc: seq<string>, r: Result<(seq<string>, seq<string>), Error>)
    : Result<(seq<string>, seq<string>), Error>
  {
    match r
    case Err(e) => Err(e)
    case Ok((rem', inc')) => Ok((rem + rem', inc + inc'))
  }

  /**
   * The index loop with the skip flag: the arguments that stay, and the
   * paths that followed an `-isystem`. A trailing `-isystem` makes
   * `args[i+1]` raise.
   */
  function Scan(args: seq<string>): Result<(seq<string>, seq<string>), Error> {
    if args == [] then Ok(([], []))
    else if args[0] == ISystem then
      if |args| == 1 then Err(MissingISystemPath)
      else Prepend([], [args[1]], Scan(args[2..]))
    else Prepend([args[0]], [], Scan(args[1..]))
  }

  /** `uniq(includes[::-1])[::-1]`: one copy of each path, at its last occurrence. */
  function DedupLast(xs: seq<string>): seq<string> {
    Reverse(Uniq(Reverse(xs)))
  }

  /** The order of the sort key `(-len(item), item)`: longer paths first, then by text. */
  predicate IncludeBefore(a: string, b: string) {
    |a| > |b| || (|a| == |b| && StrLess(a, b))
  }

  predicate SortedIncludes(s: seq<string>) {
    forall i, j :: 0 <= i < j < |s| ==> !IncludeBefore(s[j], s[i])
  }

  lemma IncludeBeforeIrreflexive(a: string)
    ensures !IncludeBefore(a, a)
  {
    StrLessIrreflexive(a);
  }

  lemma IncludeBeforeAsymmetric(a: string, b: string)
    requires IncludeBefore(a, b)
    ensures !IncludeBefore(b, a)
  {
    if |a| == |b| && StrLess(b, a) {
      StrLessTransitive(a, b, a);
      StrLessIrreflexive(a);
    }
  }

  lemma IncludeBeforeTotal(a: string, b: string)
    requires a != b
    ensures IncludeBefore(a, b) || IncludeBefore(b, a)
  {
    StrLessTotal(a, b);
  }

  /** Not coming before is transitive: the order is a strict weak order. */
  lemma NotBeforeTransitive(a: string, b: string, c: string)
    requires !IncludeBefore(a, b) && !IncludeBefore(b, c)
    ensures !IncludeBefore(a, c)
  {
    if IncludeBefore(a, c) {
      assert |a| == |b| == |c|;
      if a != b {
        StrLessTotal(a, b);
        StrLessTransitive(b, a, c);
      }
    }
  }

  /** `x` placed before the first element it does not come after: the stable insertion step. */
  function Insert(x: string, xs: seq<string>): (r: seq<string>)
    ensures multiset(r) == multiset(xs) + multiset{x}
  {
    if xs == [] then [x]
    else if IncludeBefore(xs[0], x) then
      assert xs == [xs[0]] + xs[1..];
      [xs[0]] + Insert(x, xs[1..])
    else [x] + xs
  }

  lemma {:induction false} InsertSorted(x: string, xs: seq<string>)
    requires SortedIncludes(xs)
    ensures SortedIncludes(Insert(x, xs))
  {
    if xs != [] {
      var r := Insert(x, xs);
      if IncludeBefore(xs[0], x) {
        var t := Insert(x, xs[1..]);
        InsertSorted(x, xs[1..]);
        IncludeBeforeAsymmetric(xs[0], x);
        forall k | 0 <= k < |t| ensures !IncludeBefore(t[k], xs[0]) {
          assert t[k] in multiset(t);
          if t[k] != x {
            assert t[k] in xs[1..];
            var m :| 0 <= m < |xs[1..]| && xs[1..][m] == t[k];
            assert xs[m + 1] == t[k];
          }
        }
        assert r == [xs[0]] + t;
      } else {
        forall k | 0 <= k < |xs| ensures !IncludeBefore(xs[k], x) {
          if k > 0 {
            NotBeforeTransitive(xs[k], xs[0], x);
          }
        }
      }
    }
  }

  /** `includes.sort(key=lambda item: (-len(item), item))`, as a stable insertion sort. */
  function SortIncludes(xs: seq<string>): (r: seq<string>)
    ensures multiset(r) == multiset(xs)
    ensures SortedIncludes(r)
  {
    if xs == [] then []
    else
      assert xs == [xs[0]] + xs[1..];
      InsertSorted(xs[0], SortIncludes(xs[1..]));
      Insert(xs[0], SortIncludes(xs[1..]))
  }

  /** `[('-isystem', k) for k in includes]`, flattened. */
  function ISystemPairs(includes: seq<string>): seq<string> {
    seq(2 * |includes|, i requires 0 <= i < 2 * |includes| => if i % 2 == 0 then ISystem else includes[i / 2])
  }

  /** What `reorganize_isystem(args)` returns or raises. */
  function Reorganized(args: seq<string>): Result<seq<string>, Error> {
    match Scan(args)
    case Err(e) => Err(e)
    case Ok((rem, inc)) => Ok(rem + ISystemPairs(SortIncludes(DedupLast(inc))))
  }

  lemma PrependPrepend(rem: seq<string>, inc: seq<string>, a: seq<string>, b: seq<string>, r: Result<(seq<string>, seq<string>), Error>)
    ensures Prepend(rem, inc, Prepend(a, b, r)) == Prepend(rem + a, inc + b, r)
  {
    match r
    case Err(_) =>
    case Ok((x, y)) =>
      assert rem + (a + x) == rem + a + x;
      assert inc + (b + y) == inc + b + y;
  }

  lemma PrependNil(r: Result<(seq<string>, seq<string>), Error>)
    ensures Prepend([], [], r) == r
  {
    match r
    case Err(_) =>
    case Ok((x, y)) =>
      assert [] + x == x && [] + y == y;
  }

  /** `reorganize_isystem(args)`. */
  method ReorganizeISystem(args: seq<string>) returns (r: Result<seq<string>, Error>)
    ensures r == Reorganized(args)
  {
    var remainder: seq<string> := [];
    var includes: seq<string> := [];
    var skip := false;
    assert args[0..] == args;
    PrependNil(Scan(args));
    for i := 0 to |args|
      invariant skip ==> i < |args|
      invariant Scan(args) == Prepend(remainder, includes, Scan(args[if skip then i + 1 else i..]))
    {
      if skip {
        skip := false;
        continue;
      }
      if args[i] == ISystem {
        if i + 1 >= |args| {
          assert args[i..] == [ISystem];
          return Err(MissingISystemPath);
        }
        assert args[i..] == [ISystem, args[i + 1]] + args[i + 2..];
        ScanPair(args[i + 1], args[i + 2..]);
        PrependPrepend(remainder, includes, [], [args[i + 1]], Scan(args[i + 2..]));
        assert remainder + [] == remainder;
        includes := includes + [args[i + 1]];
        skip := true;
      } else {
        assert args[i..] == [args[i]] + args[i + 1..];
        ScanCons(args[i], args[i + 1..]);
        PrependPrepend(remainder, includes, [args[i]], [], Scan(args[i + 1..]));
        assert includes + [] == includes;
        remainder := remainder + [args[i]];
      }
    }
    assert args[|args|..] == [];
    assert remainder + [] == remainder && includes + [] == includes;
    includes := Reverse(Uniq(Reverse(includes)));
    var sorted := SortIncludes(includes);
    r := Ok(remainder + ISystemPairs(sorted));
  }

  // ------------------------------------------------------------ properties

  /** The only failure is an `-isystem` in last position with nothing after it. */
  lemma {:induction false} ScanFailsOnlyAtEnd(args: seq<string>)
    ensures Scan(args).Err? ==> args != [] && args[|args| - 1] == ISystem
  {
    if args != [] {
      if args[0] == ISystem && |args| > 1 {
        ScanFailsOnlyAtEnd(args[2..]);
      } else if args[0] != ISystem {
        ScanFailsOnlyAtEnd(args[1..]);
      }
    }
  }

  /**
   * The arguments that stay hold no `-isystem`, come from the input, and with
   * two slots per path account for every argument.
   */
  lemma {:induction false} ScanShape(args: seq<string>)
    requires Scan(args).Ok?
    ensures ISystem !in Scan(args).value.0
    ensures |Scan(args).value.0| + 2 * |Scan(args).value.1| == |args|
    ensures forall x :: x in Scan(args).value.0 ==> x in args
  {
    if args != [] {
      if args[0] == ISystem {
        ScanShape(args[2..]);
        assert forall x :: x in args[2..] ==> x in args;
      } else {
        ScanShape(args[1..]);
        assert forall x :: x in args[1..] ==> x in args;
      }
    }
  }

  /**
   * Where the two lists of the scan sit in the input: the arguments that
   * stay at the increasing positions `f`, the paths at the increasing
   * positions `g`, each right after an `-isystem` and never two in a row,
   * and every position either stays or belongs to one `-isystem` pair.
   */
  predicate ScanPositions(args: seq<string>, rem: seq<string>, inc: seq<string>, f: seq<int>, g: seq<int>) {
    && PicksInOrder(f, rem, args)
    && PicksInOrder(g, inc, args)
    && AfterISystem(args, g)
    && Spaced(g)
    && Covers(|args|, f, g)
  }

  /** Each position in `g` comes right after an `-isystem`. */
  predicate AfterISystem(args: seq<string>, g: seq<int>) {
    forall k :: 0 <= k < |g| ==> 1 <= g[k] <= |args| && args[g[k] - 1] == ISystem
  }

  /** No two positions of `g` are next to each other. */
  predicate Spaced(g: seq<int>) {
    forall k :: 0 < k < |g| ==> g[k - 1] + 1 < g[k]
  }

  /** Each of the first `n` positions is in `f` exactly when it is not part of a pair. */
  predicate Covers(n: int, f: seq<int>, g: seq<int>) {
    forall i :: 0 <= i < n ==> (i in f <==> !InPair(g, i))
  }

  /** Position `i` holds a collected path or the `-isystem` just before one. */
  predicate InPair(g: seq<int>, i: int) {
    i in g || i + 1 in g
  }

  /**
   * The arguments that stay come first in the output in their original
   * relative order, and the paths are collected in the order they appear.
   */
  lemma {:induction false} ScanOrder(args: seq<string>)
    requires Scan(args).Ok?
    ensures exists f, g :: ScanPositions(args, Scan(args).value.0, Scan(args).value.1, f, g)
  {
    if args == [] {
      assert ScanPositions(args, [], [], [], []);
    } else if args[0] == ISystem {
      var rest := args[2..];
      ScanPair(args[1], rest);
      assert args == [ISystem, args[1]] + rest;
      ScanOrder(rest);
      var (rem', inc') := Scan(rest).value;
      var f', g' :| ScanPositions(rest, rem', inc', f', g');
      ScanPositionsPair(args[1], rest, rem', inc', f', g');
      assert [] + rem' == rem';
    } else {
      var rest := args[1..];
      ScanCons(args[0], rest);
      assert args == [args[0]] + rest;
      ScanOrder(rest);
      var (rem', inc') := Scan(rest).value;
      var f', g' :| ScanPositions(rest, rem', inc', f', g');
      ScanPositionsKeep(args[0], rest, rem', inc', f', g');
      assert [] + inc' == inc';
    }
  }

  /** An argument that stays, put in front: it is picked, everything else moves on by one. */
  lemma ScanPositionsKeep(x: string, rest: seq<string>, rem: seq<string>, inc: seq<string>, f: seq<int>, g: seq<int>)
    requires ScanPositions(rest, rem, inc, f, g)
    ensures ScanPositions([x] + rest, [x] + rem, inc, [0] + Shift(f, 1), Shift(g, 1))
  {
    PicksPick(f, rem, rest, [], x);
    PicksSkip(g, inc, rest, [x]);
    assert [] + [x] + rest == [x] + rest;
    AfterISystemSkip(rest, g, [x]);
    SpacedShift(g, 1);
    CoversKeep(|rest|, f, g);
  }

  /** An `-isystem` pair put in front: its path is picked, everything else moves on by two. */
  lemma ScanPositionsPair(p: string, rest: seq<string>, rem: seq<string>, inc: seq<string>, f: seq<int>, g: seq<int>)
    requires ScanPositions(rest, rem, inc, f, g)
    ensures ScanPositions([ISystem, p] + rest, rem, [p] + inc, Shift(f, 2), [1] + Shift(g, 2))
  {
    PicksSkip(f, rem, rest, [ISystem, p]);
    PicksPick(g, inc, rest, [ISystem], p);
    assert [ISystem] + [p] + rest == [ISystem, p] + rest;
    AfterISystemSkip(rest, g, [ISystem, p]);
    SpacedShift(g, 2);
    CoversPair(|rest|, f, g);
  }

  lemma AfterISystemSkip(rest: seq<string>, g: seq<int>, zs: seq<string>)
    requires AfterISystem(rest, g)
    ensures AfterISystem(zs + rest, Shift(g, |zs|))
    ensures |zs| == 2 && zs[0] == ISystem ==> AfterISystem(zs + rest, [1] + Shift(g, 2))
  {
    var args := zs + rest;
    forall k | 0 <= k < |g| ensures args[g[k] + |zs| - 1] == ISystem {
      assert args[g[k] + |zs| - 1] == rest[g[k] - 1];
    }
    if |zs| == 2 && zs[0] == ISystem {
      var g' := [1] + Shift(g, 2);
      forall k | 0 <= k < |g'| ensures 1 <= g'[k] <= |args| && args[g'[k] - 1] == ISystem {
        if k > 0 { assert g'[k] == Shift(g, 2)[k - 1]; }
      }
    }
  }

  lemma SpacedShift(g: seq<int>, d: int)
    requires Spaced(g)
    requires forall k :: 0 <= k < |g| ==> g[k] >= 1
    ensures Spaced(Shift(g, d))
    ensures d == 2 ==> Spaced([1] + Shift(g, 2))
  {
    if d == 2 {
      var g' := [1] + Shift(g, 2);
      forall k | 0 < k < |g'| ensures g'[k - 1] + 1 < g'[k] {
        if k > 1 { assert g'[k - 1] == g[k - 2] + 2 && g'[k] == g[k - 1] + 2; }
      }
    }
  }

  lemma CoversKeep(n: int, f: seq<int>, g: seq<int>)
    requires Covers(n, f, g)
    requires forall k :: 0 <= k < |f| ==> f[k] >= 0
    requires forall k :: 0 <= k < |g| ==> g[k] >= 1
    ensures Covers(n + 1, [0] + Shift(f, 1), Shift(g, 1))
  {
    var f', g' := [0] + Shift(f, 1), Shift(g, 1);
    forall i | 0 <= i < n + 1 ensures (i in f' <==> !InPair(g', i)) {
      ShiftMembership(f, 1, i);
      ShiftMembership(g, 1, i);
      ShiftMembership(g, 1, i + 1);
      if i >= 1 { assert i - 1 in f <==> !InPair(g, i - 1); }
    }
  }

  lemma CoversPair(n: int, f: seq<int>, g: seq<int>)
    requires Covers(n, f, g)
    requires forall k :: 0 <= k < |f| ==> f[k] >= 0
    ensures Covers(n + 2, Shift(f, 2), [1] + Shift(g, 2))
  {
    var f', g' := Shift(f, 2), [1] + Shift(g, 2);
    forall i | 0 <= i < n + 2 ensures (i in f' <==> !InPair(g', i)) {
      ShiftMembership(f, 2, i);
      ShiftMembership(g, 2, i);
      ShiftMembership(g, 2, i + 1);
      if i >= 2 { assert i - 2 in f <==> !InPair(g, i - 2); }
    }
  }

  lemma ScanCons(x: string, rest: seq<string>)
    requires x != ISystem
    ensures Scan([x] + rest) == Prepend([x], [], Scan(rest))
  {
    assert ([x] + rest)[1..] == rest;
  }

  lemma ScanPair(p: string, rest: seq<string>)
    ensures Scan([ISystem, p] + rest) == Prepend([], [p], Scan(rest))
  {
    assert ([ISystem, p] + rest)[2..] == rest;
  }

  /** Scanning arguments followed by `-isystem` pairs gives both back. */
  lemma {:induction false} ScanRoundTrip(rem: seq<string>, inc: seq<string>)
    requires ISystem !in rem
    ensures Scan(rem + ISystemPairs(inc)) == Ok((rem, inc))
    decreases |rem| + |inc|
  {
    if rem != [] {
      assert rem + ISystemPairs(inc) == [rem[0]] + (rem[1..] + ISystemPairs(inc));
      ScanCons(rem[0], rem[1..] + ISystemPairs(inc));
      ScanRoundTrip(rem[1..], inc);
      assert rem == [rem[0]] + rem[1..];
      assert [] + inc == inc;
    } else if inc != [] {
      assert rem + ISystemPairs(inc) == [ISystem, inc[0]] + ([] + ISystemPairs(inc[1..]));
      ScanPair(inc[0], [] + ISystemPairs(inc[1..]));
      ScanRoundTrip([], inc[1..]);
      assert inc == [inc[0]] + inc[1..];
      assert [] + [] == rem;
    } else {
      assert rem + ISystemPairs(inc) == [];
    }
  }

  lemma ReverseReverse<T>(s: seq<T>)
    ensures Reverse(Reverse(s)) == s
  {
  }

  /** Deduplication keeps each path once and loses none. */
  lemma DedupLastSpec(xs: seq<string>)
    ensures NoDuplicates(DedupLast(xs))
    ensures forall x :: x in DedupLast(xs) <==> x in xs
  {
    ReverseElems(xs);
    ReverseElems(Uniq(Reverse(xs)));
    ReverseNoDuplicates(Uniq(Reverse(xs)));
  }

  lemma DedupLastOfNoDuplicates(xs: seq<string>)
    requires NoDuplicates(xs)
    ensures DedupLast(xs) == xs
  {
    ReverseNoDuplicates(xs);
    UniqOfNoDuplicates(Reverse(xs));
    ReverseReverse(xs);
  }

  predicate StrictlySorted(s: seq<string>) {
    forall i, j :: 0 <= i < j < |s| ==> IncludeBefore(s[i], s[j])
  }

  lemma SortedDistinctIsStrict(s: seq<string>)
    requires SortedIncludes(s) && NoDuplicates(s)
    ensures StrictlySorted(s)
  {
    forall i, j | 0 <= i < j < |s| ensures IncludeBefore(s[i], s[j]) {
      IncludeBeforeTotal(s[i], s[j]);
    }
  }

  lemma InsertElems(x: string, xs: seq<string>)
    ensures forall z :: z in Insert(x, xs) <==> z == x || z in xs
  {
    var r := Insert(x, xs);
    forall z ensures z in r <==> z == x || z in xs {
      assert z in r <==> z in multiset(r);
      assert z in xs <==> z in multiset(xs);
    }
  }

  lemma {:induction false} InsertNoDuplicates(x: string, xs: seq<string>)
    requires NoDuplicates(xs) && x !in xs
    ensures NoDuplicates(Insert(x, xs))
  {
    if xs != [] && IncludeBefore(xs[0], x) {
      assert x !in xs[1..];
      InsertNoDuplicates(x, xs[1..]);
      InsertElems(x, xs[1..]);
      assert xs[0] !in xs[1..];
    }
  }

  lemma SortIncludesElems(xs: seq<string>)
    ensures forall z :: z in SortIncludes(xs) <==> z in xs
  {
    var r := SortIncludes(xs);
    forall z ensures z in r <==> z in xs {
      assert z in r <==> z in multiset(r);
      assert z in xs <==> z in multiset(xs);
    }
  }

  /** Sorting keeps a duplicate-free list duplicate-free. */
  lemma {:induction false} SortIncludesNoDuplicates(xs: seq<string>)
    requires NoDuplicates(xs)
    ensures NoDuplicates(SortIncludes(xs))
  {
    if xs != [] {
      SortIncludesNoDuplicates(xs[1..]);
      SortIncludesElems(xs[1..]);
      assert xs[0] !in xs[1..];
      InsertNoDuplicates(xs[0], SortIncludes(xs[1..]));
    }
  }

  /** Sorting a list already strictly in key order leaves it as it is. */
  lemma {:induction false} SortIncludesOfSorted(xs: seq<string>)
    requires StrictlySorted(xs)
    ensures SortIncludes(xs) == xs
  {
    if xs != [] {
      SortIncludesOfSorted(xs[1..]);
      if |xs| > 1 {
        IncludeBeforeAsymmetric(xs[0], xs[1]);
        assert xs[1..][0] == xs[1];
      }
      assert xs == [xs[0]] + xs[1..];
    }
  }

  /**
   * The output of `reorganize_isystem`: the other arguments in their original
   * relative order, then one `-isystem` pair per distinct path, longest paths
   * first and equal lengths in text order.
   */
  lemma ReorganizedSpec(args: seq<string>)
    requires Reorganized(args).Ok?
    ensures
      var (rem, inc) := Scan(args).value;
      var s := SortIncludes(DedupLast(inc));
      && Reorganized(args).value == rem + ISystemPairs(s)
      && ISystem !in rem
      && (exists f, g :: ScanPositions(args, rem, inc, f, g))
      && NoDuplicates(s)
      && (forall x :: x in s <==> x in inc)
      && StrictlySorted(s)
  {
    var (rem, inc) := Scan(args).value;
    var d := DedupLast(inc);
    var s := SortIncludes(d);
    ScanShape(args);
    ScanOrder(args);
    DedupLastSpec(inc);
    SortIncludesNoDuplicates(d);
    SortIncludesElems(d);
    SortedDistinctIsStrict(s);
  }

  /** Longer include directories sort first: `/usr/include` goes after the two longer paths. */
  lemma SortExample(a: string, b: string, c: string)
    requires |a| < |b| < |c|
    ensures SortIncludes([a, b, c]) == [c, b, a]
  {
    assert [a, b, c][1..] == [b, c] && [b, c][1..] == [c];
    assert SortIncludes([c]) == [c];
    assert Insert(b, [c]) == [c, b];
    assert Insert(a, [b]) == [b, a];
    assert Insert(a, [c, b]) == [c, b, a];
  }

  /** The flattened pairs of a non-empty list: the first pair, then the rest. */
  lemma ISystemPairsCons(x: string, xs: seq<string>)
    ensures ISystemPairs([x] + xs) == [ISystem, x] + ISystemPairs(xs)
  {
    var l, r := ISystemPairs([x] + xs), [ISystem, x] + ISystemPairs(xs);
    forall i | 2 <= i < |l| ensures l[i] == r[i] {
      assert (i - 2) % 2 == i % 2 && (i - 2) / 2 == i / 2 - 1;
    }
  }

  /** Scanning three `-isystem` pairs gives back the three paths and nothing else. */
  lemma ScanThree(a: string, b: string, c: string)
    ensures Scan([ISystem, a, ISystem, b, ISystem, c]) == Ok(([], [a, b, c]))
  {
    ISystemPairsCons(c, []);
    ISystemPairsCons(b, [c]);
    ISystemPairsCons(a, [b, c]);
    assert [ISystem, a, ISystem, b, ISystem, c] == [] + ISystemPairs([a, b, c]);
    ScanRoundTrip([], [a, b, c]);
  }

  /** Three `-isystem` paths of growing length come out in reverse: longest first. */
  lemma ReorganizeThree(a: string, b: string, c: string)
    requires |a| < |b| < |c|
    ensures Reorganized([ISystem, a, ISystem, b, ISystem, c]) == Ok([ISystem, c, ISystem, b, ISystem, a])
  {
    ScanThree(a, b, c);
    DistinctThree(a, b, c);
    ReorganizedDistinct([ISystem, a, ISystem, b, ISystem, c], [a, b, c]);
    SortExample(a, b, c);
    PairsThree(c, b, a);
  }

  /** Arguments that are all distinct `-isystem` pairs: the paths are only sorted. */
  lemma ReorganizedDistinct(args: seq<string>, inc: seq<string>)
    requires Scan(args) == Ok(([], inc)) && NoDuplicates(inc)
    ensures Reorganized(args) == Ok(ISystemPairs(SortIncludes(inc)))
  {
    ReorganizedOfScan(args, [], inc);
    DedupLastOfNoDuplicates(inc);
    EmptyPrefix(ISystemPairs(SortIncludes(inc)));
  }

  lemma DistinctThree(a: string, b: string, c: string)
    requires a != b && b != c && a != c
    ensures NoDuplicates([a, b, c])
  {
  }

  lemma EmptyPrefix(xs: seq<string>)
    ensures [] + xs == xs
  {
  }

  lemma PairsThree(x: string, y: string, z: string)
    ensures ISystemPairs([x, y, z]) == [ISystem, x, ISystem, y, ISystem, z]
  {
    ISystemPairsCons(z, []);
    ISystemPairsCons(y, [z]);
    ISystemPairsCons(x, [y, z]);
  }

  lemma ReorganizedOfScan(args: seq<string>, rem: seq<string>, inc: seq<string>)
    requires Scan(args) == Ok((rem, inc))
    ensures Reorganized(args) == Ok(rem + ISystemPairs(SortIncludes(DedupLast(inc))))
  {
  }

  /**
   * The include directories `/usr/include`, `/usr/local/include` and
   * `/opt/foo/include/special` come out longest first, `/usr/include` last.
   */
  lemma ReorganizeExample()
    ensures Reorganized([ISystem, "/usr/include", ISystem, "/usr/local/include", ISystem, "/opt/foo/include/special"]) ==
      Ok([ISystem, "/opt/foo/include/special", ISystem, "/usr/local/include", ISystem, "/usr/include"])
  {
    ReorganizeThree("/usr/include", "/usr/local/include", "/opt/foo/include/special");
  }

  /** Reorganizing an already reorganized argument list changes nothing. */
  lemma ReorganizeIdempotent(args: seq<string>)
    requires Reorganized(args).Ok?
    ensures Reorganized(Reorganized(args).value) == Reorganized(args)
  {
    var (rem, inc) := Scan(args).value;
    var s := SortIncludes(DedupLast(inc));
    ReorganizedSpec(args);
    ScanRoundTrip(rem, s);
    DedupLastOfNoDuplicates(s);
    SortIncludesOfSorted(s);
  }
}
