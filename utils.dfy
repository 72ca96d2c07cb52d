/**
 * General utilities for building extensions: order-preserving `uniq` and the
 * search-path probing behind `find_file`, `find_header` and `find_library`.
 *
 * The host the probes run on (`os.environ`, `os.pathsep`, `glob.glob`,
 * `os.path.exists`, `platform.architecture()` and `sys.platform`) is a value
 * of type `Host`; everything else is an exact sequence construction.
 */
module Utils {

  import opened Wrappers
  import opened PyStrings
  import opened PosixPath
  import opened Lists

  // ---------------------------------------------------------------- uniq

  /** The comprehension of `uniq`, run from a given set of already seen elements. */
  function UniqFrom<T(==,!new)>(s: seq<T>, seen: set<T>): (r: seq<T>)
    ensures forall x :: x in r <==> x in s && x !in seen
    ensures NoDuplicates(r)
    ensures |r| <= |s|
  {
    if s == [] then []
    else if s[0] in seen then UniqFrom(s[1..], seen)
    else [s[0]] + UniqFrom(s[1..], seen + {s[0]})
  }

  /** `uniq(seq)`: drops every element already seen, keeping first occurrences. */
  function Uniq<T(==,!new)>(s: seq<T>): (r: seq<T>)
    ensures forall x :: x in r <==> x in s
    ensures NoDuplicates(r)
    ensures |r| <= |s|
  {
    UniqFrom(s, {})
  }

  /** The elements `uniq` keeps appear in the order of their first occurrence in the input. */
  lemma {:induction false} UniqFromFirstOccurrence<T(!new)>(s: seq<T>, seen: set<T>)
    ensures forall i, j :: 0 <= i < j < |UniqFrom(s, seen)| ==>
      IndexOf(s, UniqFrom(s, seen)[i]) < IndexOf(s, UniqFrom(s, seen)[j])
    decreases |s|, 1
  {
    if s != [] {
      if s[0] in seen {
        UniqFromFirstOccurrence(s[1..], seen);
        forall y | y in UniqFrom(s[1..], seen) ensures IndexOf(s, y) == 1 + IndexOf(s[1..], y) {
          IndexOfTail(s, y);
        }
      } else {
        UniqFromFirstOccurrenceCons(s, seen);
      }
    }
  }

  lemma IndexOfTail<T>(s: seq<T>, y: T)
    requires s != [] && y in s[1..] && y != s[0]
    ensures IndexOf(s, y) == 1 + IndexOf(s[1..], y)
  {
  }

  lemma UniqFromFirstOccurrenceCons<T(!new)>(s: seq<T>, seen: set<T>)
    requires s != [] && s[0] !in seen
    ensures forall i, j :: 0 <= i < j < |UniqFrom(s, seen)| ==>
      IndexOf(s, UniqFrom(s, seen)[i]) < IndexOf(s, UniqFrom(s, seen)[j])
    decreases |s|, 0
  {
    var r' := UniqFrom(s[1..], seen + {s[0]});
    UniqFromFirstOccurrence(s[1..], seen + {s[0]});
    forall k | 0 <= k < |r'| ensures r'[k] in s[1..] && r'[k] != s[0] {
      assert r'[k] in r';
    }
    OrderedCons(s, r', UniqFrom(s, seen));
  }

  /** Putting the head of `s` in front of a list ordered by first occurrence in the tail of `s`. */
  lemma OrderedCons<T>(s: seq<T>, r': seq<T>, r: seq<T>)
    requires s != [] && r == [s[0]] + r'
    requires forall k :: 0 <= k < |r'| ==> r'[k] in s[1..] && r'[k] != s[0]
    requires forall i, j :: 0 <= i < j < |r'| ==> IndexOf(s[1..], r'[i]) < IndexOf(s[1..], r'[j])
    ensures forall i, j :: 0 <= i < j < |r| ==> r[i] in s && r[j] in s && IndexOf(s, r[i]) < IndexOf(s, r[j])
  {
    forall i, j | 0 <= i < j < |r| ensures r[i] in s && r[j] in s && IndexOf(s, r[i]) < IndexOf(s, r[j]) {
      var y := r'[j - 1];
      assert r[j] == y;
      IndexOfTail(s, y);
      if i > 0 {
        var x := r'[i - 1];
        assert r[i] == x;
        IndexOfTail(s, x);
      }
    }
  }

  lemma UniqFirstOccurrence<T(!new)>(s: seq<T>)
    ensures forall i, j :: 0 <= i < j < |Uniq(s)| ==> IndexOf(s, Uniq(s)[i]) < IndexOf(s, Uniq(s)[j])
  {
    UniqFromFirstOccurrence(s, {});
  }

  /** Deduplicating a concatenation: the right part is deduplicated against everything in the left part. */
  lemma {:induction false} UniqFromAppend<T(!new)>(a: seq<T>, b: seq<T>, seen: set<T>)
    ensures UniqFrom(a + b, seen) == UniqFrom(a, seen) + UniqFrom(b, seen + Elems(a))
  {
    if a == [] {
      assert a + b == b;
      assert Elems(a) == {};
      assert seen + Elems(a) == seen;
    } else {
      assert (a + b)[0] == a[0] && (a + b)[1..] == a[1..] + b;
      assert Elems(a) == {a[0]} + Elems(a[1..]);
      if a[0] in seen {
        UniqFromAppend(a[1..], b, seen);
        assert seen + Elems(a[1..]) == seen + Elems(a);
      } else {
        UniqFromAppend(a[1..], b, seen + {a[0]});
        assert seen + {a[0]} + Elems(a[1..]) == seen + Elems(a);
      }
    }
  }

  lemma UniqAppend<T(!new)>(a: seq<T>, b: seq<T>)
    ensures Uniq(a + b) == Uniq(a) + UniqFrom(b, Elems(a))
  {
    UniqFromAppend(a, b, {});
    assert {} + Elems(a) == Elems(a);
  }

  /** Appending one element to the input appends it to the output exactly when it is new. */
  lemma UniqSnoc<T(!new)>(s: seq<T>, x: T)
    ensures Uniq(s + [x]) == Uniq(s) + (if x in s then [] else [x])
  {
    UniqAppend(s, [x]);
    assert [x][1..] == [];
  }

  /** A duplicate-free input disjoint from `seen` comes back unchanged. */
  lemma {:induction false} UniqFromIdentity<T(!new)>(s: seq<T>, seen: set<T>)
    requires NoDuplicates(s)
    requires forall x :: x in s ==> x !in seen
    ensures UniqFrom(s, seen) == s
  {
    if s != [] {
      assert s[0] !in s[1..];
      UniqFromIdentity(s[1..], seen + {s[0]});
    }
  }

  lemma UniqIdempotent<T(!new)>(s: seq<T>)
    ensures Uniq(Uniq(s)) == Uniq(s)
  {
    UniqFromIdentity(Uniq(s), {});
  }

  /** With no duplicates, `uniq` is the identity. */
  lemma UniqOfNoDuplicates<T(!new)>(s: seq<T>)
    requires NoDuplicates(s)
    ensures Uniq(s) == s
  {
    UniqFromIdentity(s, {});
  }

  /**
   * Priority: every element of the left part of the input comes, in the
   * output, before every element that only the right part holds.
   */
  lemma UniqPriority<T(!new)>(a: seq<T>, b: seq<T>, x: T, y: T)
    requires x in a && y in b && y !in a
    ensures x in Uniq(a + b) && y in Uniq(a + b)
    ensures IndexOf(Uniq(a + b), x) < IndexOf(Uniq(a + b), y)
  {
    UniqAppend(a, b);
    IndexOfConcat(Uniq(a), UniqFrom(b, Elems(a)), x);
    IndexOfConcat(Uniq(a), UniqFrom(b, Elems(a)), y);
  }

  /** `uniq([a, b, a, c, b])` is `[a, b, c]` for distinct `a`, `b`, `c`. */
  lemma UniqRepeats<T(!new)>(a: T, b: T, c: T)
    requires a != b && b != c && a != c
    ensures Uniq([a, b, a, c, b]) == [a, b, c]
  {
    var s2, s3, s4 := [a, b], [a, b, a], [a, b, a, c];
    assert NoDuplicates(s2);
    UniqOfNoDuplicates(s2);
    assert s3 == s2 + [a];
    UniqSnoc(s2, a);
    assert s4 == s3 + [c];
    UniqSnoc(s3, c);
    assert [a, b, a, c, b] == s4 + [b];
    UniqSnoc(s4, b);
  }

  /** `uniq(['a', 'b', 'a', 'c', 'b'])` is `['a', 'b', 'c']`. */
  lemma UniqExample()
    ensures Uniq(["a", "b", "a", "c", "b"]) == ["a", "b", "c"]
  {
    UniqRepeats("a", "b", "c");
  }

  // ------------------------------------------------------------ the host

  /** The parts of the running system that the probes consult. */
  datatype Host = Host(
    environ: map<string, string>,    // os.environ
    pathsep: char,                   // os.pathsep
    glob: string -> seq<string>,     // glob.glob
    pathExists: string -> bool,      // os.path.exists
    architecture: string,            // platform.architecture()[0]
    platform: string)                // sys.platform

  const BobPrefixPath := "BOB_PREFIX_PATH"

  /** `DEFAULT_PREFIXES`. */
  const DefaultPrefixes: seq<string> := ["/usr", "/usr/local", "/opt/local"]

  /** The entries of `BOB_PREFIX_PATH`, split on the path separator; none when it is unset. */
  function EnvPrefixes(h: Host): seq<string> {
    if BobPrefixPath in h.environ then Split(h.environ[BobPrefixPath], h.pathsep) else []
  }

  // ------------------------------------------------------------ find_file

  /** The prefixes `find_file` searches, in priority order and deduplicated. */
  function SearchPrefixes(h: Host, prefixes: seq<string>): seq<string> {
    Uniq(EnvPrefixes(h) + prefixes + DefaultPrefixes)
  }

  /** The search paths one prefix expands to: the prefix joined with each subpath, then the prefix itself. */
  function ExpandOne(s: string, subpaths: seq<string>): seq<string> {
    seq(|subpaths|, i requires 0 <= i < |subpaths| => Join(s, subpaths[i])) + [s]
  }

  function ExpandAll(search: seq<string>, subpaths: seq<string>): seq<string> {
    if search == [] then []
    else ExpandAll(search[..|search| - 1], subpaths) + ExpandOne(search[|search| - 1], subpaths)
  }

  /** The paths `find_file` hands to `glob`. */
  function SearchList(h: Host, subpaths: seq<string>, prefixes: seq<string>): seq<string> {
    if subpaths == [] then SearchPrefixes(h, prefixes)
    else ExpandAll(SearchPrefixes(h, prefixes), subpaths)
  }

  /** Every path each pattern globs to, pattern by pattern. */
  function GlobAll(glob: string -> seq<string>, patterns: seq<string>): seq<string> {
    if patterns == [] then []
    else GlobAll(glob, patterns[..|patterns| - 1]) + glob(patterns[|patterns| - 1])
  }

  /** The candidates `join(path, name)` that exist, in the order of `paths`. */
  function Matches(present: string -> bool, paths: seq<string>, name: string): seq<string> {
    if paths == [] then []
    else
      var c := Join(paths[|paths| - 1], name);
      Matches(present, paths[..|paths| - 1], name) + (if present(c) then [c] else [])
  }

  /** What `find_file(name, subpaths, prefixes)` returns. */
  function FindFileResult(h: Host, name: string, subpaths: seq<string>, prefixes: seq<string>): seq<string> {
    Matches(h.pathExists, GlobAll(h.glob, SearchList(h, subpaths, prefixes)), name)
  }

  /**
   * The search order: no prefix twice; exactly the `BOB_PREFIX_PATH`
   * entries, the caller's prefixes and the defaults; every environment entry
   * before anything else; every caller prefix before every default the
   * caller did not also name.
   */
  lemma SearchPrefixesOrder(h: Host, prefixes: seq<string>)
    ensures NoDuplicates(SearchPrefixes(h, prefixes))
    ensures forall x :: x in SearchPrefixes(h, prefixes) <==>
      x in EnvPrefixes(h) || x in prefixes || x in DefaultPrefixes
    ensures forall x, y :: x in EnvPrefixes(h) && y in SearchPrefixes(h, prefixes) && y !in EnvPrefixes(h) ==>
      x in SearchPrefixes(h, prefixes) && IndexOf(SearchPrefixes(h, prefixes), x) < IndexOf(SearchPrefixes(h, prefixes), y)
    ensures forall x, y :: x in prefixes && y in DefaultPrefixes && y !in EnvPrefixes(h) && y !in prefixes ==>
      x in SearchPrefixes(h, prefixes) && y in SearchPrefixes(h, prefixes) &&
      IndexOf(SearchPrefixes(h, prefixes), x) < IndexOf(SearchPrefixes(h, prefixes), y)
  {
    var env := EnvPrefixes(h);
    var all := env + prefixes + DefaultPrefixes;
    assert all == env + (prefixes + DefaultPrefixes);
    forall x, y | x in env && y in SearchPrefixes(h, prefixes) && y !in env
      ensures x in SearchPrefixes(h, prefixes) && IndexOf(SearchPrefixes(h, prefixes), x) < IndexOf(SearchPrefixes(h, prefixes), y)
    {
      UniqPriority(env, prefixes + DefaultPrefixes, x, y);
    }
    forall x, y | x in prefixes && y in DefaultPrefixes && y !in env && y !in prefixes
      ensures x in SearchPrefixes(h, prefixes) && y in SearchPrefixes(h, prefixes) &&
        IndexOf(SearchPrefixes(h, prefixes), x) < IndexOf(SearchPrefixes(h, prefixes), y)
    {
      UniqPriority(env + prefixes, DefaultPrefixes, x, y);
    }
  }

  /** With `BOB_PREFIX_PATH=/a:/b` and the caller prefix `/c`, the order before globbing. */
  lemma SearchPrefixesExample(h: Host)
    requires h.environ == map[BobPrefixPath := "/a:/b"] && h.pathsep == ':'
    ensures SearchPrefixes(h, ["/c"]) == ["/a", "/b", "/c", "/usr", "/usr/local", "/opt/local"]
  {
    SplitExample();
    var all := ["/a", "/b", "/c", "/usr", "/usr/local", "/opt/local"];
    assert EnvPrefixes(h) + ["/c"] + DefaultPrefixes == all;
    ExamplePrefixesDistinct();
    UniqOfNoDuplicates(all);
  }

  lemma SplitExample()
    ensures Split("/a:/b", ':') == ["/a", "/b"]
  {
    assert Find("/a:/b", ':') == 2;
    assert "/a:/b"[3..] == "/b" && "/a:/b"[..2] == "/a";
    assert Find("/b", ':') == 2;
    assert Split("/b", ':') == ["/b"];
  }

  lemma ExamplePrefixesDistinct()
    ensures NoDuplicates(["/a", "/b", "/c", "/usr", "/usr/local", "/opt/local"])
  {
  }

  /**
   * The expansion is prefix-major: the `j`-th path of prefix `i` sits at
   * `i * (|subpaths| + 1) + j`; it is `join(prefix, subpaths[j])` for
   * `j < |subpaths|` and the bare prefix for `j == |subpaths|`.
   */
  lemma {:induction false} ExpandAllAt(search: seq<string>, subpaths: seq<string>, i: nat, j: nat)
    requires i < |search| && j <= |subpaths|
    ensures |ExpandAll(search, subpaths)| == |search| * (|subpaths| + 1)
    ensures i * (|subpaths| + 1) + j < |ExpandAll(search, subpaths)|
    ensures ExpandAll(search, subpaths)[i * (|subpaths| + 1) + j] ==
      if j < |subpaths| then Join(search[i], subpaths[j]) else search[i]
  {
    var m := |subpaths| + 1;
    var n := |search|;
    var init := search[..n - 1];
    var last := ExpandOne(search[n - 1], subpaths);
    ExpandAllLength(search, subpaths);
    ExpandAllLength(init, subpaths);
    assert ExpandAll(search, subpaths) == ExpandAll(init, subpaths) + last;
    if i < n - 1 {
      RowBefore(i, j, n - 1, m);
      ExpandAllAt(init, subpaths, i, j);
      assert search[i] == init[i];
    } else {
      RowBefore(i, j, n, m);
      assert i * m == (n - 1) * m;
      assert |ExpandAll(init, subpaths)| == i * m;
    }
  }

  /** Cell `(i, j)` of an `n` by `m` table laid out row by row lies inside it. */
  lemma RowBefore(i: nat, j: nat, n: nat, m: nat)
    requires i < n && j < m
    ensures i * m + j < n * m
  {
    assert i * m + j < (i + 1) * m;
    assert (i + 1) * m <= n * m;
  }

  lemma {:induction false} ExpandAllLength(search: seq<string>, subpaths: seq<string>)
    ensures |ExpandAll(search, subpaths)| == |search| * (|subpaths| + 1)
  {
    if search != [] {
      ExpandAllLength(search[..|search| - 1], subpaths);
      assert |search| * (|subpaths| + 1) == (|search| - 1) * (|subpaths| + 1) + (|subpaths| + 1);
    }
  }

  lemma GlobAllSnoc(glob: string -> seq<string>, patterns: seq<string>, k: nat)
    requires k < |patterns|
    ensures GlobAll(glob, patterns[..k + 1]) == GlobAll(glob, patterns[..k]) + glob(patterns[k])
  {
    assert patterns[..k + 1][..k] == patterns[..k];
  }

  lemma MatchesSnoc(present: string -> bool, paths: seq<string>, k: nat, name: string)
    requires k < |paths|
    ensures Matches(present, paths[..k + 1], name) == Matches(present, paths[..k], name) +
      (if present(Join(paths[k], name)) then [Join(paths[k], name)] else [])
  {
    assert paths[..k + 1][..k] == paths[..k];
  }

  lemma {:induction false} GlobAllMembership(glob: string -> seq<string>, patterns: seq<string>, x: string)
    ensures x in GlobAll(glob, patterns) <==> exists i :: 0 <= i < |patterns| && x in glob(patterns[i])
  {
    if patterns != [] {
      var init := patterns[..|patterns| - 1];
      GlobAllMembership(glob, init, x);
      if x in GlobAll(glob, patterns) && x !in GlobAll(glob, init) {
        assert x in glob(patterns[|patterns| - 1]);
      }
      if exists i :: 0 <= i < |patterns| && x in glob(patterns[i]) {
        var i :| 0 <= i < |patterns| && x in glob(patterns[i]);
        if i < |patterns| - 1 { assert x in glob(init[i]); }
      }
    }
  }

  lemma {:induction false} MatchesMembership(present: string -> bool, paths: seq<string>, name: string, x: string)
    ensures x in Matches(present, paths, name) <==>
      present(x) && exists i :: 0 <= i < |paths| && x == Join(paths[i], name)
  {
    if paths != [] {
      var init := paths[..|paths| - 1];
      MatchesMembership(present, init, name, x);
      if exists i :: 0 <= i < |paths| && x == Join(paths[i], name) {
        var i :| 0 <= i < |paths| && x == Join(paths[i], name);
        if i < |paths| - 1 { assert x == Join(init[i], name); }
      }
    }
  }

  lemma {:induction false} MatchesLength(present: string -> bool, paths: seq<string>, name: string)
    ensures |Matches(present, paths, name)| <= |paths|
  {
    if paths != [] { MatchesLength(present, paths[..|paths| - 1], name); }
  }

  /** The names `find_file` tries, `join(path, name)` for each globbed path in turn. */
  function Candidates(paths: seq<string>, name: string): (r: seq<string>)
    ensures |r| == |paths| && forall i :: 0 <= i < |paths| ==> r[i] == Join(paths[i], name)
  {
    seq(|paths|, i requires 0 <= i < |paths| => Join(paths[i], name))
  }

  /** `find_file` keeps the candidates that exist. */
  lemma {:induction false} MatchesFilter(present: string -> bool, paths: seq<string>, name: string)
    ensures Matches(present, paths, name) == Filter(present, Candidates(paths, name))
  {
    if paths != [] {
      var init := paths[..|paths| - 1];
      MatchesFilter(present, init, name);
      var cs := Candidates(paths, name);
      assert cs[..|cs| - 1] == Candidates(init, name);
    }
  }

  /**
   * The kept candidates come in search order, taken at exactly the positions
   * whose candidate exists: one result at most per globbed path.
   */
  lemma MatchesInOrder(present: string -> bool, paths: seq<string>, name: string)
    ensures exists f :: FilteredAt(f, Matches(present, paths, name), present, Candidates(paths, name))
  {
    MatchesFilter(present, paths, name);
    FilterInOrder(present, Candidates(paths, name));
  }

  /**
   * What `find_file` returns, and all of it: the existing files named `name`
   * inside a directory that one of the search paths globs to.
   */
  lemma FindFileMembership(h: Host, name: string, subpaths: seq<string>, prefixes: seq<string>, x: string)
    ensures x in FindFileResult(h, name, subpaths, prefixes) <==>
      h.pathExists(x) && exists p :: p in GlobAll(h.glob, SearchList(h, subpaths, prefixes)) && x == Join(p, name)
  {
    var paths := GlobAll(h.glob, SearchList(h, subpaths, prefixes));
    MatchesMembership(h.pathExists, paths, name, x);
    if h.pathExists(x) && exists p :: p in paths && x == Join(p, name) {
      var p :| p in paths && x == Join(p, name);
      var i :| 0 <= i < |paths| && paths[i] == p;
    }
  }

  /** `find_file` lists the existing candidates in search order, each globbed path at most once. */
  lemma FindFileInOrder(h: Host, name: string, subpaths: seq<string>, prefixes: seq<string>)
    ensures exists f :: FilteredAt(f, FindFileResult(h, name, subpaths, prefixes), h.pathExists,
      Candidates(GlobAll(h.glob, SearchList(h, subpaths, prefixes)), name))
  {
    var paths := GlobAll(h.glob, SearchList(h, subpaths, prefixes));
    MatchesInOrder(h.pathExists, paths, name);
    var f :| FilteredAt(f, Matches(h.pathExists, paths, name), h.pathExists, Candidates(paths, name));
    assert FindFileResult(h, name, subpaths, prefixes) == Matches(h.pathExists, paths, name);
  }

  /** The nested loop of `find_file` that expands every prefix by every subpath. */
  method ExpandSearch(search: seq<string>, subpaths: seq<string>) returns (subsearch: seq<string>)
    ensures subsearch == ExpandAll(search, subpaths)
  {
    subsearch := [];
    for k := 0 to |search|
      invariant subsearch == ExpandAll(search[..k], subpaths)
    {
      ghost var before := subsearch;
      for j := 0 to |subpaths|
        invariant subsearch == before + seq(j, i requires 0 <= i < j => Join(search[k], subpaths[i]))
      {
        subsearch := subsearch + [Join(search[k], subpaths[j])];
      }
      subsearch := subsearch + [search[k]];
      assert search[..k + 1][..k] == search[..k];
    }
    assert search[..|search|] == search;
  }

  /** The opening of `find_file`: the environment's prefixes, the caller's, the defaults, deduplicated. */
  method SearchOrder(h: Host, prefixes: seq<string>) returns (search: seq<string>)
    ensures search == SearchPrefixes(h, prefixes)
  {
    search := [];
    if BobPrefixPath in h.environ {
      search := search + Split(h.environ[BobPrefixPath], h.pathsep);
    }
    assert search == EnvPrefixes(h);
    if |prefixes| > 0 {
      search := search + prefixes;
    }
    assert search == EnvPrefixes(h) + prefixes;
    search := search + DefaultPrefixes;
    search := Uniq(search);
  }

  /** `find_file(name, subpaths, prefixes)`. */
  method FindFile(h: Host, name: string, subpaths: seq<string>, prefixes: seq<string>) returns (r: seq<string>)
    ensures r == FindFileResult(h, name, subpaths, prefixes)
  {
    var search := SearchOrder(h, prefixes);
    if |subpaths| > 0 {
      search := ExpandSearch(search, subpaths);
    }
    assert search == SearchList(h, subpaths, prefixes);
    var paths := GlobEach(h.glob, search);
    r := MatchEach(h.pathExists, paths, name);
  }

  /** The loop of `find_file` that globs every search path in turn. */
  method GlobEach(glob: string -> seq<string>, search: seq<string>) returns (paths: seq<string>)
    ensures paths == GlobAll(glob, search)
  {
    paths := [];
    for k := 0 to |search|
      invariant paths == GlobAll(glob, search[..k])
    {
      paths := paths + glob(search[k]);
      GlobAllSnoc(glob, search, k);
    }
    assert search[..|search|] == search;
  }

  /** The loop of `find_file` that keeps each `join(path, name)` that exists. */
  method MatchEach(present: string -> bool, paths: seq<string>, name: string) returns (r: seq<string>)
    ensures r == Matches(present, paths, name)
  {
    r := [];
    for k := 0 to |paths|
      invariant r == Matches(present, paths[..k], name)
    {
      var candidate := Join(paths[k], name);
      MatchesSnoc(present, paths, k, name);
      if present(candidate) {
        r := r + [candidate];
      }
    }
    assert paths[..|paths|] == paths;
  }

  // ---------------------------------------------------------- find_header

  /** The subpaths `find_header` searches: `include`, or each given subpath under it. */
  function HeaderSubpaths(subpaths: seq<string>): seq<string> {
    if subpaths == [] then ["include"]
    else seq(|subpaths|, i requires 0 <= i < |subpaths| => Join("include", subpaths[i]))
  }

  /** Headers are looked for under `include`: relative subpaths are nested inside it, in order. */
  lemma HeaderSubpathsUnderInclude(subpaths: seq<string>)
    ensures subpaths == [] ==> HeaderSubpaths(subpaths) == ["include"]
    ensures subpaths != [] ==> |HeaderSubpaths(subpaths)| == |subpaths|
    ensures forall i :: 0 <= i < |subpaths| && !IsAbsolute(subpaths[i]) ==>
      HeaderSubpaths(subpaths)[i] == "include/" + subpaths[i]
  {
  }

  /** `find_header(name, subpaths, prefixes)`. */
  method FindHeader(h: Host, name: string, subpaths: seq<string>, prefixes: seq<string>) returns (r: seq<string>)
    ensures r == FindFileResult(h, name, HeaderSubpaths(subpaths), prefixes)
  {
    var mySubpaths: seq<string>;
    if |subpaths| > 0 {
      mySubpaths := seq(|subpaths|, i requires 0 <= i < |subpaths| => Join("include", subpaths[i]));
    } else {
      mySubpaths := ["include"];
    }
    r := FindFile(h, name, mySubpaths, prefixes);
  }

  // --------------------------------------------------------- find_library

  /** `lib`, then the two architecture-specific library directories. */
  function LibPaths(h: Host): seq<string> {
    ["lib"] +
    if h.architecture == "32bit" then [Join("lib", "i386-linux-gnu"), "lib32"]
    else [Join("lib", "x86_64-linux-gnu"), "lib64"]
  }

  /** Every subpath under every library directory, library-directory-major. */
  function UnderEach(libpaths: seq<string>, subpaths: seq<string>): seq<string> {
    if libpaths == [] then []
    else
      var lp := libpaths[|libpaths| - 1];
      UnderEach(libpaths[..|libpaths| - 1], subpaths) +
      seq(|subpaths|, i requires 0 <= i < |subpaths| => Join(lp, subpaths[i]))
  }

  function LibSubpaths(h: Host, subpaths: seq<string>): seq<string> {
    if subpaths == [] then LibPaths(h) else UnderEach(LibPaths(h), subpaths)
  }

  /** The file extensions `find_library` tries, in order. */
  function LibExtensions(h: Host, onlyStatic: bool): seq<string> {
    if onlyStatic then [".a"]
    else if h.platform == "darwin" then [".dylib", ".a"]
    else if h.platform == "win32" then [".dll", ".a"]
    else [".so", ".a"]
  }

  /** The versioned file name: version before the extension on darwin, after it elsewhere. */
  function VersionedName(h: Host, name: string, version: string, ext: string): string {
    if h.platform == "darwin" then "lib" + name + "." + version + ext
    else "lib" + name + ext + "." + version
  }

  function VersionedNames(h: Host, name: string, version: string, exts: seq<string>): seq<string> {
    seq(|exts|, i requires 0 <= i < |exts| => VersionedName(h, name, version, exts[i]))
  }

  function PlainNames(name: string, exts: seq<string>): seq<string> {
    seq(|exts|, i requires 0 <= i < |exts| => "lib" + name + exts[i])
  }

  /** A version takes part only when it is given and non-empty (`if version:`). */
  predicate HasVersion(version: Option<string>) {
    version.Some? && version.value != ""
  }

  /** The file names `find_library` probes, in order: versioned names first, then plain ones. */
  function LibraryFileNames(h: Host, name: string, version: Option<string>, onlyStatic: bool): seq<string> {
    var exts := LibExtensions(h, onlyStatic);
    (if HasVersion(version) then VersionedNames(h, name, version.value, exts) else []) + PlainNames(name, exts)
  }

  /** `find_file` as a function of the file name alone. */
  function Finder(h: Host, subpaths: seq<string>, prefixes: seq<string>): string -> seq<string> {
    name => FindFileResult(h, name, subpaths, prefixes)
  }

  /** `find_file` for each name in turn, results concatenated. */
  function FindEach(h: Host, names: seq<string>, subpaths: seq<string>, prefixes: seq<string>): seq<string> {
    ConcatMap(Finder(h, subpaths, prefixes), names)
  }

  /** What `find_library(name, version, subpaths, prefixes, only_static)` returns. */
  function LibraryFiles(h: Host, name: string, version: Option<string>, subpaths: seq<string>,
                        prefixes: seq<string>, onlyStatic: bool): seq<string> {
    FindEach(h, LibraryFileNames(h, name, version, onlyStatic), LibSubpaths(h, subpaths), prefixes)
  }

  lemma FindEachAppend(h: Host, a: seq<string>, b: seq<string>, subpaths: seq<string>, prefixes: seq<string>)
    ensures FindEach(h, a + b, subpaths, prefixes) == FindEach(h, a, subpaths, prefixes) + FindEach(h, b, subpaths, prefixes)
  {
    ConcatMapAppend(Finder(h, subpaths, prefixes), a, b);
  }

  lemma FindEachSnoc(h: Host, names: seq<string>, k: nat, subpaths: seq<string>, prefixes: seq<string>)
    requires k < |names|
    ensures FindEach(h, names[..k + 1], subpaths, prefixes) ==
      FindEach(h, names[..k], subpaths, prefixes) + FindFileResult(h, names[k], subpaths, prefixes)
  {
    assert names[..k + 1][..k] == names[..k];
  }

  lemma FindEachMembership(h: Host, names: seq<string>, subpaths: seq<string>, prefixes: seq<string>, x: string)
    ensures x in FindEach(h, names, subpaths, prefixes) <==>
      exists k :: 0 <= k < |names| && x in FindFileResult(h, names[k], subpaths, prefixes)
  {
    ConcatMapMembership(Finder(h, subpaths, prefixes), names, x);
  }

  /**
   * Library directories under subpaths are library-directory-major: subpath
   * `j` of library directory `i` sits at `i * |subpaths| + j`.
   */
  lemma {:induction false} UnderEachAt(libpaths: seq<string>, subpaths: seq<string>, i: nat, j: nat)
    requires i < |libpaths| && j < |subpaths|
    ensures |UnderEach(libpaths, subpaths)| == |libpaths| * |subpaths|
    ensures i * |subpaths| + j < |UnderEach(libpaths, subpaths)|
    ensures UnderEach(libpaths, subpaths)[i * |subpaths| + j] == Join(libpaths[i], subpaths[j])
  {
    var m := |subpaths|;
    var n := |libpaths|;
    var init := libpaths[..n - 1];
    var row := seq(m, k requires 0 <= k < m => Join(libpaths[n - 1], subpaths[k]));
    UnderEachLength(libpaths, subpaths);
    UnderEachLength(init, subpaths);
    assert UnderEach(libpaths, subpaths) == UnderEach(init, subpaths) + row;
    RowBefore(i, j, n, m);
    if i < n - 1 {
      RowBefore(i, j, n - 1, m);
      UnderEachAt(init, subpaths, i, j);
      assert init[i] == libpaths[i];
    } else {
      assert |UnderEach(init, subpaths)| == i * m;
      assert row[j] == Join(libpaths[i], subpaths[j]);
    }
  }

  lemma {:induction false} UnderEachLength(libpaths: seq<string>, subpaths: seq<string>)
    ensures |UnderEach(libpaths, subpaths)| == |libpaths| * |subpaths|
  {
    if libpaths != [] {
      UnderEachLength(libpaths[..|libpaths| - 1], subpaths);
      assert |libpaths| * |subpaths| == (|libpaths| - 1) * |subpaths| + |subpaths|;
    }
  }

  /**
   * The shape of the probe list: with a version, one versioned name per
   * extension comes first; then one plain `lib<name><ext>` per extension,
   * extensions in the order `LibExtensions` gives.
   */
  lemma LibraryFileNamesShape(h: Host, name: string, version: Option<string>, onlyStatic: bool)
    ensures var exts := LibExtensions(h, onlyStatic);
      var names := LibraryFileNames(h, name, version, onlyStatic);
      var v := if HasVersion(version) then |exts| else 0;
      && |names| == v + |exts|
      && (forall i :: 0 <= i < v ==>
            names[i] == if h.platform == "darwin" then "lib" + name + "." + version.value + exts[i]
                        else "lib" + name + exts[i] + "." + version.value)
      && (forall i :: 0 <= i < |exts| ==> names[v + i] == "lib" + name + exts[i])
  {
  }

  /**
   * Every file `find_library` returns exists and is one of the probed names
   * inside a globbed search directory.
   */
  lemma LibraryFilesSound(h: Host, name: string, version: Option<string>, subpaths: seq<string>,
                          prefixes: seq<string>, onlyStatic: bool, x: string)
    requires x in LibraryFiles(h, name, version, subpaths, prefixes, onlyStatic)
    ensures h.pathExists(x)
    ensures exists n, p :: (n in LibraryFileNames(h, name, version, onlyStatic) &&
      p in GlobAll(h.glob, SearchList(h, LibSubpaths(h, subpaths), prefixes)) && x == Join(p, n))
  {
    var names := LibraryFileNames(h, name, version, onlyStatic);
    var subs := LibSubpaths(h, subpaths);
    FindEachMembership(h, names, subs, prefixes, x);
    var k :| 0 <= k < |names| && x in FindFileResult(h, names[k], subs, prefixes);
    FindFileMembership(h, names[k], subs, prefixes, x);
  }

  /**
   * Every hit for a versioned name comes before every hit for a plain name,
   * and each group runs through the extensions in order.
   */
  lemma LibraryFilesVersionedFirst(h: Host, name: string, version: Option<string>, subpaths: seq<string>,
                                   prefixes: seq<string>, onlyStatic: bool)
    ensures var exts := LibExtensions(h, onlyStatic);
      var subs := LibSubpaths(h, subpaths);
      LibraryFiles(h, name, version, subpaths, prefixes, onlyStatic) ==
        (if HasVersion(version) then FindEach(h, VersionedNames(h, name, version.value, exts), subs, prefixes) else []) +
        FindEach(h, PlainNames(name, exts), subs, prefixes)
  {
    var exts := LibExtensions(h, onlyStatic);
    var subs := LibSubpaths(h, subpaths);
    var v := if HasVersion(version) then VersionedNames(h, name, version.value, exts) else [];
    FindEachAppend(h, v, PlainNames(name, exts), subs, prefixes);
  }

  /**
   * The loops `for ext in extensions: retval += find_file(libname, ...)` of
   * `find_library`, over the file names they compute.
   */
  method FindEachFile(h: Host, names: seq<string>, subpaths: seq<string>, prefixes: seq<string>) returns (r: seq<string>)
    ensures r == FindEach(h, names, subpaths, prefixes)
  {
    r := [];
    for k := 0 to |names|
      invariant r == FindEach(h, names[..k], subpaths, prefixes)
    {
      var found := FindFile(h, names[k], subpaths, prefixes);
      FindEachSnoc(h, names, k, subpaths, prefixes);
      r := r + found;
    }
    assert names[..|names|] == names;
  }

  /** `find_library(name, version, subpaths, prefixes, only_static)`. */
  method FindLibrary(h: Host, name: string, version: Option<string>, subpaths: seq<string>,
                     prefixes: seq<string>, onlyStatic: bool) returns (r: seq<string>)
    ensures r == LibraryFiles(h, name, version, subpaths, prefixes, onlyStatic)
  {
    var libpaths := ["lib"];
    if h.architecture == "32bit" {
      libpaths := libpaths + [Join("lib", "i386-linux-gnu"), "lib32"];
    } else {
      libpaths := libpaths + [Join("lib", "x86_64-linux-gnu"), "lib64"];
    }
    assert libpaths == LibPaths(h);

    var mySubpaths: seq<string>;
    if |subpaths| > 0 {
      mySubpaths := [];
      for k := 0 to |libpaths|
        invariant mySubpaths == UnderEach(libpaths[..k], subpaths)
      {
        mySubpaths := mySubpaths + seq(|subpaths|, i requires 0 <= i < |subpaths| => Join(libpaths[k], subpaths[i]));
        assert libpaths[..k + 1][..k] == libpaths[..k];
      }
      assert libpaths[..|libpaths|] == libpaths;
    } else {
      mySubpaths := libpaths;
    }
    assert mySubpaths == LibSubpaths(h, subpaths);

    var extensions: seq<string>;
    if onlyStatic {
      extensions := [".a"];
    } else if h.platform == "darwin" {
      extensions := [".dylib", ".a"];
    } else if h.platform == "win32" {
      extensions := [".dll", ".a"];
    } else {
      extensions := [".so", ".a"];
    }
    assert extensions == LibExtensions(h, onlyStatic);

    // versioned names first, then the plain ones
    r := [];
    if version.Some? && version.value != "" {
      var versioned := VersionedNames(h, name, version.value, extensions);
      r := FindEachFile(h, versioned, mySubpaths, prefixes);
    }
    var plain := FindEachFile(h, PlainNames(name, extensions), mySubpaths, prefixes);
    r := r + plain;
    LibraryFilesVersionedFirst(h, name, version, subpaths, prefixes, onlyStatic);
  }
}
