/**
 * The parts of `bob/extension/__init__.py` that tie pure C++ libraries to
 * the Python extensions built beside them: `get_bob_libraries`, the name
 * check of `Library.__init__`, and the phase of `build_ext.run` that drops
 * the libraries from the extension list and hands their names and
 * directories to every remaining extension.
 */
module Build {

  import opened Wrappers
  import opened Errors
  import opened PyStrings
  import opened PosixPath
  import opened Lists
  import opened Utils
  import opened Requirements

  // ---------------------------------------------------- get_bob_libraries

  /** `pkg_resources.resource_filename(package, resource)`. */
  type ResourceFilename = (string, string) -> string

  /** The three lists `get_bob_libraries` returns. */
  datatype Found = Found(includes: seq<string>, libraries: seq<string>, libraryDirs: seq<string>)

  /** `[k.strip().lower() for k in bob_packages]`. */
  function Cleaned(packages: seq<string>): seq<string> {
    seq(|packages|, i requires 0 <= i < |packages| => Lower(Strip(packages[i])))
  }

  /** The library a package ships: its name with every '.' turned into '_'. */
  function LibName(package: string): string {
    ReplaceChar(package, '.', '_')
  }

  function LibNames(packages: seq<string>): seq<string> {
    seq(|packages|, i requires 0 <= i < |packages| => LibName(packages[i]))
  }

  /** `find_library(lib_name, prefixes=[resource_filename(package, '.')])`. */
  function PackageLibraries(h: Host, rf: ResourceFilename, package: string): seq<string> {
    LibraryFiles(h, LibName(package), None, [], [rf(package, ".")], false)
  }

  /**
   * What `find_library` returns for each package; the loop below is stated
   * for any such lookup and instantiated with `PackageLibraries`.
   */
  type Lookup = string -> seq<string>

  function Finder(h: Host, rf: ResourceFilename): Lookup {
    package => PackageLibraries(h, rf, package)
  }

  lemma FinderApply(h: Host, rf: ResourceFilename, package: string)
    ensures Finder(h, rf)(package) == PackageLibraries(h, rf, package)
  {
  }

  /** The directory of the first library file found for a package. */
  function FirstLibraryDir(find: Lookup, package: string): string {
    var libs := find(package);
    if libs == [] then "" else Dirname(libs[0])
  }

  function FirstLibraryDirs(find: Lookup, packages: seq<string>): seq<string> {
    seq(|packages|, i requires 0 <= i < |packages| => FirstLibraryDir(find, packages[i]))
  }

  /** What the loop of `get_bob_libraries` has gathered after the given packages. */
  function Collect(rf: ResourceFilename, find: Lookup, packages: seq<string>): Found {
    if packages == [] then Found([], [], [])
    else
      var f := Collect(rf, find, packages[..|packages| - 1]);
      var p := packages[|packages| - 1];
      var libs := find(p);
      Found(f.includes + [rf(p, "include")],
            f.libraries + (if libs != [] then [LibName(p)] else []),
            f.libraryDirs + (if libs != [] then [Dirname(libs[0])] else []))
  }

  /** What `get_bob_libraries(bob_packages)` returns, or the error it raises. */
  function BobLibraries(h: Host, rf: ResourceFilename, bobPackages: Option<seq<string>>): Result<Found, Error> {
    match bobPackages
    case None => Ok(Found([], [], []))
    case Some(ps) =>
      match Normalize(Cleaned(ps))
      case Err(e) => Err(e)
      case Ok(ns) => Ok(Collect(rf, Finder(h, rf), ns))
  }

  /** The packages, in order, for which at least one library file was found. */
  function Linked(find: Lookup, packages: seq<string>): seq<string> {
    if packages == [] then []
    else
      var p := packages[|packages| - 1];
      Linked(find, packages[..|packages| - 1]) + (if find(p) != [] then [p] else [])
  }

  /** One more package through the loop of `get_bob_libraries`. */
  lemma CollectStep(rf: ResourceFilename, find: Lookup, packages: seq<string>, k: nat, libs: seq<string>, f: Found)
    requires k < |packages| && libs == find(packages[k]) && f == Collect(rf, find, packages[..k])
    ensures Collect(rf, find, packages[..k + 1]) ==
      Found(f.includes + [rf(packages[k], "include")],
            f.libraries + (if |libs| > 0 then [ReplaceChar(packages[k], '.', '_')] else []),
            f.libraryDirs + (if |libs| > 0 then [Dirname(libs[0])] else []))
  {
    assert packages[..k + 1][..k] == packages[..k];
  }

  /** `get_bob_libraries(bob_packages)`. */
  method GetBobLibraries(h: Host, rf: ResourceFilename, bobPackages: Option<seq<string>>)
    returns (r: Result<Found, Error>)
    ensures r == BobLibraries(h, rf, bobPackages)
  {
    if bobPackages.None? {
      return Ok(Found([], [], []));
    }
    var ps := bobPackages.value;
    var cleaned := seq(|ps|, i requires 0 <= i < |ps| => Lower(Strip(ps[i])));
    var normalized := NormalizeRequirements(cleaned);
    if normalized.Err? {
      return Err(normalized.error);
    }
    var found := CollectPackages(h, rf, normalized.value);
    r := Ok(found);
  }

  /** `find_library(lib_name, prefixes=[resource_filename(package, '.')])`. */
  method FindPackageLibraries(h: Host, rf: ResourceFilename, package: string) returns (libs: seq<string>)
    ensures libs == PackageLibraries(h, rf, package)
  {
    libs := FindLibrary(h, ReplaceChar(package, '.', '_'), None, [], [rf(package, ".")], false);
  }

  /** The loop of `get_bob_libraries` over the normalized package list. */
  method CollectPackages(h: Host, rf: ResourceFilename, packages: seq<string>) returns (r: Found)
    ensures r == Collect(rf, Finder(h, rf), packages)
  {
    var includes: seq<string> := [];
    var libraries: seq<string> := [];
    var libraryDirs: seq<string> := [];
    ghost var find := Finder(h, rf);
    for k := 0 to |packages|
      invariant includes == Collect(rf, find, packages[..k]).includes
      invariant libraries == Collect(rf, find, packages[..k]).libraries
      invariant libraryDirs == Collect(rf, find, packages[..k]).libraryDirs
    {
      var package := packages[k];
      ghost var before := Found(includes, libraries, libraryDirs);
      includes := includes + [rf(package, "include")];
      var libName := ReplaceChar(package, '.', '_');
      var libs := FindPackageLibraries(h, rf, package);
      // add the first library found, if any
      if |libs| > 0 {
        libraries := libraries + [libName];
        libraryDirs := libraryDirs + [Dirname(libs[0])];
      }
      FinderApply(h, rf, package);
      CollectStep(rf, find, packages, k, libs, before);
    }
    assert packages[..|packages|] == packages;
    r := Found(includes, libraries, libraryDirs);
  }

  /** Exactly the packages with a library file are linked, in their original order. */
  lemma {:induction false} LinkedMembership(find: Lookup, packages: seq<string>, p: string)
    ensures p in Linked(find, packages) <==> p in packages && find(p) != []
  {
    if packages != [] {
      var init := packages[..|packages| - 1];
      LinkedMembership(find, init, p);
      assert packages == init + [packages[|packages| - 1]];
    }
  }

  /**
   * Every package contributes its include directory, in order; the linked
   * packages, and only those, contribute their library name and the
   * directory of their first library file, the two lists side by side.
   */
  lemma CollectSpec(rf: ResourceFilename, find: Lookup, packages: seq<string>)
    ensures var f := Collect(rf, find, packages);
      && |f.includes| == |packages|
      && (forall i :: 0 <= i < |packages| ==> f.includes[i] == rf(packages[i], "include"))
      && f.libraries == LibNames(Linked(find, packages))
      && f.libraryDirs == FirstLibraryDirs(find, Linked(find, packages))
  {
    CollectIncludes(rf, find, packages);
    CollectLinked(rf, find, packages);
  }

  lemma {:induction false} CollectIncludes(rf: ResourceFilename, find: Lookup, packages: seq<string>)
    ensures var f := Collect(rf, find, packages);
      && |f.includes| == |packages|
      && (forall i :: 0 <= i < |packages| ==> f.includes[i] == rf(packages[i], "include"))
  {
    if packages != [] {
      CollectIncludes(rf, find, packages[..|packages| - 1]);
    }
  }

  lemma {:induction false} CollectLinked(rf: ResourceFilename, find: Lookup, packages: seq<string>)
    ensures var f := Collect(rf, find, packages);
      && f.libraries == LibNames(Linked(find, packages))
      && f.libraryDirs == FirstLibraryDirs(find, Linked(find, packages))
  {
    if packages != [] {
      var init := packages[..|packages| - 1];
      var p := packages[|packages| - 1];
      CollectLinked(rf, find, init);
      var l := Linked(find, init);
      var extra := if find(p) != [] then [p] else [];
      assert LibNames(l + extra) == LibNames(l) + LibNames(extra);
      assert FirstLibraryDirs(find, l + extra) == FirstLibraryDirs(find, l) + FirstLibraryDirs(find, extra);
    }
  }

  /**
   * `get_bob_libraries` raises exactly when a stripped, lower-cased package
   * entry holds two separate comparator runs; without packages it returns three empty
   * lists.
   */
  lemma BobLibrariesRejects(h: Host, rf: ResourceFilename, ps: seq<string>)
    ensures BobLibraries(h, rf, None) == Ok(Found([], [], []))
    ensures var c := Cleaned(ps);
      BobLibraries(h, rf, Some(ps)).Err? <==> exists i :: 0 <= i < |c| && Runs(c[i]) >= 2
  {
    NormalizeRejects(Cleaned(ps));
  }

  lemma NoSlashInLibName(package: string)
    requires '/' !in package
    ensures '/' !in LibName(package)
  {
    assert forall i :: 0 <= i < |package| ==> LibName(package)[i] != '/' by {
      forall i | 0 <= i < |package| ensures LibName(package)[i] != '/' {
        assert package[i] in package;
      }
    }
  }

  /** A plain library file name for a '/'-free library name holds no '/'. */
  lemma PlainNameNoSlash(h: Host, lib: string, ext: string)
    requires '/' !in lib && ext in LibExtensions(h, false)
    ensures "lib" + lib + ext != [] && '/' !in "lib" + lib + ext
  {
    assert ext in [".so", ".a", ".dylib", ".dll"];
    assert '/' !in ext;
    assert ("lib" + lib + ext)[0] == 'l';
  }

  /**
   * The directory recorded for a linked package is the search directory in
   * which its first library file was found: that file is a probed library
   * file name inside a globbed search directory, and, for a package name
   * without '/', the recorded directory is that search directory whenever
   * it is written without a trailing '/'.
   */
  lemma LinkedDirectory(h: Host, rf: ResourceFilename, package: string)
    requires PackageLibraries(h, rf, package) != []
    requires '/' !in package
    ensures exists d, n ::
      && d in GlobAll(h.glob, SearchList(h, LibSubpaths(h, []), [rf(package, ".")]))
      && n in LibraryFileNames(h, LibName(package), None, false)
      && PackageLibraries(h, rf, package)[0] == Join(d, n)
      && (d != [] && d[|d| - 1] != '/' ==> FirstLibraryDir(Finder(h, rf), package) == d)
  {
    var x := PackageLibraries(h, rf, package)[0];
    var lib := LibName(package);
    LibraryFilesSound(h, lib, None, [], [rf(package, ".")], false, x);
    var n, d :| n in LibraryFileNames(h, lib, None, false) &&
      d in GlobAll(h.glob, SearchList(h, LibSubpaths(h, []), [rf(package, ".")])) && x == Join(d, n);
    var exts := LibExtensions(h, false);
    assert LibraryFileNames(h, lib, None, false) == PlainNames(lib, exts);
    var k :| 0 <= k < |exts| && n == "lib" + lib + exts[k];
    NoSlashInLibName(package);
    PlainNameNoSlash(h, lib, exts[k]);
    if d != [] && d[|d| - 1] != '/' {
      DirnameOfJoin(d, n);
    }
  }

  // ------------------------------------------------------------ Library

  /**
   * The name check of `Library(name, ...)`: the name must contain a '.';
   * then `c_name` is its last dotted segment and `c_target_directory` is
   * the package directory joined with the other segments.
   */
  function LibraryTarget(name: string, packageDirectory: string): Result<(string, string), Error> {
    var parts := Split(name, '.');
    if |parts| <= 1 then Err(BadLibraryName(name))
    else Ok((parts[|parts| - 1], Join(packageDirectory, JoinAll(parts[..|parts| - 1]))))
  }

  /** Every dotted segment of the name is non-empty and holds no '/'. */
  predicate PlainDottedName(name: string) {
    forall p :: p in Split(name, '.') ==> p != [] && '/' !in p
  }

  /**
   * The name check rejects exactly the names without a '.'; an accepted
   * name splits at its last '.' into the package and `c_name`, and for a
   * plain dotted name the target directory is the package name with '.'
   * read as '/', under the package directory.
   */
  lemma LibraryTargetSpec(name: string, packageDirectory: string)
    ensures LibraryTarget(name, packageDirectory).Err? <==> '.' !in name
    ensures LibraryTarget(name, packageDirectory).Err? ==> LibraryTarget(name, packageDirectory).error == BadLibraryName(name)
    ensures LibraryTarget(name, packageDirectory).Ok? ==>
      var (package, cName) := RSplitOnce(name, '.').value;
      LibraryTarget(name, packageDirectory).value.0 == cName && '.' !in cName &&
      (PlainDottedName(name) ==>
        LibraryTarget(name, packageDirectory).value.1 == Join(packageDirectory, ReplaceChar(package, '.', '/')))
  {
    SplitSingle(name, '.');
    if |Split(name, '.')| > 1 {
      LibraryTargetParts(name, packageDirectory);
    }
  }

  /** A name with several dotted parts: `c_name` is the last one, the directory comes from the others. */
  lemma LibraryTargetParts(name: string, packageDirectory: string)
    requires |Split(name, '.')| > 1
    ensures LibraryTarget(name, packageDirectory).Ok?
    ensures var (package, cName) := RSplitOnce(name, '.').value;
      LibraryTarget(name, packageDirectory).value.0 == cName && '.' !in cName &&
      (PlainDottedName(name) ==>
        LibraryTarget(name, packageDirectory).value.1 == Join(packageDirectory, ReplaceChar(package, '.', '/')))
  {
    var parts := Split(name, '.');
    var init, last := parts[..|parts| - 1], parts[|parts| - 1];
    RSplitOnceOfParts(name, parts, '.');
    assert LibraryTarget(name, packageDirectory) == Ok((last, Join(packageDirectory, JoinAll(init))));
    if PlainDottedName(name) {
      PlainPackageDirectory(parts);
    }
  }

  /** Joining parts that hold no separator: the last separator falls before the last part. */
  lemma RSplitOnceOfParts(s: string, parts: seq<string>, sep: char)
    requires |parts| >= 2 && JoinWith(parts, sep) == s
    requires forall i :: 0 <= i < |parts| ==> sep !in parts[i]
    ensures RSplitOnce(s, sep) == Some((JoinWith(parts[..|parts| - 1], sep), parts[|parts| - 1]))
  {
    JoinWithSnoc(parts, sep);
    var a, b := JoinWith(parts[..|parts| - 1], sep), parts[|parts| - 1];
    assert s == a + [sep] + b;
    assert sep in s by { assert s[|a|] == sep; }
    var (x, y) := RSplitOnce(s, sep).value;
    LastSeparatorUnique(x, y, a, b, sep);
  }

  /** For plain parts, the package's path segments are its dotted name with '.' read as '/'. */
  lemma PlainPackageDirectory(parts: seq<string>)
    requires |parts| >= 2
    requires forall p :: p in parts ==> p != [] && '/' !in p
    requires forall i :: 0 <= i < |parts| ==> '.' !in parts[i]
    ensures var init := parts[..|parts| - 1];
      JoinAll(init) == ReplaceChar(JoinWith(init, '.'), '.', '/')
  {
    var init := parts[..|parts| - 1];
    assert forall i :: 0 <= i < |init| ==> init[i] == parts[i] && parts[i] in parts;
    ReplaceJoinWith(init, '.', '/');
    JoinAllPlain(init);
  }

  // ------------------------------------------------------- build_ext.run

  /** An extension target of the build; `isLibrary` is `isinstance(ext, Library)`. */
  class Target {
    const name: string
    const isLibrary: bool
    /** `c_name`, for a library. */
    const cName: string
    /** `c_target_directory`, for a library. */
    const targetDirectory: string
    var libraries: Option<seq<string>>
    var libraryDirs: Option<seq<string>>
    var includeDirs: Option<seq<string>>

    /** A Python extension with the given link settings. */
    constructor Extension(name: string, libraries: Option<seq<string>>,
                          libraryDirs: Option<seq<string>>, includeDirs: Option<seq<string>>)
      ensures this.name == name && !isLibrary
      ensures this.libraries == libraries && this.libraryDirs == libraryDirs && this.includeDirs == includeDirs
    {
      this.name := name;
      isLibrary := false;
      cName := "";
      targetDirectory := "";
      this.libraries := libraries;
      this.libraryDirs := libraryDirs;
      this.includeDirs := includeDirs;
    }

    /** `ext.libraries = libs + (ext.libraries if ext.libraries else [])`, and likewise for the directories. */
    method PrependLinks(libs: seq<string>, libDirs: seq<string>, incDirs: seq<string>)
      modifies this
      ensures libraries == Some(libs + OrEmpty(old(libraries)))
      ensures libraryDirs == Some(libDirs + OrEmpty(old(libraryDirs)))
      ensures includeDirs == Some(incDirs + OrEmpty(old(includeDirs)))
    {
      libraries := Some(libs + OrEmpty(libraries));
      libraryDirs := Some(libDirs + OrEmpty(libraryDirs));
      includeDirs := Some(incDirs + OrEmpty(includeDirs));
    }

    /** A pure C++ library whose name check has passed. */
    constructor Library(name: string, cName: string, targetDirectory: string)
      ensures this.name == name && isLibrary
      ensures this.cName == cName && this.targetDirectory == targetDirectory
      ensures libraries == None && libraryDirs == None && includeDirs == None
    {
      this.name := name;
      isLibrary := true;
      this.cName := cName;
      this.targetDirectory := targetDirectory;
      libraries := None;
      libraryDirs := None;
      includeDirs := None;
    }
  }

  /** `Library(name, ...)` as far as its name goes: it raises when the check fails. */
  method NewLibrary(name: string, packageDirectory: string) returns (r: Result<Target, Error>)
    ensures r.Err? <==> LibraryTarget(name, packageDirectory).Err?
    ensures r.Err? ==> r.error == BadLibraryName(name)
    ensures r.Ok? ==>
      && fresh(r.value) && r.value.isLibrary && r.value.name == name
      && (r.value.cName, r.value.targetDirectory) == LibraryTarget(name, packageDirectory).value
  {
    var nameSplit := Split(name, '.');
    if |nameSplit| <= 1 {
      return Err(BadLibraryName(name));
    }
    var cName := nameSplit[|nameSplit| - 1];
    var targetDirectory := Join(packageDirectory, JoinAll(nameSplit[..|nameSplit| - 1]));
    var t := new Target.Library(name, cName, targetDirectory);
    r := Ok(t);
  }

  /** The targets that are libraries, in order. */
  function Libraries(ts: seq<Target>): seq<Target> {
    if ts == [] then []
    else Libraries(ts[..|ts| - 1]) + (if ts[|ts| - 1].isLibrary then [ts[|ts| - 1]] else [])
  }

  /** The targets that are Python extensions, in order. */
  function Extensions(ts: seq<Target>): seq<Target> {
    if ts == [] then []
    else Extensions(ts[..|ts| - 1]) + (if ts[|ts| - 1].isLibrary then [] else [ts[|ts| - 1]])
  }

  function CNames(ts: seq<Target>): seq<string> {
    seq(|ts|, i requires 0 <= i < |ts| => ts[i].cName)
  }

  function TargetDirs(ts: seq<Target>): seq<string> {
    seq(|ts|, i requires 0 <= i < |ts| => ts[i].targetDirectory)
  }

  function TargetIncludeDirs(ts: seq<Target>): seq<string> {
    seq(|ts|, i requires 0 <= i < |ts| => Join(ts[i].targetDirectory, "include"))
  }

  function OrEmpty(v: Option<seq<string>>): seq<string> {
    if v.Some? then v.value else []
  }

  /**
   * A field after `field = pre + (field if field else [])` ran `n` times:
   * unchanged when `n` is 0, otherwise set, starting with `pre` and ending
   * with the original entries.
   */
  function Prepended(v: Option<seq<string>>, pre: seq<string>, n: nat): Option<seq<string>> {
    if n == 0 then v else Some(pre + OrEmpty(Prepended(v, pre, n - 1)))
  }

  /** Once prepended to, a field holds `pre` in front and its original entries at the back. */
  lemma {:induction false} PrependedShape(v: Option<seq<string>>, pre: seq<string>, n: nat)
    requires n > 0
    ensures var r := Prepended(v, pre, n);
      r.Some? && |r.value| >= |pre| + |OrEmpty(v)| &&
      r.value[..|pre|] == pre && r.value[|r.value| - |OrEmpty(v)|..] == OrEmpty(v)
  {
    var rest := OrEmpty(Prepended(v, pre, n - 1));
    if n > 1 {
      PrependedShape(v, pre, n - 1);
    }
    var r := pre + rest;
    assert r[..|pre|] == pre;
    assert r[|r| - |OrEmpty(v)|..] == rest[|rest| - |OrEmpty(v)|..];
  }

  /** The targets split into libraries and Python extensions: together they are the original list. */
  lemma {:induction false} PartitionTargets(ts: seq<Target>)
    ensures multiset(Libraries(ts)) + multiset(Extensions(ts)) == multiset(ts)
  {
    if ts != [] {
      var init, last := ts[..|ts| - 1], ts[|ts| - 1];
      PartitionTargets(init);
      assert ts == init + [last];
      assert multiset(ts) == multiset(init) + multiset{last};
      if last.isLibrary {
        assert Libraries(ts) == Libraries(init) + [last];
        assert Extensions(ts) == Extensions(init) + [];
      } else {
        assert Libraries(ts) == Libraries(init) + [];
        assert Extensions(ts) == Extensions(init) + [last];
      }
    }
  }

  /** Each side of the split holds exactly the targets of its kind. */
  lemma {:induction false} PartitionMembership(ts: seq<Target>)
    ensures forall t :: t in Libraries(ts) <==> t in ts && t.isLibrary
    ensures forall t :: t in Extensions(ts) <==> t in ts && !t.isLibrary
  {
    if ts != [] {
      var init := ts[..|ts| - 1];
      PartitionMembership(init);
      assert ts == init + [ts[|ts| - 1]];
    }
  }

  /** Each library's include directory lies inside its target directory. */
  lemma LibraryIncludeDirs(ts: seq<Target>, i: nat)
    requires i < |ts| && ts[i].targetDirectory != [] && ts[i].targetDirectory[|ts[i].targetDirectory| - 1] != '/'
    ensures Dirname(TargetIncludeDirs(ts)[i]) == TargetDirs(ts)[i]
  {
    DirnameOfJoin(ts[i].targetDirectory, "include");
  }

  /** The first loop of `build_ext.run`: the name and directories of every library, in list order. */
  method CollectLibraries(exts: seq<Target>) returns (libs: seq<string>, libDirs: seq<string>, includeDirs: seq<string>)
    ensures libs == CNames(Libraries(exts))
    ensures libDirs == TargetDirs(Libraries(exts))
    ensures includeDirs == TargetIncludeDirs(Libraries(exts))
  {
    libs := [];
    libDirs := [];
    includeDirs := [];
    for k := 0 to |exts|
      invariant libs == CNames(Libraries(exts[..k]))
      invariant libDirs == TargetDirs(Libraries(exts[..k]))
      invariant includeDirs == TargetIncludeDirs(Libraries(exts[..k]))
    {
      var ext := exts[k];
      assert exts[..k + 1][..k] == exts[..k];
      if ext.isLibrary {
        // the library itself is compiled here
        libs := libs + [ext.cName];
        libDirs := libDirs + [ext.targetDirectory];
        includeDirs := includeDirs + [Join(ext.targetDirectory, "include")];
      }
    }
    assert exts[..|exts|] == exts;
  }

  /**
   * The second loop of `build_ext.run`: every listed extension gains the
   * collected values in front, once per time it is listed.
   */
  method PrependToAll(kept: seq<Target>, libs: seq<string>, libDirs: seq<string>, includeDirs: seq<string>)
    modifies set t | t in kept
    ensures forall t :: t in kept ==>
      t.libraries == Prepended(old(t.libraries), libs, multiset(kept)[t]) &&
      t.libraryDirs == Prepended(old(t.libraryDirs), libDirs, multiset(kept)[t]) &&
      t.includeDirs == Prepended(old(t.includeDirs), includeDirs, multiset(kept)[t])
  {
    for k := 0 to |kept|
      invariant forall t :: t in kept ==>
        t.libraries == Prepended(old(t.libraries), libs, multiset(kept[..k])[t]) &&
        t.libraryDirs == Prepended(old(t.libraryDirs), libDirs, multiset(kept[..k])[t]) &&
        t.includeDirs == Prepended(old(t.includeDirs), includeDirs, multiset(kept[..k])[t])
    {
      var ext := kept[k];
      TakeSnoc(kept, k);
      label before:
      ext.PrependLinks(libs, libDirs, includeDirs);
      forall t | t in kept
        ensures t.libraries == Prepended(old(t.libraries), libs, multiset(kept[..k + 1])[t])
        ensures t.libraryDirs == Prepended(old(t.libraryDirs), libDirs, multiset(kept[..k + 1])[t])
        ensures t.includeDirs == Prepended(old(t.includeDirs), includeDirs, multiset(kept[..k + 1])[t])
      {
        var n := multiset(kept[..k])[t];
        if t == ext {
          assert multiset(kept[..k + 1])[t] == n + 1;
          assert old@before(t.libraries) == Prepended(old(t.libraries), libs, n);
          assert old@before(t.libraryDirs) == Prepended(old(t.libraryDirs), libDirs, n);
          assert old@before(t.includeDirs) == Prepended(old(t.includeDirs), includeDirs, n);
        } else {
          assert multiset(kept[..k + 1])[t] == n;
        }
      }
    }
    assert kept[..|kept|] == kept;
  }

  /** A library is dropped from the extension list; a Python extension listed once is kept once. */
  lemma ExtensionCounts(ts: seq<Target>)
    ensures forall t :: t in ts && t.isLibrary ==> multiset(Extensions(ts))[t] == 0
    ensures NoDuplicates(ts) ==> forall t :: t in ts && !t.isLibrary ==> multiset(Extensions(ts))[t] == 1
  {
    PartitionMembership(ts);
    if NoDuplicates(ts) {
      forall t | t in ts && !t.isLibrary ensures multiset(Extensions(ts))[t] == 1 {
        NoDuplicatesCount(ts, t);
        PartitionTargets(ts);
      }
    }
  }

  /** The `build_ext` command, as far as its list of extensions goes. */
  class Builder {
    var extensions: seq<Target>

    constructor (extensions: seq<Target>)
      ensures this.extensions == extensions
    {
      this.extensions := extensions;
    }

    /**
     * `build_ext.run` up to the base class call: the libraries leave the
     * list, and every remaining extension's libraries, library directories
     * and include directories gain, in front, the library names, target
     * directories and `include` directories of all libraries in list order,
     * once for each time the extension is listed.
     */
    method Run()
      modifies this, extensions
      ensures extensions == Extensions(old(extensions))
      ensures forall t :: t in extensions ==> !t.isLibrary
      ensures forall t :: t in old(extensions) ==>
        t.libraries == Prepended(old(t.libraries), CNames(Libraries(old(extensions))), multiset(extensions)[t]) &&
        t.libraryDirs == Prepended(old(t.libraryDirs), TargetDirs(Libraries(old(extensions))), multiset(extensions)[t]) &&
        t.includeDirs == Prepended(old(t.includeDirs), TargetIncludeDirs(Libraries(old(extensions))), multiset(extensions)[t])
      ensures NoDuplicates(old(extensions)) ==> forall t :: t in old(extensions) && !t.isLibrary ==>
        t.libraries == Some(CNames(Libraries(old(extensions))) + OrEmpty(old(t.libraries))) &&
        t.libraryDirs == Some(TargetDirs(Libraries(old(extensions))) + OrEmpty(old(t.libraryDirs))) &&
        t.includeDirs == Some(TargetIncludeDirs(Libraries(old(extensions))) + OrEmpty(old(t.includeDirs)))
    {
      var exts := extensions;
      var libs, libDirs, includeDirs := CollectLibraries(exts);
      // keep only the Python extensions
      var kept := Extensions(exts);
      PartitionMembership(exts);
      ExtensionCounts(exts);
      extensions := kept;
      PrependToAll(kept, libs, libDirs, includeDirs);
    }
  }
}
