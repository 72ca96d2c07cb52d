# bob.extension: requirement strings, flag helpers and search-path probing

This project models, in Dafny, the deterministic core of `bob.extension`, a
setuptools extension builder for C++ Python extensions. The core covers:

- **Requirement strings.** `normalize_requirements` and `check_packages` split
  `"pkg op version"` strings with the pattern `\s*(?P<cmp>[<>=]+)\s*`. They
  group, deduplicate and re-render the requirements. They look each package up
  in pkg-config and check its version against the comparator.
- **Flag helpers.** The model covers:
  - `generate_self_macros`: the per-module macros;
  - `reorganize_isystem`: the `-isystem` reordering;
  - `get_bob_libraries`: the include directories and libraries of sibling packages;
  - the name check of `Library.__init__`;
  - the phase of `build_ext.run` that takes the Library targets out of the
    extension list and prepends their names and directories to every remaining extension.
- **Search-path probing.** The model covers `uniq`, `find_file`, `find_header` and
  `find_library`. Their search order and candidate names are stated exactly.

Modules:

- `Wrappers` and `Errors`: the result type, and one error per kind of exception raised.
- `Lists`, `PyStrings` and `PosixPath`: the Python list and string builtins and
  the `posixpath` functions the code relies on.
- `Utils`: models `bob/extension/utils.py`.
- `Requirements`, `Packages`, `Flags` and `Build`: model the corresponding parts of
  `bob/extension/__init__.py`.

Each loop in the source is a `method` with a loop. Each method is proved equal to a
specification function, and the properties are lemmas about those functions. The
extension objects whose link settings `build_ext.run` reassigns are instances of
the class `Build.Target`. The command itself is `Build.Builder`.

The environment is passed in as values rather than modelled:

- `Utils.Host` holds `os.environ`, `os.pathsep`, `glob.glob`,
  `os.path.exists`, `platform.architecture()[0]` and `sys.platform`.
- `Packages.PkgConfig` holds the pkg-config lookup, a partial function from a
  name to a (name, version) record. It also holds the `LooseVersion` comparison,
  an abstract three-way comparison.
- `Build.ResourceFilename` stands for `pkg_resources.resource_filename`.
- The Python major version is a parameter of `Flags.SelfMacros`.
- `os.path.realpath('.')` is the `packageDirectory` parameter of `Build.LibraryTarget`.

Python dictionaries are taken to keep insertion order (Python 3.7 and later).
`normalize_requirements` relies on this order.

Where the description of the system and the code differ, the model follows the code:

- A requirement `pkg == v` is checked with `<=`, so every installed version up to
  `v` is accepted (`bob/extension/__init__.py:68-69`).
- The split accepts any run of `<`, `>` and `=` characters, not only the five
  known comparators. Normalisation keeps a run such as `=` or `=>`.
  `check_packages` rejects it only after the package has been looked up, so a
  missing package is reported first (`bob/extension/__init__.py:56-71`).

## Model

| member | source | states |
|---|---|---|
| Utils.Uniq | bob/extension/utils.py:217-222 | the result holds exactly the input's elements, none twice, and is no longer than the input |
| Utils.UniqFirstOccurrence | bob/extension/utils.py:217-222 | kept elements appear in the order of their first occurrence in the input |
| Utils.UniqIdempotent | bob/extension/utils.py:217-222 | applying `uniq` twice gives the same list as applying it once |
| Utils.UniqOfNoDuplicates | bob/extension/utils.py:217-222 | a duplicate-free list comes back unchanged |
| Utils.UniqSnoc | bob/extension/utils.py:217-222 | appending an element to the input appends it to the output exactly when it is new |
| Utils.UniqPriority | bob/extension/utils.py:217-222 | an element of the left part of a concatenation precedes, in the output, every element found only in the right part |
| Utils.UniqRepeats | bob/extension/utils.py:217-222 | for any distinct `a`, `b`, `c`, `uniq([a, b, a, c, b]) == [a, b, c]`: later repeats are dropped, first occurrences kept in order |
| Utils.UniqExample | bob/extension/utils.py:217-222 | `uniq(['a','b','a','c','b']) == ['a','b','c']` |
| Utils.SearchPrefixesOrder | bob/extension/utils.py:51-65 | the search prefixes are duplicate-free and are exactly the `BOB_PREFIX_PATH` entries, the caller's prefixes and `DEFAULT_PREFIXES`; environment entries come before everything else; caller prefixes come before any default they did not also name |
| Utils.SearchPrefixesExample | bob/extension/utils.py:51-65 | with `BOB_PREFIX_PATH=/a:/b` and prefix `/c`, the order is `/a, /b, /c, /usr, /usr/local, /opt/local` |
| Utils.ExpandAllAt | bob/extension/utils.py:68-74 | the expansion is prefix-major: entry `i*(m+1)+j` is `join(prefix_i, subpath_j)`, and for `j == m` it is the bare prefix |
| Utils.ExpandSearch | bob/extension/utils.py:68-74 | the nested loop builds exactly the prefix-major expansion |
| Utils.GlobAllMembership | bob/extension/utils.py:76-79 | a path is globbed exactly when some search pattern globs to it |
| Utils.MatchesLength | bob/extension/utils.py:81-88 | no more candidates are kept than there are globbed paths |
| Utils.MatchesInOrder | bob/extension/utils.py:81-88 | the kept candidates are the candidates at increasing positions, exactly the positions whose candidate exists, so at most one per globbed path and in search order |
| Utils.FindFileMembership | bob/extension/utils.py:76-88 | a path is returned exactly when it exists and is `join(p, name)` for a globbed search path `p` |
| Utils.FindFileInOrder | bob/extension/utils.py:76-88 | the result is the subsequence of the candidates `join(p, name)` over the globbed search paths that exist, in search order |
| Utils.SearchOrder | bob/extension/utils.py:51-65 | the search prefixes are `BOB_PREFIX_PATH`'s entries, then the caller's prefixes, then the defaults, deduplicated keeping first occurrences |
| Utils.FindFile | bob/extension/utils.py:20-88 | `find_file` returns the existing `join(path, name)` of the globbed search list, in search order |
| Utils.GlobEach | bob/extension/utils.py:75-78 | the globbing loop yields every path each search entry globs to, entry by entry |
| Utils.MatchEach | bob/extension/utils.py:80-86 | the candidate loop keeps `join(path, name)` for each globbed path, in order, exactly when it exists |
| Utils.HeaderSubpathsUnderInclude | bob/extension/utils.py:120-124 | without subpaths `['include']` is searched; otherwise `include/k` for each relative subpath `k`, in order |
| Utils.FindHeader | bob/extension/utils.py:90-126 | `find_header` is `find_file` over the header subpaths |
| Utils.UnderEachAt | bob/extension/utils.py:181-187 | subpath `j` under library directory `i` sits at `i*m+j` (library-directory-major) |
| Utils.LibraryFileNamesShape | bob/extension/utils.py:189-213 | extensions are `.a` when only static, else `.dylib`/`.dll`/`.so` then `.a` by platform; versioned names (`lib+name+'.'+v+ext` on darwin, `lib+name+ext+'.'+v` elsewhere) come before plain `lib+name+ext` |
| Utils.LibraryFilesSound | bob/extension/utils.py:200-215 | every returned file exists and is a probed library name inside a globbed search directory |
| Utils.LibraryFilesVersionedFirst | bob/extension/utils.py:200-215 | the result is all hits for versioned names followed by all hits for plain names, each grouped by extension in order |
| Utils.FindEachFile | bob/extension/utils.py:202-213 | the extension loops concatenate the `find_file` results per name, in order |
| Utils.FindLibrary | bob/extension/utils.py:128-215 | `find_library` returns the hits of the probed names over the library subpaths |
| Requirements.SplitRejectsSecondRun | bob/extension/__init__.py:140-144 | the split is rejected exactly when the string holds two or more separate comparator runs; it is bare exactly when there is none |
| Requirements.SplitSound | bob/extension/__init__.py:140 | a bare split is the whole string; a constrained one is the string cut at its run, minus the whitespace around it |
| Requirements.SplitComplete | bob/extension/__init__.py:140 | `name ws op ws version` splits back into exactly that name, op and version |
| Requirements.SplitRender | bob/extension/__init__.py:159-167 | re-splitting `' '.join((key, op, version))` gives back the same triple |
| Requirements.Record | bob/extension/__init__.py:146-152 | `setdefault` adds a new key at the end of the key order with no pairs and keeps an existing key where it is; a constrained requirement then appends its pair to its key, and no other key changes |
| Requirements.ParseStep | bob/extension/__init__.py:139-152 | one recorded requirement keeps the dictionary equal to the keys seen so far in first-seen order, each mapped to its pairs in input order |
| Requirements.ParseInto | bob/extension/__init__.py:137-152 | the first loop raises at the first unsplittable requirement; otherwise it fills the dictionary with keys in insertion order and each key's pairs in order |
| Requirements.RenderConstraints | bob/extension/__init__.py:166-167 | one `"key op version"` line per pair, in order |
| Requirements.NormalizeRequirements | bob/extension/__init__.py:132-169 | the method returns or raises exactly what `Normalize` specifies |
| Requirements.RenderGroups | bob/extension/__init__.py:157-169 | the second loop emits, key by key in insertion order, the lines of the key's distinct pairs, or the bare key when it has none |
| Requirements.NormalizedEntriesContent | bob/extension/__init__.py:146-167 | every constrained input survives and nothing else constrained appears; a bare name is emitted only for a name with no constraint |
| Requirements.NormalizedBare | bob/extension/__init__.py:146-164 | a bare name is emitted exactly when the input names it bare and never constrains it |
| Requirements.NormalizedNoDuplicates | bob/extension/__init__.py:157-167 | the output holds no entry twice |
| Requirements.NormalizedAdjacent | bob/extension/__init__.py:157-167 | the entries for one package name sit next to each other in the output |
| Requirements.ConstraintsOfGroupAll | bob/extension/__init__.py:159-167 | each name's output pairs are its distinct input pairs, in first-seen order |
| Requirements.UniqKeysGroupAll | bob/extension/__init__.py:137-167 | the output's package names, deduplicated, are the input's names in first-seen order |
| Requirements.NormalizeIdempotent | bob/extension/__init__.py:132-169 | normalizing the output of `normalize_requirements` gives that output back |
| Requirements.NormalizeRejects | bob/extension/__init__.py:139-144 | normalization raises exactly when some requirement holds two or more comparator runs, naming the first such requirement |
| Packages.CheckPackages | bob/extension/__init__.py:25-79 | the method returns or raises exactly what `Checked` specifies |
| Packages.Satisfies | bob/extension/__init__.py:60-71 | `>`, `>=`, `<`, `<=` accept by the matching comparison, `==` accepts by `<=`, and any other comparator run is refused as unparseable |
| Packages.CheckedSpec | bob/extension/__init__.py:45-79 | the check succeeds exactly when every distinct requirement parses, is installed and is met, and no two resolve to one package name; it returns those packages in order |
| Packages.CheckToleratesRepeats | bob/extension/__init__.py:48 | repeating a requirement string already present changes nothing |
| Packages.CheckRejectsRecurring | bob/extension/__init__.py:75-77 | two different requirement strings that resolve to one package make the check fail |
| Packages.CheckRejectsTwoConstraints | bob/extension/__init__.py:75-77 | `["pkg op1 v1", "pkg op2 v2"]` with distinct constraints always fails |
| Packages.CheckSingle | bob/extension/__init__.py:48-79 | one requirement yields its package when it passes and fails otherwise |
| Packages.CheckOperatorDispatch | bob/extension/__init__.py:58-69 | `>`, `>=`, `<`, `<=` accept by the matching comparison, and `==` accepts by `<=` |
| Packages.CheckUnknownOperatorAfterLookup | bob/extension/__init__.py:56-71 | an unknown comparator run raises the parse error, and a missing package is reported first |
| Packages.CheckBareName | bob/extension/__init__.py:56-73 | a bare name only has to be installed |
| Flags.SelfMacrosSpec | bob/extension/__init__.py:81-101 | no version gives no macros; otherwise a name without `.` raises; a dotted name gives PREFIX and NAME split at the last `.` plus the entry point for the Python major version, and the version macro only for a non-empty version (3 or 4 entries) |
| Flags.SortIncludes | bob/extension/__init__.py:126 | the sort returns a permutation of its input, ordered by descending length and then ascending text |
| Flags.ReorganizeISystem | bob/extension/__init__.py:103-130 | the method returns or raises exactly what `Reorganized` specifies |
| Flags.ScanFailsOnlyAtEnd | bob/extension/__init__.py:111-119 | the index loop fails only on a trailing `-isystem` |
| Flags.ScanShape | bob/extension/__init__.py:107-119 | the kept arguments hold no `-isystem`, come from the input, and together with two slots per path account for every argument |
| Flags.ScanOrder | bob/extension/__init__.py:107-119 | the kept arguments are the input at increasing positions, the paths are the input at increasing positions each right after an `-isystem`, and every other position is the `-isystem` of a pair |
| Flags.ScanRoundTrip | bob/extension/__init__.py:107-130 | scanning other arguments followed by `-isystem` pairs gives both back |
| Flags.DedupLastSpec | bob/extension/__init__.py:121 | `uniq(includes[::-1])[::-1]` holds each path exactly once and loses none |
| Flags.ReorganizedSpec | bob/extension/__init__.py:107-130 | the output is the other arguments in their original relative order, then one `-isystem` pair per distinct path, strictly ordered by descending length and then text |
| Flags.ReorganizeIdempotent | bob/extension/__init__.py:103-130 | reorganizing an already reorganized list changes nothing |
| Flags.ReorganizeThree | bob/extension/__init__.py:121-130 | three paths of growing length come out longest first |
| Flags.ReorganizeExample | bob/extension/__init__.py:121-130 | `/usr/include` is placed after `/usr/local/include` and `/opt/foo/include/special` |
| Build.GetBobLibraries | bob/extension/__init__.py:172-192 | the method returns or raises exactly what `BobLibraries` specifies |
| Build.CollectPackages | bob/extension/__init__.py:182-190 | the loop gathers exactly what `Collect` specifies |
| Build.CollectSpec | bob/extension/__init__.py:182-192 | every package contributes its include directory in order; only packages with a library file contribute their `_`-joined name and the directory of their first file, side by side |
| Build.LinkedMembership | bob/extension/__init__.py:186-190 | a package is linked exactly when `find_library` finds a file for it |
| Build.BobLibrariesRejects | bob/extension/__init__.py:179-181 | `None` gives three empty lists; otherwise the call raises exactly when a stripped, lower-cased entry holds two comparator runs |
| Build.LinkedDirectory | bob/extension/__init__.py:186-190 | the recorded directory is the globbed search directory in which the first library file was found |
| Build.LibraryTargetSpec | bob/extension/__init__.py:462-467 | the name check rejects exactly names without `.`; `c_name` is the text after the last `.`; the target directory is the package path under the package directory |
| Build.NewLibrary | bob/extension/__init__.py:462-467 | constructing a Library raises on a name without `.`, and otherwise records `c_name` and the target directory |
| Build.Target.PrependLinks | bob/extension/__init__.py:576-578 | libraries, library directories and include directories gain the given values in front, with `None` read as empty |
| Build.PartitionTargets | bob/extension/__init__.py:571-572 | the Library targets and the remaining extensions together are the original targets |
| Build.PartitionMembership | bob/extension/__init__.py:572 | each side of the split holds exactly the targets of its kind |
| Build.ExtensionCounts | bob/extension/__init__.py:571-572 | a Library target is dropped from the extension list, and an extension listed once is kept exactly once |
| Build.CollectLibraries | bob/extension/__init__.py:553-569 | the first loop collects each Library's `c_name`, target directory and `target/include` directory, in list order |
| Build.PrependToAll | bob/extension/__init__.py:574-578 | every kept extension gains the collected values in front, once per time it is listed |
| Build.PrependedShape | bob/extension/__init__.py:576-578 | after the prepend, a field starts with the collected values and ends with its original entries |
| Build.LibraryIncludeDirs | bob/extension/__init__.py:568-569 | each library's include directory lies inside its target directory |
| Build.Builder.Run | bob/extension/__init__.py:540-581 | no Library target remains; each remaining extension listed once has the Library names, target directories and include directories, in declaration order, in front of its own values |

## Left out

- `Library.compile` (`bob/extension/__init__.py:498-530`) is not modelled. It writes a CMakeLists file and runs `cmake` and `make` as external processes. So are the `os.makedirs` of the build directory and the `compile` call in `build_ext.run`.
- The CMake lookup of `Library.__init__` (`find_executable("cmake")`) is not modelled, because it depends on the environment. `os.path.realpath('.')` is a parameter. The rest of `Library.__init__` is not modelled either, because it depends on `Extension.__init__`.
- The rest of `Extension.__init__` (`bob/extension/__init__.py:204-399`) is not modelled. It drives the `pkgconfig`, `boost` and `cmake` modules, which are not part of this model, and branches on `platform.system()`.
- `_build_ext.run`, the base-class call that compiles the extensions, is not part of this model.
- `distutils.version.LooseVersion` is an abstract three-way comparison. Its ordering rules are not modelled.
- The pkg-config query is a partial function from a name to a (name, version) record. `glob.glob`, `os.path.exists`, `os.environ`, `os.pathsep`, `platform.architecture`, `sys.platform` and `resource_filename` are parameters whose behaviour is not modelled.
- `egrep` (`bob/extension/utils.py:224-246`) is not modelled. It reads a file and matches regular expressions.
- `get_config`, `__version__` and `__all__` are not modelled. They are `pkg_resources` metadata queries.
- `os.path.join` and `os.path.dirname` follow `posixpath`. The Windows `ntpath` rules are not modelled.
- `str.lower()` is modelled for ASCII letters only. Unicode case mapping is not modelled.
- Error messages are not modelled. Each raised exception becomes a constructor of `Errors.Error`.
- Build.Builder.Run: states the plain "prepended once" result only for an extension list with no object listed twice. For a repeated object it states the general result, one prepend per listing. Aliasing between the collected lists and the extensions' own lists is not modelled.
- Packages.Satisfies: assumes Python runs with assertions enabled. `check_packages` tests versions with `assert` (bob/extension/__init__.py:61-69). Under `python -O` those tests are stripped, an unmet version passes and the package is returned. The model always fails with `UnsatisfiedRequirement`.
