/**
 * `os.path.join` and `os.path.dirname` as Python's `posixpath` defines them.
 * The Windows flavour (`ntpath`) is not part of this model.
 */
module PosixPath {

  import opened Wrappers
  import opened PyStrings

  predicate IsAbsolute(p: string) {
    p != [] && p[0] == '/'
  }

  /** `os.path.join(a, b)`. */
  function Join(a: string, b: string): string {
    if IsAbsolute(b) then b
    else if a == [] || a[|a| - 1] == '/' then a + b
    else a + "/" + b
  }

  /** `os.path.join(*parts)`. */
  function JoinAll(parts: seq<string>): string
    requires |parts| >= 1
  {
    if |parts| == 1 then parts[0] else Join(JoinAll(parts[..|parts| - 1]), parts[|parts| - 1])
  }

  /** `p.rstrip('/')`. */
  function RStripSlashes(p: string): string {
    if p != [] && p[|p| - 1] == '/' then RStripSlashes(p[..|p| - 1]) else p
  }

  predicate AllSlashes(p: string) {
    forall k :: 0 <= k < |p| ==> p[k] == '/'
  }

  /** `os.path.dirname(p)`: everything up to the last '/', trailing slashes removed unless only slashes remain. */
  function Dirname(p: string): string {
    var head := match RFind(p, '/') case None => "" case Some(i) => p[..i + 1];
    if head != [] && !AllSlashes(head) then RStripSlashes(head) else head
  }

  /**
   * The directory of a file joined under a directory is that directory again,
   * provided the directory does not end in '/' and the file name is a plain
   * name (no '/').
   */
  lemma DirnameOfJoin(dir: string, name: string)
    requires dir != [] && dir[|dir| - 1] != '/'
    requires name != [] && '/' !in name
    ensures Dirname(Join(dir, name)) == dir
  {
    var p := Join(dir, name);
    assert p == dir + "/" + name;
    var i := |dir|;
    assert p[i] == '/' && p[i + 1..] == name;
    var r := RFind(p, '/');
    assert r.Some? by { assert p[i] in p; }
    var head := p[..i + 1];
    assert head == dir + "/";
    assert !AllSlashes(head) by { assert head[i - 1] == dir[i - 1]; }
    assert head[..|head| - 1] == dir;
    assert RStripSlashes(head) == RStripSlashes(dir) == dir;
    assert Dirname(p) == RStripSlashes(head);
  }

  /**
   * `os.path.join(*parts)` of plain relative names (non-empty, no '/') puts
   * exactly one '/' between consecutive parts.
   */
  lemma {:induction false} JoinAllPlain(parts: seq<string>)
    requires |parts| >= 1
    requires forall i :: 0 <= i < |parts| ==> parts[i] != [] && '/' !in parts[i]
    ensures JoinAll(parts) == JoinWith(parts, '/')
    ensures JoinAll(parts) != [] && JoinAll(parts)[|JoinAll(parts)| - 1] != '/'
    decreases |parts|
  {
    var last := parts[|parts| - 1];
    assert last[|last| - 1] in last;
    if |parts| > 1 {
      var init := parts[..|parts| - 1];
      JoinAllPlain(init);
      JoinWithSnoc(parts, '/');
      assert !IsAbsolute(last) by { assert last[0] in last; }
    }
  }
}
