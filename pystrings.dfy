/**
 * The pieces of Python's `str` type that the build helpers rely on:
 * whitespace, `strip`, `split`, `rsplit`, `replace`, `lower` and the
 * code-point ordering behind `<` on strings.
 */
module PyStrings {

  import opened Wrappers

  /** `str.isspace()` for one character; also the class `\s` of `re` for str patterns. */
  predicate IsSpace(c: char) {
    c == ' ' || ('\t' <= c <= '\r') || ('\U{1c}' <= c <= '\U{1f}')
    || c == '\U{85}' || c == '\U{a0}' || c == '\U{1680}'
    || ('\U{2000}' <= c <= '\U{200a}') || c == '\U{2028}' || c == '\U{2029}'
    || c == '\U{202f}' || c == '\U{205f}' || c == '\U{3000}'
  }

  predicate AllSpace(s: string) {
    forall k :: 0 <= k < |s| ==> IsSpace(s[k])
  }

  lemma AllSpaceCons(c: char, w: string)
    requires IsSpace(c) && AllSpace(w)
    ensures AllSpace([c] + w)
  {
    forall k | 0 <= k < |[c] + w| ensures IsSpace(([c] + w)[k]) {
      if k > 0 { assert ([c] + w)[k] == w[k - 1]; }
    }
  }

  lemma AllSpaceSnoc(w: string, c: char)
    requires AllSpace(w) && IsSpace(c)
    ensures AllSpace(w + [c])
  {
    forall k | 0 <= k < |w + [c]| ensures IsSpace((w + [c])[k]) {
      if k < |w| { assert (w + [c])[k] == w[k]; }
    }
  }

  /** Cutting `s` at `m`, seen from its tail `s[1..]`. */
  lemma CutAfterHead<T>(s: seq<T>, m: nat)
    requires 1 <= m <= |s|
    ensures s[..m] == [s[0]] + s[1..][..m - 1]
    ensures s[m..] == s[1..][m - 1..]
  {
  }

  /** Cutting `s` at `m`, seen from its front `s[..|s| - 1]`. */
  lemma CutBeforeLast<T>(s: seq<T>, m: nat)
    requires m < |s|
    ensures s[m..] == s[..|s| - 1][m..] + [s[|s| - 1]]
    ensures s[..m] == s[..|s| - 1][..m]
  {
  }

  /** `s.lstrip()`: the longest suffix of `s` that does not start with whitespace. */
  function LStrip(s: string): (r: string)
    ensures |r| <= |s| && r == s[|s| - |r|..]
    ensures AllSpace(s[..|s| - |r|])
    ensures r == [] || !IsSpace(r[0])
  {
    if s != [] && IsSpace(s[0]) then
      var t := s[1..];
      var r := LStrip(t);
      CutAfterHead(s, |s| - |r|);
      AllSpaceCons(s[0], t[..|t| - |r|]);
      r
    else s
  }

  /** `s.rstrip()`: the longest prefix of `s` that does not end with whitespace. */
  function RStrip(s: string): (r: string)
    ensures |r| <= |s| && r == s[..|r|]
    ensures AllSpace(s[|r|..])
    ensures r == [] || !IsSpace(r[|r| - 1])
  {
    if s != [] && IsSpace(s[|s| - 1]) then
      var t := s[..|s| - 1];
      var r := RStrip(t);
      CutBeforeLast(s, |r|);
      AllSpaceSnoc(t[|r|..], s[|s| - 1]);
      r
    else s
  }

  /** `s.strip()`. */
  function Strip(s: string): string {
    LStrip(RStrip(s))
  }

  lemma {:induction false} LStripSpaces(w: string, v: string)
    requires AllSpace(w)
    requires v == [] || !IsSpace(v[0])
    ensures LStrip(w + v) == v
  {
    if w != [] {
      assert (w + v)[1..] == w[1..] + v;
      LStripSpaces(w[1..], v);
    } else {
      assert w + v == v;
    }
  }

  lemma {:induction false} RStripSpaces(n: string, w: string)
    requires AllSpace(w)
    requires n == [] || !IsSpace(n[|n| - 1])
    ensures RStrip(n + w) == n
  {
    if w != [] {
      assert (n + w)[..|n + w| - 1] == n + w[..|w| - 1];
      RStripSpaces(n, w[..|w| - 1]);
    } else {
      assert n + w == n;
    }
  }

  /** ASCII part of `str.lower()`. */
  function LowerChar(c: char): char {
    if 'A' <= c <= 'Z' then (c as int - 'A' as int + 'a' as int) as char else c
  }

  function Lower(s: string): string {
    seq(|s|, i requires 0 <= i < |s| => LowerChar(s[i]))
  }

  /** `s.replace(a, b)` for single characters. */
  function ReplaceChar(s: string, a: char, b: char): string {
    seq(|s|, i requires 0 <= i < |s| => if s[i] == a then b else s[i])
  }

  /** The index of the first `c` in `s`, or `|s|` when there is none. */
  function Find(s: string, c: char): (i: nat)
    ensures i <= |s| && c !in s[..i]
    ensures i < |s| ==> s[i] == c
  {
    if s == [] then 0 else if s[0] == c then 0 else 1 + Find(s[1..], c)
  }

  /** `sep.join(parts)` for a one-character separator. */
  function JoinWith(parts: seq<string>, sep: char): string
    requires |parts| >= 1
  {
    if |parts| == 1 then parts[0] else parts[0] + [sep] + JoinWith(parts[1..], sep)
  }

  /**
   * `s.split(sep)` for a one-character separator: the pieces between the
   * separators, none of which holds the separator, and joining them back
   * gives `s` again.
   */
  function Split(s: string, sep: char): (r: seq<string>)
    ensures |r| >= 1
    ensures forall i :: 0 <= i < |r| ==> sep !in r[i]
    ensures JoinWith(r, sep) == s
    decreases |s|
  {
    var i := Find(s, sep);
    if i == |s| then
      assert s[..i] == s;
      [s]
    else
      var rest := Split(s[i + 1..], sep);
      assert s == s[..i] + [sep] + s[i + 1..];
      [s[..i]] + rest
  }

  /** The index of the last `c` in `s`, when there is one. */
  function RFind(s: string, c: char): (r: Option<nat>)
    ensures r.None? <==> c !in s
    ensures r.Some? ==> r.value < |s| && s[r.value] == c && c !in s[r.value + 1..]
  {
    if s == [] then None
    else if s[|s| - 1] == c then Some(|s| - 1)
    else
      var r := RFind(s[..|s| - 1], c);
      assert s == s[..|s| - 1] + [s[|s| - 1]];
      r
  }

  /**
   * `s.rsplit(sep, 1)` when it yields two pieces: the text before the last
   * separator and the text after it. None when `s` holds no separator (the
   * Python call then yields the one piece `[s]`).
   */
  function RSplitOnce(s: string, sep: char): (r: Option<(string, string)>)
    ensures r.None? <==> sep !in s
    ensures r.Some? ==> r.value.0 + [sep] + r.value.1 == s && sep !in r.value.1
  {
    match RFind(s, sep)
    case None => None
    case Some(i) =>
      assert s == s[..i] + [sep] + s[i + 1..];
      Some((s[..i], s[i + 1..]))
  }

  /** Joining two or more pieces: all but the last joined, the separator, then the last piece. */
  lemma {:induction false} JoinWithSnoc(parts: seq<string>, sep: char)
    requires |parts| >= 2
    ensures JoinWith(parts, sep) == JoinWith(parts[..|parts| - 1], sep) + [sep] + parts[|parts| - 1]
    decreases |parts|
  {
    if |parts| > 2 {
      JoinWithSnoc(parts[1..], sep);
      assert parts[1..][..|parts| - 2] == parts[..|parts| - 1][1..];
    }
  }

  /** `s.split(sep)` yields a single piece exactly when `s` holds no separator. */
  lemma SplitSingle(s: string, sep: char)
    ensures |Split(s, sep)| == 1 <==> sep !in s
  {
    var r := Split(s, sep);
    if |r| == 1 {
      assert JoinWith(r, sep) == r[0];
    }
  }

  /** The text after the last separator is fixed by the string: two cuts at a separator-free tail agree. */
  lemma LastSeparatorUnique(a: string, b: string, a': string, b': string, sep: char)
    requires a + [sep] + b == a' + [sep] + b'
    requires sep !in b && sep !in b'
    ensures a == a' && b == b'
  {
    var s := a + [sep] + b;
    assert s[|a|] == sep && s[|a'|] == sep;
    assert forall k :: |a| < k < |s| ==> s[k] == b[k - |a| - 1];
    assert forall k :: |a'| < k < |s| ==> s[k] == b'[k - |a'| - 1];
    assert |a| == |a'|;
    assert a == s[..|a|] == a';
    assert b == s[|a| + 1..] == b';
  }

  lemma ReplaceCharConcat(x: string, y: string, a: char, b: char)
    ensures ReplaceChar(x + y, a, b) == ReplaceChar(x, a, b) + ReplaceChar(y, a, b)
  {
    assert forall i :: 0 <= i < |x + y| ==> ReplaceChar(x + y, a, b)[i] == (ReplaceChar(x, a, b) + ReplaceChar(y, a, b))[i];
  }

  /**
   * Replacing the separator of a join by another character gives the join
   * with that other separator, as long as no piece holds the first one.
   */
  lemma {:induction false} ReplaceJoinWith(parts: seq<string>, a: char, b: char)
    requires |parts| >= 1
    requires forall i :: 0 <= i < |parts| ==> a !in parts[i]
    ensures ReplaceChar(JoinWith(parts, a), a, b) == JoinWith(parts, b)
    decreases |parts|
  {
    assert ReplaceChar(parts[0], a, b) == parts[0];
    if |parts| > 1 {
      ReplaceJoinWith(parts[1..], a, b);
      ReplaceCharConcat(parts[0] + [a], JoinWith(parts[1..], a), a, b);
      ReplaceCharConcat(parts[0], [a], a, b);
    }
  }

  /** Python's `a < b` on strings: lexicographic by code point. */
  predicate StrLess(a: string, b: string)
    decreases |a|
  {
    if a == [] then b != []
    else if b == [] then false
    else if a[0] == b[0] then StrLess(a[1..], b[1..])
    else a[0] < b[0]
  }

  lemma {:induction false} StrLessIrreflexive(a: string)
    ensures !StrLess(a, a)
  {
    if a != [] { StrLessIrreflexive(a[1..]); }
  }

  lemma {:induction false} StrLessTransitive(a: string, b: string, c: string)
    requires StrLess(a, b) && StrLess(b, c)
    ensures StrLess(a, c)
    decreases |a|
  {
    if a != [] && b != [] && c != [] && a[0] == b[0] && b[0] == c[0] {
      StrLessTransitive(a[1..], b[1..], c[1..]);
    }
  }

  lemma {:induction false} StrLessTotal(a: string, b: string)
    requires a != b
    ensures StrLess(a, b) || StrLess(b, a)
    decreases |a|
  {
    if a != [] && b != [] && a[0] == b[0] {
      assert a == [a[0]] + a[1..] && b == [b[0]] + b[1..];
      StrLessTotal(a[1..], b[1..]);
    }
  }
}
