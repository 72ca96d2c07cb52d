/**
 * Requirement strings such as `"pkg >= 1.2"`: the split with the pattern
 * `\s*(?P<cmp>[<>=]+)\s*`, `normalize_requirements` and `check_packages`.
 *
 * `re.split` with that pattern yields `2 * m + 1` tokens for `m` matches,
 * and each match covers one maximal run of `<`, `>`, `=` together with the
 * whitespace around it; so the accepted token counts 1 and 3 are the
 * strings with no run and with exactly one run.
 */
module Requirements {

  import opened Wrappers
  import opened Errors
  import opened PyStrings
  import opened Lists
  import opened Utils

  // --------------------------------------------------------------- split

  predicate IsOp(c: char) {
    c == '<' || c == '>' || c == '='
  }

  predicate HasOp(s: string) {
    exists k :: 0 <= k < |s| && IsOp(s[k])
  }

  predicate AllOp(s: string) {
    forall k :: 0 <= k < |s| ==> IsOp(s[k])
  }

  /** A parsed requirement: `name`, or `name op version`. */
  datatype Requirement = Bare(name: string) | Constrained(name: string, op: string, version: string)

  /** Where the first comparator character is (`|s|` when there is none). */
  function FirstOp(s: string): (i: nat)
    ensures i <= |s| && !HasOp(s[..i])
    ensures i < |s| ==> IsOp(s[i])
  {
    if s == [] then 0
    else if IsOp(s[0]) then 0
    else
      var i := 1 + FirstOp(s[1..]);
      assert forall k :: 1 <= k < i ==> s[..i][k] == s[1..][..i - 1][k - 1];
      i
  }

  /** Where the comparator run starting at `i` ends. */
  function RunEnd(s: string, i: nat): (j: nat)
    requires i <= |s|
    ensures i <= j <= |s| && AllOp(s[i..j])
    ensures j < |s| ==> !IsOp(s[j])
    decreases |s| - i
  {
    if i < |s| && IsOp(s[i]) then RunEnd(s, i + 1) else i
  }

  /**
   * `split(r'\s*(?P<cmp>[<>=]+)\s*', s)` when it yields one or three tokens;
   * None when it yields five or more.
   */
  function SplitRequirement(s: string): Option<Requirement> {
    var i := FirstOp(s);
    if i == |s| then Some(Bare(s))
    else
      var j := RunEnd(s, i);
      if FirstOp(s[j..]) < |s[j..]| then None
      else Some(Constrained(RStrip(s[..i]), s[i..j], LStrip(s[j..])))
  }

  /** How many maximal comparator runs `s` holds (one per match of the pattern). */
  function Runs(s: string): nat {
    if s == [] then 0
    else (if IsOp(s[0]) && (|s| == 1 || !IsOp(s[1])) then 1 else 0) + Runs(s[1..])
  }

  lemma {:induction false} RunsNone(s: string)
    requires !HasOp(s)
    ensures Runs(s) == 0
  {
    if s != [] {
      assert !IsOp(s[0]);
      assert !HasOp(s[1..]) by {
        forall k | 0 <= k < |s| - 1 ensures !IsOp(s[1..][k]) { assert s[1..][k] == s[k + 1]; }
      }
      RunsNone(s[1..]);
    }
  }

  lemma {:induction false} RunsSome(s: string)
    requires HasOp(s)
    ensures Runs(s) >= 1
  {
    if !(IsOp(s[0]) && (|s| == 1 || !IsOp(s[1]))) {
      var k :| 0 <= k < |s| && IsOp(s[k]);
      if k == 0 {
        assert IsOp(s[1..][0]);
      } else {
        assert IsOp(s[1..][k - 1]);
      }
      RunsSome(s[1..]);
    }
  }

  lemma {:induction false} RunsAllOp(s: string)
    requires s != [] && AllOp(s)
    ensures Runs(s) == 1
  {
    if |s| > 1 {
      RunsAllOp(s[1..]);
    }
  }

  lemma {:induction false} RunEndOf(s: string, i: nat, j: nat)
    requires i <= j <= |s| && AllOp(s[i..j])
    requires j < |s| ==> !IsOp(s[j])
    ensures RunEnd(s, i) == j
    decreases j - i
  {
    if i < j {
      assert s[i..j][0] == s[i];
      assert s[i + 1..j] == s[i..j][1..];
      RunEndOf(s, i + 1, j);
    }
  }

  /** Runs add up across a cut that does not fall inside a run. */
  lemma {:induction false} RunsConcat(a: string, b: string)
    requires a == [] || b == [] || !IsOp(a[|a| - 1]) || !IsOp(b[0])
    ensures Runs(a + b) == Runs(a) + Runs(b)
  {
    if a == [] {
      assert a + b == b;
    } else {
      assert (a + b)[1..] == a[1..] + b;
      if |a| > 1 {
        assert (a + b)[1] == a[1];
      }
      RunsConcat(a[1..], b);
    }
  }

  /** Text without comparators, then one run, then text that does not continue the run: one run more. */
  lemma RunsAroundRun(a: string, b: string, c: string)
    requires !HasOp(a) && b != [] && AllOp(b) && (c == [] || !IsOp(c[0]))
    ensures Runs(a + b + c) == 1 + Runs(c)
  {
    RunsNone(a);
    RunsAllOp(b);
    assert a == [] || !IsOp(a[|a| - 1]);
    RunsConcat(a, b);
    assert (a + b)[|a + b| - 1] == b[|b| - 1];
    RunsConcat(a + b, c);
  }

  /** A run at `s[i..j]` with no comparator before it counts once; the rest of the count comes from after it. */
  lemma RunsAfterRun(s: string, i: nat, j: nat)
    requires i < j <= |s| && !HasOp(s[..i]) && AllOp(s[i..j]) && (j < |s| ==> !IsOp(s[j]))
    ensures Runs(s) == 1 + Runs(s[j..])
  {
    var a, b, c := s[..i], s[i..j], s[j..];
    assert c != [] ==> c[0] == s[j];
    assert s == a + b + c;
    RunsAroundRun(a, b, c);
  }

  lemma RunsAfterFirst(s: string)
    requires FirstOp(s) < |s|
    ensures Runs(s) == 1 + Runs(s[RunEnd(s, FirstOp(s))..])
  {
    RunsAfterRun(s, FirstOp(s), RunEnd(s, FirstOp(s)));
  }

  /**
   * The split is rejected exactly when the requirement holds two or more
   * separate comparator runs; it is bare exactly when there is none.
   */
  lemma SplitRejectsSecondRun(s: string)
    ensures SplitRequirement(s).None? <==> Runs(s) >= 2
    ensures SplitRequirement(s) == Some(Bare(s)) <==> Runs(s) == 0
    ensures (SplitRequirement(s).Some? && SplitRequirement(s).value.Constrained?) <==> Runs(s) == 1
  {
    var i := FirstOp(s);
    if i == |s| {
      assert s[..i] == s;
      RunsNone(s);
    } else {
      RunsAfterFirst(s);
      var rest := s[RunEnd(s, i)..];
      if FirstOp(rest) < |rest| {
        RunsSome(rest);
      } else {
        assert rest[..|rest|] == rest;
        RunsNone(rest);
      }
    }
  }

  /** The requirements that the split gives back and that survive re-rendering. */
  predicate Canonical(e: Requirement) {
    match e
    case Bare(n) => !HasOp(n)
    case Constrained(n, op, v) =>
      && !HasOp(n) && (n == [] || !IsSpace(n[|n| - 1]))
      && op != [] && AllOp(op)
      && !HasOp(v) && (v == [] || !IsSpace(v[0]))
  }

  /** `' '.join((key, op, version))`, or the bare name. */
  function Render(e: Requirement): string {
    match e
    case Bare(n) => n
    case Constrained(n, op, v) => n + " " + op + " " + v
  }

  lemma NoOpInSpaces(w: string)
    requires AllSpace(w)
    ensures !HasOp(w)
  {
  }

  lemma NoOpPrefix(x: string, m: nat)
    requires !HasOp(x) && m <= |x|
    ensures !HasOp(x[..m]) && !HasOp(x[m..])
  {
    forall k | 0 <= k < m ensures !IsOp(x[..m][k]) { assert x[..m][k] == x[k]; }
    forall k | 0 <= k < |x| - m ensures !IsOp(x[m..][k]) { assert x[m..][k] == x[m + k]; }
  }

  /** Right-stripping a comparator-free string cuts it into a comparator-free name and trailing whitespace. */
  lemma RStripParts(a: string)
    requires !HasOp(a)
    ensures !HasOp(RStrip(a)) && a == RStrip(a) + a[|RStrip(a)|..]
  {
    var r := RStrip(a);
    var m := |r|;
    NoOpPrefix(a, m);
    TakeDrop(a, m);
  }

  /** Left-stripping a comparator-free string cuts it into leading whitespace and a comparator-free version. */
  lemma LStripParts(c: string)
    requires !HasOp(c)
    ensures !HasOp(LStrip(c)) && c == c[..|c| - |LStrip(c)|] + LStrip(c)
  {
    var r := LStrip(c);
    var m := |c| - |r|;
    NoOpPrefix(c, m);
    TakeDrop(c, m);
  }

  lemma Regroup(a: string, b: string, c: string, n: string, w1: string, w2: string, v: string)
    requires a == n + w1 && c == w2 + v
    ensures a + b + c == n + w1 + b + w2 + v
  {
  }

  /** A name, one comparator run and a version, stripped around the run, are canonical. */
  lemma StrippedCanonical(a: string, b: string, c: string)
    requires !HasOp(a) && b != [] && AllOp(b) && !HasOp(c)
    ensures var e := Constrained(RStrip(a), b, LStrip(c));
      Canonical(e) &&
      exists w1, w2 :: AllSpace(w1) && AllSpace(w2) && a + b + c == e.name + w1 + e.op + w2 + e.version
  {
    var n, v := RStrip(a), LStrip(c);
    RStripParts(a);
    LStripParts(c);
    StrippedParts(a, b, c, n, a[|n|..], c[..|c| - |v|], v);
  }

  lemma StrippedParts(a: string, b: string, c: string, n: string, w1: string, w2: string, v: string)
    requires a == n + w1 && c == w2 + v && AllSpace(w1) && AllSpace(w2)
    requires !HasOp(n) && (n == [] || !IsSpace(n[|n| - 1]))
    requires b != [] && AllOp(b)
    requires !HasOp(v) && (v == [] || !IsSpace(v[0]))
    ensures Canonical(Constrained(n, b, v))
    ensures exists x, y :: AllSpace(x) && AllSpace(y) && a + b + c == n + x + b + y + v
  {
    Regroup(a, b, c, n, w1, w2, v);
  }

  /** The split of a string with a single comparator run at `s[i..j]`. */
  lemma SplitSoundAt(s: string, i: nat, j: nat)
    requires i < j <= |s| && !HasOp(s[..i]) && AllOp(s[i..j]) && !HasOp(s[j..])
    ensures var e := Constrained(RStrip(s[..i]), s[i..j], LStrip(s[j..]));
      Canonical(e) &&
      exists w1, w2 :: AllSpace(w1) && AllSpace(w2) && s == e.name + w1 + e.op + w2 + e.version
  {
    assert s == s[..i] + s[i..j] + s[j..];
    StrippedCanonical(s[..i], s[i..j], s[j..]);
  }

  /**
   * What the split returns: a bare requirement is the whole string; a
   * constrained one is the string cut at its comparator run, with the
   * whitespace around the run dropped.
   */
  lemma SplitSound(s: string)
    requires SplitRequirement(s).Some?
    ensures Canonical(SplitRequirement(s).value)
    ensures SplitRequirement(s).value.Bare? ==> SplitRequirement(s).value.name == s
    ensures SplitRequirement(s).value.Constrained? ==>
      var e := SplitRequirement(s).value;
      exists w1, w2 :: AllSpace(w1) && AllSpace(w2) && s == e.name + w1 + e.op + w2 + e.version
  {
    if FirstOp(s) == |s| {
      assert s[..|s|] == s;
    } else {
      SplitConstrainedShape(s);
      SplitSoundAt(s, FirstOp(s), RunEnd(s, FirstOp(s)));
    }
  }

  /** A string with a comparator that splits into three tokens: where its one run lies. */
  lemma SplitConstrainedShape(s: string)
    requires FirstOp(s) < |s| && SplitRequirement(s).Some?
    ensures var i := FirstOp(s); var j := RunEnd(s, i);
      i < j <= |s| && !HasOp(s[..i]) && AllOp(s[i..j]) && !HasOp(s[j..]) &&
      SplitRequirement(s) == Some(Constrained(RStrip(s[..i]), s[i..j], LStrip(s[j..])))
  {
    var i := FirstOp(s);
    var j := RunEnd(s, i);
    assert i < j by { assert IsOp(s[i]); }
    var rest := s[j..];
    assert FirstOp(rest) == |rest|;
    NoOpAll(rest);
  }

  lemma NoOpAll(s: string)
    requires FirstOp(s) == |s|
    ensures !HasOp(s)
  {
    assert s[..|s|] == s;
  }

  /**
   * The converse: `name ws op ws version`, with a name and a version free of
   * comparators and of whitespace next to the run, splits back into exactly
   * those three parts.
   */
  lemma SplitComplete(n: string, w1: string, op: string, w2: string, v: string)
    requires Canonical(Constrained(n, op, v)) && AllSpace(w1) && AllSpace(w2)
    ensures SplitRequirement(n + w1 + op + w2 + v) == Some(Constrained(n, op, v))
  {
    NoOpInSpaces(w1);
    NoOpInSpaces(w2);
    NoOpConcat(n, w1);
    NoOpConcat(w2, v);
    assert n + w1 + op + w2 + v == (n + w1) + op + (w2 + v);
    SplitAt(n + w1, op, w2 + v);
    RStripSpaces(n, w1);
    LStripSpaces(w2, v);
  }

  lemma NoOpConcat(x: string, y: string)
    requires !HasOp(x) && !HasOp(y)
    ensures !HasOp(x + y)
  {
    forall k | 0 <= k < |x + y| ensures !IsOp((x + y)[k]) {
      if k < |x| { assert (x + y)[k] == x[k]; } else { assert (x + y)[k] == y[k - |x|]; }
    }
  }

  /** `FirstOp` is the position of the first comparator, or the length. */
  lemma FirstOpOf(s: string, i: nat)
    requires i <= |s| && !HasOp(s[..i]) && (i < |s| ==> IsOp(s[i]))
    ensures FirstOp(s) == i
  {
    var f := FirstOp(s);
    forall k | 0 <= k < i ensures !IsOp(s[k]) { assert s[..i][k] == s[k]; }
    forall k | 0 <= k < f ensures !IsOp(s[k]) { assert s[..f][k] == s[k]; }
  }

  /** Text without comparators, a run, text without comparators: the split cuts at the run. */
  lemma SplitAt(a: string, b: string, c: string)
    requires !HasOp(a) && b != [] && AllOp(b) && !HasOp(c)
    ensures SplitRequirement(a + b + c) == Some(Constrained(RStrip(a), b, LStrip(c)))
  {
    var s := a + b + c;
    var i, j := |a|, |a| + |b|;
    assert s[..i] == a;
    assert s[i..j] == b;
    assert s[j..] == c;
    assert s[i] == b[0];
    FirstOpOf(s, i);
    if j < |s| {
      assert s[j] == c[0];
    }
    RunEndOf(s, i, j);
    FirstOpOf(c, |c|);
  }

  lemma SplitBare(s: string)
    requires !HasOp(s)
    ensures SplitRequirement(s) == Some(Bare(s))
  {
  }

  /** Re-splitting a rendered requirement gives it back. */
  lemma SplitRender(e: Requirement)
    requires Canonical(e)
    ensures SplitRequirement(Render(e)) == Some(e)
  {
    match e
    case Bare(n) => SplitBare(n);
    case Constrained(n, op, v) =>
      assert Render(e) == n + " " + op + " " + v;
      SplitComplete(n, " ", op, " ", v);
  }

  // ------------------------------------------------- normalize_requirements

  /** Parse every requirement in order, stopping at the first that does not split. */
  function ParseAll(reqs: seq<string>): Result<seq<Requirement>, Error> {
    if reqs == [] then Ok([])
    else match SplitRequirement(reqs[0])
      case None => Err(MalformedRequirement(reqs[0]))
      case Some(e) =>
        match ParseAll(reqs[1..])
        case Err(x) => Err(x)
        case Ok(rest) => Ok([e] + rest)
  }

  function PrefixWith<T>(xs: seq<T>, r: Result<seq<T>, Error>): Result<seq<T>, Error> {
    match r
    case Err(x) => Err(x)
    case Ok(ys) => Ok(xs + ys)
  }

  lemma PrefixWithNil<T>(r: Result<seq<T>, Error>)
    ensures PrefixWith([], r) == r
  {
    match r
    case Ok(ys) => assert [] + ys == ys;
    case Err(_) =>
  }

  lemma PrefixWithCons<T>(xs: seq<T>, x: T, r: Result<seq<T>, Error>)
    ensures PrefixWith(xs, PrefixWith([x], r)) == PrefixWith(xs + [x], r)
  {
    match r
    case Ok(ys) => assert xs + ([x] + ys) == xs + [x] + ys;
    case Err(_) =>
  }

  /** The keys `parsed.setdefault` is called with, in call order. */
  function Keys(p: seq<Requirement>): seq<string> {
    seq(|p|, i requires 0 <= i < |p| => p[i].name)
  }

  /** The `(op, version)` pairs appended under key `k`, in order. */
  function ConstraintsOf(p: seq<Requirement>, k: string): seq<(string, string)> {
    if p == [] then []
    else
      var e := p[|p| - 1];
      ConstraintsOf(p[..|p| - 1], k) + (if e.Constrained? && e.name == k then [(e.op, e.version)] else [])
  }

  /** The constrained requirements named `k` with the given pairs, in order. */
  function Tag(k: string, c: seq<(string, string)>): seq<Requirement> {
    seq(|c|, i requires 0 <= i < |c| => Constrained(k, c[i].0, c[i].1))
  }

  /** What one dictionary item becomes: the bare key, or one entry per distinct pair. */
  function Group(p: seq<Requirement>, k: string): seq<Requirement> {
    var c := Uniq(ConstraintsOf(p, k));
    if c == [] then [Bare(k)] else Tag(k, c)
  }

  function GroupAll(p: seq<Requirement>, ks: seq<string>): seq<Requirement> {
    if ks == [] then []
    else GroupAll(p, ks[..|ks| - 1]) + Group(p, ks[|ks| - 1])
  }

  /** The normalized requirements, keys in insertion order (Python dicts keep it). */
  function NormalizedEntries(p: seq<Requirement>): seq<Requirement> {
    GroupAll(p, Uniq(Keys(p)))
  }

  function RenderAll(es: seq<Requirement>): seq<string> {
    seq(|es|, i requires 0 <= i < |es| => Render(es[i]))
  }

  /** What `normalize_requirements(requirements)` returns or raises. */
  function Normalize(reqs: seq<string>): Result<seq<string>, Error> {
    match ParseAll(reqs)
    case Err(x) => Err(x)
    case Ok(p) => Ok(RenderAll(NormalizedEntries(p)))
  }

  lemma KeysSnoc(p: seq<Requirement>, e: Requirement)
    ensures Keys(p + [e]) == Keys(p) + [e.name]
  {
  }

  lemma ConstraintsOfSnoc(p: seq<Requirement>, e: Requirement, k: string)
    ensures ConstraintsOf(p + [e], k) ==
      ConstraintsOf(p, k) + (if e.Constrained? && e.name == k then [(e.op, e.version)] else [])
  {
    assert (p + [e])[..|p|] == p;
  }

  lemma {:induction false} ConstraintsOfAbsent(p: seq<Requirement>, k: string)
    requires k !in Keys(p)
    ensures ConstraintsOf(p, k) == []
  {
    if p != [] {
      assert Keys(p)[|p| - 1] == p[|p| - 1].name;
      assert Keys(p[..|p| - 1]) == Keys(p)[..|p| - 1];
      ConstraintsOfAbsent(p[..|p| - 1], k);
    }
  }

  lemma GroupAllSnoc(p: seq<Requirement>, ks: seq<string>, i: nat)
    requires i < |ks|
    ensures GroupAll(p, ks[..i + 1]) == GroupAll(p, ks[..i]) + Group(p, ks[i])
  {
    assert ks[..i + 1][..i] == ks[..i];
  }

  lemma RenderAllAppend(a: seq<Requirement>, b: seq<Requirement>)
    ensures RenderAll(a + b) == RenderAll(a) + RenderAll(b)
  {
  }

  lemma RenderTagSnoc(k: string, c: seq<(string, string)>, j: nat)
    requires j < |c|
    ensures RenderAll(Tag(k, c[..j + 1])) == RenderAll(Tag(k, c[..j])) + [k + " " + c[j].0 + " " + c[j].1]
  {
    assert Tag(k, c[..j + 1]) == Tag(k, c[..j]) + [Constrained(k, c[j].0, c[j].1)];
    RenderAllAppend(Tag(k, c[..j]), [Constrained(k, c[j].0, c[j].1)]);
  }

  lemma ParseAdvance(requirements: seq<string>, i: nat, seen: seq<Requirement>, e: Requirement)
    requires i < |requirements| && SplitRequirement(requirements[i]) == Some(e)
    requires ParseAll(requirements) == PrefixWith(seen, ParseAll(requirements[i..]))
    ensures ParseAll(requirements) == PrefixWith(seen + [e], ParseAll(requirements[i + 1..]))
  {
    assert requirements[i..][1..] == requirements[i + 1..];
    ParseAllCons(requirements[i..], e);
    PrefixWithCons(seen, e, ParseAll(requirements[i + 1..]));
  }

  lemma ParseFails(requirements: seq<string>, i: nat, seen: seq<Requirement>)
    requires i < |requirements| && SplitRequirement(requirements[i]).None?
    requires ParseAll(requirements) == PrefixWith(seen, ParseAll(requirements[i..]))
    ensures ParseAll(requirements) == Err(MalformedRequirement(requirements[i]))
  {
    assert requirements[i..][0] == requirements[i];
  }

  lemma ParseDone(requirements: seq<string>, seen: seq<Requirement>)
    requires ParseAll(requirements) == PrefixWith(seen, ParseAll(requirements[|requirements|..]))
    ensures ParseAll(requirements) == Ok(seen)
  {
    assert requirements[|requirements|..] == [];
    assert seen + [] == seen;
  }

  /** The dictionary `parsed` after the given requirements: keys in first-seen order, each with its pairs. */
  ghost predicate Indexed(seen: seq<Requirement>, order: seq<string>, parsed: map<string, seq<(string, string)>>) {
    && order == Uniq(Keys(seen))
    && (forall k :: k in parsed <==> k in order)
    && (forall k :: k in parsed ==> parsed[k] == ConstraintsOf(seen, k))
  }

  /** One requirement through `setdefault` and, when constrained, `append`. */
  lemma ParseStep(seen: seq<Requirement>, e: Requirement, order: seq<string>, parsed: map<string, seq<(string, string)>>,
                  order': seq<string>, parsed': map<string, seq<(string, string)>>)
    requires Indexed(seen, order, parsed)
    requires order' == if e.name in parsed then order else order + [e.name]
    requires forall k :: k in parsed' <==> k in parsed || k == e.name
    requires e.name in parsed'
    requires parsed'[e.name] ==
      (if e.name in parsed then parsed[e.name] else []) + (if e.Constrained? then [(e.op, e.version)] else [])
    requires forall k :: k in parsed && k != e.name ==> parsed'[k] == parsed[k]
    ensures Indexed(seen + [e], order', parsed')
  {
    OrderStep(seen, e, order);
    if e.name !in parsed {
      ConstraintsOfAbsent(seen, e.name);
    }
    ParsedStep(seen, e, parsed, parsed');
  }

  /** A key joins the insertion order the first time it is seen. */
  lemma OrderStep(seen: seq<Requirement>, e: Requirement, order: seq<string>)
    requires order == Uniq(Keys(seen))
    ensures (e.name in order <==> e.name in Keys(seen))
    ensures Uniq(Keys(seen + [e])) == if e.name in order then order else order + [e.name]
  {
    KeysSnoc(seen, e);
    UniqSnoc(Keys(seen), e.name);
  }

  /** The pairs of every key stay those recorded for it. */
  lemma ParsedStep(seen: seq<Requirement>, e: Requirement, parsed: map<string, seq<(string, string)>>,
                   parsed': map<string, seq<(string, string)>>)
    requires forall k :: k in parsed ==> parsed[k] == ConstraintsOf(seen, k)
    requires e.name !in parsed ==> ConstraintsOf(seen, e.name) == []
    requires forall k :: k in parsed' <==> k in parsed || k == e.name
    requires e.name in parsed'
    requires parsed'[e.name] ==
      (if e.name in parsed then parsed[e.name] else []) + (if e.Constrained? then [(e.op, e.version)] else [])
    requires forall k :: k in parsed && k != e.name ==> parsed'[k] == parsed[k]
    ensures forall k :: k in parsed' ==> parsed'[k] == ConstraintsOf(seen + [e], k)
  {
    forall k | k in parsed' ensures parsed'[k] == ConstraintsOf(seen + [e], k) {
      ConstraintsOfSnoc(seen, e, k);
    }
  }

  /**
   * `parsed.setdefault(name, [])`, then `.append((op, version))` for a
   * constrained requirement; `order` is the dictionary's key order.
   */
  method Record(order: seq<string>, parsed: map<string, seq<(string, string)>>, e: Requirement)
    returns (order': seq<string>, parsed': map<string, seq<(string, string)>>)
    ensures order' == if e.name in parsed then order else order + [e.name]
    ensures forall k :: k in parsed' <==> k in parsed || k == e.name
    ensures e.name in parsed'
    ensures parsed'[e.name] ==
      (if e.name in parsed then parsed[e.name] else []) + (if e.Constrained? then [(e.op, e.version)] else [])
    ensures forall k :: k in parsed && k != e.name ==> parsed'[k] == parsed[k]
  {
    order', parsed' := order, parsed;
    if e.name !in parsed' {
      order' := order' + [e.name];
      parsed' := parsed'[e.name := []];
    }
    if e.Constrained? {
      parsed' := parsed'[e.name := parsed'[e.name] + [(e.op, e.version)]];
    }
  }

  /** The first loop of `normalize_requirements`: it fills the insertion-ordered dictionary `parsed`. */
  method ParseInto(requirements: seq<string>)
    returns (r: Result<(seq<string>, map<string, seq<(string, string)>>), Error>, ghost seen: seq<Requirement>)
    ensures r.Err? <==> ParseAll(requirements).Err?
    ensures r.Err? ==> r.error == ParseAll(requirements).error
    ensures r.Ok? ==> ParseAll(requirements) == Ok(seen)
    ensures r.Ok? ==> r.value.0 == Uniq(Keys(seen))
    ensures r.Ok? ==> forall k :: k in r.value.1 <==> k in r.value.0
    ensures r.Ok? ==> forall k :: k in r.value.1 ==> r.value.1[k] == ConstraintsOf(seen, k)
  {
    var order: seq<string> := [];
    var parsed: map<string, seq<(string, string)>> := map[];
    seen := [];
    assert requirements[0..] == requirements;
    PrefixWithNil(ParseAll(requirements));
    for i := 0 to |requirements|
      invariant ParseAll(requirements) == PrefixWith(seen, ParseAll(requirements[i..]))
      invariant Indexed(seen, order, parsed)
    {
      var split := SplitRequirement(requirements[i]);
      if split.None? {
        ParseFails(requirements, i, seen);
        return Err(MalformedRequirement(requirements[i])), seen;
      }
      var e := split.value;
      ParseAdvance(requirements, i, seen, e);
      ghost var order0, parsed0 := order, parsed;
      order, parsed := Record(order, parsed, e);
      ParseStep(seen, e, order0, parsed0, order, parsed);
      seen := seen + [e];
    }
    ParseDone(requirements, seen);
    r := Ok((order, parsed));
  }

  /** The inner loop of `normalize_requirements`: one `"key op version"` line per pair. */
  method RenderConstraints(key: string, value: seq<(string, string)>) returns (lines: seq<string>)
    ensures lines == RenderAll(Tag(key, value))
  {
    lines := [];
    for j := 0 to |value|
      invariant lines == RenderAll(Tag(key, value[..j]))
    {
      lines := lines + [key + " " + value[j].0 + " " + value[j].1];
      RenderTagSnoc(key, value, j);
    }
    assert value[..|value|] == value;
  }

  /** `normalize_requirements(requirements)`. */
  method NormalizeRequirements(requirements: seq<string>) returns (r: Result<seq<string>, Error>)
    ensures r == Normalize(requirements)
  {
    var parse;
    ghost var seen;
    parse, seen := ParseInto(requirements);
    if parse.Err? {
      return Err(parse.error);
    }
    var leftovers := RenderGroups(parse.value.0, parse.value.1, seen);
    r := Ok(leftovers);
  }

  /**
   * The second loop of `normalize_requirements`: for each key in insertion
   * order, its distinct pairs as lines, or the bare key when it has none.
   */
  method RenderGroups(order: seq<string>, parsed: map<string, seq<(string, string)>>, ghost seen: seq<Requirement>)
    returns (leftovers: seq<string>)
    requires forall k :: k in order ==> k in parsed && parsed[k] == ConstraintsOf(seen, k)
    ensures leftovers == RenderAll(GroupAll(seen, order))
  {
    leftovers := [];
    for i := 0 to |order|
      invariant leftovers == RenderAll(GroupAll(seen, order[..i]))
    {
      var key := order[i];
      var value := Uniq(parsed[key]);
      ghost var group := Group(seen, key);
      assert group == if value == [] then [Bare(key)] else Tag(key, value);
      GroupAllSnoc(seen, order, i);
      RenderAllAppend(GroupAll(seen, order[..i]), group);
      if value == [] {
        leftovers := leftovers + [key];
        assert RenderAll(group) == [key];
      } else {
        var lines := RenderConstraints(key, value);
        leftovers := leftovers + lines;
      }
    }
    assert order[..|order|] == order;
  }

  // ------------------------------------------- properties of normalization

  lemma {:induction false} ConstraintsOfAppend(a: seq<Requirement>, b: seq<Requirement>, k: string)
    ensures ConstraintsOf(a + b, k) == ConstraintsOf(a, k) + ConstraintsOf(b, k)
    decreases |b|
  {
    if b == [] {
      assert a + b == a;
    } else {
      var b' := b[..|b| - 1];
      assert (a + b)[..|a + b| - 1] == a + b';
      ConstraintsOfAppend(a, b', k);
    }
  }

  /** A pair is recorded under `k` exactly when the input holds that constrained requirement. */
  lemma {:induction false} ConstraintsOfMembership(p: seq<Requirement>, k: string, op: string, v: string)
    ensures (op, v) in ConstraintsOf(p, k) <==> Constrained(k, op, v) in p
  {
    if p != [] {
      var init := p[..|p| - 1];
      ConstraintsOfMembership(init, k, op, v);
      assert p == init + [p[|p| - 1]];
    }
  }

  lemma {:induction false} ConstraintsOfTag(k': string, c: seq<(string, string)>, k: string)
    ensures ConstraintsOf(Tag(k', c), k) == if k == k' then c else []
  {
    if c != [] {
      var c' := c[..|c| - 1];
      SplitLast(c);
      assert Tag(k', c)[..|c| - 1] == Tag(k', c');
      ConstraintsOfTag(k', c', k);
    }
  }

  lemma ConstraintsOfGroup(p: seq<Requirement>, k': string, k: string)
    ensures ConstraintsOf(Group(p, k'), k) == if k == k' then Uniq(ConstraintsOf(p, k)) else []
  {
    var c := Uniq(ConstraintsOf(p, k'));
    if c == [] {
      assert [Bare(k')][..0] == [];
    } else {
      ConstraintsOfTag(k', c, k);
    }
  }

  /** Each name's pairs in the output are its distinct input pairs, in first-seen order. */
  lemma ConstraintsOfGroupAll(p: seq<Requirement>, ks: seq<string>, k: string)
    requires NoDuplicates(ks)
    ensures ConstraintsOf(GroupAll(p, ks), k) == if k in ks then Uniq(ConstraintsOf(p, k)) else []
  {
    DistinctOfNoDuplicates(ks);
    ConstraintsOfGroupAllDistinct(p, ks, k);
  }

  lemma {:induction false} ConstraintsOfGroupAllDistinct(p: seq<Requirement>, ks: seq<string>, k: string)
    requires Distinct(ks)
    ensures ConstraintsOf(GroupAll(p, ks), k) == if k in ks then Uniq(ConstraintsOf(p, k)) else []
  {
    if ks != [] {
      ConstraintsOfGroupAllDistinct(p, ks[..|ks| - 1], k);
      ConstraintsOfGroupAllStep(p, ks, k);
    }
  }

  /** The pairs of `k` after one more group. */
  lemma ConstraintsOfGroupAllStep(p: seq<Requirement>, ks: seq<string>, k: string)
    requires ks != [] && ks[|ks| - 1] !in ks[..|ks| - 1]
    requires var init := ks[..|ks| - 1];
      ConstraintsOf(GroupAll(p, init), k) == if k in init then Uniq(ConstraintsOf(p, k)) else []
    ensures ConstraintsOf(GroupAll(p, ks), k) == if k in ks then Uniq(ConstraintsOf(p, k)) else []
  {
    InSnoc(ks, k);
    ConstraintsOfSnocGroup(p, ks[..|ks| - 1], ks[|ks| - 1], k);
  }

  lemma ConstraintsOfSnocGroup(p: seq<Requirement>, init: seq<string>, last: string, k: string)
    requires last !in init
    requires ConstraintsOf(GroupAll(p, init), k) == if k in init then Uniq(ConstraintsOf(p, k)) else []
    ensures ConstraintsOf(GroupAll(p, init) + Group(p, last), k) ==
      if k in init || k == last then Uniq(ConstraintsOf(p, k)) else []
  {
    var a := GroupAll(p, init);
    var b := Group(p, last);
    ConstraintsOfGroup(p, last, k);
    ConstraintsOfAppend(a, b, k);
    PickAppend(ConstraintsOf(a, k), ConstraintsOf(b, k), Uniq(ConstraintsOf(p, k)), k in init, k == last);
  }

  /** Two parts, each `u` or empty and never both `u`, concatenate to `u` exactly when one is. */
  lemma PickAppend<T>(x: seq<T>, y: seq<T>, u: seq<T>, inX: bool, inY: bool)
    requires x == (if inX then u else []) && y == (if inY then u else []) && !(inX && inY)
    ensures x + y == if inX || inY then u else []
  {
    if inX {
      assert x + y == u + [];
    } else {
      assert x + y == [] + y;
    }
  }

  lemma TagNames(k: string, c: seq<(string, string)>)
    ensures forall e :: e in Tag(k, c) ==> e.name == k
  {
  }

  /** Every entry of a group carries the group's name, and a group is never empty. */
  lemma GroupNames(p: seq<Requirement>, k: string)
    ensures Group(p, k) != []
    ensures forall e :: e in Group(p, k) ==> e.name == k
  {
    TagNames(k, Uniq(ConstraintsOf(p, k)));
  }

  lemma {:induction false} GroupAllMembership(p: seq<Requirement>, ks: seq<string>, e: Requirement)
    ensures e in GroupAll(p, ks) <==> e.name in ks && e in Group(p, e.name)
  {
    if ks != [] {
      var init := ks[..|ks| - 1];
      var last := ks[|ks| - 1];
      assert ks == init + [last];
      GroupAllMembership(p, init, e);
      GroupNames(p, last);
    }
  }

  lemma TagMembership(k: string, c: seq<(string, string)>, op: string, v: string)
    ensures Constrained(k, op, v) in Tag(k, c) <==> (op, v) in c
  {
    if (op, v) in c {
      var i :| 0 <= i < |c| && c[i] == (op, v);
      assert Tag(k, c)[i] == Constrained(k, op, v);
    }
  }

  lemma KeysMembership(p: seq<Requirement>, e: Requirement)
    requires e in p
    ensures e.name in Keys(p)
  {
    var i :| 0 <= i < |p| && p[i] == e;
    assert Keys(p)[i] == e.name;
  }

  /**
   * What survives normalization: every constrained requirement of the input,
   * and a bare name only when that name never carried a constraint.
   */
  lemma NormalizedEntriesContent(p: seq<Requirement>, k: string, op: string, v: string)
    ensures Constrained(k, op, v) in NormalizedEntries(p) <==> Constrained(k, op, v) in p
    ensures Bare(k) in NormalizedEntries(p) <==> k in Keys(p) && ConstraintsOf(p, k) == []
  {
    var c := Uniq(ConstraintsOf(p, k));
    GroupAllMembership(p, Uniq(Keys(p)), Constrained(k, op, v));
    GroupAllMembership(p, Uniq(Keys(p)), Bare(k));
    ConstraintsOfMembership(p, k, op, v);
    TagMembership(k, c, op, v);
    TagNames(k, c);
    if Constrained(k, op, v) in p {
      KeysMembership(p, Constrained(k, op, v));
    }
  }

  /** A bare name is emitted exactly when the input names it and never constrains it. */
  lemma NormalizedBare(p: seq<Requirement>, k: string)
    ensures Bare(k) in NormalizedEntries(p) <==>
      Bare(k) in p && forall op, v :: Constrained(k, op, v) !in p
  {
    NormalizedEntriesContent(p, k, "", "");
    if Bare(k) in NormalizedEntries(p) {
      forall op, v ensures Constrained(k, op, v) !in p {
        ConstraintsOfMembership(p, k, op, v);
      }
      var i :| 0 <= i < |p| && Keys(p)[i] == k;
      if p[i].Constrained? {
        ConstraintsOfMembership(p, k, p[i].op, p[i].version);
      }
      assert p[i] == Bare(k);
    }
    if Bare(k) in p && forall op, v :: Constrained(k, op, v) !in p {
      KeysMembership(p, Bare(k));
      if ConstraintsOf(p, k) != [] {
        var pair := ConstraintsOf(p, k)[0];
        ConstraintsOfMembership(p, k, pair.0, pair.1);
      }
    }
  }

  lemma TagNoDuplicates(k: string, c: seq<(string, string)>)
    requires NoDuplicates(c)
    ensures NoDuplicates(Tag(k, c))
  {
  }

  lemma {:induction false} GroupAllNoDuplicates(p: seq<Requirement>, ks: seq<string>)
    requires NoDuplicates(ks)
    ensures NoDuplicates(GroupAll(p, ks))
  {
    if ks != [] {
      var init := ks[..|ks| - 1];
      var last := ks[|ks| - 1];
      GroupAllNoDuplicates(p, init);
      var a := GroupAll(p, init);
      var b := Group(p, last);
      TagNoDuplicates(last, Uniq(ConstraintsOf(p, last)));
      GroupNames(p, last);
      forall e | e in a ensures e.name in init {
        GroupAllMembership(p, init, e);
      }
      forall i, j | 0 <= i < j < |a + b| ensures (a + b)[i] != (a + b)[j] {
        if i < |a| && j >= |a| {
          assert (a + b)[i] in a && (a + b)[j] in b;
        }
      }
    }
  }

  /** The output holds no entry twice. */
  lemma NormalizedNoDuplicates(p: seq<Requirement>)
    ensures NoDuplicates(NormalizedEntries(p))
  {
    GroupAllNoDuplicates(p, Uniq(Keys(p)));
  }

  /** Entries that share a name sit next to each other. */
  predicate NamesAdjacent(es: seq<Requirement>) {
    forall i, j, l :: 0 <= i < j < l < |es| && es[i].name == es[l].name ==> es[j].name == es[i].name
  }

  lemma {:induction false} GroupAllAdjacent(p: seq<Requirement>, ks: seq<string>)
    requires NoDuplicates(ks)
    ensures NamesAdjacent(GroupAll(p, ks))
  {
    if ks != [] {
      var init := ks[..|ks| - 1];
      var last := ks[|ks| - 1];
      NoDuplicatesInit(ks);
      GroupAllAdjacent(p, init);
      var a := GroupAll(p, init);
      var b := Group(p, last);
      GroupNames(p, last);
      forall e | e in a ensures e.name in init {
        GroupAllMembership(p, init, e);
      }
      assert last !in init;
      var ab := a + b;
      forall i, l | 0 <= i < |a| <= l < |ab| ensures ab[i].name != ab[l].name {
        assert ab[i] in a && ab[l] in b;
      }
      forall i, j, l | 0 <= i < j < l < |ab| && ab[i].name == ab[l].name ensures ab[j].name == ab[i].name {
        if l < |a| {
          assert ab[i] == a[i] && ab[j] == a[j] && ab[l] == a[l];
        } else if i >= |a| {
          assert ab[i] in b && ab[j] in b;
        }
      }
    }
  }

  /**
   * Each name's entries in the output form one block: the dictionary is
   * rendered item by item.
   */
  lemma NormalizedAdjacent(p: seq<Requirement>)
    ensures NamesAdjacent(NormalizedEntries(p))
  {
    GroupAllAdjacent(p, Uniq(Keys(p)));
  }

  lemma KeysAppend(a: seq<Requirement>, b: seq<Requirement>)
    ensures Keys(a + b) == Keys(a) + Keys(b)
  {
  }

  /** A group is a non-empty block of entries under its own name. */
  lemma KeysGroup(p: seq<Requirement>, k: string)
    ensures Keys(Group(p, k)) != [] && forall y :: y in Keys(Group(p, k)) ==> y == k
  {
    GroupNames(p, k);
  }

  lemma {:induction false} KeysGroupAll(p: seq<Requirement>, ks: seq<string>)
    ensures forall x :: x in Keys(GroupAll(p, ks)) <==> x in ks
  {
    if ks != [] {
      var init := ks[..|ks| - 1];
      var last := ks[|ks| - 1];
      KeysGroupAll(p, init);
      var a := GroupAll(p, init);
      var b := Group(p, last);
      KeysGroup(p, last);
      KeysAppend(a, b);
      MembersAppendRepeat(Keys(a), Keys(b), init, last);
      assert ks == init + [last];
    }
  }

  lemma {:induction false} UniqFromRepeat(b: seq<string>, x: string, seen: set<string>)
    requires b != [] && x !in seen
    requires forall y :: y in b ==> y == x
    ensures UniqFrom(b, seen) == [x]
  {
    assert b[0] in b;
    assert forall y :: y in b[1..] ==> y in b;
    UniqFromSeen(b[1..], seen + {x});
  }

  lemma {:induction false} UniqFromSeen(b: seq<string>, seen: set<string>)
    requires forall y :: y in b ==> y in seen
    ensures UniqFrom(b, seen) == []
  {
    if b != [] {
      assert b[0] in b;
      UniqFromSeen(b[1..], seen);
    }
  }

  /** The names of the output, deduplicated, are the input's names in first-seen order. */
  lemma {:induction false} UniqKeysGroupAll(p: seq<Requirement>, ks: seq<string>)
    requires NoDuplicates(ks)
    ensures Uniq(Keys(GroupAll(p, ks))) == ks
  {
    if ks != [] {
      var init := ks[..|ks| - 1];
      var last := ks[|ks| - 1];
      var a := GroupAll(p, init);
      var b := Group(p, last);
      assert GroupAll(p, ks) == a + b;
      NoDuplicatesInit(ks);
      UniqKeysGroupAll(p, init);
      KeysGroupAll(p, init);
      KeysGroup(p, last);
      KeysAppend(a, b);
      UniqAppendRepeat(Keys(a), Keys(b), init, last);
      assert ks == init + [last];
    }
  }

  /** Deduplicating a list followed by a block of one new element. */
  lemma UniqAppendRepeat(a: seq<string>, b: seq<string>, as': seq<string>, x: string)
    requires Uniq(a) == as' && (forall y :: y in a <==> y in as') && x !in as'
    requires b != [] && forall y :: y in b ==> y == x
    ensures Uniq(a + b) == as' + [x]
  {
    UniqAppend(a, b);
    UniqFromRepeat(b, x, Elems(a));
  }

  lemma {:induction false} GroupAllCongruent(p: seq<Requirement>, q: seq<Requirement>, ks: seq<string>)
    requires forall k :: k in ks ==> Group(p, k) == Group(q, k)
    ensures GroupAll(p, ks) == GroupAll(q, ks)
  {
    if ks != [] {
      GroupAllCongruent(p, q, ks[..|ks| - 1]);
    }
  }

  /** Normalizing normalized entries changes nothing. */
  lemma NormalizedEntriesIdempotent(p: seq<Requirement>)
    ensures NormalizedEntries(NormalizedEntries(p)) == NormalizedEntries(p)
  {
    var ks := Uniq(Keys(p));
    var e := NormalizedEntries(p);
    UniqKeysGroupAll(p, ks);
    forall k | k in ks ensures Group(e, k) == Group(p, k) {
      ConstraintsOfGroupAll(p, ks, k);
      UniqIdempotent(ConstraintsOf(p, k));
    }
    GroupAllCongruent(e, p, ks);
  }

  lemma NormalizedCanonical(p: seq<Requirement>)
    requires forall e :: e in p ==> Canonical(e)
    ensures forall e :: e in NormalizedEntries(p) ==> Canonical(e)
  {
    forall e | e in NormalizedEntries(p) ensures Canonical(e) {
      match e
      case Constrained(k, op, v) =>
        NormalizedEntriesContent(p, k, op, v);
      case Bare(k) =>
        NormalizedEntriesContent(p, k, "", "");
        var i :| 0 <= i < |p| && Keys(p)[i] == k;
        assert Canonical(p[i]);
    }
  }

  lemma {:induction false} ParseAllCanonical(reqs: seq<string>)
    requires ParseAll(reqs).Ok?
    ensures |ParseAll(reqs).value| == |reqs|
    ensures forall e :: e in ParseAll(reqs).value ==> Canonical(e)
  {
    if reqs != [] {
      SplitSound(reqs[0]);
      ParseAllCanonical(reqs[1..]);
    }
  }

  lemma ParseAllCons(reqs: seq<string>, e: Requirement)
    requires reqs != [] && SplitRequirement(reqs[0]) == Some(e)
    ensures ParseAll(reqs) == PrefixWith([e], ParseAll(reqs[1..]))
  {
  }

  lemma ParseRenderAll(es: seq<Requirement>)
    requires forall e :: e in es ==> Canonical(e)
    ensures ParseAll(RenderAll(es)) == Ok(es)
  {
    var rs := RenderAll(es);
    forall i | 0 <= i < |es| ensures SplitRequirement(rs[i]) == Some(es[i]) {
      SplitRender(es[i]);
    }
    ParseAllOfSplits(rs, es);
  }

  /** Strings that split one by one into `es` parse, all together, into `es`. */
  lemma {:induction false} ParseAllOfSplits(rs: seq<string>, es: seq<Requirement>)
    requires |rs| == |es| && forall i :: 0 <= i < |rs| ==> SplitRequirement(rs[i]) == Some(es[i])
    ensures ParseAll(rs) == Ok(es)
  {
    if rs != [] {
      forall i | 0 <= i < |rs| - 1 ensures SplitRequirement(rs[1..][i]) == Some(es[1..][i]) {
        assert rs[1..][i] == rs[i + 1] && es[1..][i] == es[i + 1];
      }
      ParseAllOfSplits(rs[1..], es[1..]);
      ParseAllCons(rs, es[0]);
      HeadTail(es);
    }
  }

  /** `normalize_requirements` applied to its own output gives that output back. */
  lemma NormalizeIdempotent(reqs: seq<string>)
    requires Normalize(reqs).Ok?
    ensures Normalize(Normalize(reqs).value) == Normalize(reqs)
  {
    var p := ParseAll(reqs).value;
    ParseAllCanonical(reqs);
    NormalizedCanonical(p);
    ParseRenderAll(NormalizedEntries(p));
    NormalizedEntriesIdempotent(p);
  }

  /** `reqs[i]` is the first requirement with two or more comparator runs. */
  predicate FirstMalformed(reqs: seq<string>, i: int) {
    && 0 <= i < |reqs| && Runs(reqs[i]) >= 2
    && forall j :: 0 <= j < i ==> Runs(reqs[j]) < 2
  }

  /** Normalization fails exactly at the first requirement with two or more comparator runs. */
  lemma {:induction false} NormalizeRejects(reqs: seq<string>)
    ensures Normalize(reqs).Err? <==> exists i :: 0 <= i < |reqs| && Runs(reqs[i]) >= 2
    ensures Normalize(reqs).Err? ==>
      exists i :: FirstMalformed(reqs, i) && Normalize(reqs).error == MalformedRequirement(reqs[i])
  {
    ParseAllRejects(reqs);
  }

  lemma {:induction false} ParseAllRejects(reqs: seq<string>)
    ensures ParseAll(reqs).Err? <==> exists i :: 0 <= i < |reqs| && Runs(reqs[i]) >= 2
    ensures ParseAll(reqs).Err? ==>
      exists i :: FirstMalformed(reqs, i) && ParseAll(reqs).error == MalformedRequirement(reqs[i])
  {
    if reqs != [] {
      SplitRejectsSecondRun(reqs[0]);
      ParseAllRejects(reqs[1..]);
      if ParseAll(reqs[1..]).Err? && Runs(reqs[0]) < 2 {
        var i :| FirstMalformed(reqs[1..], i) && ParseAll(reqs[1..]).error == MalformedRequirement(reqs[1..][i]);
        FirstMalformedCons(reqs, i);
      }
      if Runs(reqs[0]) >= 2 {
        assert FirstMalformed(reqs, 0);
      }
      if exists i :: 0 <= i < |reqs| && Runs(reqs[i]) >= 2 {
        var i :| 0 <= i < |reqs| && Runs(reqs[i]) >= 2;
        if i > 0 { assert reqs[1..][i - 1] == reqs[i]; }
      }
    }
  }

  /** A well-formed requirement put in front moves the first malformed one on by one. */
  lemma FirstMalformedCons(reqs: seq<string>, i: int)
    requires reqs != [] && Runs(reqs[0]) < 2 && FirstMalformed(reqs[1..], i)
    ensures FirstMalformed(reqs, i + 1) && reqs[i + 1] == reqs[1..][i]
  {
    forall j | 0 <= j < i + 1 ensures Runs(reqs[j]) < 2 {
      if j > 0 { assert reqs[j] == reqs[1..][j - 1]; }
    }
  }
}
