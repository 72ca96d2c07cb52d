/**
 * `check_packages`: every distinct requirement string is split, its package
 * looked up in pkg-config and its version compared; a package name may be
 * requested only once.
 *
 * pkg-config itself is a value of type `PkgConfig`: `lookup(name)` is what
 * `pkgconfig(name)` finds (None where it raises because the package is not
 * installed) and `compare(a, b)` is the sign of comparing version `a` with
 * version `b` the way `LooseVersion` does.
 */
module Packages {

  import opened Wrappers
  import opened Errors
  import opened Lists
  import opened Utils
  import opened Requirements

  datatype Package = Package(name: string, version: string)

  datatype PkgConfig = PkgConfig(lookup: string -> Option<Package>, compare: (string, string) -> int)

  /** The operators `check_packages` knows. */
  predicate KnownOp(op: string) {
    op == ">" || op == ">=" || op == "<" || op == "<=" || op == "=="
  }

  /** Whether a comparison outcome satisfies a known operator; `==` is checked with `<=`. */
  predicate Accepts(op: string, c: int) {
    if op == ">" then c > 0
    else if op == ">=" then c >= 0
    else if op == "<" then c < 0
    else c <= 0
  }

  /**
   * The loop of `check_packages` over the remaining requirements, with the
   * names already `used`: split, look up, compare, then refuse a repeated name.
   */
  function CheckFrom(cfg: PkgConfig, reqs: seq<string>, used: set<string>): Result<seq<Package>, Error>
    decreases |reqs|
  {
    if reqs == [] then Ok([])
    else match SplitRequirement(reqs[0])
      case None => Err(MalformedRequirement(reqs[0]))
      case Some(e) =>
        match cfg.lookup(e.name)
        case None => Err(PackageNotFound(e.name))
        case Some(p) =>
          if e.Constrained? && !KnownOp(e.op) then Err(MalformedRequirement(reqs[0]))
          else if e.Constrained? && !Accepts(e.op, cfg.compare(p.version, e.version)) then
            Err(UnsatisfiedRequirement(p.name, e.op, e.version))
          else if p.name in used then Err(DuplicateRequirement(p.name))
          else PrefixWith([p], CheckFrom(cfg, reqs[1..], used + {p.name}))
  }

  /** What `check_packages(packages)` returns or raises. */
  function Checked(cfg: PkgConfig, packages: seq<string>): Result<seq<Package>, Error> {
    CheckFrom(cfg, Uniq(packages), {})
  }

  /**
   * The comparator dispatch of `check_packages`: whether comparison outcome
   * `c` meets `op`, or None for an unknown comparator.
   */
  method Satisfies(op: string, c: int) returns (ok: Option<bool>)
    ensures ok.None? <==> !KnownOp(op)
    ensures ok.Some? ==> ok.value == Accepts(op, c)
  {
    if op == ">" {
      ok := Some(c > 0);
    } else if op == ">=" {
      ok := Some(c >= 0);
    } else if op == "<" {
      ok := Some(c < 0);
    } else if op == "<=" {
      ok := Some(c <= 0);
    } else if op == "==" {
      ok := Some(c <= 0);
    } else {
      ok := None;
    }
  }

  /** `check_packages(packages)`. */
  method CheckPackages(cfg: PkgConfig, packages: seq<string>) returns (r: Result<seq<Package>, Error>)
    ensures r == Checked(cfg, packages)
  {
    var reqs := Uniq(packages);
    var used: set<string> := {};
    var retval: seq<Package> := [];
    assert reqs[0..] == reqs;
    PrefixWithNil(CheckFrom(cfg, reqs, {}));
    for i := 0 to |reqs|
      invariant Checked(cfg, packages) == PrefixWith(retval, CheckFrom(cfg, reqs[i..], used))
    {
      var requirement := reqs[i];
      assert reqs[i..][1..] == reqs[i + 1..];
      var split := SplitRequirement(requirement);
      if split.None? {
        return Err(MalformedRequirement(requirement));
      }
      var e := split.value;
      var found := cfg.lookup(e.name);
      if found.None? {
        return Err(PackageNotFound(e.name));
      }
      var p := found.value;
      if e.Constrained? {
        var ok := Satisfies(e.op, cfg.compare(p.version, e.version));
        if ok.None? {
          return Err(MalformedRequirement(requirement));
        }
        if !ok.value {
          return Err(UnsatisfiedRequirement(p.name, e.op, e.version));
        }
      }
      if p.name in used {
        return Err(DuplicateRequirement(p.name));
      }
      PrefixWithCons(retval, p, CheckFrom(cfg, reqs[i + 1..], used + {p.name}));
      retval := retval + [p];
      used := used + {p.name};
    }
    assert reqs[|reqs|..] == [];
    assert retval + [] == retval;
    r := Ok(retval);
  }

  // ------------------------------------------------------------ properties

  /** A requirement that parses, names an installed package and, if constrained, is met. */
  predicate Passes(cfg: PkgConfig, req: string) {
    match SplitRequirement(req)
    case None => false
    case Some(e) =>
      match cfg.lookup(e.name)
      case None => false
      case Some(p) => e.Bare? || (KnownOp(e.op) && Accepts(e.op, cfg.compare(p.version, e.version)))
  }

  /** The package a passing requirement resolves to. */
  function Found(cfg: PkgConfig, req: string): Package
    requires Passes(cfg, req)
  {
    cfg.lookup(SplitRequirement(req).value.name).value
  }

  /** Every requirement passes and the packages they resolve to have distinct names, none of them in `used`. */
  predicate AllPass(cfg: PkgConfig, reqs: seq<string>, used: set<string>) {
    && (forall i :: 0 <= i < |reqs| ==> Passes(cfg, reqs[i]) && Found(cfg, reqs[i]).name !in used)
    && (forall i, j :: 0 <= i < j < |reqs| && Passes(cfg, reqs[i]) && Passes(cfg, reqs[j]) ==>
          Found(cfg, reqs[i]).name != Found(cfg, reqs[j]).name)
  }

  function FoundAll(cfg: PkgConfig, reqs: seq<string>): seq<Package>
    requires forall i :: 0 <= i < |reqs| ==> Passes(cfg, reqs[i])
  {
    seq(|reqs|, i requires 0 <= i < |reqs| => Found(cfg, reqs[i]))
  }

  /** One step of the loop: a passing head either repeats a used name or is kept. */
  lemma CheckFromHead(cfg: PkgConfig, reqs: seq<string>, used: set<string>)
    requires reqs != []
    ensures !Passes(cfg, reqs[0]) ==> CheckFrom(cfg, reqs, used).Err?
    ensures Passes(cfg, reqs[0]) ==>
      var p := Found(cfg, reqs[0]);
      CheckFrom(cfg, reqs, used) ==
        if p.name in used then Err(DuplicateRequirement(p.name))
        else PrefixWith([p], CheckFrom(cfg, reqs[1..], used + {p.name}))
  {
  }

  lemma {:induction false} CheckFromSpec(cfg: PkgConfig, reqs: seq<string>, used: set<string>)
    ensures CheckFrom(cfg, reqs, used).Ok? <==> AllPass(cfg, reqs, used)
    ensures CheckFrom(cfg, reqs, used).Ok? ==> CheckFrom(cfg, reqs, used).value == FoundAll(cfg, reqs)
    decreases |reqs|
  {
    if reqs != [] {
      CheckFromHead(cfg, reqs, used);
      var rest := reqs[1..];
      if Passes(cfg, reqs[0]) {
        var p := Found(cfg, reqs[0]);
        CheckFromSpec(cfg, rest, used + {p.name});
        AllPassCons(cfg, reqs, used);
        if AllPass(cfg, reqs, used) {
          assert FoundAll(cfg, reqs) == [p] + FoundAll(cfg, rest);
        }
      }
    }
  }

  /** `AllPass` over a non-empty list: the head passes, is new, and the tail passes with its name used. */
  lemma AllPassCons(cfg: PkgConfig, reqs: seq<string>, used: set<string>)
    requires reqs != [] && Passes(cfg, reqs[0])
    ensures AllPass(cfg, reqs, used) <==>
      Found(cfg, reqs[0]).name !in used && AllPass(cfg, reqs[1..], used + {Found(cfg, reqs[0]).name})
  {
    var rest := reqs[1..];
    var n := Found(cfg, reqs[0]).name;
    assert forall i :: 1 <= i < |reqs| ==> reqs[i] == rest[i - 1];
    if AllPass(cfg, reqs, used) {
      forall i | 0 <= i < |rest| ensures Passes(cfg, rest[i]) && Found(cfg, rest[i]).name !in used + {n} {
        assert Passes(cfg, reqs[i + 1]);
      }
      forall i, j | 0 <= i < j < |rest| && Passes(cfg, rest[i]) && Passes(cfg, rest[j])
        ensures Found(cfg, rest[i]).name != Found(cfg, rest[j]).name
      {
        assert reqs[i + 1] == rest[i] && reqs[j + 1] == rest[j];
      }
    }
    if n !in used && AllPass(cfg, rest, used + {n}) {
      forall i, j | 0 <= i < j < |reqs| && Passes(cfg, reqs[i]) && Passes(cfg, reqs[j])
        ensures Found(cfg, reqs[i]).name != Found(cfg, reqs[j]).name
      {
        if i > 0 { assert reqs[i] == rest[i - 1]; }
      }
    }
  }

  /**
   * `check_packages` succeeds exactly when every distinct requirement passes
   * and no two of them resolve to the same package name; it then returns
   * those packages, in the order of the first occurrence of their requirement.
   */
  lemma CheckedSpec(cfg: PkgConfig, packages: seq<string>)
    ensures Checked(cfg, packages).Ok? <==> AllPass(cfg, Uniq(packages), {})
    ensures Checked(cfg, packages).Ok? ==> Checked(cfg, packages).value == FoundAll(cfg, Uniq(packages))
  {
    CheckFromSpec(cfg, Uniq(packages), {});
  }

  /** Repeating a requirement string already present changes nothing. */
  lemma CheckToleratesRepeats(cfg: PkgConfig, packages: seq<string>, x: string)
    requires x in packages
    ensures Checked(cfg, packages + [x]) == Checked(cfg, packages)
  {
    UniqSnoc(packages, x);
    assert Uniq(packages) + [] == Uniq(packages);
  }

  /** Two different requirement strings for one package make the check fail. */
  lemma CheckRejectsRecurring(cfg: PkgConfig, packages: seq<string>, a: string, b: string)
    requires a in packages && b in packages && a != b
    requires Passes(cfg, a) && Passes(cfg, b) && Found(cfg, a).name == Found(cfg, b).name
    ensures Checked(cfg, packages).Err?
  {
    var u := Uniq(packages);
    var i := IndexOf(u, a);
    var j := IndexOf(u, b);
    CheckedSpec(cfg, packages);
    if i < j {
      assert !AllPass(cfg, u, {});
    } else {
      assert !AllPass(cfg, u, {});
    }
  }

  /** Two different constraints on one package name make the check fail. */
  lemma CheckRejectsTwoConstraints(cfg: PkgConfig, n: string, op1: string, v1: string, op2: string, v2: string)
    requires Canonical(Constrained(n, op1, v1)) && Canonical(Constrained(n, op2, v2))
    requires (op1, v1) != (op2, v2)
    ensures Checked(cfg, [n + " " + op1 + " " + v1, n + " " + op2 + " " + v2]).Err?
  {
    SplitRender(Constrained(n, op1, v1));
    SplitRender(Constrained(n, op2, v2));
    CheckRejectsSameName(cfg, n + " " + op1 + " " + v1, n + " " + op2 + " " + v2);
  }

  /** Two different requirement strings that name the same package make the check fail. */
  lemma CheckRejectsSameName(cfg: PkgConfig, a: string, b: string)
    requires a != b && SplitRequirement(a).Some? && SplitRequirement(b).Some?
    requires SplitRequirement(a).value.name == SplitRequirement(b).value.name
    ensures Checked(cfg, [a, b]).Err?
  {
    if Passes(cfg, a) && Passes(cfg, b) {
      CheckRejectsRecurring(cfg, [a, b], a, b);
    } else {
      CheckPairFails(cfg, a, b);
    }
  }

  /** A pair of distinct requirements fails when either of them does not pass. */
  lemma CheckPairFails(cfg: PkgConfig, a: string, b: string)
    requires a != b && !(Passes(cfg, a) && Passes(cfg, b))
    ensures Checked(cfg, [a, b]).Err?
  {
    UniqOfNoDuplicates([a, b]);
    CheckedSpec(cfg, [a, b]);
    assert [a, b][0] == a && [a, b][1] == b;
  }

  /** Checking one requirement: it fails unless it passes, and then yields its package. */
  lemma CheckSingle(cfg: PkgConfig, req: string)
    ensures Passes(cfg, req) ==> Checked(cfg, [req]) == Ok([Found(cfg, req)])
    ensures !Passes(cfg, req) ==> Checked(cfg, [req]).Err?
  {
    UniqOfNoDuplicates([req]);
    CheckFromHead(cfg, [req], {});
    assert [req][1..] == [];
    if Passes(cfg, req) {
      var p := Found(cfg, req);
      assert CheckFrom(cfg, [], {p.name}) == Ok([]);
      assert [p] + [] == [p];
    }
  }

  /**
   * One constrained requirement: it is accepted exactly when the package is
   * installed and its version compares as the operator asks, with `==`
   * accepting every version up to the one named.
   */
  lemma CheckOperatorDispatch(cfg: PkgConfig, n: string, op: string, v: string)
    requires Canonical(Constrained(n, op, v))
    ensures Checked(cfg, [n + " " + op + " " + v]).Ok? <==>
      cfg.lookup(n).Some? &&
      var c := cfg.compare(cfg.lookup(n).value.version, v);
      || (op == ">" && c > 0)
      || (op == ">=" && c >= 0)
      || (op == "<" && c < 0)
      || (op == "<=" && c <= 0)
      || (op == "==" && c <= 0)
  {
    var e := Constrained(n, op, v);
    SplitRender(e);
    CheckConstrained(cfg, Render(e), n, op, v);
  }

  /** A single requirement that splits into `n op v` is accepted exactly when its comparison is. */
  lemma CheckConstrained(cfg: PkgConfig, req: string, n: string, op: string, v: string)
    requires SplitRequirement(req) == Some(Constrained(n, op, v))
    ensures Checked(cfg, [req]).Ok? <==>
      cfg.lookup(n).Some? && KnownOp(op) && Accepts(op, cfg.compare(cfg.lookup(n).value.version, v))
  {
    CheckSingle(cfg, req);
  }

  /**
   * A comparator run that is none of the five known ones is reported as a
   * parse error, but only once the package has been looked up: a missing
   * package is reported first.
   */
  lemma CheckUnknownOperatorAfterLookup(cfg: PkgConfig, n: string, op: string, v: string)
    requires Canonical(Constrained(n, op, v)) && !KnownOp(op)
    ensures Checked(cfg, [n + " " + op + " " + v]) ==
      if cfg.lookup(n).None? then Err(PackageNotFound(n))
      else Err(MalformedRequirement(n + " " + op + " " + v))
  {
    var req := n + " " + op + " " + v;
    SplitRender(Constrained(n, op, v));
    UniqOfNoDuplicates([req]);
  }

  /** A bare name only has to be installed. */
  lemma CheckBareName(cfg: PkgConfig, n: string)
    requires !HasOp(n)
    ensures Checked(cfg, [n]) == if cfg.lookup(n).None? then Err(PackageNotFound(n)) else Ok([cfg.lookup(n).value])
  {
    SplitBare(n);
    CheckSingle(cfg, n);
    if cfg.lookup(n).None? {
      UniqOfNoDuplicates([n]);
    }
  }
}
