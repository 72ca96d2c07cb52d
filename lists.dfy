/** Python list idioms used by the build helpers: membership order, reversal, duplicates. */
module Lists {

  predicate NoDuplicates<T(==)>(s: seq<T>) {
    forall i, j :: 0 <= i < j < |s| ==> s[i] != s[j]
  }

  function Elems<T>(s: seq<T>): set<T> {
    set x | x in s
  }

  /** `s.index(x)`: the position of the first occurrence of `x`. */
  function IndexOf<T(==)>(s: seq<T>, x: T): (i: nat)
    requires x in s
    ensures i < |s| && s[i] == x && x !in s[..i]
  {
    if s[0] == x then 0
    else
      var i := 1 + IndexOf(s[1..], x);
      assert s[..i] == [s[0]] + s[1..][..i - 1];
      i
  }

  /** Where a concatenation first holds `x`: inside the left part if `x` is there, otherwise after it. */
  lemma IndexOfConcat<T>(u: seq<T>, v: seq<T>, x: T)
    requires x in u + v
    ensures x in u ==> IndexOf(u + v, x) < |u|
    ensures x !in u ==> IndexOf(u + v, x) >= |u|
  {
    if x in u {
      var k :| 0 <= k < |u| && u[k] == x;
      assert (u + v)[k] == x;
    }
  }

  /** `s[::-1]`. */
  function Reverse<T>(s: seq<T>): seq<T> {
    seq(|s|, i requires 0 <= i < |s| => s[|s| - 1 - i])
  }

  lemma ReverseElems<T>(s: seq<T>)
    ensures forall x :: x in Reverse(s) <==> x in s
  {
    forall x | x in s ensures x in Reverse(s) {
      var k :| 0 <= k < |s| && s[k] == x;
      assert Reverse(s)[|s| - 1 - k] == x;
    }
  }

  lemma ReverseNoDuplicates<T>(s: seq<T>)
    requires NoDuplicates(s)
    ensures NoDuplicates(Reverse(s))
  {
  }

  /** A list without duplicates holds each of its elements exactly once. */
  lemma {:induction false} NoDuplicatesCount<T>(s: seq<T>, x: T)
    requires NoDuplicates(s) && x in s
    ensures multiset(s)[x] == 1
  {
    var t := s[1..];
    assert s == [s[0]] + t;
    if s[0] == x {
      assert x !in t by {
        forall i | 0 <= i < |t| ensures t[i] != x { assert t[i] == s[i + 1]; }
      }
    } else {
      assert NoDuplicates(t) by {
        forall i, j | 0 <= i < j < |t| ensures t[i] != t[j] { assert t[i] == s[i + 1] && t[j] == s[j + 1]; }
      }
      NoDuplicatesCount(t, x);
    }
  }

  /** A prefix grown by one element. */
  lemma TakeSnoc<T>(s: seq<T>, k: nat)
    requires k < |s|
    ensures s[..k + 1] == s[..k] + [s[k]]
    ensures multiset(s[..k + 1]) == multiset(s[..k]) + multiset{s[k]}
  {
    assert s[..k + 1] == s[..k] + [s[k]];
  }

  /** Dropping the last element of a list without duplicates: the rest has none, and lacks that element. */
  lemma NoDuplicatesInit<T>(s: seq<T>)
    requires s != [] && NoDuplicates(s)
    ensures NoDuplicates(s[..|s| - 1]) && s[|s| - 1] !in s[..|s| - 1]
  {
  }

  /** Membership after appending a block made of one repeated element. */
  lemma MembersAppendRepeat<T>(a: seq<T>, b: seq<T>, as': seq<T>, x: T)
    requires forall y :: y in a <==> y in as'
    requires b != [] && forall y :: y in b ==> y == x
    ensures forall y :: y in a + b <==> y in as' + [x]
  {
    assert b[0] in b;
  }

  /** No duplicates, stated element by element from the end: a form that induction on the last element uses directly. */
  predicate Distinct<T(==)>(s: seq<T>) {
    s == [] || (Distinct(s[..|s| - 1]) && s[|s| - 1] !in s[..|s| - 1])
  }

  lemma {:induction false} DistinctOfNoDuplicates<T>(s: seq<T>)
    requires NoDuplicates(s)
    ensures Distinct(s)
  {
    if s != [] {
      NoDuplicatesInit(s);
      DistinctOfNoDuplicates(s[..|s| - 1]);
    }
  }

  /** A non-empty list is its front followed by its last element. */
  lemma SplitLast<T>(s: seq<T>)
    requires s != []
    ensures s == s[..|s| - 1] + [s[|s| - 1]]
  {
  }

  /** Membership in a non-empty list: in its front or its last element. */
  lemma InSnoc<T>(s: seq<T>, x: T)
    requires s != []
    ensures x in s <==> x in s[..|s| - 1] || x == s[|s| - 1]
  {
    SplitLast(s);
  }

  /** A list is its first `m` elements followed by the rest. */
  lemma TakeDrop<T>(s: seq<T>, m: nat)
    requires m <= |s|
    ensures s == s[..m] + s[m..]
  {
  }

  /** A non-empty list is its head followed by its tail. */
  lemma HeadTail<T>(s: seq<T>)
    requires s != []
    ensures s == [s[0]] + s[1..]
  {
  }

  /** Concatenation is associative. */
  lemma AppendAssoc<T>(x: seq<T>, y: seq<T>, z: seq<T>)
    ensures (x + y) + z == x + (y + z)
  {
  }

  /** `f` applied to each element in turn, the results concatenated. */
  function ConcatMap<T, U>(f: T -> seq<U>, xs: seq<T>): seq<U> {
    if xs == [] then []
    else ConcatMap(f, xs[..|xs| - 1]) + f(xs[|xs| - 1])
  }

  lemma {:induction false} ConcatMapAppend<T, U>(f: T -> seq<U>, a: seq<T>, b: seq<T>)
    ensures ConcatMap(f, a + b) == ConcatMap(f, a) + ConcatMap(f, b)
  {
    if b == [] {
      assert a + b == a;
    } else {
      var ab := a + b;
      assert ab[..|ab| - 1] == a + b[..|b| - 1];
      assert ab[|ab| - 1] == b[|b| - 1];
      ConcatMapAppend(f, a, b[..|b| - 1]);
      AppendAssoc(ConcatMap(f, a), ConcatMap(f, b[..|b| - 1]), f(b[|b| - 1]));
    }
  }

  lemma {:induction false} ConcatMapMembership<T, U>(f: T -> seq<U>, xs: seq<T>, x: U)
    ensures x in ConcatMap(f, xs) <==> exists k :: 0 <= k < |xs| && x in f(xs[k])
  {
    if xs != [] {
      var init := xs[..|xs| - 1];
      ConcatMapMembership(f, init, x);
      ConcatMapMembershipStep(f, xs, init, x);
    }
  }

  lemma ConcatMapMembershipStep<T, U>(f: T -> seq<U>, xs: seq<T>, init: seq<T>, x: U)
    requires xs != [] && init == xs[..|xs| - 1]
    requires x in ConcatMap(f, init) <==> exists k :: 0 <= k < |init| && x in f(init[k])
    ensures x in ConcatMap(f, xs) <==> exists k :: 0 <= k < |xs| && x in f(xs[k])
  {
    if exists k :: 0 <= k < |xs| && x in f(xs[k]) {
      var k :| 0 <= k < |xs| && x in f(xs[k]);
      if k < |xs| - 1 { assert xs[k] == init[k]; }
    }
  }

  /** `xs` is the subsequence of `ys` found at the increasing positions `f`. */
  predicate PicksInOrder<T(==)>(f: seq<int>, xs: seq<T>, ys: seq<T>) {
    && |f| == |xs|
    && (forall k :: 0 <= k < |f| ==> 0 <= f[k] < |ys| && ys[f[k]] == xs[k])
    && (forall k, l :: 0 <= k < l < |f| ==> f[k] < f[l])
  }

  /** Every position moved `d` places on. */
  function Shift(f: seq<int>, d: int): (r: seq<int>)
    ensures |r| == |f| && forall k :: 0 <= k < |f| ==> r[k] == f[k] + d
  {
    seq(|f|, k requires 0 <= k < |f| => f[k] + d)
  }

  lemma ShiftMembership(f: seq<int>, d: int, i: int)
    ensures i in Shift(f, d) <==> i - d in f
  {
    if i - d in f {
      var k :| 0 <= k < |f| && f[k] == i - d;
      assert Shift(f, d)[k] == i;
    }
  }

  /** Elements put in front of `ys` move its picked positions on by their number. */
  lemma PicksSkip<T>(f: seq<int>, xs: seq<T>, ys: seq<T>, zs: seq<T>)
    requires PicksInOrder(f, xs, ys)
    ensures PicksInOrder(Shift(f, |zs|), xs, zs + ys)
  {
    forall k | 0 <= k < |f| ensures (zs + ys)[f[k] + |zs|] == ys[f[k]] {
    }
  }

  /** Picking `x` after skipping `zs`, then the old picks further on. */
  lemma PicksPick<T>(f: seq<int>, xs: seq<T>, ys: seq<T>, zs: seq<T>, x: T)
    requires PicksInOrder(f, xs, ys)
    ensures PicksInOrder([|zs|] + Shift(f, |zs| + 1), [x] + xs, zs + [x] + ys)
  {
    var ws := zs + [x] + ys;
    var g := [|zs|] + Shift(f, |zs| + 1);
    forall k | 0 < k < |g| ensures 0 <= g[k] < |ws| && ws[g[k]] == ([x] + xs)[k] {
      assert g[k] == f[k - 1] + |zs| + 1;
      assert ws[f[k - 1] + |zs| + 1] == ys[f[k - 1]];
    }
  }

  /** A new last element of `ys` is either left out or picked as the new last element of `xs`. */
  lemma PicksSnoc<T>(f: seq<int>, xs: seq<T>, ys: seq<T>, y: T)
    requires PicksInOrder(f, xs, ys)
    ensures PicksInOrder(f, xs, ys + [y])
    ensures PicksInOrder(f + [|ys|], xs + [y], ys + [y])
  {
    forall k | 0 <= k < |f| ensures (ys + [y])[f[k]] == ys[f[k]] {
    }
  }

  /** `[x for x in xs if keep(x)]`. */
  function Filter<T>(keep: T -> bool, xs: seq<T>): seq<T> {
    if xs == [] then []
    else Filter(keep, xs[..|xs| - 1]) + (if keep(xs[|xs| - 1]) then [xs[|xs| - 1]] else [])
  }

  /** `r` is `xs` at the increasing positions `f`, which are exactly the positions `keep` accepts. */
  predicate FilteredAt<T(==)>(f: seq<int>, r: seq<T>, keep: T -> bool, xs: seq<T>) {
    PicksInOrder(f, r, xs) && AcceptedAt(f, keep, xs)
  }

  /** The positions in `f` are exactly the positions of `xs` whose element `keep` accepts. */
  predicate AcceptedAt<T>(f: seq<int>, keep: T -> bool, xs: seq<T>) {
    forall i :: 0 <= i < |xs| ==> (i in f <==> keep(xs[i]))
  }

  /** A filter keeps the accepted elements in their order, each once. */
  lemma {:induction false} FilterInOrder<T>(keep: T -> bool, xs: seq<T>)
    ensures exists f :: FilteredAt(f, Filter(keep, xs), keep, xs)
  {
    if xs == [] {
      assert Filter(keep, xs) == [];
      assert FilteredAt([], Filter(keep, xs), keep, xs);
    } else {
      var n := |xs| - 1;
      var init := xs[..n];
      FilterInOrder(keep, init);
      var f :| FilteredAt(f, Filter(keep, init), keep, init);
      SplitLast(xs);
      PicksBelow(f, Filter(keep, init), init);
      AcceptedSnoc(f, keep, init, xs[n]);
      if keep(xs[n]) {
        assert Filter(keep, xs) == Filter(keep, init) + [xs[n]];
        PicksSnoc(f, Filter(keep, init), init, xs[n]);
        assert FilteredAt(f + [n], Filter(keep, xs), keep, xs);
      } else {
        assert Filter(keep, xs) == Filter(keep, init) + [];
        PicksSnoc(f, Filter(keep, init), init, xs[n]);
        assert Filter(keep, init) + [] == Filter(keep, init);
        assert FilteredAt(f, Filter(keep, xs), keep, xs);
      }
    }
  }

  /** No position of `f` into `xs` is `|xs|`. */
  lemma PicksBelow<T>(f: seq<int>, r: seq<T>, xs: seq<T>)
    requires PicksInOrder(f, r, xs)
    ensures |xs| !in f
  {
    forall k | 0 <= k < |f| ensures f[k] != |xs| {
    }
  }

  /** A new last element is accepted at its position exactly when `keep` accepts it. */
  lemma AcceptedSnoc<T>(f: seq<int>, keep: T -> bool, xs: seq<T>, x: T)
    requires AcceptedAt(f, keep, xs) && |xs| !in f
    ensures AcceptedAt(if keep(x) then f + [|xs|] else f, keep, xs + [x])
  {
    var f' := if keep(x) then f + [|xs|] else f;
    forall i | 0 <= i < |xs| + 1 ensures (i in f' <==> keep((xs + [x])[i])) {
      if i < |xs| {
        assert (xs + [x])[i] == xs[i];
        assert i in f' <==> i in f;
      }
    }
  }
}
