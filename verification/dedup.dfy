/** The two list operations of the incremental crawl: the diff
    `currentIds.filter(id => !prevIds.includes(id))` (main.js line 31) and
    the union `Array.from(new Set([...prevIds, ...currentIds]))` (line 41). */
module Dedup {

  predicate NoDup<T(==)>(s: seq<T>) {
    forall i, j :: 0 <= i < j < |s| ==> s[i] != s[j]
  }

  /** `a` can be obtained from `b` by deleting elements (matched greedily
      from the back, which finds an embedding whenever one exists). */
  predicate IsSubsequence<T(==)>(a: seq<T>, b: seq<T>)
    decreases |b|
  {
    if |a| == 0 then true
    else if |b| == 0 then false
    else if a[|a| - 1] == b[|b| - 1] then IsSubsequence(a[..|a| - 1], b[..|b| - 1])
    else IsSubsequence(a, b[..|b| - 1])
  }

  /** Position of the first occurrence of `x` in `s`. */
  function IndexOf<T(==)>(s: seq<T>, x: T): (i: nat)
    requires x in s
    ensures i < |s| && s[i] == x && x !in s[..i]
  {
    if s[0] == x then 0 else 1 + IndexOf(s[1..], x)
  }

  /** Order-preserving filter: the elements of `xs` that are not in
      `exclude`, repeats included. */
  function Diff<T(==,!new)>(xs: seq<T>, exclude: seq<T>): (r: seq<T>)
    ensures forall x {:trigger x in r} :: x in r <==> x in xs && x !in exclude
  {
    if |xs| == 0 then []
    else
      var init, last := xs[..|xs| - 1], xs[|xs| - 1];
      assert xs == init + [last];
      Diff(init, exclude) + (if last in exclude then [] else [last])
  }

  /** What iterating a JavaScript `Set` built from `s` yields: each element
      once, at the place of its first occurrence. */
  function Distinct<T(==,!new)>(s: seq<T>): (r: seq<T>)
    ensures forall x {:trigger x in r} :: x in r <==> x in s
    ensures NoDup(r)
  {
    if |s| == 0 then []
    else
      var init, last := s[..|s| - 1], s[|s| - 1];
      assert s == init + [last];
      var d := Distinct(init);
      if last in d then d else d + [last]
  }

  /** The list written back to the store: previous ids, then the page's. */
  function Union<T(==,!new)>(prev: seq<T>, current: seq<T>): (r: seq<T>)
    ensures forall x {:trigger x in r} :: x in r <==> x in prev || x in current
    ensures NoDup(r)
  {
    Distinct(prev + current)
  }

  /** The first occurrence is the one with no occurrence before it. */
  lemma IndexOfUnique<T(!new)>(s: seq<T>, x: T, i: nat)
    requires i < |s| && s[i] == x && x !in s[..i]
    ensures IndexOf(s, x) == i
  {
    var k := IndexOf(s, x);
    assert forall j :: 0 <= j < i ==> s[..i][j] != x;
    assert forall j :: 0 <= j < k ==> s[..k][j] != x;
  }

  lemma IndexOfAppend<T(!new)>(a: seq<T>, b: seq<T>, x: T)
    requires x in a
    ensures IndexOf(a + b, x) == IndexOf(a, x)
  {
    var i, k := IndexOf(a, x), IndexOf(a + b, x);
    assert forall j :: 0 <= j < i ==> a[..i][j] != x;
    assert forall j :: 0 <= j < k ==> (a + b)[..k][j] != x;
    assert (a + b)[i] == x;
  }

  /** `Diff` keeps each kept element as often as `xs` has it and drops
      every occurrence of the others: the filter loses no repeats. */
  lemma {:induction false} DiffMultiplicity<T(!new)>(xs: seq<T>, exclude: seq<T>)
    ensures forall x {:trigger multiset(Diff(xs, exclude))[x]} :: multiset(Diff(xs, exclude))[x] == if x in exclude then 0 else multiset(xs)[x]
  {
    if |xs| > 0 {
      var init, last := xs[..|xs| - 1], xs[|xs| - 1];
      assert xs == init + [last];
      DiffMultiplicity(init, exclude);
      var tail := if last in exclude then [] else [last];
      assert Diff(xs, exclude) == Diff(init, exclude) + tail;
    }
  }

  /** `Diff` keeps the order of `xs`: its result is a subsequence of `xs`. */
  lemma {:induction false} DiffIsSubsequence<T(!new)>(xs: seq<T>, exclude: seq<T>)
    ensures IsSubsequence(Diff(xs, exclude), xs)
  {
    if |xs| > 0 {
      var init, last := xs[..|xs| - 1], xs[|xs| - 1];
      var d := Diff(init, exclude);
      DiffIsSubsequence(init, exclude);
      if last !in exclude {
        assert Diff(xs, exclude) == d + [last];
        assert (d + [last])[..|d|] == d;
      } else {
        assert Diff(xs, exclude) == d;
        assert |d| > 0 ==> d[|d| - 1] in d;
      }
    }
  }

  /** The elements of `Distinct(s)` come in the order of their first
      occurrences in `s`. */
  lemma {:induction false} DistinctFirstOccurrenceOrder<T(!new)>(s: seq<T>)
    ensures forall i :: 0 <= i < |Distinct(s)| ==> Distinct(s)[i] in s
    ensures forall i, j :: 0 <= i < j < |Distinct(s)| ==> IndexOf(s, Distinct(s)[i]) < IndexOf(s, Distinct(s)[j])
  {
    if |s| > 0 {
      var init, last := s[..|s| - 1], s[|s| - 1];
      assert s == init + [last];
      var d := Distinct(init);
      DistinctFirstOccurrenceOrder(init);
      forall x | x in init
        ensures IndexOf(s, x) == IndexOf(init, x) < |init|
      {
        IndexOfAppend(init, [last], x);
      }
      if last !in d {
        assert s[..|init|] == init;
        IndexOfUnique(s, last, |init|);
      }
    }
  }

  /** A duplicate-free list is its own `Distinct`. */
  lemma {:induction false} DistinctOfNoDup<T(!new)>(s: seq<T>)
    requires NoDup(s)
    ensures Distinct(s) == s
  {
    if |s| > 0 {
      var init, last := s[..|s| - 1], s[|s| - 1];
      assert NoDup(init);
      DistinctOfNoDup(init);
      assert last !in init;
      assert s == init + [last];
    }
  }

  /** Adding one element at the end of the input. */
  lemma DistinctSnoc<T(!new)>(s: seq<T>, y: T)
    ensures Distinct(s + [y]) == if y in s then Distinct(s) else Distinct(s) + [y]
  {
    assert (s + [y])[..|s|] == s;
  }

  lemma DiffSnoc<T(!new)>(xs: seq<T>, y: T, exclude: seq<T>)
    ensures Diff(xs + [y], exclude) == Diff(xs, exclude) + if y in exclude then [] else [y]
  {
    assert (xs + [y])[..|xs|] == xs;
  }

  /** Sequence concatenation regroups; used where the solver, in a large
      context, does not find the regrouping itself. */
  lemma AppendAssociative<T>(a: seq<T>, b: seq<T>, c: seq<T>)
    ensures a + b + c == a + (b + c)
  {
  }

  /** Distinct elements of a concatenation: first `a`'s elements, then the
      elements of `b` that `a` lacks, each once. */
  lemma {:induction false} DistinctAppend<T(!new)>(a: seq<T>, b: seq<T>)
    ensures Distinct(a + b) == Distinct(a) + Distinct(Diff(b, a))
    decreases |b|
  {
    if |b| == 0 {
      assert a + b == a;
    } else {
      var b', y := b[..|b| - 1], b[|b| - 1];
      assert b == b' + [y];
      assert a + b == (a + b') + [y];
      DistinctAppend(a, b');
      DistinctSnoc(a + b', y);
      DiffSnoc(b', y, a);
      var e := Diff(b', a);
      if y in a {
        assert y in a + b';
        assert Diff(b, a) == e;
      } else if y in e {
        assert y in a + b';
        DistinctSnoc(e, y);
        assert Diff(b, a) == e + [y];
      } else {
        assert y !in a + b';
        DistinctSnoc(e, y);
        assert Diff(b, a) == e + [y];
        AppendAssociative(Distinct(a), Distinct(e), [y]);
      }
    }
  }

  /** When the stored list is duplicate-free, the union leaves it in place
      and appends the page's new ids, each once, in first-occurrence order. */
  lemma UnionExtendsPrev<T(!new)>(prev: seq<T>, current: seq<T>)
    requires NoDup(prev)
    ensures Union(prev, current) == prev + Distinct(Diff(current, prev))
  {
    DistinctAppend(prev, current);
    DistinctOfNoDup(prev);
  }

  /** Everything in `exclude` is filtered out, so a list diffed against a
      superset of itself is empty. */
  lemma {:induction false} DiffOfCovered<T(!new)>(xs: seq<T>, exclude: seq<T>)
    requires forall x :: x in xs ==> x in exclude
    ensures Diff(xs, exclude) == []
  {
    if |xs| > 0 {
      DiffOfCovered(xs[..|xs| - 1], exclude);
      assert xs[|xs| - 1] in xs;
    }
  }

  /** Diffing against nothing keeps everything. */
  lemma {:induction false} DiffOfEmpty<T(!new)>(xs: seq<T>)
    ensures Diff(xs, []) == xs
  {
    if |xs| > 0 {
      DiffOfEmpty(xs[..|xs| - 1]);
      assert xs == xs[..|xs| - 1] + [xs[|xs| - 1]];
    }
  }

  /** Storing the union a second time with the same page changes nothing. */
  lemma UnionIdempotent<T(!new)>(prev: seq<T>, current: seq<T>)
    ensures Union(Union(prev, current), current) == Union(prev, current)
  {
    var u := Union(prev, current);
    UnionExtendsPrev(u, current);
    DiffOfCovered(current, u);
  }
}
