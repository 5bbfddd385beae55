/**
 * The array pipeline steps the file enumerators are built from: `filter`,
 * `map`, and `[...new Set(xs)]`, which drops repeated elements and keeps
 * each one where it first occurred.
 */
module Seqs {

  /** `a` can be read off `b` by deleting elements: the order of `b` is kept. */
  predicate IsSubsequence<T(==,!new)>(a: seq<T>, b: seq<T>)
    decreases |b|
  {
    a == [] || (b != [] && ((a[0] == b[0] && IsSubsequence(a[1..], b[1..])) || IsSubsequence(a, b[1..])))
  }

  predicate NoDuplicates<T(==,!new)>(xs: seq<T>) {
    forall i, j :: 0 <= i < j < |xs| ==> xs[i] != xs[j]
  }

  lemma SliceAround<T>(s: seq<T>, lo: int, hi: int)
    requires 0 <= lo <= hi <= |s|
    ensures s == s[..lo] + s[lo..hi] + s[hi..]
  {
  }

  lemma SliceOfSlice<T>(s: seq<T>, lo: int, hi: int, i: int, j: int)
    requires 0 <= lo <= hi <= |s| && 0 <= i <= j <= hi - lo
    ensures s[lo..hi][i..j] == s[lo + i..lo + j]
  {
    forall k | 0 <= k < j - i ensures s[lo..hi][i..j][k] == s[lo + i..lo + j][k] {
    }
  }

  lemma SliceOfAppend<T>(a: seq<T>, b: seq<T>, i: int, j: int)
    requires |a| <= i <= j <= |a| + |b|
    ensures (a + b)[i..j] == b[i - |a|..j - |a|]
  {
    forall k | 0 <= k < j - i ensures (a + b)[i..j][k] == b[i - |a|..j - |a|][k] {
    }
  }

  /** `xs.filter(keep)`: the elements that pass, in their original order. */
  function Filter<T(==,!new)>(xs: seq<T>, keep: T -> bool): (r: seq<T>)
    ensures forall x :: x in r <==> x in xs && keep(x)
    ensures IsSubsequence(r, xs)
    ensures |r| <= |xs|
  {
    if xs == [] then []
    else
      var rest := Filter(xs[1..], keep);
      if keep(xs[0]) then
        var r := [xs[0]] + rest;
        assert r[1..] == rest;
        r
      else rest
  }

  /** `filter` drops no passing occurrence: each passing element is kept as often as it occurs. */
  lemma {:induction false} FilterCounts<T(!new)>(xs: seq<T>, keep: T -> bool)
    ensures forall x :: multiset(Filter(xs, keep))[x] == if keep(x) then multiset(xs)[x] else 0
  {
    if xs != [] {
      FilterCounts(xs[1..], keep);
      var rest := Filter(xs[1..], keep);
      assert xs == [xs[0]] + xs[1..];
      assert multiset(xs) == multiset([xs[0]]) + multiset(xs[1..]);
      if keep(xs[0]) {
        assert Filter(xs, keep) == [xs[0]] + rest;
        assert multiset(Filter(xs, keep)) == multiset([xs[0]]) + multiset(rest);
      } else {
        assert Filter(xs, keep) == rest;
      }
    }
  }

  lemma {:induction false} FilterAppend<T(!new)>(a: seq<T>, b: seq<T>, keep: T -> bool)
    ensures Filter(a + b, keep) == Filter(a, keep) + Filter(b, keep)
  {
    if a != [] {
      assert (a + b)[1..] == a[1..] + b;
      FilterAppend(a[1..], b, keep);
    } else {
      assert a + b == b;
    }
  }

  /** `xs.map(f)`: one image per element, at the same position. */
  function MapSeq<T, U>(xs: seq<T>, f: T -> U): (r: seq<U>)
    ensures |r| == |xs|
    ensures forall i :: 0 <= i < |xs| ==> r[i] == f(xs[i])
  {
    if xs == [] then [] else [f(xs[0])] + MapSeq(xs[1..], f)
  }

  lemma {:induction false} MapSeqAppend<T, U>(a: seq<T>, b: seq<T>, f: T -> U)
    ensures MapSeq(a + b, f) == MapSeq(a, f) + MapSeq(b, f)
  {
    if a != [] {
      assert (a + b)[1..] == a[1..] + b;
      MapSeqAppend(a[1..], b, f);
    } else {
      assert a + b == b;
    }
  }

  lemma MapSeqMember<T, U>(xs: seq<T>, f: T -> U, y: U)
    ensures y in MapSeq(xs, f) <==> exists x :: x in xs && f(x) == y
  {
    var r := MapSeq(xs, f);
    if y in r {
      var i :| 0 <= i < |r| && r[i] == y;
      assert xs[i] in xs;
    }
    if exists x :: x in xs && f(x) == y {
      var x :| x in xs && f(x) == y;
      var i :| 0 <= i < |xs| && xs[i] == x;
      assert r[i] == y;
    }
  }

  /**
   * `[...new Set(xs)]`: no element twice, the same elements as `xs`. A set
   * remembers insertion order, so an element is kept where it first occurred.
   */
  function Dedup<T(==,!new)>(xs: seq<T>): (r: seq<T>)
    ensures NoDuplicates(r)
    ensures forall x :: x in r <==> x in xs
    ensures |r| <= |xs|
  {
    if xs == [] then []
    else
      var d := Dedup(xs[..|xs| - 1]);
      var last := xs[|xs| - 1];
      assert forall x :: x in xs <==> x in xs[..|xs| - 1] || x == last by {
        assert xs == xs[..|xs| - 1] + [last];
      }
      if last in d then d else d + [last]
  }

  /** The index of the first occurrence of `x` in `xs`. */
  function FirstIndex<T(==,!new)>(xs: seq<T>, x: T): (i: nat)
    requires x in xs
    ensures i < |xs| && xs[i] == x && x !in xs[..i]
  {
    if xs[0] == x then 0
    else
      var i := 1 + FirstIndex(xs[1..], x);
      assert xs[..i] == [xs[0]] + xs[1..][..i - 1];
      i
  }

  lemma {:induction false} FirstIndexUnique<T(!new)>(xs: seq<T>, x: T, i: nat)
    requires i < |xs| && xs[i] == x && x !in xs[..i]
    ensures FirstIndex(xs, x) == i
  {
    if i > 0 {
      assert xs[0] in xs[..i];
      assert xs[1..][..i - 1] == xs[1..i];
      assert forall y :: y in xs[1..i] ==> y in xs[..i];
      FirstIndexUnique(xs[1..], x, i - 1);
    }
  }

  /**
   * `Dedup` keeps first-occurrence order: of two kept elements, the one that
   * occurred first in `xs` comes first.
   */
  lemma {:induction false} DedupOrder<T(!new)>(xs: seq<T>)
    ensures forall i, j :: 0 <= i < j < |Dedup(xs)| ==>
              FirstIndex(xs, Dedup(xs)[i]) < FirstIndex(xs, Dedup(xs)[j])
    decreases |xs|
  {
    if xs != [] {
      var n := |xs| - 1;
      var init := xs[..n];
      var last := xs[n];
      DedupOrder(init);
      var d0 := Dedup(init);
      var d := Dedup(xs);
      assert d == if last in d0 then d0 else d0 + [last];
      forall z | z in init ensures FirstIndex(xs, z) == FirstIndex(init, z) {
        var k := FirstIndex(init, z);
        assert xs[..k] == init[..k];
        FirstIndexUnique(xs, z, k);
      }
      if last !in init {
        FirstIndexUnique(xs, last, n);
      }
      forall i, j | 0 <= i < j < |d| ensures FirstIndex(xs, d[i]) < FirstIndex(xs, d[j]) {
        assert d[i] == d0[i] && d[i] in init;
        assert FirstIndex(xs, d[i]) == FirstIndex(init, d[i]) < n;
        if j < |d0| {
          assert d[j] == d0[j] && d[j] in init;
          assert FirstIndex(xs, d[j]) == FirstIndex(init, d[j]);
          assert FirstIndex(init, d0[i]) < FirstIndex(init, d0[j]);
        } else {
          assert d[j] == last && last !in init;
          assert FirstIndex(xs, last) == n;
        }
      }
    }
  }

  /**
   * Deduplicating a concatenation keeps the deduplicated first part intact and
   * appends, in order, the first occurrences in the second part of what the
   * first part lacks.
   */
  lemma DedupSnoc<T(!new)>(xs: seq<T>, y: T)
    ensures Dedup(xs + [y]) == if y in xs then Dedup(xs) else Dedup(xs) + [y]
  {
    assert (xs + [y])[..|xs|] == xs;
  }

  lemma AppendAssoc<T>(x: seq<T>, y: seq<T>, z: seq<T>)
    ensures (x + y) + z == x + (y + z)
  {
  }

  lemma {:induction false} DedupAppend<T(!new)>(a: seq<T>, b: seq<T>, notInA: T -> bool)
    requires forall x :: notInA(x) <==> x !in a
    ensures Dedup(a + b) == Dedup(a) + Dedup(Filter(b, notInA))
    decreases |b|
  {
    if b == [] {
      assert a + b == a;
    } else {
      var init := b[..|b| - 1];
      var y := b[|b| - 1];
      assert b == init + [y];
      DedupAppend(a, init, notInA);
      var fi := Filter(init, notInA);
      FilterAppend(init, [y], notInA);
      assert a + b == (a + init) + [y];
      DedupSnoc(a + init, y);
      if y !in a {
        assert Filter([y], notInA) == [y] by { assert [y][1..] == []; }
        assert Filter(b, notInA) == fi + [y];
        DedupSnoc(fi, y);
        assert notInA(y);
        assert y in fi <==> y in init;
        assert y in a + init <==> y in init;
        if y in fi {
          assert Dedup(a + b) == Dedup(a + init);
          assert Dedup(Filter(b, notInA)) == Dedup(fi);
        } else {
          assert Dedup(a + b) == Dedup(a + init) + [y];
          assert Dedup(Filter(b, notInA)) == Dedup(fi) + [y];
          AppendAssoc(Dedup(a), Dedup(fi), [y]);
        }
      } else {
        assert Filter(b, notInA) == fi;
      }
    }
  }

  /** A sequence without repeats is its own deduplication. */
  lemma {:induction false} DedupOfDistinct<T(!new)>(xs: seq<T>)
    requires NoDuplicates(xs)
    ensures Dedup(xs) == xs
    decreases |xs|
  {
    if xs != [] {
      var init := xs[..|xs| - 1];
      DedupOfDistinct(init);
      assert xs == init + [xs[|xs| - 1]];
    }
  }
}
