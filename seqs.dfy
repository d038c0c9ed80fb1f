/**
 * The array operations the filter and the category list are built from:
 * `filter`, and `Array.from(new Set(...))`, whose values come out in the
 * order they were first inserted.
 */
module Seqs {

  /** `Array.prototype.filter`: the elements satisfying `p`, in their original order. */
  function Where<T(==,!new)>(xs: seq<T>, p: T -> bool): (r: seq<T>)
    ensures |r| <= |xs|
    ensures forall x :: x in r <==> x in xs && p(x)
    ensures forall x :: multiset(r)[x] == if p(x) then multiset(xs)[x] else 0
  {
    if xs == [] then []
    else
      assert xs == [xs[0]] + xs[1..];
      if p(xs[0]) then [xs[0]] + Where(xs[1..], p) else Where(xs[1..], p)
  }

  /** `a` is `b` with some of its elements left out and the rest in their original order. */
  predicate IsSubsequence<T(==)>(a: seq<T>, b: seq<T>) {
    a == [] || (b != [] && ((a[0] == b[0] && IsSubsequence(a[1..], b[1..])) || IsSubsequence(a, b[1..])))
  }

  /** Filtering keeps the original relative order. */
  lemma {:induction false} WhereIsSubsequence<T(!new)>(xs: seq<T>, p: T -> bool)
    ensures IsSubsequence(Where(xs, p), xs)
  {
    if xs != [] {
      WhereIsSubsequence(xs[1..], p);
    }
  }

  /** Filtering with a predicate that every element meets gives back the whole sequence. */
  lemma {:induction false} WhereAll<T(!new)>(xs: seq<T>, p: T -> bool)
    requires forall x :: x in xs ==> p(x)
    ensures Where(xs, p) == xs
  {
    if xs != [] {
      WhereAll(xs[1..], p);
    }
  }

  /** Two predicates that agree on the elements filter alike. */
  lemma {:induction false} WhereExt<T(!new)>(xs: seq<T>, p: T -> bool, q: T -> bool)
    requires forall x :: x in xs ==> p(x) == q(x)
    ensures Where(xs, p) == Where(xs, q)
  {
    if xs != [] {
      WhereExt(xs[1..], p, q);
    }
  }

  predicate NoDup<T(==)>(xs: seq<T>) {
    forall i, j :: 0 <= i < j < |xs| ==> xs[i] != xs[j]
  }

  /** Position of the first occurrence of `x`. */
  function IndexOf<T(==)>(xs: seq<T>, x: T): (k: nat)
    requires x in xs
    ensures k < |xs| && xs[k] == x && x !in xs[..k]
  {
    if xs[0] == x then 0
    else
      var k := IndexOf(xs[1..], x);
      assert xs[..k + 1] == [xs[0]] + xs[1..][..k];
      k + 1
  }

  lemma {:induction false} IndexOfAppend<T>(xs: seq<T>, y: T, x: T)
    requires x in xs
    ensures IndexOf(xs + [y], x) == IndexOf(xs, x)
  {
    if xs[0] != x {
      assert (xs + [y])[1..] == xs[1..] + [y];
      IndexOfAppend(xs[1..], y, x);
    }
  }

  lemma IndexOfNew<T>(xs: seq<T>, x: T)
    requires x !in xs
    ensures IndexOf(xs + [x], x) == |xs|
  {
    var k := IndexOf(xs + [x], x);
  }

  /** Reference definition: the elements of `xs` that do not occur earlier in `xs`. */
  function Firsts<T(==,!new)>(xs: seq<T>): (r: seq<T>)
    ensures |r| <= |xs|
    ensures NoDup(r)
    ensures forall x :: x in r <==> x in xs
  {
    if xs == [] then []
    else
      var p, x := xs[..|xs| - 1], xs[|xs| - 1];
      assert xs == p + [x];
      if x in p then Firsts(p) else Firsts(p) + [x]
  }

  /** The first occurrences appear in the order in which they first occur. */
  lemma {:induction false} FirstsOrdered<T(!new)>(xs: seq<T>)
    ensures forall i, j :: 0 <= i < j < |Firsts(xs)| ==> IndexOf(xs, Firsts(xs)[i]) < IndexOf(xs, Firsts(xs)[j])
  {
    if xs != [] {
      var p, x := xs[..|xs| - 1], xs[|xs| - 1];
      assert xs == p + [x];
      FirstsOrdered(p);
      var f := Firsts(p);
      forall y | y in f ensures IndexOf(xs, y) == IndexOf(p, y) {
        IndexOfAppend(p, x, y);
      }
      if x !in p {
        IndexOfNew(p, x);
        assert Firsts(xs) == f + [x];
        forall i, j | 0 <= i < j < |Firsts(xs)|
          ensures IndexOf(xs, Firsts(xs)[i]) < IndexOf(xs, Firsts(xs)[j])
        {
          assert Firsts(xs)[i] == f[i];
          if j < |f| {
            assert Firsts(xs)[j] == f[j];
          }
        }
      }
    }
  }

  /** Inserting into a JavaScript `Set` in order: a value already present is skipped. */
  function InsertAll<T(==)>(acc: seq<T>, xs: seq<T>): seq<T>
    decreases xs
  {
    if xs == [] then acc
    else InsertAll(if xs[0] in acc then acc else acc + [xs[0]], xs[1..])
  }

  /** Appending one element adds it to the first occurrences exactly when it is new. */
  lemma FirstsSnoc<T(!new)>(p: seq<T>, y: T)
    ensures Firsts(p + [y]) == if y in Firsts(p) then Firsts(p) else Firsts(p) + [y]
  {
    var q := p + [y];
    assert q[..|q| - 1] == p;
  }

  /** Inserting the rest of a sequence into the set of its first part yields the first occurrences of the whole. */
  lemma {:induction false} InsertAllFirsts<T(!new)>(p: seq<T>, ys: seq<T>)
    ensures InsertAll(Firsts(p), ys) == Firsts(p + ys)
    decreases ys
  {
    if ys == [] {
      assert p + ys == p;
    } else {
      var q := p + [ys[0]];
      FirstsSnoc(p, ys[0]);
      assert InsertAll(Firsts(p), ys) == InsertAll(Firsts(q), ys[1..]);
      InsertAllFirsts(q, ys[1..]);
      assert q + ys[1..] == p + ys;
    }
  }

  /** `Array.from(new Set(xs))`: every value of `xs` once, in order of first occurrence. */
  function Distinct<T(==,!new)>(xs: seq<T>): (r: seq<T>)
    ensures |r| <= |xs|
    ensures NoDup(r)
    ensures forall x :: x in r <==> x in xs
    ensures forall i, j :: 0 <= i < j < |r| ==> IndexOf(xs, r[i]) < IndexOf(xs, r[j])
  {
    InsertAllFirsts([], xs);
    assert [] + xs == xs;
    FirstsOrdered(xs);
    InsertAll([], xs)
  }
}
