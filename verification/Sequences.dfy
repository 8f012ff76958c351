/** Searching, joining and cancelling sequences. */
module Sequences {
  import opened Wrappers

  predicate OccursAt<T(==)>(s: seq<T>, pattern: seq<T>, i: nat) {
    i + |pattern| <= |s| && s[i..i + |pattern|] == pattern
  }

  /** p is an index into s (so not the end position) and the first match. */
  ghost predicate FirstAt<T>(s: seq<T>, pattern: seq<T>, p: nat) {
    && p < |s|
    && OccursAt(s, pattern, p)
    && forall q: nat :: q < p ==> !OccursAt(s, pattern, q)
  }

  function FindFrom<T(==)>(s: seq<T>, pattern: seq<T>, from: nat): (r: Option<nat>)
    requires from <= |s|
    ensures r.Some? ==> from <= r.value < |s| && OccursAt(s, pattern, r.value)
    ensures r.Some? ==> forall q: nat :: from <= q < r.value ==> !OccursAt(s, pattern, q)
    ensures r.None? ==> forall q: nat :: from <= q < |s| ==> !OccursAt(s, pattern, q)
    decreases |s| - from
  {
    if from == |s| then None
    else if OccursAt(s, pattern, from) then Some(from)
    else FindFrom(s, pattern, from + 1)
  }

  function Find<T(==)>(s: seq<T>, pattern: seq<T>): (r: Option<nat>)
    ensures r.Some? ==> FirstAt(s, pattern, r.value)
    ensures r.None? ==> forall q: nat :: q < |s| ==> !OccursAt(s, pattern, q)
  {
    FindFrom(s, pattern, 0)
  }

  /** The first match is determined by the sequence and the pattern. */
  lemma FindIs<T>(s: seq<T>, pattern: seq<T>, p: nat)
    requires FirstAt(s, pattern, p)
    ensures Find(s, pattern) == Some(p)
  {
  }

  /** A match in a prefix is a match in the whole, at the same index. */
  lemma OccursInPrefix<T>(a: seq<T>, b: seq<T>, pattern: seq<T>, i: nat)
    requires i + |pattern| <= |a|
    ensures OccursAt(a + b, pattern, i) <==> OccursAt(a, pattern, i)
  {
  }

  lemma FindMark<T>(a: seq<T>, mark: T, b: seq<T>)
    requires mark !in a
    ensures Find(a + [mark] + b, [mark]) == Some(|a|)
  {
    var s := a + [mark] + b;
    assert s[|a|..|a| + 1] == [mark];
    forall q: nat | q < |a|
      ensures !OccursAt(s, [mark], q)
    {
      assert s[q..q + 1][0] == a[q] && a[q] in a;
    }
    FindIs(s, [mark], |a|);
  }

  lemma FindNoMark<T>(a: seq<T>, mark: T)
    requires mark !in a
    ensures Find(a, [mark]) == None
  {
    forall q: nat | q < |a|
      ensures !OccursAt(a, [mark], q)
    {
      assert a[q..q + 1][0] == a[q] && a[q] in a;
    }
  }

  /** What is found in the bytes received so far is what the whole stream holds. */
  lemma FindInPrefix<T>(a: seq<T>, b: seq<T>, pattern: seq<T>)
    requires Find(a, pattern).Some?
    ensures Find(a + b, pattern) == Find(a, pattern)
    ensures Find(a, pattern).value + |pattern| <= |a|
  {
    var p := Find(a, pattern).value;
    OccursInPrefix(a, b, pattern, p);
    forall q: nat | q < p
      ensures !OccursAt(a + b, pattern, q)
    {
      OccursInPrefix(a, b, pattern, q);
      assert !OccursAt(a, pattern, q);
    }
    FindIs(a + b, pattern, p);
  }

  function Flatten<T>(chunks: seq<seq<T>>): (s: seq<T>)
    ensures |chunks| == 1 ==> s == chunks[0]
  {
    if chunks == [] then [] else Flatten(chunks[..|chunks| - 1]) + chunks[|chunks| - 1]
  }

  lemma CancelPrefix<T>(a: seq<T>, b: seq<T>, c: seq<T>)
    requires a + b == a + c
    ensures b == c
  {
    assert b == (a + b)[|a|..] && c == (a + c)[|a|..];
  }

  /** The texts with a mark between each two of them. */
  function Join(texts: seq<string>, mark: char): string
    requires texts != []
  {
    if |texts| == 1 then texts[0] else texts[0] + [mark] + Join(texts[1..], mark)
  }

  /** The images of the elements, one after the other. */
  function ConcatMap<A, T>(xs: seq<A>, f: A -> seq<T>): seq<T> {
    if xs == [] then [] else f(xs[0]) + ConcatMap(xs[1..], f)
  }

  lemma Associates<T>(a: seq<T>, b: seq<T>, c: seq<T>)
    ensures a + (b + c) == a + b + c
  {
  }

  lemma {:induction false} ConcatMapSplit<A, T>(xs: seq<A>, ys: seq<A>, f: A -> seq<T>)
    ensures ConcatMap(xs + ys, f) == ConcatMap(xs, f) + ConcatMap(ys, f)
  {
    if xs == [] {
      assert xs + ys == ys;
    } else {
      ConcatMapSplit(xs[1..], ys, f);
      assert (xs + ys)[0] == xs[0] && (xs + ys)[1..] == xs[1..] + ys;
      Associates(f(xs[0]), ConcatMap(xs[1..], f), ConcatMap(ys, f));
    }
  }

  lemma ConcatMapAppend<A, T>(xs: seq<A>, x: A, f: A -> seq<T>)
    ensures ConcatMap(xs + [x], f) == ConcatMap(xs, f) + f(x)
  {
    if xs == [] {
      assert [x][1..] == [];
      assert ConcatMap([x], f) == f(x) + ConcatMap([], f);
    } else {
      ConcatMapAppend(xs[1..], x, f);
      assert (xs + [x])[1..] == xs[1..] + [x];
    }
  }
}
