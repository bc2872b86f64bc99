/** Sequence combinators used to state what a query returns: a query over a
    table is a filter of its rows, a join contributes one row per matching
    pair, and `set(...)` removes duplicates. */
module Seqs {

  /** The elements of `s` that satisfy `p`, in their original order, each as
      often as it occurs in `s`. */
  function Filter<T(!new)>(s: seq<T>, p: T -> bool): (r: seq<T>)
    ensures |r| <= |s|
    ensures forall x :: x in r <==> x in s && p(x)
    ensures forall x :: multiset(r)[x] == if p(x) then multiset(s)[x] else 0
  {
    if s == [] then []
    else
      var rest := Filter(s[1..], p);
      assert s == [s[0]] + s[1..];
      if p(s[0]) then [s[0]] + rest else rest
  }

  /** A condition every element meets filters nothing out. */
  lemma {:induction false} FilterAll<T(!new)>(s: seq<T>, p: T -> bool)
    requires forall x :: x in s ==> p(x)
    ensures Filter(s, p) == s
  {
    if s != [] {
      FilterAll(s[1..], p);
    }
  }

  /** Filtering twice is filtering by the conjunction. */
  lemma {:induction false} FilterFilter<T(!new)>(s: seq<T>, p: T -> bool, q: T -> bool, pq: T -> bool)
    requires forall x :: pq(x) == (p(x) && q(x))
    ensures Filter(Filter(s, p), q) == Filter(s, pq)
  {
    if s != [] {
      FilterFilter(s[1..], p, q, pq);
    }
  }

  /** Conditions that agree on the elements of `s` filter it alike. */
  lemma {:induction false} FilterSame<T(!new)>(s: seq<T>, p: T -> bool, q: T -> bool)
    requires forall x :: x in s ==> p(x) == q(x)
    ensures Filter(s, p) == Filter(s, q)
  {
    if s != [] {
      FilterSame(s[1..], p, q);
    }
  }

  /** Whether some element of `s` satisfies `p` (SQL `EXISTS` over a table). */
  function Any<T(!new)>(s: seq<T>, p: T -> bool): (b: bool)
    ensures b <==> exists i :: 0 <= i < |s| && p(s[i])
  {
    if s == [] then false
    else p(s[0]) || (assert forall i :: 1 <= i < |s| ==> s[i] == s[1..][i - 1]; Any(s[1..], p))
  }

  /** The number of elements of `s` that satisfy `p`. */
  function Count<T(!new)>(s: seq<T>, p: T -> bool): (n: nat)
    ensures n == |Filter(s, p)|
    ensures n == 0 <==> !Any(s, p)
  {
    if s == [] then 0
    else (if p(s[0]) then 1 else 0) + Count(s[1..], p)
  }

  /** The sum of `f` over the elements of `s`. */
  function Sum<T(!new)>(s: seq<T>, f: T -> nat): (n: nat)
    ensures n > 0 <==> exists i :: 0 <= i < |s| && f(s[i]) > 0
  {
    if s == [] then 0
    else f(s[0]) + (assert forall i :: 1 <= i < |s| ==> s[i] == s[1..][i - 1]; Sum(s[1..], f))
  }

  /** `n` copies of `x`. */
  function Repeat<T(!new)>(x: T, n: nat): (r: seq<T>)
    ensures |r| == n
    ensures forall i :: 0 <= i < n ==> r[i] == x
    ensures forall y :: y in r <==> n > 0 && y == x
    ensures forall y :: multiset(r)[y] == if y == x then n else 0
  {
    if n == 0 then [] else [x] + Repeat(x, n - 1)
  }

  /** Every element of `s` repeated `times(x)` times, in the order of `s`. */
  function Expand<T(!new)>(s: seq<T>, times: T -> nat): (r: seq<T>)
    ensures forall x :: x in r <==> x in s && times(x) > 0
    ensures |r| == Sum(s, times)
  {
    if s == [] then []
    else
      var rest := Expand(s[1..], times);
      assert s == [s[0]] + s[1..];
      Repeat(s[0], times(s[0])) + rest
  }

  /** Every element occurs in the expansion its own multiplicity times
      `times` of it. */
  lemma {:induction false} ExpandMultiset<T(!new)>(s: seq<T>, times: T -> nat, x: T)
    ensures multiset(Expand(s, times))[x] == multiset(s)[x] * times(x)
  {
    if s != [] {
      ExpandMultiset(s[1..], times, x);
      ExpandStep(s, times, x);
      var n := multiset(s[1..])[x];
      if s[0] == x {
        MulSucc(n, times(x));
      }
    }
  }

  /** One step of the expansion, counted for one element. */
  lemma ExpandStep<T(!new)>(s: seq<T>, times: T -> nat, x: T)
    requires s != []
    ensures multiset(Expand(s, times))[x] == (if s[0] == x then times(x) else 0) + multiset(Expand(s[1..], times))[x]
    ensures multiset(s)[x] == (if s[0] == x then 1 else 0) + multiset(s[1..])[x]
  {
    assert s == [s[0]] + s[1..];
    var head := Repeat(s[0], times(s[0]));
    var tail := Expand(s[1..], times);
    assert Expand(s, times) == head + tail;
    assert multiset(head + tail) == multiset(head) + multiset(tail);
  }

  lemma MulSucc(n: nat, t: nat)
    ensures (n + 1) * t == n * t + t
  {
  }

  /** In a duplicate-free sequence, `n` per occurrence of `x` is `n` when
      `x` is there and nothing otherwise. */
  lemma NoDupProduct<T(!new)>(s: seq<T>, x: T, n: nat)
    requires NoDup(s)
    ensures multiset(s)[x] * n == if x in s then n else 0
  {
    MultiplicityOfNoDup(s, x);
    var m := multiset(s)[x];
    if x in s {
      assert m == 1;
      assert m * n == n;
    } else {
      assert m == 0;
      assert m * n == 0;
    }
  }

  /** A duplicate-free sequence holds each of its elements once. */
  lemma DedupMultiset<T(!new)>(s: seq<T>, x: T)
    ensures multiset(Dedup(s))[x] == if x in s then 1 else 0
  {
    MultiplicityOfNoDup(Dedup(s), x);
  }

  predicate NoDup<T(==)>(s: seq<T>) {
    forall i, j :: 0 <= i < j < |s| ==> s[i] != s[j]
  }

  /** The first occurrence of every element of `s`, in order (Python's
      `set(...)` without its arbitrary iteration order). */
  function Dedup<T(==,!new)>(s: seq<T>): (r: seq<T>)
    ensures NoDup(r)
    ensures forall x :: x in r <==> x in s
    ensures |r| <= |s|
    decreases |s|
  {
    if s == [] then []
    else
      var init := s[..|s| - 1];
      var rest := Dedup(init);
      assert s == init + [s[|s| - 1]];
      if s[|s| - 1] in rest then rest else rest + [s[|s| - 1]]
  }

  /** A sequence without duplicates is exactly as long as its set of elements. */
  lemma {:induction false} NoDupCardinality<T(!new)>(s: seq<T>)
    requires NoDup(s)
    ensures |set x | x in s| == |s|
  {
    if s != [] {
      var init := s[..|s| - 1];
      var last := s[|s| - 1];
      assert NoDup(init);
      NoDupCardinality(init);
      assert s == init + [last];
      assert last !in init;
      assert (set x | x in s) == (set x | x in init) + {last};
    }
  }

  /** Taking elements of a duplicate-free sequence, at most as often as they
      occur there, gives a duplicate-free sequence (a permutation or a
      filter of it, say). */
  lemma NoDupSubmultiset<T(!new)>(a: seq<T>, b: seq<T>)
    requires NoDup(a) && multiset(b) <= multiset(a)
    ensures NoDup(b)
  {
    forall i, j | 0 <= i < j < |b| ensures b[i] != b[j] {
      if b[i] == b[j] {
        TwoOccurrences(b, i, j);
        MultiplicityOfNoDup(a, b[i]);
      }
    }
  }

  /** An element at two positions occurs at least twice. */
  lemma TwoOccurrences<T>(b: seq<T>, i: nat, j: nat)
    requires i < j < |b| && b[i] == b[j]
    ensures multiset(b)[b[i]] >= 2
  {
    var x := b[i];
    assert b == b[..i] + [x] + b[i + 1..j] + [x] + b[j + 1..];
    assert multiset(b) == multiset(b[..i]) + multiset{x} + multiset(b[i + 1..j]) + multiset{x} + multiset(b[j + 1..]);
  }

  lemma NoDupFilter<T(!new)>(s: seq<T>, p: T -> bool)
    requires NoDup(s)
    ensures NoDup(Filter(s, p))
  {
    NoDupSubmultiset(s, Filter(s, p));
  }

  lemma {:induction false} MultiplicityOfNoDup<T(!new)>(a: seq<T>, x: T)
    requires NoDup(a)
    ensures multiset(a)[x] <= 1
  {
    if a != [] {
      assert NoDup(a[1..]);
      MultiplicityOfNoDup(a[1..], x);
      assert a == [a[0]] + a[1..];
      assert a[0] !in a[1..];
    }
  }
}
