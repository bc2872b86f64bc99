/** `ORDER BY` and `sorted(...)`: a stable insertion sort on a key under a
    total preorder. SQL leaves the order of equal keys open; the model fixes
    it as the input order. */
module Sorting {
  import Text
  import Seqs

  ghost predicate TotalPreorder<K(!new)>(le: (K, K) -> bool) {
    (forall a, b :: le(a, b) || le(b, a)) &&
    (forall a, b, c :: le(a, b) && le(b, c) ==> le(a, c))
  }

  predicate SortedBy<T(!new), K>(s: seq<T>, key: T -> K, le: (K, K) -> bool) {
    forall i, j :: 0 <= i < j < |s| ==> le(key(s[i]), key(s[j]))
  }

  function Insert<T(!new), K(!new)>(x: T, s: seq<T>, key: T -> K, le: (K, K) -> bool): (r: seq<T>)
    requires TotalPreorder(le) && SortedBy(s, key, le)
    ensures SortedBy(r, key, le)
    ensures multiset(r) == multiset(s) + multiset{x}
    ensures |r| == |s| + 1
  {
    if s == [] then [x]
    else if le(key(x), key(s[0])) then [x] + s
    else
      var rest := Insert(x, s[1..], key, le);
      assert s == [s[0]] + s[1..];
      assert le(key(s[0]), key(x));
      forall j | 0 <= j < |rest| ensures le(key(s[0]), key(rest[j])) {
        var y := rest[j];
        assert y in multiset(rest);
        if y != x {
          assert y in multiset(s[1..]);
          var k :| 0 <= k < |s[1..]| && s[1..][k] == y;
          assert s[k + 1] == y;
        }
      }
      [s[0]] + rest
  }

  /** Dropping the head of an ordered sequence keeps it ordered, and the
      head comes before everything left. */
  lemma SortedTail<T(!new), K>(s: seq<T>, key: T -> K, le: (K, K) -> bool)
    requires s != [] && SortedBy(s, key, le)
    ensures SortedBy(s[1..], key, le)
    ensures forall y :: y in s[1..] ==> le(key(s[0]), key(y))
  {
    forall y | y in s[1..] ensures le(key(s[0]), key(y)) {
      var k :| 0 <= k < |s[1..]| && s[1..][k] == y;
      assert s[k + 1] == y;
    }
  }

  /** An element before everything in an ordered sequence heads an ordered
      sequence. */
  lemma SortedCons<T(!new), K>(x: T, rest: seq<T>, key: T -> K, le: (K, K) -> bool)
    requires SortedBy(rest, key, le)
    requires forall y :: y in rest ==> le(key(x), key(y))
    ensures SortedBy([x] + rest, key, le)
  {
    var r := [x] + rest;
    forall i, j | 0 <= i < j < |r| ensures le(key(r[i]), key(r[j])) {
      assert r[j] == rest[j - 1];
      if i > 0 {
        assert r[i] == rest[i - 1];
      } else {
        assert rest[j - 1] in rest;
      }
    }
  }

  /** A filter of an ordered sequence is ordered (a `WHERE` added after
      `ORDER BY` keeps the order). */
  lemma {:induction false} FilterSorted<T(!new), K>(s: seq<T>, p: T -> bool, key: T -> K, le: (K, K) -> bool)
    requires SortedBy(s, key, le)
    ensures SortedBy(Seqs.Filter(s, p), key, le)
  {
    if s != [] {
      var tail := s[1..];
      SortedTail(s, key, le);
      FilterSorted(tail, p, key, le);
      var rest := Seqs.Filter(tail, p);
      if p(s[0]) {
        assert Seqs.Filter(s, p) == [s[0]] + rest;
        SortedCons(s[0], rest, key, le);
      } else {
        assert Seqs.Filter(s, p) == rest;
      }
    }
  }

  /** Keeping the first occurrence of every element keeps a sorted
      sequence sorted. */
  lemma {:induction false} DedupSorted<T(!new), K>(s: seq<T>, key: T -> K, le: (K, K) -> bool)
    requires SortedBy(s, key, le)
    ensures SortedBy(Seqs.Dedup(s), key, le)
    decreases |s|
  {
    if s != [] {
      var init := s[..|s| - 1];
      var last := s[|s| - 1];
      assert SortedBy(init, key, le);
      DedupSorted(init, key, le);
      var rest := Seqs.Dedup(init);
      forall y | y in rest ensures le(key(y), key(last)) {
        var i :| 0 <= i < |init| && init[i] == y;
        assert s[i] == y;
      }
    }
  }

  /** The elements of `s` ordered by `key`: sorted and a permutation. */
  function SortBy<T(!new), K(!new)>(s: seq<T>, key: T -> K, le: (K, K) -> bool): (r: seq<T>)
    requires TotalPreorder(le)
    ensures SortedBy(r, key, le)
    ensures multiset(r) == multiset(s)
    ensures |r| == |s|
  {
    if s == [] then [] else
      assert s == [s[0]] + s[1..];
      Insert(s[0], SortBy(s[1..], key, le), key, le)
  }

  /** Sorting keeps exactly the elements of its input. */
  lemma SortByElements<T(!new), K(!new)>(s: seq<T>, key: T -> K, le: (K, K) -> bool)
    requires TotalPreorder(le)
    ensures forall x :: x in SortBy(s, key, le) <==> x in s
  {
    var r := SortBy(s, key, le);
    forall x ensures x in r <==> x in s {
      assert x in r <==> x in multiset(r);
      assert x in s <==> x in multiset(s);
    }
  }

  /** Code-point order on strings is a total preorder. */
  lemma LexLePreorder()
    ensures TotalPreorder(Text.LexLe)
  {
    forall a, b ensures Text.LexLe(a, b) || Text.LexLe(b, a) {
      Text.LexLeTotal(a, b);
    }
    forall a, b, c | Text.LexLe(a, b) && Text.LexLe(b, c) ensures Text.LexLe(a, c) {
      Text.LexLeTransitive(a, b, c);
    }
  }

  predicate IntLe(a: int, b: int) { a <= b }

  lemma IntLePreorder()
    ensures TotalPreorder(IntLe)
  {
  }

  /** Rows ordered by a text column, ascending (`ORDER BY column`). */
  function SortByText<T(!new)>(s: seq<T>, key: T -> string): (r: seq<T>)
    ensures SortedBy(r, key, Text.LexLe)
    ensures multiset(r) == multiset(s)
    ensures forall x :: x in r <==> x in s
  {
    LexLePreorder();
    SortByElements(s, key, Text.LexLe);
    SortBy(s, key, Text.LexLe)
  }

  /** Rows ordered by an integer column, ascending. */
  function SortByInt<T(!new)>(s: seq<T>, key: T -> int): (r: seq<T>)
    ensures SortedBy(r, key, IntLe)
    ensures multiset(r) == multiset(s)
    ensures forall x :: x in r <==> x in s
  {
    IntLePreorder();
    SortByElements(s, key, IntLe);
    SortBy(s, key, IntLe)
  }
}
