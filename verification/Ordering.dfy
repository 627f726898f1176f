/** Strict total orders, lexicographic comparison and the two sorts the checker uses:
  * `sorted` over a set and `sorted` over a list.
  */
module Ordering {
  import opened Basics

  ghost predicate Irreflexive<T(!new)>(less: (T, T) -> bool) {
    forall x :: !less(x, x)
  }

  ghost predicate Transitive<T(!new)>(less: (T, T) -> bool) {
    forall x, y, z :: less(x, y) && less(y, z) ==> less(x, z)
  }

  ghost predicate Connected<T(!new)>(less: (T, T) -> bool) {
    forall x, y :: x == y || less(x, y) || less(y, x)
  }

  ghost predicate StrictTotal<T(!new)>(less: (T, T) -> bool) {
    Irreflexive(less) && Transitive(less) && Connected(less)
  }

  /** Comparison of two sequences: first difference decides, a proper prefix is smaller. */
  predicate LexLess<T(==)>(less: (T, T) -> bool, a: seq<T>, b: seq<T>) {
    if b == [] then false
    else if a == [] then true
    else if a[0] != b[0] then less(a[0], b[0])
    else LexLess(less, a[1..], b[1..])
  }

  lemma {:induction false} LexIrreflexive<T(!new)>(less: (T, T) -> bool, a: seq<T>)
    ensures !LexLess(less, a, a)
  {
    if a != [] {
      LexIrreflexive(less, a[1..]);
    }
  }

  lemma {:induction false} LexConnected<T(!new)>(less: (T, T) -> bool, a: seq<T>, b: seq<T>)
    requires Connected(less)
    ensures a == b || LexLess(less, a, b) || LexLess(less, b, a)
  {
    if a != [] && b != [] && a[0] == b[0] {
      LexConnected(less, a[1..], b[1..]);
      assert a == [a[0]] + a[1..] && b == [b[0]] + b[1..];
    }
  }

  lemma {:induction false} LexTransitive<T(!new)>(less: (T, T) -> bool, a: seq<T>, b: seq<T>, c: seq<T>)
    requires StrictTotal(less)
    requires LexLess(less, a, b) && LexLess(less, b, c)
    ensures LexLess(less, a, c)
  {
    if a != [] && a[0] == b[0] && b[0] == c[0] {
      LexTransitive(less, a[1..], b[1..], c[1..]);
    }
  }

  /** Lexicographic comparison over a strict total order is one itself. */
  lemma LexStrictTotal<T(!new)>(less: (T, T) -> bool, lex: (seq<T>, seq<T>) -> bool)
    requires StrictTotal(less)
    requires forall a, b :: lex(a, b) == LexLess(less, a, b)
    ensures StrictTotal(lex)
  {
    forall a ensures !lex(a, a) { LexIrreflexive(less, a); }
    forall a, b ensures a == b || lex(a, b) || lex(b, a) { LexConnected(less, a, b); }
    forall a, b, c | lex(a, b) && lex(b, c) ensures lex(a, c) { LexTransitive(less, a, b, c); }
  }

  predicate CharLess(x: char, y: char) { x < y }

  /** Python's `<` on two strings. */
  predicate StringLess(a: string, b: string) { LexLess(CharLess, a, b) }

  /** Python's `<` on two tuples of strings. */
  predicate TupleLess(a: seq<string>, b: seq<string>) { LexLess(StringLess, a, b) }

  lemma StringOrder()
    ensures StrictTotal(StringLess)
  {
    LexStrictTotal(CharLess, StringLess);
  }

  lemma TupleOrder()
    ensures StrictTotal(TupleLess)
  {
    StringOrder();
    LexStrictTotal(StringLess, TupleLess);
  }

  ghost predicate Ascending<T(!new)>(less: (T, T) -> bool, s: seq<T>) {
    forall i, j :: 0 <= i < j < |s| ==> less(s[i], s[j])
  }

  lemma LeastExists<T(!new)>(less: (T, T) -> bool, s: set<T>) returns (least: T)
    requires StrictTotal(less) && s != {}
    ensures least in s && forall y :: y in s && y != least ==> less(least, y)
  {
    least :| least in s;
    if s != {least} {
      var rest := s - {least};
      var other := LeastExists(less, rest);
      assert forall y :: y in s ==> y == least || y in rest;
      if less(other, least) {
        least := other;
      }
    }
  }

  /** `sorted(s)` for a set: the elements once each, ascending. */
  function SortedSet<T(==,!new)>(less: (T, T) -> bool, s: set<T>): (r: seq<T>)
    requires StrictTotal(less)
    ensures Ascending(less, r)
    ensures forall x :: x in r <==> x in s
    ensures |r| == |s|
  {
    if s == {} then []
    else
      assert exists least :: least in s && forall y :: y in s && y != least ==> less(least, y) by {
        var least := LeastExists(less, s);
      }
      var least :| least in s && forall y :: y in s && y != least ==> less(least, y);
      var rest := SortedSet(less, s - {least});
      assert forall x :: x in s <==> x == least || x in s - {least};
      [least] + rest
  }

  /** Two strictly ascending sequences with the same elements are the same sequence. */
  lemma {:induction false} AscendingUnique<T(!new)>(less: (T, T) -> bool, a: seq<T>, b: seq<T>)
    requires StrictTotal(less)
    requires Ascending(less, a) && Ascending(less, b)
    requires forall x :: x in a <==> x in b
    ensures a == b
  {
    assert a != [] ==> a[0] in b;
    assert b != [] ==> b[0] in a;
    if a != [] && b != [] {
      assert a[0] == b[0];
      forall x ensures x in a[1..] <==> x in b[1..] {
        if x in a[1..] { assert x in a && less(a[0], x); assert x in b; }
        if x in b[1..] { assert x in b && less(b[0], x); assert x in a; }
      }
      AscendingUnique(less, a[1..], b[1..]);
      assert a == [a[0]] + a[1..] && b == [b[0]] + b[1..];
    }
  }

  /** No later element is below an earlier one. */
  ghost predicate Ordered<T(!new)>(less: (T, T) -> bool, s: seq<T>) {
    forall i, j :: 0 <= i < j < |s| ==> !less(s[j], s[i])
  }

  function Insert<T>(less: (T, T) -> bool, x: T, s: seq<T>): (r: seq<T>)
    ensures multiset(r) == multiset{x} + multiset(s)
    ensures |r| == |s| + 1
  {
    if s == [] then [x]
    else if less(s[0], x) then
      assert s == [s[0]] + s[1..];
      [s[0]] + Insert(less, x, s[1..])
    else [x] + s
  }

  lemma {:induction false} InsertOrdered<T(!new)>(less: (T, T) -> bool, x: T, s: seq<T>)
    requires StrictTotal(less) && Ordered(less, s)
    ensures Ordered(less, Insert(less, x, s))
  {
    if s != [] && less(s[0], x) {
      var rest := Insert(less, x, s[1..]);
      InsertOrdered(less, x, s[1..]);
      forall y | y in rest ensures !less(y, s[0]) {
        assert y in multiset(rest);
      }
    }
  }

  /** `sorted(s)` for a list: a permutation in ascending order. */
  function SortSeq<T(!new)>(less: (T, T) -> bool, s: seq<T>): (r: seq<T>)
    requires StrictTotal(less)
    ensures Ordered(less, r)
    ensures multiset(r) == multiset(s)
    ensures |r| == |s|
  {
    if s == [] then []
    else
      assert s == [s[0]] + s[1..];
      var rest := SortSeq(less, s[1..]);
      InsertOrdered(less, s[0], rest);
      Insert(less, s[0], rest)
  }

  lemma SameElements<T>(a: seq<T>, b: seq<T>)
    requires multiset(a) == multiset(b)
    ensures forall x :: x in a <==> x in b
  {
    forall x ensures x in a <==> x in b {
      assert x in a <==> x in multiset(a);
      assert x in b <==> x in multiset(b);
    }
  }

  lemma ElementsOfPrefix<T(!new)>(s: seq<T>, k: nat)
    requires k < |s|
    ensures Elements(s[..k + 1]) == Elements(s[..k]) + {s[k]}
  {}

  lemma RemainderShrinks<T>(all: set<T>, seen: set<T>, x: T)
    requires x in all && x !in seen
    ensures |all - (seen + {x})| < |all - seen|
  {
    assert all - seen == (all - (seen + {x})) + {x};
  }

  lemma UnionCount<T>(a: set<T>, b: set<T>)
    requires a !! b
    ensures |a + b| == |a| + |b|
  {}

  lemma ElementsOfOne<T(!new)>(s: seq<T>)
    requires |s| == 1
    ensures Elements(s) == {s[0]}
  {}
}
