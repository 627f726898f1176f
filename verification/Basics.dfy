/** Small definitions shared by the other modules. */
module Basics {

  datatype Option<+T> = None | Some(value: T)

  function Min(a: nat, b: nat): nat {
    if a <= b then a else b
  }

  ghost predicate Distinct<T>(s: seq<T>) {
    forall i, j :: 0 <= i < j < |s| ==> s[i] != s[j]
  }

  ghost function Elements<T>(s: seq<T>): set<T> {
    set x | x in s
  }

  lemma {:induction false} ElementsCount<T>(s: seq<T>)
    ensures |Elements(s)| <= |s|
    ensures |Elements(s)| == |s| <==> Distinct(s)
  {
    if s != [] {
      var front, last := s[..|s| - 1], s[|s| - 1];
      ElementsCount(front);
      assert s == front + [last];
      if last in front {
        assert Elements(s) == Elements(front);
        var k :| 0 <= k < |front| && front[k] == last;
        assert s[k] == s[|s| - 1];
      } else {
        assert Elements(s) == Elements(front) + {last};
        assert Distinct(front) ==> Distinct(s);
        assert Distinct(s) ==> Distinct(front) by {
          if Distinct(s) {
            forall i, j | 0 <= i < j < |front| ensures front[i] != front[j] { assert s[i] != s[j]; }
          }
        }
      }
    }
  }

  /** The sequence lists the set, each element once. */
  ghost predicate Once<T>(s: seq<T>, all: set<T>) {
    Distinct(s) && Elements(s) == all
  }

  lemma OnceMore<T>(s: seq<T>, all: set<T>, more: seq<T>)
    requires Once(s, all) && Distinct(more) && all !! Elements(more)
    ensures Once(s + more, all + Elements(more))
  {
    var r := s + more;
    forall i, j | 0 <= i < j < |r| ensures r[i] != r[j] {
      if i < |s| <= j {
        assert s[i] in Elements(s) && more[j - |s|] in Elements(more);
      }
    }
  }

  /** Taking the last element of one permutation out of the other leaves permutations. */
  lemma TakeOut<T>(a: seq<T>, b: seq<T>) returns (i: nat)
    requires a != [] && multiset(a) == multiset(b)
    ensures i < |b| && b[i] == a[|a| - 1]
    ensures multiset(a[..|a| - 1]) == multiset(b[..i] + b[i + 1..])
  {
    var front, x := a[..|a| - 1], a[|a| - 1];
    assert a == front + [x];
    assert x in multiset(b);
    i :| 0 <= i < |b| && b[i] == x;
    var before, after := b[..i], b[i + 1..];
    assert b == before + [x] + after;
    assert multiset(b) == multiset(before + after) + multiset{x};
    assert multiset(a) == multiset(front) + multiset{x};
    assert multiset(front) == multiset(a) - multiset{x};
  }

  lemma SameLength<T>(a: seq<T>, b: seq<T>)
    requires multiset(a) == multiset(b)
    ensures |a| == |b|
  {
    assert |multiset(a)| == |multiset(b)|;
  }
}
