/** Finite directed graphs of file paths, reachability and strongly connected components. */
module Graphs {

  /** Every file to the files it imports. A destination need not be a key. */
  type Graph<!T> = map<T, set<T>>

  /** `graph.get(n, ())` */
  function Successors<T(!new)>(g: Graph<T>, n: T): set<T> {
    if n in g then g[n] else {}
  }

  /** Every key and every destination. */
  ghost function Nodes<T(!new)>(g: Graph<T>): set<T> {
    g.Keys + set n, d | n in g.Keys && d in g[n] :: d
  }

  ghost predicate IsPath<T(!new)>(g: Graph<T>, p: seq<T>) {
    |p| > 0 && forall i, j :: 0 <= i < j < |p| && j == i + 1 ==> p[j] in Successors(g, p[i])
  }

  ghost predicate Connects<T(!new)>(g: Graph<T>, u: T, p: seq<T>, v: T) {
    IsPath(g, p) && p[0] == u && p[|p| - 1] == v
  }

  ghost predicate Reaches<T(!new)>(g: Graph<T>, u: T, v: T) {
    exists p :: Connects(g, u, p, v)
  }

  ghost predicate Mutual<T(!new)>(g: Graph<T>, u: T, v: T) {
    Reaches(g, u, v) && Reaches(g, v, u)
  }

  /** A strongly connected component: every member's mutually reachable nodes, and no others. */
  ghost predicate IsComponent<T(!new)>(g: Graph<T>, c: set<T>) {
    c != {} && forall u, v :: u in c ==> (v in c <==> Mutual(g, u, v))
  }

  ghost predicate ClosedUnderSuccessors<T(!new)>(g: Graph<T>, c: set<T>) {
    forall u, v :: u in c && v in Successors(g, u) ==> v in c
  }

  lemma ReachesSelf<T(!new)>(g: Graph<T>, u: T)
    ensures Reaches(g, u, u)
  {
    assert Connects(g, u, [u], u);
  }

  lemma ReachesSuccessor<T(!new)>(g: Graph<T>, u: T, v: T)
    requires v in Successors(g, u)
    ensures Reaches(g, u, v)
  {
    assert Connects(g, u, [u, v], v);
  }

  lemma ReachesTransitive<T(!new)>(g: Graph<T>, u: T, v: T, w: T)
    requires Reaches(g, u, v) && Reaches(g, v, w)
    ensures Reaches(g, u, w)
  {
    var p :| Connects(g, u, p, v);
    var q :| Connects(g, v, q, w);
    assert Connects(g, u, p + q[1..], w);
  }

  lemma {:induction false} PathStaysInside<T(!new)>(g: Graph<T>, c: set<T>, p: seq<T>)
    requires ClosedUnderSuccessors(g, c) && IsPath(g, p) && p[0] in c
    ensures p[|p| - 1] in c
  {
    if |p| > 1 {
      assert p[1] in Successors(g, p[0]);
      assert IsPath(g, p[1..]);
      PathStaysInside(g, c, p[1..]);
    }
  }

  /** Nothing outside a successor-closed set is reachable from inside it. */
  lemma ReachesStaysInside<T(!new)>(g: Graph<T>, c: set<T>, u: T, v: T)
    requires ClosedUnderSuccessors(g, c) && u in c && Reaches(g, u, v)
    ensures v in c
  {
    var p :| Connects(g, u, p, v);
    PathStaysInside(g, c, p);
  }

  /** Two components that share a node are the same component. */
  lemma ComponentsDisjoint<T(!new)>(g: Graph<T>, c: set<T>, d: set<T>, u: T)
    requires IsComponent(g, c) && IsComponent(g, d) && u in c && u in d
    ensures c == d
  {}
}
