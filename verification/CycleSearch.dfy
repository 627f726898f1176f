/** The invariant of the depth-first component search, stated on snapshots of its variables,
  * and one lemma per step of its frame loop.
  */
module CycleSearch {
  import opened Basics
  import opened Graphs

  /** A depth-first frame: the node and the neighbours its iterator has not yielded yet. */
  datatype Frame<!T(!new)> = Frame(node: T, rest: seq<T>)

  /** The search variables. `open` holds the resumed frames, whose node is numbered. */
  datatype Search<!T(!new)> = Search(
    index: nat, indices: map<T, nat>, lowlink: map<T, nat>,
    stack: seq<T>, onstack: set<T>, open: seq<Frame<T>>)
  {
    ghost predicate Grey(x: T) {
      exists i :: 0 <= i < |open| && open[i].node == x
    }

    /** The number of a node, -1 before it has one. */
    ghost function Num(x: T): int {
      if x in indices then indices[x] else -1
    }

    ghost function Low(x: T): int {
      if x in lowlink then lowlink[x] else -1
    }

    /** Nodes whose component has been taken off the stack. */
    ghost function Closed(): set<T> {
      indices.Keys - onstack
    }

    ghost function Top(): T
      requires open != []
    {
      open[|open| - 1].node
    }
  }

  // ----- the invariant, part by part -----

  ghost predicate Numbered<T(!new)>(s: Search<T>) {
    && s.indices.Keys == s.lowlink.Keys
    && (forall u :: u in s.indices ==> 0 <= s.Num(u) < s.index)
  }

  ghost predicate NumbersDistinct<T(!new)>(s: Search<T>) {
    forall u, v :: u in s.indices && v in s.indices && s.Num(u) == s.Num(v) ==> u == v
  }

  ghost predicate StackOrdered<T(!new)>(s: Search<T>) {
    forall i, j :: 0 <= i < j < |s.stack| ==> s.Num(s.stack[i]) < s.Num(s.stack[j])
  }

  ghost predicate StackNumbered<T(!new)>(s: Search<T>) {
    && s.onstack <= s.indices.Keys
    && (forall x :: x in s.stack <==> x in s.onstack)
  }

  ghost predicate OpenOrdered<T(!new)>(s: Search<T>) {
    && (forall i :: 0 <= i < |s.open| ==> s.open[i].node in s.onstack)
    && (forall i, j :: 0 <= i < j < |s.open| ==> s.Num(s.open[i].node) < s.Num(s.open[j].node))
  }

  ghost predicate RestsAreSuccessors<T(!new)>(g: Graph<T>, s: Search<T>) {
    forall i, y :: 0 <= i < |s.open| && y in s.open[i].rest ==> y in Successors(g, s.open[i].node)
  }

  /** A numbered node outside the open frames has only numbered successors. */
  ghost predicate FinishedSeen<T(!new)>(g: Graph<T>, s: Search<T>) {
    forall x, y :: x in s.indices && !s.Grey(x) && y in Successors(g, x) ==> y in s.indices
  }

  /** A neighbour an open frame has already yielded is numbered or is the one being entered. */
  ghost predicate YieldedSeen<T(!new)>(g: Graph<T>, s: Search<T>, entering: set<T>) {
    forall i, y :: 0 <= i < |s.open| && y in Successors(g, s.open[i].node) && y !in s.open[i].rest
      ==> y in s.indices || (i == |s.open| - 1 && y in entering)
  }

  /** An open node reaches everything stacked at or above it. */
  ghost predicate OpenReachesUp<T(!new)>(g: Graph<T>, s: Search<T>) {
    forall i, x :: 0 <= i < |s.open| && x in s.onstack && s.Num(s.open[i].node) <= s.Num(x) ==> Reaches(g, s.open[i].node, x)
  }

  ghost predicate ReachesOpenBelow<T(!new)>(g: Graph<T>, s: Search<T>, x: T) {
    exists i :: 0 <= i < |s.open| && s.Num(s.open[i].node) <= s.Num(x) && Reaches(g, x, s.open[i].node)
  }

  /** Everything stacked reaches an open node at or below it. */
  ghost predicate StackReachesDown<T(!new)>(g: Graph<T>, s: Search<T>) {
    forall x {:trigger ReachesOpenBelow(g, s, x)} :: x in s.onstack ==> ReachesOpenBelow(g, s, x)
  }

  ghost predicate LowWitness<T(!new)>(g: Graph<T>, s: Search<T>, x: T, low: int) {
    exists z :: z in s.onstack && s.Num(z) == low && Reaches(g, x, z)
  }

  /** A low link is the number of a stacked node that the open node reaches. */
  ghost predicate LowSound<T(!new)>(g: Graph<T>, s: Search<T>) {
    forall i :: 0 <= i < |s.open| ==>
      s.Low(s.open[i].node) <= s.Num(s.open[i].node) && LowWitness(g, s, s.open[i].node, s.Low(s.open[i].node))
  }

  /** `x` sits in the part of the stack that belongs to open frame `i`. */
  ghost predicate Owns<T(!new)>(s: Search<T>, i: nat, x: T)
    requires i < |s.open|
  {
    && x in s.onstack
    && s.Num(s.open[i].node) <= s.Num(x)
    && (i + 1 < |s.open| ==> s.Num(x) < s.Num(s.open[i + 1].node))
  }

  /** No examined edge out of a frame's part of the stack goes below its low link. */
  ghost predicate LowComplete<T(!new)>(g: Graph<T>, s: Search<T>) {
    forall i: nat, x, y :: i < |s.open| && Owns(s, i, x) && y in Successors(g, x) && y in s.onstack
      && (x == s.open[i].node ==> y !in s.open[i].rest)
      ==> s.Low(s.open[i].node) <= s.Num(y)
  }

  ghost predicate Inv<T(!new)>(g: Graph<T>, s: Search<T>, entering: set<T>) {
    && Numbered(s) && NumbersDistinct(s) && StackOrdered(s) && StackNumbered(s) && OpenOrdered(s) && RestsAreSuccessors(g, s)
    && ClosedUnderSuccessors(g, s.Closed()) && FinishedSeen(g, s) && YieldedSeen(g, s, entering)
    && OpenReachesUp(g, s) && StackReachesDown(g, s) && LowSound(g, s) && LowComplete(g, s)
  }

  // ----- entering a node -----

  function Enter<T(==,!new)>(s: Search<T>, t: T, rest: seq<T>): Search<T> {
    Search(s.index + 1, s.indices[t := s.index], s.lowlink[t := s.index],
           s.stack + [t], s.onstack + {t}, s.open + [Frame(t, rest)])
  }

  lemma EnterNumbers<T(!new)>(s: Search<T>, t: T, rest: seq<T>)
    requires Numbered(s) && NumbersDistinct(s) && t !in s.indices
    ensures Numbered(Enter(s, t, rest)) && NumbersDistinct(Enter(s, t, rest))
  {
    var r := Enter(s, t, rest);
    assert forall u :: u != t ==> r.Num(u) == s.Num(u);
  }

  lemma EnterStack<T(!new)>(s: Search<T>, t: T, rest: seq<T>)
    requires Numbered(s) && StackOrdered(s) && StackNumbered(s) && t !in s.indices
    ensures StackOrdered(Enter(s, t, rest)) && StackNumbered(Enter(s, t, rest))
  {
    var r := Enter(s, t, rest);
    assert forall u :: u != t ==> r.Num(u) == s.Num(u);
    assert forall i :: 0 <= i < |s.stack| ==> s.stack[i] in s.onstack;
  }

  lemma EnterOpen<T(!new)>(g: Graph<T>, s: Search<T>, t: T, rest: seq<T>)
    requires Numbered(s) && s.onstack <= s.indices.Keys && OpenOrdered(s) && RestsAreSuccessors(g, s)
    requires t !in s.indices
    requires forall y :: y in rest <==> y in Successors(g, t)
    ensures OpenOrdered(Enter(s, t, rest)) && RestsAreSuccessors(g, Enter(s, t, rest))
  {
    var r := Enter(s, t, rest);
    assert forall u :: u != t ==> r.Num(u) == s.Num(u);
  }

  lemma EnterGrey<T(!new)>(s: Search<T>, t: T, rest: seq<T>)
    ensures forall x :: Enter(s, t, rest).Grey(x) <==> s.Grey(x) || x == t
  {
    var r := Enter(s, t, rest);
    assert r.open[|s.open|].node == t;
    forall x | s.Grey(x) ensures r.Grey(x) {
      var i :| 0 <= i < |s.open| && s.open[i].node == x;
      assert r.open[i].node == x;
    }
  }

  lemma EnterSeen<T(!new)>(g: Graph<T>, s: Search<T>, t: T, rest: seq<T>)
    requires s.onstack <= s.indices.Keys && ClosedUnderSuccessors(g, s.Closed()) && FinishedSeen(g, s) && YieldedSeen(g, s, {t})
    requires t !in s.indices
    requires forall y :: y in rest <==> y in Successors(g, t)
    ensures var r := Enter(s, t, rest);
      ClosedUnderSuccessors(g, r.Closed()) && FinishedSeen(g, r) && YieldedSeen(g, r, {})
  {
    EnterGrey(s, t, rest);
    assert Enter(s, t, rest).Closed() == s.Closed();
  }

  lemma EnterReachesUp<T(!new)>(g: Graph<T>, s: Search<T>, t: T, rest: seq<T>)
    requires Numbered(s) && s.onstack <= s.indices.Keys && OpenOrdered(s) && OpenReachesUp(g, s)
    requires t !in s.indices && (s.open != [] ==> t in Successors(g, s.Top()))
    ensures OpenReachesUp(g, Enter(s, t, rest))
  {
    var r := Enter(s, t, rest);
    assert forall u :: u != t ==> r.Num(u) == s.Num(u);
    forall i, x | 0 <= i < |r.open| && x in r.onstack && r.Num(r.open[i].node) <= r.Num(x)
      ensures Reaches(g, r.open[i].node, x)
    {
      if i == |s.open| {
        assert x == t;
        ReachesSelf(g, t);
      } else {
        var y := s.open[i].node;
        assert r.open[i].node == y && y in s.onstack;
        if x == t {
          assert Reaches(g, y, s.Top());
          ReachesSuccessor(g, s.Top(), t);
          ReachesTransitive(g, y, s.Top(), t);
        }
      }
    }
  }

  lemma EnterReachesDown<T(!new)>(g: Graph<T>, s: Search<T>, t: T, rest: seq<T>)
    requires s.onstack <= s.indices.Keys && OpenOrdered(s) && StackReachesDown(g, s)
    requires t !in s.indices
    ensures StackReachesDown(g, Enter(s, t, rest))
  {
    var r := Enter(s, t, rest);
    ReachesSelf(g, t);
    forall x | x in r.onstack ensures ReachesOpenBelow(g, r, x) {
      if x == t {
        assert r.open[|s.open|].node == t;
      } else {
        assert ReachesOpenBelow(g, s, x);
        var i :| 0 <= i < |s.open| && s.Num(s.open[i].node) <= s.Num(x) && Reaches(g, x, s.open[i].node);
        assert r.open[i].node == s.open[i].node;
      }
    }
  }

  lemma EnterLow<T(!new)>(g: Graph<T>, s: Search<T>, t: T, rest: seq<T>)
    requires Numbered(s) && s.onstack <= s.indices.Keys && OpenOrdered(s) && LowSound(g, s) && LowComplete(g, s)
    requires t !in s.indices
    requires forall y :: y in rest <==> y in Successors(g, t)
    ensures LowSound(g, Enter(s, t, rest)) && LowComplete(g, Enter(s, t, rest))
  {
    var r := Enter(s, t, rest);
    ReachesSelf(g, t);
    assert forall u :: u != t ==> r.Num(u) == s.Num(u) && r.Low(u) == s.Low(u);
    forall i | 0 <= i < |r.open|
      ensures r.Low(r.open[i].node) <= r.Num(r.open[i].node) && LowWitness(g, r, r.open[i].node, r.Low(r.open[i].node))
    {
      if i < |s.open| {
        var x := s.open[i].node;
        assert r.open[i].node == x;
        assert LowWitness(g, s, x, s.Low(x));
        var z :| z in s.onstack && s.Num(z) == s.Low(x) && Reaches(g, x, z);
        assert z in r.onstack && r.Num(z) == r.Low(x);
      } else {
        assert t in r.onstack;
      }
    }
    forall i: nat, x, y | i < |r.open| && Owns(r, i, x) && y in Successors(g, x) && y in r.onstack
      && (x == r.open[i].node ==> y !in r.open[i].rest)
      ensures r.Low(r.open[i].node) <= r.Num(y)
    {
      if i < |s.open| {
        assert r.open[i] == s.open[i];
        if i + 1 < |s.open| {
          assert r.open[i + 1] == s.open[i + 1];
        }
        if y != t {
          assert Owns(s, i, x);
        }
      }
    }
  }

  lemma EnterKeeps<T(!new)>(g: Graph<T>, s: Search<T>, t: T, rest: seq<T>)
    requires Inv(g, s, {t}) && t !in s.indices
    requires s.open != [] ==> t in Successors(g, s.Top())
    requires forall y :: y in rest <==> y in Successors(g, t)
    ensures Inv(g, Enter(s, t, rest), {})
  {
    EnterNumbers(s, t, rest);
    EnterStack(s, t, rest);
    EnterOpen(g, s, t, rest);
    EnterSeen(g, s, t, rest);
    EnterReachesUp(g, s, t, rest);
    EnterReachesDown(g, s, t, rest);
    EnterLow(g, s, t, rest);
  }

  // ----- taking the next neighbour -----

  /** The top frame's iterator has yielded its next neighbour. */
  function Yield<T(==,!new)>(s: Search<T>): Search<T>
    requires s.open != [] && s.open[|s.open| - 1].rest != []
  {
    var top := s.open[|s.open| - 1];
    s.(open := s.open[|s.open| - 1 := top.(rest := top.rest[1..])])
  }

  function Lower<T(==,!new)>(s: Search<T>, x: T, low: nat): Search<T>
    requires x in s.lowlink
  {
    s.(lowlink := s.lowlink[x := Min(s.lowlink[x], low)])
  }

  lemma LowerNothing<T(!new)>(s: Search<T>, x: T, low: nat)
    requires x in s.lowlink && s.lowlink[x] <= low
    ensures Lower(s, x, low) == s
  {}

  ghost predicate SameShape<T(!new)>(s: Search<T>, r: Search<T>) {
    && s.index == r.index && s.indices == r.indices && s.stack == r.stack && s.onstack == r.onstack
    && |s.open| == |r.open|
    && (forall i :: 0 <= i < |s.open| ==> s.open[i].node == r.open[i].node)
  }

  lemma SameNumbers<T(!new)>(s: Search<T>, r: Search<T>)
    requires s.indices == r.indices
    ensures forall u :: s.Num(u) == r.Num(u)
  {}

  /** The parts that only look at numbers, the stack and the open nodes. */
  lemma ShapeKeeps<T(!new)>(g: Graph<T>, s: Search<T>, r: Search<T>)
    requires SameShape(s, r)
    requires NumbersDistinct(s) && StackOrdered(s) && StackNumbered(s) && OpenOrdered(s) && ClosedUnderSuccessors(g, s.Closed())
    ensures NumbersDistinct(r) && StackOrdered(r) && StackNumbered(r) && OpenOrdered(r) && ClosedUnderSuccessors(g, r.Closed())
  {
    SameNumbers(s, r);
  }

  lemma ShapeKeepsReach<T(!new)>(g: Graph<T>, s: Search<T>, r: Search<T>)
    requires SameShape(s, r) && OpenReachesUp(g, s) && StackReachesDown(g, s)
    ensures OpenReachesUp(g, r) && StackReachesDown(g, r)
  {
    SameNumbers(s, r);
    forall x | x in r.onstack ensures ReachesOpenBelow(g, r, x) {
      assert ReachesOpenBelow(g, s, x);
      var i :| 0 <= i < |s.open| && s.Num(s.open[i].node) <= s.Num(x) && Reaches(g, x, s.open[i].node);
      assert r.open[i].node == s.open[i].node;
    }
  }

  lemma ShapeKeepsFinished<T(!new)>(g: Graph<T>, s: Search<T>, r: Search<T>)
    requires SameShape(s, r) && FinishedSeen(g, s)
    ensures FinishedSeen(g, r)
  {}

  lemma YieldSeen<T(!new)>(g: Graph<T>, s: Search<T>, entering: set<T>)
    requires s.open != [] && s.open[|s.open| - 1].rest != []
    requires RestsAreSuccessors(g, s) && YieldedSeen(g, s, {})
    requires var nxt := s.open[|s.open| - 1].rest[0]; nxt in s.indices || nxt in entering
    ensures RestsAreSuccessors(g, Yield(s)) && YieldedSeen(g, Yield(s), entering)
  {
    var r := Yield(s);
    var k := |s.open| - 1;
    var rest := s.open[k].rest;
    assert rest == [rest[0]] + rest[1..];
    forall i, y | 0 <= i < |r.open| && y in Successors(g, r.open[i].node) && y !in r.open[i].rest
      ensures y in r.indices || (i == |r.open| - 1 && y in entering)
    {
      if i == k && y in rest {
        assert y == rest[0];
      }
    }
  }

  lemma LowerKeepsSound<T(!new)>(g: Graph<T>, s: Search<T>, i: nat, z: T)
    requires Numbered(s) && StackNumbered(s) && OpenOrdered(s) && LowSound(g, s)
    requires i < |s.open| && z in s.onstack && Reaches(g, s.open[i].node, z)
    ensures s.open[i].node in s.lowlink && z in s.indices
    ensures LowSound(g, Lower(s, s.open[i].node, s.indices[z]))
  {
    var x := s.open[i].node;
    assert x in s.onstack;
    var r := Lower(s, x, s.indices[z]);
    SameNumbers(s, r);
    forall j | 0 <= j < |r.open|
      ensures r.Low(r.open[j].node) <= r.Num(r.open[j].node) && LowWitness(g, r, r.open[j].node, r.Low(r.open[j].node))
    {
      var y := s.open[j].node;
      assert r.open[j].node == y && y in s.onstack;
      assert LowWitness(g, s, y, s.Low(y));
      var w :| w in s.onstack && s.Num(w) == s.Low(y) && Reaches(g, y, w);
      if y == x && s.indices[z] < s.lowlink[x] {
        assert r.Num(z) == r.Low(x);
      } else {
        assert r.Num(w) == r.Low(y);
      }
    }
  }

  /** Dropping neighbours from the iterators does not touch the low links. */
  lemma YieldKeepsSound<T(!new)>(g: Graph<T>, s: Search<T>)
    requires s.open != [] && s.open[|s.open| - 1].rest != [] && LowSound(g, s)
    ensures LowSound(g, Yield(s))
  {
    var r := Yield(s);
    SameNumbers(s, r);
    forall j | 0 <= j < |r.open|
      ensures r.Low(r.open[j].node) <= r.Num(r.open[j].node) && LowWitness(g, r, r.open[j].node, r.Low(r.open[j].node))
    {
      var y := s.open[j].node;
      assert r.open[j].node == y;
      assert LowWitness(g, s, y, s.Low(y));
      var w :| w in s.onstack && s.Num(w) == s.Low(y) && Reaches(g, y, w);
      assert r.Num(w) == r.Low(y);
    }
  }

  lemma YieldKeepsComplete<T(!new)>(g: Graph<T>, s: Search<T>)
    requires s.open != [] && s.open[|s.open| - 1].rest != [] && LowComplete(g, s)
    requires var nxt := s.open[|s.open| - 1].rest[0]; nxt in s.onstack ==> s.Low(s.Top()) <= s.Num(nxt)
    ensures LowComplete(g, Yield(s))
  {
    var r := Yield(s);
    var k := |s.open| - 1;
    var rest := s.open[k].rest;
    assert rest == [rest[0]] + rest[1..];
    SameNumbers(s, r);
    forall i: nat, x, y | i < |r.open| && Owns(r, i, x) && y in Successors(g, x) && y in r.onstack
      && (x == r.open[i].node ==> y !in r.open[i].rest)
      ensures r.Low(r.open[i].node) <= r.Num(y)
    {
      assert r.open[i].node == s.open[i].node;
      if i + 1 < |s.open| {
        assert r.open[i + 1].node == s.open[i + 1].node;
      }
      assert Owns(s, i, x);
      if i == k && x == s.open[k].node && y in rest {
        assert y == rest[0];
      }
    }
  }

  lemma LowerKeepsComplete<T(!new)>(g: Graph<T>, s: Search<T>, x: T, low: nat)
    requires x in s.lowlink && LowComplete(g, s)
    ensures LowComplete(g, Lower(s, x, low))
  {
    var r := Lower(s, x, low);
    SameNumbers(s, r);
    assert forall u :: r.Low(u) <= s.Low(u);
    forall i: nat, u, y | i < |r.open| && Owns(r, i, u) && y in Successors(g, u) && y in r.onstack
      && (u == r.open[i].node ==> y !in r.open[i].rest)
      ensures r.Low(r.open[i].node) <= r.Num(y)
    {
      assert Owns(s, i, u);
    }
  }

  /** The next neighbour has no number yet: it is entered next. */
  lemma YieldNewKeeps<T(!new)>(g: Graph<T>, s: Search<T>)
    requires Inv(g, s, {}) && s.open != [] && s.open[|s.open| - 1].rest != []
    requires s.open[|s.open| - 1].rest[0] !in s.indices
    ensures Inv(g, Yield(s), {s.open[|s.open| - 1].rest[0]})
  {
    ShapeKeeps(g, s, Yield(s));
    ShapeKeepsReach(g, s, Yield(s));
    ShapeKeepsFinished(g, s, Yield(s));
    YieldSeen(g, s, {s.open[|s.open| - 1].rest[0]});
    YieldKeepsSound(g, s);
    YieldKeepsComplete(g, s);
  }

  /** The next neighbour is numbered and, if stacked, already bounds the low link. */
  lemma YieldKnownKeeps<T(!new)>(g: Graph<T>, s: Search<T>)
    requires Inv(g, s, {}) && s.open != [] && s.open[|s.open| - 1].rest != []
    requires s.open[|s.open| - 1].rest[0] in s.indices
    requires s.open[|s.open| - 1].rest[0] in s.onstack ==> s.Low(s.Top()) <= s.Num(s.open[|s.open| - 1].rest[0])
    ensures Inv(g, Yield(s), {})
  {
    ShapeKeeps(g, s, Yield(s));
    ShapeKeepsReach(g, s, Yield(s));
    ShapeKeepsFinished(g, s, Yield(s));
    YieldSeen(g, s, {});
    YieldKeepsSound(g, s);
    YieldKeepsComplete(g, s);
  }

  /** A low link may drop to the number of a stacked node its owner reaches. */
  lemma LowerKeeps<T(!new)>(g: Graph<T>, s: Search<T>, i: nat, z: T)
    requires Inv(g, s, {}) && i < |s.open| && z in s.onstack && Reaches(g, s.open[i].node, z)
    ensures s.open[i].node in s.lowlink && z in s.indices
    ensures Inv(g, Lower(s, s.open[i].node, s.indices[z]), {})
  {
    LowerKeepsSound(g, s, i, z);
    var r := Lower(s, s.open[i].node, s.indices[z]);
    LowerKeepsComplete(g, s, s.open[i].node, s.indices[z]);
    ShapeKeeps(g, s, r);
    ShapeKeepsReach(g, s, r);
    ShapeKeepsFinished(g, s, r);
  }

  /** The next neighbour is stacked: its number bounds the low link. */
  lemma YieldStackedKeeps<T(!new)>(g: Graph<T>, s: Search<T>)
    requires Inv(g, s, {}) && s.open != [] && s.open[|s.open| - 1].rest != []
    requires s.open[|s.open| - 1].rest[0] in s.onstack
    ensures s.Top() in s.lowlink && s.open[|s.open| - 1].rest[0] in s.indices
    ensures Inv(g, Lower(Yield(s), s.Top(), s.indices[s.open[|s.open| - 1].rest[0]]), {})
  {
    var k := |s.open| - 1;
    var nxt := s.open[k].rest[0];
    assert nxt in Successors(g, s.open[k].node);
    ReachesSuccessor(g, s.Top(), nxt);
    LowerKeeps(g, s, k, nxt);
    var low := Lower(s, s.Top(), s.indices[nxt]);
    SameNumbers(s, low);
    YieldKnownKeeps(g, low);
    assert Yield(low) == Lower(Yield(s), s.Top(), s.indices[nxt]);
  }

  // ----- finishing the top frame -----

  function DropTop<T(==,!new)>(s: Search<T>): Search<T>
    requires s.open != []
  {
    s.(open := s.open[..|s.open| - 1])
  }

  lemma DropGrey<T(!new)>(s: Search<T>, x: T)
    requires s.open != []
    ensures s.Grey(x) <==> DropTop(s).Grey(x) || x == s.Top()
  {
    var r := DropTop(s);
    if s.Grey(x) {
      var i :| 0 <= i < |s.open| && s.open[i].node == x;
      if i < |r.open| {
        assert r.open[i].node == x;
      }
    }
    if r.Grey(x) {
      var i :| 0 <= i < |r.open| && r.open[i].node == x;
      assert s.open[i].node == x;
    }
    assert s.open[|s.open| - 1].node == s.Top();
  }

  lemma DropOpen<T(!new)>(g: Graph<T>, s: Search<T>)
    requires s.open != [] && OpenOrdered(s) && RestsAreSuccessors(g, s)
    ensures OpenOrdered(DropTop(s)) && RestsAreSuccessors(g, DropTop(s))
  {
    SameNumbers(s, DropTop(s));
  }

  lemma DropSeen<T(!new)>(g: Graph<T>, s: Search<T>)
    requires s.open != [] && s.open[|s.open| - 1].rest == []
    requires FinishedSeen(g, s) && YieldedSeen(g, s, {})
    ensures FinishedSeen(g, DropTop(s)) && YieldedSeen(g, DropTop(s), {})
  {
    var r := DropTop(s);
    forall x, y | x in r.indices && !r.Grey(x) && y in Successors(g, x) ensures y in r.indices {
      DropGrey(s, x);
      if x == s.Top() {
        assert y !in s.open[|s.open| - 1].rest;
      }
    }
  }

  lemma DropReachesUp<T(!new)>(g: Graph<T>, s: Search<T>)
    requires s.open != [] && OpenReachesUp(g, s)
    ensures OpenReachesUp(g, DropTop(s))
  {
    SameNumbers(s, DropTop(s));
  }

  /** A finished node whose low link is below its own number reaches a lower open node. */
  lemma TopReachesLowerOpen<T(!new)>(g: Graph<T>, s: Search<T>) returns (j: nat)
    requires s.open != [] && OpenOrdered(s) && StackReachesDown(g, s) && LowSound(g, s)
    requires s.Low(s.Top()) < s.Num(s.Top())
    ensures j < |s.open| - 1 && Reaches(g, s.Top(), s.open[j].node)
  {
    var k := |s.open| - 1;
    var x := s.open[k].node;
    assert LowWitness(g, s, x, s.Low(x));
    var z :| z in s.onstack && s.Num(z) == s.Low(x) && Reaches(g, x, z);
    assert ReachesOpenBelow(g, s, z);
    var i :| 0 <= i < |s.open| && s.Num(s.open[i].node) <= s.Num(z) && Reaches(g, z, s.open[i].node);
    ReachesTransitive(g, x, z, s.open[i].node);
    j := i;
  }

  lemma DropReachesDown<T(!new)>(g: Graph<T>, s: Search<T>)
    requires s.open != [] && OpenOrdered(s) && StackReachesDown(g, s) && LowSound(g, s)
    requires s.Low(s.Top()) < s.Num(s.Top())
    ensures StackReachesDown(g, DropTop(s))
  {
    var r := DropTop(s);
    var j := TopReachesLowerOpen(g, s);
    SameNumbers(s, r);
    forall x | x in r.onstack ensures ReachesOpenBelow(g, r, x) {
      assert ReachesOpenBelow(g, s, x);
      var i :| 0 <= i < |s.open| && s.Num(s.open[i].node) <= s.Num(x) && Reaches(g, x, s.open[i].node);
      if i < |r.open| {
        assert r.open[i].node == s.open[i].node;
      } else {
        ReachesTransitive(g, x, s.Top(), s.open[j].node);
        assert r.open[j].node == s.open[j].node && s.Num(s.open[j].node) < s.Num(s.open[i].node);
      }
    }
  }

  lemma DropSound<T(!new)>(g: Graph<T>, s: Search<T>)
    requires s.open != [] && LowSound(g, s)
    ensures LowSound(g, DropTop(s))
  {
    var r := DropTop(s);
    SameNumbers(s, r);
    forall j | 0 <= j < |r.open|
      ensures r.Low(r.open[j].node) <= r.Num(r.open[j].node) && LowWitness(g, r, r.open[j].node, r.Low(r.open[j].node))
    {
      var y := s.open[j].node;
      assert r.open[j].node == y && LowWitness(g, s, y, s.Low(y));
      var w :| w in s.onstack && s.Num(w) == s.Low(y) && Reaches(g, y, w);
      assert r.Num(w) == r.Low(y);
    }
  }

  /** Once the parent's low link is no greater than the child's, it also covers the child's part of the stack. */
  lemma DropComplete<T(!new)>(g: Graph<T>, s: Search<T>)
    requires s.open != [] && s.open[|s.open| - 1].rest == [] && OpenOrdered(s) && LowComplete(g, s)
    requires |s.open| > 1 ==> s.Low(s.open[|s.open| - 2].node) <= s.Low(s.Top())
    ensures LowComplete(g, DropTop(s))
  {
    var r := DropTop(s);
    var k := |s.open| - 1;
    SameNumbers(s, r);
    forall i: nat, x, y | i < |r.open| && Owns(r, i, x) && y in Successors(g, x) && y in r.onstack
      && (x == r.open[i].node ==> y !in r.open[i].rest)
      ensures r.Low(r.open[i].node) <= r.Num(y)
    {
      assert r.open[i] == s.open[i];
      if i + 1 < k {
        assert r.open[i + 1] == s.open[i + 1];
        assert Owns(s, i, x);
      } else if s.Num(x) < s.Num(s.open[k].node) {
        assert Owns(s, i, x);
      } else {
        assert Owns(s, k, x);
        assert s.Low(s.open[k].node) <= s.Num(y);
      }
    }
  }

  /** The finished top node is in the component of a lower open node and stays stacked. */
  lemma DropKeeps<T(!new)>(g: Graph<T>, s: Search<T>)
    requires Inv(g, s, {}) && s.open != [] && s.open[|s.open| - 1].rest == []
    requires s.Low(s.Top()) < s.Num(s.Top())
    requires |s.open| > 1 ==> s.Low(s.open[|s.open| - 2].node) <= s.Low(s.Top())
    ensures Inv(g, DropTop(s), {})
  {
    SameNumbers(s, DropTop(s));
    DropOpen(g, s);
    DropSeen(g, s);
    DropReachesUp(g, s);
    DropReachesDown(g, s);
    DropSound(g, s);
    DropComplete(g, s);
    assert NumbersDistinct(DropTop(s)) && StackOrdered(DropTop(s));
    assert DropTop(s).Closed() == s.Closed();
  }

  /** What the finished child reached, its parent reaches too. */
  lemma ParentReaches<T(!new)>(g: Graph<T>, s: Search<T>) returns (z: T)
    requires Numbered(s) && s.onstack <= s.indices.Keys && OpenOrdered(s) && OpenReachesUp(g, s)
    requires StackReachesDown(g, s) && LowSound(g, s)
    requires s.open != [] && s.Low(s.Top()) < s.Num(s.Top())
    ensures |s.open| > 1 && s.Top() in s.lowlink && s.open[|s.open| - 2].node in s.lowlink
    ensures z in s.onstack && z in s.indices && s.indices[z] == s.lowlink[s.Top()] && Reaches(g, s.open[|s.open| - 2].node, z)
  {
    var j := TopReachesLowerOpen(g, s);
    var k := |s.open| - 1;
    var x := s.open[k].node;
    var p := s.open[k - 1].node;
    assert x in s.onstack && p in s.onstack && s.Num(p) < s.Num(x);
    assert LowWitness(g, s, x, s.Low(x));
    z :| z in s.onstack && s.Num(z) == s.Low(x) && Reaches(g, x, z);
    ReachesTransitive(g, p, x, z);
  }

  /** The parent takes over the finished child's low link: the source's `min` after the pop. */
  lemma FinishLowKeeps<T(!new)>(g: Graph<T>, s: Search<T>)
    requires Inv(g, s, {}) && s.open != [] && s.open[|s.open| - 1].rest == []
    requires s.Low(s.Top()) < s.Num(s.Top())
    ensures |s.open| > 1 && s.open[|s.open| - 2].node in s.lowlink && s.Top() in s.lowlink
    ensures Inv(g, Lower(DropTop(s), s.open[|s.open| - 2].node, s.lowlink[s.Top()]), {})
  {
    var z := ParentReaches(g, s);
    var k := |s.open| - 1;
    var p := s.open[k - 1].node;
    LowerKeeps(g, s, k - 1, z);
    var low := Lower(s, p, s.indices[z]);
    assert low.Top() == s.Top() && low.Num(s.Top()) == s.Num(s.Top());
    assert p != s.Top() by { assert s.Num(p) < s.Num(s.Top()); }
    assert low.Low(s.Top()) == s.Low(s.Top()) && low.Low(p) <= s.Low(s.Top());
    DropKeeps(g, low);
    assert DropTop(low) == Lower(DropTop(s), p, s.lowlink[s.Top()]);
  }

  // ----- taking a component off the stack -----

  /** `taken` is what is stacked from the top open node upwards, `stack` what is left. */
  ghost predicate Takes<T(!new)>(s: Search<T>, taken: set<T>, stack: seq<T>)
    requires s.open != []
  {
    && (forall x :: x in taken <==> x in s.onstack && s.Num(s.Top()) <= s.Num(x))
    && stack <= s.stack
    && (forall x :: x in stack <==> x in s.onstack && x !in taken)
  }

  function Take<T(==,!new)>(s: Search<T>, taken: set<T>, stack: seq<T>): Search<T>
    requires s.open != []
  {
    DropTop(s).(stack := stack, onstack := s.onstack - taken)
  }

  /** What is taken off together with what was off already is closed under successors. */
  lemma TakenSealed<T(!new)>(g: Graph<T>, s: Search<T>, taken: set<T>)
    requires s.open != [] && s.open[|s.open| - 1].rest == []
    requires StackNumbered(s) && OpenOrdered(s) && ClosedUnderSuccessors(g, s.Closed())
    requires FinishedSeen(g, s) && YieldedSeen(g, s, {}) && LowComplete(g, s)
    requires forall x :: x in taken <==> x in s.onstack && s.Num(s.Top()) <= s.Num(x)
    requires s.Low(s.Top()) == s.Num(s.Top())
    ensures ClosedUnderSuccessors(g, s.Closed() + taken)
  {}

  /** Everything taken is mutually reachable with the top node. */
  lemma TakenMutual<T(!new)>(g: Graph<T>, s: Search<T>, x: T)
    requires s.open != [] && OpenOrdered(s) && OpenReachesUp(g, s) && StackReachesDown(g, s)
    requires x in s.onstack && s.Num(s.Top()) <= s.Num(x)
    ensures Mutual(g, s.Top(), x)
  {
    var k := |s.open| - 1;
    assert Reaches(g, s.open[k].node, x);
    assert ReachesOpenBelow(g, s, x);
    var i :| 0 <= i < |s.open| && s.Num(s.open[i].node) <= s.Num(x) && Reaches(g, x, s.open[i].node);
    assert s.open[k].node in s.onstack && (i < k ==> s.Num(s.open[i].node) < s.Num(s.open[k].node));
    assert Reaches(g, s.open[i].node, s.open[k].node);
    ReachesTransitive(g, x, s.open[i].node, s.open[k].node);
  }

  /** A node whose low link is its own number is the root of exactly one component:
    * what is stacked from it upwards.
    */
  lemma TakenIsComponent<T(!new)>(g: Graph<T>, s: Search<T>, taken: set<T>)
    requires Inv(g, s, {}) && s.open != [] && s.open[|s.open| - 1].rest == []
    requires forall x :: x in taken <==> x in s.onstack && s.Num(s.Top()) <= s.Num(x)
    requires s.Low(s.Top()) == s.Num(s.Top())
    ensures IsComponent(g, taken)
  {
    var top := s.Top();
    assert top in s.onstack;
    TakenSealed(g, s, taken);
    ComponentFromRoot(g, taken, top, s.Closed()) by {
      forall x | x in taken ensures Mutual(g, top, x) { TakenMutual(g, s, x); }
    }
  }

  lemma ComponentFromRoot<T(!new)>(g: Graph<T>, taken: set<T>, top: T, closed: set<T>)
    requires top in taken && top !in closed
    requires ClosedUnderSuccessors(g, closed) && ClosedUnderSuccessors(g, closed + taken)
    requires forall x :: x in taken ==> Mutual(g, top, x)
    ensures IsComponent(g, taken)
  {
    forall u, v | u in taken ensures v in taken <==> Mutual(g, u, v) {
      if v in taken {
        ReachesTransitive(g, u, top, v);
        ReachesTransitive(g, v, top, u);
      }
      if Mutual(g, u, v) {
        ReachesStaysInside(g, closed + taken, u, v);
        if v in closed {
          ReachesTransitive(g, v, u, top);
          ReachesStaysInside(g, closed, v, top);
          assert false;
        }
      }
    }
  }

  lemma TakeShape<T(!new)>(g: Graph<T>, s: Search<T>, taken: set<T>, stack: seq<T>)
    requires s.open != [] && StackOrdered(s) && StackNumbered(s) && OpenOrdered(s) && RestsAreSuccessors(g, s)
    requires Takes(s, taken, stack)
    ensures var r := Take(s, taken, stack); StackOrdered(r) && StackNumbered(r) && OpenOrdered(r) && RestsAreSuccessors(g, r)
  {
    var r := Take(s, taken, stack);
    SameNumbers(s, r);
    assert forall i :: 0 <= i < |stack| ==> stack[i] == s.stack[i];
  }

  lemma TakeSeen<T(!new)>(g: Graph<T>, s: Search<T>, taken: set<T>, stack: seq<T>)
    requires s.open != [] && s.open[|s.open| - 1].rest == []
    requires FinishedSeen(g, s) && YieldedSeen(g, s, {})
    ensures var r := Take(s, taken, stack); FinishedSeen(g, r) && YieldedSeen(g, r, {})
  {
    DropSeen(g, s);
    ShapeOfGrey(g, DropTop(s), Take(s, taken, stack));
  }

  lemma ShapeOfGrey<T(!new)>(g: Graph<T>, s: Search<T>, r: Search<T>)
    requires s.open == r.open && s.indices == r.indices && FinishedSeen(g, s) && YieldedSeen(g, s, {})
    ensures FinishedSeen(g, r) && YieldedSeen(g, r, {})
  {}

  lemma TakeReachesUp<T(!new)>(g: Graph<T>, s: Search<T>, taken: set<T>, stack: seq<T>)
    requires s.open != [] && OpenReachesUp(g, s)
    ensures OpenReachesUp(g, Take(s, taken, stack))
  {
    SameNumbers(s, Take(s, taken, stack));
  }

  lemma TakeReachesDown<T(!new)>(g: Graph<T>, s: Search<T>, taken: set<T>, stack: seq<T>)
    requires s.open != [] && OpenOrdered(s) && StackReachesDown(g, s) && Takes(s, taken, stack)
    ensures StackReachesDown(g, Take(s, taken, stack))
  {
    var r := Take(s, taken, stack);
    SameNumbers(s, r);
    forall x | x in r.onstack ensures ReachesOpenBelow(g, r, x) {
      assert ReachesOpenBelow(g, s, x);
      var i :| 0 <= i < |s.open| && s.Num(s.open[i].node) <= s.Num(x) && Reaches(g, x, s.open[i].node);
      assert i < |r.open|;
      assert r.open[i].node == s.open[i].node;
    }
  }

  lemma TakeSound<T(!new)>(g: Graph<T>, s: Search<T>, taken: set<T>, stack: seq<T>)
    requires s.open != [] && OpenOrdered(s) && LowSound(g, s) && Takes(s, taken, stack)
    ensures LowSound(g, Take(s, taken, stack))
  {
    var r := Take(s, taken, stack);
    SameNumbers(s, r);
    forall j | 0 <= j < |r.open|
      ensures r.Low(r.open[j].node) <= r.Num(r.open[j].node) && LowWitness(g, r, r.open[j].node, r.Low(r.open[j].node))
    {
      var y := s.open[j].node;
      assert r.open[j].node == y && LowWitness(g, s, y, s.Low(y));
      var w :| w in s.onstack && s.Num(w) == s.Low(y) && Reaches(g, y, w);
      assert s.Num(y) < s.Num(s.open[|s.open| - 1].node);
      assert r.Num(w) == r.Low(y) && w in r.onstack;
    }
  }

  lemma TakeComplete<T(!new)>(g: Graph<T>, s: Search<T>, taken: set<T>, stack: seq<T>)
    requires s.open != [] && LowComplete(g, s) && Takes(s, taken, stack)
    ensures LowComplete(g, Take(s, taken, stack))
  {
    var r := Take(s, taken, stack);
    var k := |s.open| - 1;
    SameNumbers(s, r);
    forall i: nat, x, y | i < |r.open| && Owns(r, i, x) && y in Successors(g, x) && y in r.onstack
      && (x == r.open[i].node ==> y !in r.open[i].rest)
      ensures r.Low(r.open[i].node) <= r.Num(y)
    {
      assert r.open[i] == s.open[i];
      if i + 1 < k {
        assert r.open[i + 1] == s.open[i + 1];
      }
      assert Owns(s, i, x);
    }
  }

  /** Taking a root's component off the stack keeps the invariant. */
  lemma TakeKeeps<T(!new)>(g: Graph<T>, s: Search<T>, taken: set<T>, stack: seq<T>)
    requires Inv(g, s, {}) && s.open != [] && s.open[|s.open| - 1].rest == []
    requires s.Low(s.Top()) == s.Num(s.Top()) && Takes(s, taken, stack)
    ensures Inv(g, Take(s, taken, stack), {})
    ensures Take(s, taken, stack).Closed() == s.Closed() + taken
  {
    var r := Take(s, taken, stack);
    SameNumbers(s, r);
    TakeShape(g, s, taken, stack);
    TakeSeen(g, s, taken, stack);
    TakenSealed(g, s, taken);
    assert taken <= s.onstack;
    assert r.Closed() == s.Closed() + taken;
    TakeReachesUp(g, s, taken, stack);
    TakeReachesDown(g, s, taken, stack);
    TakeSound(g, s, taken, stack);
    TakeComplete(g, s, taken, stack);
  }

  /** With no open frame left the stack is empty. */
  lemma NoOpenNoStack<T(!new)>(g: Graph<T>, s: Search<T>)
    requires Inv(g, s, {}) && s.open == []
    ensures s.onstack == {} && s.stack == [] && s.Closed() == s.indices.Keys
  {
    assert s.stack != [] ==> s.stack[0] in s.onstack;
    forall x ensures x !in s.onstack {
      assert x in s.onstack ==> ReachesOpenBelow(g, s, x);
    }
  }

  /** Between roots, any node may be entered next. */
  lemma StartKeeps<T(!new)>(g: Graph<T>, s: Search<T>, t: T)
    requires Inv(g, s, {}) && s.open == []
    ensures Inv(g, s, {t})
  {}
}
