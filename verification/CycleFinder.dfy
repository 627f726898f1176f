/** `find_cycles`: iterative Tarjan over an explicit frame stack, and what its output means. */
module CycleFinder {
  import opened Basics
  import opened Ordering
  import opened Graphs
  import opened CycleSearch

  /** The sort key of a cycle: first file, then length, then the whole cycle. */
  predicate CycleKeyLess<T(==)>(less: (T, T) -> bool, a: seq<T>, b: seq<T>) {
    if b == [] then false
    else if a == [] then true
    else if a[0] != b[0] then less(a[0], b[0])
    else if |a| != |b| then |a| < |b|
    else LexLess(less, a, b)
  }

  lemma CycleKeyOrder<T(!new)>(less: (T, T) -> bool, keyLess: (seq<T>, seq<T>) -> bool)
    requires StrictTotal(less) && forall a, b :: keyLess(a, b) == CycleKeyLess(less, a, b)
    ensures StrictTotal(keyLess)
  {
    forall a ensures !keyLess(a, a) { LexIrreflexive(less, a); }
    forall a, b ensures a == b || keyLess(a, b) || keyLess(b, a) { LexConnected(less, a, b); }
    forall a, b, c | keyLess(a, b) && keyLess(b, c) ensures keyLess(a, c) {
      if a != [] && |a| == |b| == |c| && a[0] == b[0] == c[0] { LexTransitive(less, a, b, c); }
    }
  }

  // ----- what the result says -----

  ghost predicate IsCycle<T(!new)>(less: (T, T) -> bool, g: Graph<T>, c: seq<T>) {
    |c| >= 2 && Ascending(less, c) && IsComponent(g, Elements(c))
  }

  ghost predicate Listed<T(!new)>(cycles: seq<seq<T>>, u: T) {
    exists i :: 0 <= i < |cycles| && u in cycles[i]
  }

  /** Exactly the strongly connected components of two or more files, each sorted,
    * ordered by first file.
    */
  ghost predicate AreTheCycles<T(!new)>(less: (T, T) -> bool, g: Graph<T>, cycles: seq<seq<T>>) {
    && (forall i :: 0 <= i < |cycles| ==> IsCycle(less, g, cycles[i]))
    && (forall u, v :: u != v && Mutual(g, u, v) ==> Listed(cycles, u))
    && (forall i, j :: 0 <= i < j < |cycles| ==> cycles[i] != [] && cycles[j] != [] && less(cycles[i][0], cycles[j][0]))
  }

  // ----- the components reported so far -----

  ghost predicate Disjoint<T(!new)>(cycles: seq<seq<T>>) {
    forall i, j, x :: 0 <= i < j < |cycles| && x in cycles[i] ==> x !in cycles[j]
  }

  ghost predicate Reported<T(!new)>(less: (T, T) -> bool, g: Graph<T>, closed: set<T>, sccs: seq<seq<T>>) {
    && (forall i :: 0 <= i < |sccs| ==> IsCycle(less, g, sccs[i]))
    && (forall i, x :: 0 <= i < |sccs| && x in sccs[i] ==> x in closed)
    && (forall u, v :: u in closed && u != v && Mutual(g, u, v) ==> Listed(sccs, u))
    && Disjoint(sccs)
  }

  lemma ListedMore<T(!new)>(sccs: seq<seq<T>>, c: seq<T>, u: T)
    requires Listed(sccs, u) || u in c
    ensures Listed(sccs + [c], u)
  {
    var all := sccs + [c];
    if Listed(sccs, u) {
      var i :| 0 <= i < |sccs| && u in sccs[i];
      assert u in all[i];
    } else {
      assert u in all[|sccs|];
    }
  }

  lemma ReportCycle<T(!new)>(less: (T, T) -> bool, g: Graph<T>, closed: set<T>, sccs: seq<seq<T>>, taken: set<T>, c: seq<T>)
    requires Reported(less, g, closed, sccs) && closed !! taken && IsCycle(less, g, c) && Elements(c) == taken
    ensures Reported(less, g, closed + taken, sccs + [c])
  {
    var all := sccs + [c];
    assert forall x :: x in c <==> x in taken;
    forall u, v | u in closed + taken && u != v && Mutual(g, u, v) ensures Listed(all, u) {
      ListedMore(sccs, c, u);
    }
  }

  /** A component of one file is not a cycle: nothing needs reporting. */
  lemma ReportNothing<T(!new)>(less: (T, T) -> bool, g: Graph<T>, closed: set<T>, sccs: seq<seq<T>>, taken: set<T>, u: T)
    requires Reported(less, g, closed, sccs) && IsComponent(g, taken) && taken == {u}
    ensures Reported(less, g, closed + taken, sccs)
  {}

  lemma ReportedAll<T(!new)>(less: (T, T) -> bool, g: Graph<T>, closed: set<T>, sccs: seq<seq<T>>, cycles: seq<seq<T>>)
    requires Reported(less, g, closed, sccs) && closed == Nodes(g)
    requires StrictTotal(less) && multiset(cycles) == multiset(sccs)
    requires forall i, j :: 0 <= i < j < |cycles| ==> !CycleKeyLess(less, cycles[j], cycles[i])
    ensures AreTheCycles(less, g, cycles)
  {
    SameElements(cycles, sccs);
    forall i | 0 <= i < |cycles| ensures IsCycle(less, g, cycles[i]) {
      assert cycles[i] in sccs;
    }
    forall u, v | u != v && Mutual(g, u, v) ensures Listed(cycles, u) {
      HasSuccessor(g, u, v);
      var i :| 0 <= i < |sccs| && u in sccs[i];
      assert sccs[i] in cycles;
      var j :| 0 <= j < |cycles| && cycles[j] == sccs[i];
    }
    forall i, j | 0 <= i < j < |cycles| ensures cycles[i] != [] && cycles[j] != [] && less(cycles[i][0], cycles[j][0]) {
      assert cycles[i] in sccs && cycles[j] in sccs;
      SortedDistinct(sccs, cycles, i, j);
    }
  }

  lemma HasSuccessor<T(!new)>(g: Graph<T>, u: T, v: T)
    requires u != v && Reaches(g, u, v)
    ensures u in Nodes(g)
  {
    var p :| Connects(g, u, p, v);
    assert p[1] in Successors(g, p[0]);
  }

  /** Disjoint cycles keep distinct first files after sorting. */
  lemma SortedDistinct<T(!new)>(sccs: seq<seq<T>>, cycles: seq<seq<T>>, i: nat, j: nat)
    requires multiset(sccs) == multiset(cycles) && Disjoint(sccs) && i < j < |cycles|
    requires forall k :: 0 <= k < |sccs| ==> sccs[k] != []
    ensures cycles[i] != [] && cycles[j] != [] && cycles[i][0] != cycles[j][0]
  {
    SameElements(cycles, sccs);
    var a, b := cycles[i], cycles[j];
    assert a in sccs && b in sccs;
    if a[0] == b[0] {
      var k :| 0 <= k < |sccs| && sccs[k] == a;
      var l :| 0 <= l < |sccs| && sccs[l] == b;
      assert a[0] in sccs[k] && a[0] in sccs[l];
      assert k == l;
      TwiceIn(cycles, i, j);
      OnceInMultiset(sccs, k);
    }
  }

  lemma OnceInMultiset<T(!new)>(sccs: seq<seq<T>>, k: nat)
    requires k < |sccs| && Disjoint(sccs) && sccs[k] != []
    ensures multiset(sccs)[sccs[k]] == 1
  {
    var c := sccs[k];
    assert sccs == sccs[..k] + [c] + sccs[k + 1..];
    assert c[0] in c;
    assert forall i :: 0 <= i < |sccs| && i != k ==> c[0] !in sccs[i];
    assert c !in sccs[..k] && c !in sccs[k + 1..];
    assert c !in multiset(sccs[..k]) && c !in multiset(sccs[k + 1..]);
  }

  // ----- the search -----

  ghost function Entering<T(!new)>(pushed: Option<T>): (r: set<T>)
    ensures pushed.None? ==> r == {}
    ensures pushed.Some? ==> r == {pushed.value}
  {
    if pushed.Some? then {pushed.value} else {}
  }

  /** The frame pushed last but not resumed yet: a start, or a new neighbour of the top node. */
  ghost predicate PushReady<T(!new)>(g: Graph<T>, s: Search<T>, pushed: Option<T>): (ready: bool)
    ensures pushed.None? ==> ready
  {
    pushed.Some? ==>
      && pushed.value in Nodes(g) && pushed.value !in s.indices
      && (s.open != [] ==> pushed.value in Successors(g, s.Top()))
  }

  /** Neighbours still to be yielded, plus one for each resumed frame. */
  ghost function Work<T(!new)>(open: seq<Frame<T>>): nat {
    if open == [] then 0 else Work(open[..|open| - 1]) + |open[|open| - 1].rest| + 1
  }

  /** The source's inner `while True` pop loop. */
  method PopComponent<T(==,!new)>(stack0: seq<T>, onstack0: set<T>, node: T)
    returns (stack: seq<T>, onstack: set<T>, scc: seq<T>)
    requires node in stack0
    requires forall x :: x in stack0 <==> x in onstack0
    requires forall i, j :: 0 <= i < j < |stack0| ==> stack0[i] != stack0[j]
    ensures |stack| < |stack0| && stack0[|stack|] == node && stack == stack0[..|stack|]
    ensures |scc| == |stack0| - |stack|
    ensures forall i :: 0 <= i < |scc| ==> scc[i] == stack0[|stack0| - 1 - i]
    ensures onstack == onstack0 - Elements(scc)
  {
    stack, onstack, scc := stack0, onstack0, [];
    ghost var m :| 0 <= m < |stack0| && stack0[m] == node;
    while true
      invariant m < |stack| <= |stack0| && stack == stack0[..|stack|]
      invariant |scc| == |stack0| - |stack|
      invariant forall i :: 0 <= i < |scc| ==> scc[i] == stack0[|stack0| - 1 - i]
      invariant onstack == onstack0 - Elements(scc)
      decreases |stack|
    {
      var taken := stack[|stack| - 1];
      stack := stack[..|stack| - 1];
      onstack := onstack - {taken};
      scc := scc + [taken];
      if taken == node {
        break;
      }
    }
  }

  /** What the pop loop took is what was stacked from the top open node upwards. */
  lemma PoppedIsTaken<T(!new)>(s: Search<T>, stack: seq<T>, scc: seq<T>)
    requires s.open != [] && StackOrdered(s) && StackNumbered(s)
    requires |stack| < |s.stack| && s.stack[|stack|] == s.Top() && stack == s.stack[..|stack|]
    requires |scc| == |s.stack| - |stack|
    requires forall i :: 0 <= i < |scc| ==> scc[i] == s.stack[|s.stack| - 1 - i]
    ensures Takes(s, Elements(scc), stack)
    ensures forall i, j :: 0 <= i < j < |scc| ==> scc[i] != scc[j]
  {
    var m := |stack|;
    forall x ensures x in Elements(scc) <==> x in s.onstack && s.Num(s.Top()) <= s.Num(x) {
      if x in Elements(scc) {
        var i :| 0 <= i < |scc| && scc[i] == x;
        assert s.stack[|s.stack| - 1 - i] == x;
      }
      if x in s.onstack && s.Num(s.Top()) <= s.Num(x) {
        var i :| 0 <= i < |s.stack| && s.stack[i] == x;
        assert i >= m;
        assert scc[|s.stack| - 1 - i] == x;
      }
    }
    forall x ensures x in stack <==> x in s.onstack && x !in Elements(scc) {
      if x in stack {
        var i :| 0 <= i < m && stack[i] == x;
        assert s.Num(s.stack[i]) < s.Num(s.stack[m]);
      }
      if x in s.onstack && x !in Elements(scc) {
        var i :| 0 <= i < |s.stack| && s.stack[i] == x;
        assert i < m by {
          assert forall j :: m <= j < |s.stack| ==> scc[|s.stack| - 1 - j] == s.stack[j];
        }
      }
    }
  }

  /** Sorting what was taken gives the component as a cycle, if it has two files or more. */
  lemma SortedScc<T(!new)>(less: (T, T) -> bool, g: Graph<T>, scc: seq<T>)
    requires StrictTotal(less) && IsComponent(g, Elements(scc)) && |scc| >= 2
    requires forall i, j :: 0 <= i < j < |scc| ==> scc[i] != scc[j]
    ensures Elements(SortSeq(less, scc)) == Elements(scc)
    ensures IsCycle(less, g, SortSeq(less, scc))
  {
    var c := SortSeq(less, scc);
    SameElements(c, scc);
    forall i, j | 0 <= i < j < |c| ensures less(c[i], c[j]) {
      if c[i] == c[j] {
        TwiceIn(c, i, j);
        DistinctOnce(scc, c[i]);
      }
    }
  }

  lemma TwiceIn<T>(s: seq<T>, i: nat, j: nat)
    requires i < j < |s| && s[i] == s[j]
    ensures multiset(s)[s[i]] >= 2
  {
    assert s == s[..j] + [s[j]] + s[j + 1..];
    assert s[i] in s[..j];
    assert s[i] in multiset(s[..j]);
  }

  lemma DistinctOnce<T>(s: seq<T>, x: T)
    requires forall i, j :: 0 <= i < j < |s| ==> s[i] != s[j]
    ensures multiset(s)[x] <= 1
  {
    if x in s {
      var k :| 0 <= k < |s| && s[k] == x;
      assert s == s[..k] + [x] + s[k + 1..];
      assert x !in s[..k] && x !in s[k + 1..];
      assert x !in multiset(s[..k]) && x !in multiset(s[k + 1..]);
    }
  }

  /** The source's loop over `graph.values()`. */
  method AllNodes<T(==,!new)>(graph: Graph<T>) returns (all: set<T>)
    ensures all == Nodes(graph)
  {
    all := graph.Keys;
    var keys := graph.Keys;
    while keys != {}
      invariant keys <= graph.Keys
      invariant all == graph.Keys + set n, d | n in graph.Keys - keys && d in graph[n] :: d
      decreases keys
    {
      var n :| n in keys;
      all := all + graph[n];
      keys := keys - {n};
    }
  }

  /** What the loop body needs to know without unfolding the invariant. */
  lemma TopFacts<T(!new)>(g: Graph<T>, s: Search<T>)
    requires Inv(g, s, {}) && s.open != []
    ensures s.Top() in s.indices && s.Top() in s.lowlink && s.Top() in s.stack
    ensures s.lowlink[s.Top()] <= s.indices[s.Top()]
    ensures s.Low(s.Top()) == s.lowlink[s.Top()] && s.Num(s.Top()) == s.indices[s.Top()]
    ensures s.onstack <= s.indices.Keys
    ensures |s.open| > 1 ==> s.open[|s.open| - 2].node in s.lowlink
    ensures s.open[|s.open| - 1].rest != [] ==> s.open[|s.open| - 1].rest[0] in Successors(g, s.Top())
  {}

  /** The parent's low link is already below the number of a root it reached: its `min` keeps it. */
  lemma ParentKeepsLow<T(!new)>(g: Graph<T>, s: Search<T>)
    requires Inv(g, s, {}) && |s.open| > 1 && s.Low(s.Top()) == s.Num(s.Top())
    ensures s.open[|s.open| - 2].node in s.lowlink && s.Top() in s.lowlink
    ensures s.lowlink[s.open[|s.open| - 2].node] <= s.lowlink[s.Top()]
  {}

  lemma DropWork<T(!new)>(s: Search<T>)
    requires s.open != []
    ensures Work(DropTop(s).open) < Work(s.open)
  {}

  lemma EnterCounts<T(!new)>(g: Graph<T>, s: Search<T>, entering: set<T>, t: T, rest: seq<T>, all: set<T>)
    requires Inv(g, s, entering) && t !in s.indices && t in all && s.indices.Keys <= all
    ensures var r := Enter(s, t, rest);
      && r.Closed() == s.Closed() && r.indices.Keys == s.indices.Keys + {t}
      && |all - r.indices.Keys| < |all - s.indices.Keys|
  {
    var r := Enter(s, t, rest);
    assert s.onstack <= s.indices.Keys;
    assert r.Closed() == s.Closed();
    assert r.indices.Keys == s.indices.Keys + {t};
    RemainderShrinks(all, s.indices.Keys, t);
  }

  lemma InvStack<T(!new)>(g: Graph<T>, s: Search<T>, entering: set<T>)
    requires Inv(g, s, entering)
    ensures StackOrdered(s) && StackNumbered(s)
    ensures forall i, j :: 0 <= i < j < |s.stack| ==> s.stack[i] != s.stack[j]
  {}

  /** The component taken off the stack is reported when it has two files or more. */
  lemma ReportTaken<T(!new)>(less: (T, T) -> bool, g: Graph<T>, s: Search<T>, stack: seq<T>, scc: seq<T>, sccs: seq<seq<T>>, all: seq<seq<T>>)
    requires StrictTotal(less)
    requires Inv(g, s, {}) && s.open != [] && s.open[|s.open| - 1].rest == [] && s.Low(s.Top()) == s.Num(s.Top())
    requires |stack| < |s.stack| && s.stack[|stack|] == s.Top() && stack == s.stack[..|stack|]
    requires |scc| == |s.stack| - |stack| && forall i :: 0 <= i < |scc| ==> scc[i] == s.stack[|s.stack| - 1 - i]
    requires Reported(less, g, s.Closed(), sccs)
    requires all == if |scc| >= 2 then sccs + [SortSeq(less, scc)] else sccs
    ensures Inv(g, Take(s, Elements(scc), stack), {}) && Reported(less, g, s.Closed() + Elements(scc), all)
    ensures Take(s, Elements(scc), stack).Closed() == s.Closed() + Elements(scc)
    ensures Distinct(scc) && s.Closed() !! Elements(scc)
  {
    hide Inv, Reported;
    InvStack(g, s, {});
    PoppedIsTaken(s, stack, scc);
    TakenIsComponent(g, s, Elements(scc));
    TakeKeeps(g, s, Elements(scc), stack);
    assert s.Closed() !! Elements(scc);
    if |scc| >= 2 {
      SortedScc(less, g, scc);
      ReportCycle(less, g, s.Closed(), sccs, Elements(scc), SortSeq(less, scc));
    } else {
      ElementsOfOne(scc);
      ReportNothing(less, g, s.Closed(), sccs, Elements(scc), scc[0]);
    }
  }

  /** The neighbours of the top frame are used up: pop the frame and, at a root, its component. */
  method FinishTop<T(==,!new)>(less: (T, T) -> bool, graph: Graph<T>, s: Search<T>, sccs: seq<seq<T>>)
    returns (r: Search<T>, all: seq<seq<T>>, ghost popped: seq<T>)
    requires StrictTotal(less)
    requires Inv(graph, s, {}) && s.open != [] && s.open[|s.open| - 1].rest == [] && Reported(less, graph, s.Closed(), sccs)
    ensures Inv(graph, r, {}) && Reported(less, graph, r.Closed(), all)
    ensures r.indices.Keys == s.indices.Keys && Work(r.open) < Work(s.open)
    ensures Distinct(popped) && s.Closed() !! Elements(popped) && r.Closed() == s.Closed() + Elements(popped)
  {
    hide Inv, Reported, StrictTotal, Work;
    var node := s.open[|s.open| - 1].node;
    TopFacts(graph, s);
    DropWork(s);
    r := DropTop(s);
    if s.lowlink[node] == s.indices[node] {
      r, all, popped := TakeComponent(less, graph, s, sccs);
    } else {
      FinishLowKeeps(graph, s);
      all, popped := sccs, [];
    }
    if r.open != [] {
      var parent := r.open[|r.open| - 1].node;
      assert parent == s.open[|s.open| - 2].node;
      if s.lowlink[node] == s.indices[node] {
        ParentKeepsLow(graph, s);
        LowerNothing(r, parent, r.lowlink[node]);
      }
      r := Lower(r, parent, r.lowlink[node]);
    }
  }

  /** The top node is a root: its component leaves the stack. */
  method TakeComponent<T(==,!new)>(less: (T, T) -> bool, graph: Graph<T>, s: Search<T>, sccs: seq<seq<T>>)
    returns (r: Search<T>, all: seq<seq<T>>, ghost popped: seq<T>)
    requires StrictTotal(less)
    requires Inv(graph, s, {}) && s.open != [] && s.open[|s.open| - 1].rest == [] && Reported(less, graph, s.Closed(), sccs)
    requires s.Low(s.Top()) == s.Num(s.Top())
    ensures Inv(graph, r, {}) && Reported(less, graph, r.Closed(), all)
    ensures r.open == DropTop(s).open && r.indices == s.indices && r.lowlink == s.lowlink
    ensures Distinct(popped) && s.Closed() !! Elements(popped) && r.Closed() == s.Closed() + Elements(popped)
  {
    hide Inv, Reported, StrictTotal;
    TopFacts(graph, s);
    InvStack(graph, s, {});
    var stack, onstack, scc := PopComponent(s.stack, s.onstack, s.open[|s.open| - 1].node);
    all := sccs;
    if |scc| >= 2 {
      all := sccs + [SortSeq(less, scc)];
    }
    r := DropTop(s).(stack := stack, onstack := onstack);
    ReportTaken(less, graph, s, stack, scc, sccs, all);
    popped := scc;
  }

  lemma StartReady<T(!new)>(g: Graph<T>, s: Search<T>, start: T)
    requires Inv(g, s, {}) && s.open == [] && start in Nodes(g) && start !in s.indices
    ensures Inv(g, s, {start}) && PushReady(g, s, Some(start))
  {
    StartKeeps(g, s, start);
  }

  lemma PushedOnce<T(!new)>(g: Graph<T>, s: Search<T>, t: T, pushes: seq<T>)
    requires PushReady(g, s, Some(t)) && Once(pushes, s.indices.Keys)
    ensures Once(pushes + [t], s.indices.Keys + {t})
  {
    assert Elements([t]) == {t};
    OnceMore(pushes, s.indices.Keys, [t]);
  }

  /** One resumption of the top frame: it ends, or its iterator yields. */
  method AdvanceTop<T(==,!new)>(less: (T, T) -> bool, graph: Graph<T>, s: Search<T>, sccs: seq<seq<T>>, ghost pops: seq<T>)
    returns (r: Search<T>, all: seq<seq<T>>, pushed: Option<T>, ghost allPops: seq<T>)
    requires StrictTotal(less)
    requires Inv(graph, s, {}) && s.open != [] && Reported(less, graph, s.Closed(), sccs) && Once(pops, s.Closed())
    ensures PushReady(graph, r, pushed) && Inv(graph, r, Entering(pushed))
    ensures Reported(less, graph, r.Closed(), all) && Once(allPops, r.Closed())
    ensures r.indices.Keys == s.indices.Keys && Work(r.open) < Work(s.open)
  {
    hide Inv, Reported, StrictTotal, Work, Once;
    all, pushed, allPops := sccs, None, pops;
    if s.open[|s.open| - 1].rest == [] {
      ghost var popped;
      r, all, popped := FinishTop(less, graph, s, sccs);
      OnceMore(pops, s.Closed(), popped);
      allPops := pops + popped;
    } else {
      r, pushed := NextNeighbour(graph, s);
    }
  }

  /** The frame loop for one start. The frame list is `s.open` followed, when present, by the
    * frame in `pushed`, which the source marks as not resumed.
    */
  method Explore<T(==,!new)>(less: (T, T) -> bool, graph: Graph<T>, start: T, s0: Search<T>, sccs0: seq<seq<T>>, ghost pushes0: seq<T>, ghost pops0: seq<T>)
    returns (s: Search<T>, sccs: seq<seq<T>>, ghost pushes: seq<T>, ghost pops: seq<T>)
    requires StrictTotal(less)
    requires Inv(graph, s0, {}) && s0.open == [] && Reported(less, graph, s0.Closed(), sccs0)
    requires start in Nodes(graph) && start !in s0.indices && s0.indices.Keys <= Nodes(graph)
    requires Once(pushes0, s0.indices.Keys) && Once(pops0, s0.Closed())
    ensures Inv(graph, s, {}) && s.open == [] && Reported(less, graph, s.Closed(), sccs)
    ensures s0.indices.Keys + {start} <= s.indices.Keys <= Nodes(graph)
    ensures Once(pushes, s.indices.Keys) && Once(pops, s.Closed())
  {
    hide *;
    s, sccs, pushes, pops := s0, sccs0, pushes0, pops0;
    var pushed := Some(start);
    StartReady(graph, s, start);
    while pushed.Some? || s.open != []
      invariant Inv(graph, s, Entering(pushed)) && PushReady(graph, s, pushed)
      invariant Reported(less, graph, s.Closed(), sccs)
      invariant s0.indices.Keys <= s.indices.Keys
      invariant s.indices.Keys <= Nodes(graph)
      invariant start in s.indices.Keys + Entering(pushed)
      invariant Once(pushes, s.indices.Keys) && Once(pops, s.Closed())
      decreases |Nodes(graph) - s.indices.Keys|, Work(s.open)
    {
      if pushed.Some? {
        PushedOnce(graph, s, pushed.value, pushes);
        s := EnterPushed(less, graph, s, pushed.value);
        pushes := pushes + [pushed.value];
        pushed := None;
      }
      s, sccs, pushed, pops := AdvanceTop(less, graph, s, sccs, pops);
    }
  }

  /** The loop over the starts. */
  method ExploreAll<T(==,!new)>(less: (T, T) -> bool, graph: Graph<T>, starts: seq<T>)
    returns (s: Search<T>, sccs: seq<seq<T>>, ghost pushes: seq<T>, ghost pops: seq<T>)
    requires StrictTotal(less) && Elements(starts) == Nodes(graph)
    ensures Inv(graph, s, {}) && s.open == [] && s.indices.Keys == Nodes(graph)
    ensures Reported(less, graph, s.Closed(), sccs)
    ensures Once(pushes, s.indices.Keys) && Once(pops, s.Closed())
  {
    hide Inv, Reported, Nodes, StrictTotal;
    s, sccs := Search(0, map[], map[], [], {}, []), [];
    pushes, pops := [], [];
    InitialSearch(less, graph);
    for k := 0 to |starts|
      invariant Inv(graph, s, {}) && s.open == [] && s.indices.Keys <= Nodes(graph)
      invariant Reported(less, graph, s.Closed(), sccs)
      invariant Elements(starts[..k]) <= s.indices.Keys
      invariant Once(pushes, s.indices.Keys) && Once(pops, s.Closed())
    {
      var start := starts[k];
      ElementsOfPrefix(starts, k);
      if start !in s.indices {
        s, sccs, pushes, pops := Explore(less, graph, start, s, sccs, pushes, pops);
      }
    }
    assert starts[..|starts|] == starts;
  }

  /** `find_cycles`. The ghost results are the nodes in the order they are pushed and popped. */
  method FindCycles<T(==,!new)>(less: (T, T) -> bool, graph: Graph<T>)
    returns (cycles: seq<seq<T>>, ghost pushes: seq<T>, ghost pops: seq<T>)
    requires StrictTotal(less)
    ensures AreTheCycles(less, graph, cycles)
    ensures Once(pushes, Nodes(graph)) && Once(pops, Nodes(graph))
  {
    hide Inv, Reported, AreTheCycles, Nodes, StrictTotal, Once;
    var keyLess := (a: seq<T>, b: seq<T>) => CycleKeyLess(less, a, b);
    CycleKeyOrder(less, keyLess);
    var all := AllNodes(graph);
    var starts := SortedSet(less, all);
    assert Elements(starts) == all;
    var s, sccs;
    s, sccs, pushes, pops := ExploreAll(less, graph, starts);
    NoOpenNoStack(graph, s);
    cycles := SortSeq(keyLess, sccs);
    ReportedAll(less, graph, s.Closed(), sccs, cycles);
  }

  /** The iterator yields: a new neighbour is pushed, a stacked one bounds the low link. */
  method NextNeighbour<T(==,!new)>(graph: Graph<T>, s: Search<T>) returns (r: Search<T>, pushed: Option<T>)
    requires Inv(graph, s, {}) && s.open != [] && s.open[|s.open| - 1].rest != []
    ensures PushReady(graph, r, pushed) && Inv(graph, r, Entering(pushed))
    ensures r.indices.Keys == s.indices.Keys && r.Closed() == s.Closed() && Work(r.open) < Work(s.open)
  {
    hide Inv;
    TopFacts(graph, s);
    YieldWork(s);
    var top := s.open[|s.open| - 1];
    var nxt := top.rest[0];
    pushed := None;
    r := Yield(s);
    if nxt !in s.indices {
      YieldNewKeeps(graph, s);
      pushed := Some(nxt);
    } else if nxt in s.onstack {
      YieldStackedKeeps(graph, s);
      r := Lower(r, top.node, s.indices[nxt]);
    } else {
      YieldKnownKeeps(graph, s);
    }
    assert r.Closed() == s.Closed();
  }

  lemma YieldWork<T(!new)>(s: Search<T>)
    requires s.open != [] && s.open[|s.open| - 1].rest != []
    ensures Work(Yield(s).open) == Work(s.open) - 1
  {}

  /** A pushed frame is resumed for the first time: number its node and stack it. */
  method EnterPushed<T(==,!new)>(less: (T, T) -> bool, graph: Graph<T>, s: Search<T>, node: T) returns (r: Search<T>)
    requires StrictTotal(less)
    requires Inv(graph, s, {node}) && PushReady(graph, s, Some(node)) && s.indices.Keys <= Nodes(graph)
    ensures Inv(graph, r, {}) && r.open != [] && r.Closed() == s.Closed()
    ensures r.indices.Keys == s.indices.Keys + {node} && r.indices.Keys <= Nodes(graph)
    ensures |Nodes(graph) - r.indices.Keys| < |Nodes(graph) - s.indices.Keys|
  {
    hide Inv, StrictTotal, Nodes;
    EnterKeeps(graph, s, node, SortedSet(less, Successors(graph, node)));
    EnterCounts(graph, s, {node}, node, SortedSet(less, Successors(graph, node)), Nodes(graph));
    r := Enter(s, node, SortedSet(less, Successors(graph, node)));
  }

  lemma InitialSearch<T(!new)>(less: (T, T) -> bool, g: Graph<T>)
    ensures var s: Search<T> := Search(0, map[], map[], [], {}, []); Inv(g, s, {}) && s.Closed() == {} && Reported(less, g, {}, [])
  {}
}
