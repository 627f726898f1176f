/** The cycle list as a canonical form of the edge relation, and its comparison with a baseline. */
module CycleBaseline {
  import opened Basics
  import opened Ordering
  import opened Graphs
  import opened CycleFinder

  ghost predicate SameEdges<T(!new)>(g: Graph<T>, h: Graph<T>) {
    forall n :: Successors(g, n) == Successors(h, n)
  }

  /** The two graphs have the same strongly connected components of two nodes or more. */
  ghost predicate SameLargeComponents<T(!new)>(g: Graph<T>, h: Graph<T>) {
    forall c: set<T> :: |c| >= 2 ==> (IsComponent(g, c) <==> IsComponent(h, c))
  }

  lemma SameReach<T(!new)>(g: Graph<T>, h: Graph<T>, u: T, v: T)
    requires SameEdges(g, h) && Reaches(g, u, v)
    ensures Reaches(h, u, v)
  {
    var p :| Connects(g, u, p, v);
    assert Connects(h, u, p, v);
  }

  lemma SameEdgesSameComponents<T(!new)>(g: Graph<T>, h: Graph<T>)
    requires SameEdges(g, h)
    ensures SameLargeComponents(g, h)
  {
    forall u, v ensures Mutual(g, u, v) <==> Mutual(h, u, v) {
      if Mutual(g, u, v) { SameReach(g, h, u, v); SameReach(g, h, v, u); }
      if Mutual(h, u, v) { SameReach(h, g, u, v); SameReach(h, g, v, u); }
    }
    forall c: set<T> ensures IsComponent(g, c) <==> IsComponent(h, c) {
      if IsComponent(g, c) {
        forall u, v | u in c ensures v in c <==> Mutual(h, u, v) { assert v in c <==> Mutual(g, u, v); }
      }
      if IsComponent(h, c) {
        forall u, v | u in c ensures v in c <==> Mutual(g, u, v) { assert v in c <==> Mutual(h, u, v); }
      }
    }
  }

  lemma {:induction false} AscendingCount<T(!new)>(less: (T, T) -> bool, c: seq<T>)
    requires StrictTotal(less) && Ascending(less, c)
    ensures |Elements(c)| == |c|
  {
    forall i, j | 0 <= i < j < |c| ensures c[i] != c[j] {
      assert less(c[i], c[j]);
    }
    ElementsCount(c);
  }

  /** Every component of two nodes or more is listed, as the sorted sequence of its nodes. */
  lemma ComponentListed<T(!new)>(less: (T, T) -> bool, g: Graph<T>, cycles: seq<seq<T>>, c: set<T>)
    requires StrictTotal(less) && AreTheCycles(less, g, cycles) && IsComponent(g, c) && |c| >= 2
    ensures SortedSet(less, c) in cycles
  {
    var s := SortedSet(less, c);
    var u, v := s[0], s[1];
    assert u in c && v in c && less(u, v);
    assert Mutual(g, u, v);
    var i :| 0 <= i < |cycles| && u in cycles[i];
    assert IsCycle(less, g, cycles[i]);
    ComponentsDisjoint(g, c, Elements(cycles[i]), u);
    forall x ensures x in s <==> x in cycles[i] { assert x in cycles[i] <==> x in Elements(cycles[i]); }
    AscendingUnique(less, s, cycles[i]);
  }

  lemma ListedIsSorted<T(!new)>(less: (T, T) -> bool, g: Graph<T>, c: seq<T>)
    requires StrictTotal(less) && IsCycle(less, g, c)
    ensures c == SortedSet(less, Elements(c)) && |Elements(c)| >= 2
  {
    AscendingCount(less, c);
    AscendingUnique(less, c, SortedSet(less, Elements(c)));
  }

  lemma ListedCarriesOver<T(!new)>(less: (T, T) -> bool, g: Graph<T>, h: Graph<T>, a: seq<seq<T>>, b: seq<seq<T>>, c: seq<T>)
    requires StrictTotal(less) && AreTheCycles(less, g, a) && AreTheCycles(less, h, b)
    requires SameLargeComponents(g, h) && c in a
    ensures c in b
  {
    assert IsCycle(less, g, c);
    ListedIsSorted(less, g, c);
    ComponentListed(less, h, b, Elements(c));
  }

  /** The list is determined by the components: two graphs with the same components of two nodes
    * or more have the same list, whatever order their nodes and neighbours were visited in.
    */
  lemma CyclesAreCanonical<T(!new)>(less: (T, T) -> bool, g: Graph<T>, h: Graph<T>, a: seq<seq<T>>, b: seq<seq<T>>)
    requires StrictTotal(less) && AreTheCycles(less, g, a) && AreTheCycles(less, h, b)
    requires SameLargeComponents(g, h)
    ensures a == b
  {
    var keyLess := (x: seq<T>, y: seq<T>) => CycleKeyLess(less, x, y);
    CycleKeyOrder(less, keyLess);
    HeadsAscend(less, g, a, keyLess);
    HeadsAscend(less, h, b, keyLess);
    forall c ensures c in a <==> c in b {
      if c in a { ListedCarriesOver(less, g, h, a, b, c); }
      if c in b { ListedCarriesOver(less, h, g, b, a, c); }
    }
    AscendingUnique(keyLess, a, b);
  }

  lemma HeadsAscend<T(!new)>(less: (T, T) -> bool, g: Graph<T>, cycles: seq<seq<T>>, keyLess: (seq<T>, seq<T>) -> bool)
    requires StrictTotal(less) && AreTheCycles(less, g, cycles)
    requires forall a, b :: keyLess(a, b) == CycleKeyLess(less, a, b)
    ensures Ascending(keyLess, cycles)
  {}

  /** The output depends only on the edge relation. */
  lemma CyclesDependOnEdgesOnly<T(!new)>(less: (T, T) -> bool, g: Graph<T>, h: Graph<T>, a: seq<seq<T>>, b: seq<seq<T>>)
    requires StrictTotal(less) && AreTheCycles(less, g, a) && AreTheCycles(less, h, b)
    requires SameEdges(g, h)
    ensures a == b
  {
    SameEdgesSameComponents(g, h);
    CyclesAreCanonical(less, g, h, a, b);
  }

  /** The converse: equal lists mean equal components. */
  lemma EqualListsSameComponents<T(!new)>(less: (T, T) -> bool, g: Graph<T>, h: Graph<T>, a: seq<seq<T>>)
    requires StrictTotal(less) && AreTheCycles(less, g, a) && AreTheCycles(less, h, a)
    ensures SameLargeComponents(g, h)
  {
    forall c: set<T> | |c| >= 2 ensures IsComponent(g, c) <==> IsComponent(h, c) {
      var s := SortedSet(less, c);
      assert Elements(s) == c;
      if IsComponent(g, c) { ComponentListed(less, g, a, c); assert IsCycle(less, h, s); }
      if IsComponent(h, c) { ComponentListed(less, h, a, c); assert IsCycle(less, g, s); }
    }
  }

  // ----- comparison with the stored baseline -----

  /** `compare_cycles`: what is new and what is stale, each in tuple order. */
  function CompareCycles(current: seq<seq<string>>, baseline: seq<seq<string>>): (r: (seq<seq<string>>, seq<seq<string>>))
    requires StrictTotal(TupleLess)
    ensures forall c :: c in r.0 <==> c in current && c !in baseline
    ensures forall c :: c in r.1 <==> c in baseline && c !in current
    ensures Ascending(TupleLess, r.0) && Ascending(TupleLess, r.1)
  {
    var currentKeys := set c | c in current;
    var baselineKeys := set c | c in baseline;
    (SortedSet(TupleLess, currentKeys - baselineKeys), SortedSet(TupleLess, baselineKeys - currentKeys))
  }

  /** The gate passes exactly when no cycle has appeared, changed or disappeared. */
  lemma GatePassesIffComponentsUnchanged(
    now: Graph<string>, before: Graph<string>, current: seq<seq<string>>, baseline: seq<seq<string>>)
    requires StrictTotal(StringLess) && StrictTotal(TupleLess)
    requires AreTheCycles(StringLess, now, current) && AreTheCycles(StringLess, before, baseline)
    ensures CompareCycles(current, baseline) == ([], []) <==> SameLargeComponents(now, before)
  {
    var r := CompareCycles(current, baseline);
    assert r.0 != [] ==> r.0[0] in r.0;
    assert r.1 != [] ==> r.1[0] in r.1;
    if SameLargeComponents(now, before) {
      CyclesAreCanonical(StringLess, now, before, current, baseline);
    }
    if r == ([], []) {
      forall c ensures c in current <==> c in baseline { assert c !in r.0 && c !in r.1; }
      var keyLess := (x: seq<string>, y: seq<string>) => CycleKeyLess(StringLess, x, y);
      CycleKeyOrder(StringLess, keyLess);
      HeadsAscend(StringLess, now, current, keyLess);
      HeadsAscend(StringLess, before, baseline, keyLess);
      AscendingUnique(keyLess, current, baseline);
      EqualListsSameComponents(StringLess, now, before, current);
    }
  }

  /** The checker end to end: search the import graph, compare with the stored list. */
  method CheckCycles(graph: Graph<string>, baseline: seq<seq<string>>) returns (added: seq<seq<string>>, stale: seq<seq<string>>)
    ensures forall c :: c in added <==> IsCycle(StringLess, graph, c) && c !in baseline
    ensures forall c :: c in stale <==> c in baseline && !IsCycle(StringLess, graph, c)
  {
    StringOrder();
    TupleOrder();
    var current, pushes, pops := FindCycles(StringLess, graph);
    var r := CompareCycles(current, baseline);
    forall c ensures c in current <==> IsCycle(StringLess, graph, c) {
      if IsCycle(StringLess, graph, c) {
        ListedIsSorted(StringLess, graph, c);
        ComponentListed(StringLess, graph, current, Elements(c));
      }
    }
    added, stale := r.0, r.1;
  }
}
