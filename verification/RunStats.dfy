/** Paired comparison of two evaluation runs, over the reals: discordant cases, the percentile
  * bootstrap with its resampling given, family means, and the verdict.
  */
module RunStats {
  import opened Basics
  import O = Ordering
  import M = McNemar

  // ----- discordant cases -----

  datatype Pair = Pair(caseId: string, base: real, cand: real)

  datatype Move = Regression | Improvement | Concordant

  function MoveOf(p: Pair, threshold: real): Move {
    var basePass, candPass := p.base >= threshold, p.cand >= threshold;
    if basePass && !candPass then Regression else if candPass && !basePass then Improvement else Concordant
  }

  /** The pairs that make the move, in order. */
  function Moved(pairs: seq<Pair>, threshold: real, move: Move): seq<Pair> {
    if pairs == [] then []
    else
      var last := pairs[|pairs| - 1];
      Moved(pairs[..|pairs| - 1], threshold, move) + (if MoveOf(last, threshold) == move then [last] else [])
  }

  method DiscordantCounts(pairs: seq<Pair>, threshold: real) returns (b: nat, c: nat)
    ensures b == |Moved(pairs, threshold, Regression)| && c == |Moved(pairs, threshold, Improvement)|
  {
    b, c := 0, 0;
    for i := 0 to |pairs|
      invariant b == |Moved(pairs[..i], threshold, Regression)| && c == |Moved(pairs[..i], threshold, Improvement)|
    {
      var basePass, candPass := pairs[i].base >= threshold, pairs[i].cand >= threshold;
      assert pairs[..i + 1][..i] == pairs[..i];
      if basePass && !candPass {
        b := b + 1;
      } else if candPass && !basePass {
        c := c + 1;
      }
    }
    assert pairs[..|pairs|] == pairs;
  }

  method ClassifyMoves(pairs: seq<Pair>, threshold: real) returns (regressions: seq<Pair>, improvements: seq<Pair>)
    ensures regressions == Moved(pairs, threshold, Regression) && improvements == Moved(pairs, threshold, Improvement)
  {
    regressions, improvements := [], [];
    for i := 0 to |pairs|
      invariant regressions == Moved(pairs[..i], threshold, Regression)
      invariant improvements == Moved(pairs[..i], threshold, Improvement)
    {
      var basePass, candPass := pairs[i].base >= threshold, pairs[i].cand >= threshold;
      assert pairs[..i + 1][..i] == pairs[..i];
      if basePass && !candPass {
        regressions := regressions + [pairs[i]];
      } else if candPass && !basePass {
        improvements := improvements + [pairs[i]];
      }
    }
    assert pairs[..|pairs|] == pairs;
  }

  lemma MovedOneMore(front: seq<Pair>, last: Pair, threshold: real)
    ensures forall move :: move == MoveOf(last, threshold) ==> Moved(front + [last], threshold, move) == Moved(front, threshold, move) + [last]
    ensures forall move :: move != MoveOf(last, threshold) ==> Moved(front + [last], threshold, move) == Moved(front, threshold, move)
  {}

  lemma NoneMoved(threshold: real)
    ensures forall move :: Moved([], threshold, move) == []
  {}

  lemma Appended(r: seq<Pair>, i: seq<Pair>, c: seq<Pair>, all: seq<Pair>, last: Pair)
    requires multiset(r) + multiset(i) + multiset(c) == multiset(all)
    ensures multiset(r + [last]) + multiset(i) + multiset(c) == multiset(all + [last])
    ensures multiset(r) + multiset(i + [last]) + multiset(c) == multiset(all + [last])
    ensures multiset(r) + multiset(i) + multiset(c + [last]) == multiset(all + [last])
  {}

  /** Each pair is in exactly one of the three lists. */
  lemma {:induction false} MovesPartition(pairs: seq<Pair>, threshold: real)
    ensures multiset(Moved(pairs, threshold, Regression)) + multiset(Moved(pairs, threshold, Improvement))
         + multiset(Moved(pairs, threshold, Concordant)) == multiset(pairs)
  {
    hide Moved, MoveOf;
    if pairs == [] {
      NoneMoved(threshold);
    } else {
      var front, last := pairs[..|pairs| - 1], pairs[|pairs| - 1];
      MovedOneMore(front, last, threshold);
      var r, i, c := Moved(front, threshold, Regression), Moved(front, threshold, Improvement), Moved(front, threshold, Concordant);
      MovesPartition(front, threshold);
      Appended(r, i, c, front, last);
      assert pairs == front + [last];
    }
  }

  /** A regression is a case the base run passed and the candidate did not; an improvement the
    * reverse; and every such case is listed.
    */
  lemma {:induction false} MovesMean(pairs: seq<Pair>, threshold: real, p: Pair)
    ensures p in Moved(pairs, threshold, Regression) <==> p in pairs && p.cand < threshold <= p.base
    ensures p in Moved(pairs, threshold, Improvement) <==> p in pairs && p.base < threshold <= p.cand
  {
    if pairs != [] {
      var front, last := pairs[..|pairs| - 1], pairs[|pairs| - 1];
      MovesMean(front, threshold, p);
      assert pairs == front + [last];
    }
  }

  /** When every case was won the lists are empty and whole. */
  lemma {:induction false} AllWon(pairs: seq<Pair>, threshold: real)
    requires forall p :: p in pairs ==> p.base < threshold <= p.cand
    ensures Moved(pairs, threshold, Regression) == [] && Moved(pairs, threshold, Improvement) == pairs
  {
    if pairs != [] {
      var front, last := pairs[..|pairs| - 1], pairs[|pairs| - 1];
      assert pairs == front + [last];
      AllWon(front, threshold);
    }
  }

  function Swapped(pairs: seq<Pair>): seq<Pair> {
    if pairs == [] then []
    else
      var last := pairs[|pairs| - 1];
      Swapped(pairs[..|pairs| - 1]) + [Pair(last.caseId, last.cand, last.base)]
  }

  /** Exchanging the two runs exchanges the counts, so it leaves the p-value as it is. */
  lemma {:induction false} SwapExchangesCounts(pairs: seq<Pair>, threshold: real)
    ensures |Moved(Swapped(pairs), threshold, Regression)| == |Moved(pairs, threshold, Improvement)|
    ensures |Moved(Swapped(pairs), threshold, Improvement)| == |Moved(pairs, threshold, Regression)|
    ensures PValue(Swapped(pairs), threshold) == PValue(pairs, threshold)
  {
    if pairs != [] {
      var front := pairs[..|pairs| - 1];
      SwapExchangesCounts(front, threshold);
      assert Swapped(pairs)[..|Swapped(front)|] == Swapped(front);
    }
  }

  function PValue(pairs: seq<Pair>, threshold: real): real {
    M.ExactP(|Moved(pairs, threshold, Regression)|, |Moved(pairs, threshold, Improvement)|)
  }

  // ----- sums and means -----

  function Sum(s: seq<real>): real {
    if s == [] then 0.0 else Sum(s[..|s| - 1]) + s[|s| - 1]
  }

  function Mean(s: seq<real>): real
    requires s != []
  {
    Sum(s) / |s| as real
  }

  ghost predicate Within(s: seq<real>, low: real, high: real) {
    forall i :: 0 <= i < |s| ==> low <= s[i] <= high
  }

  lemma {:induction false} SumWithin(s: seq<real>, low: real, high: real)
    requires Within(s, low, high)
    ensures low * |s| as real <= Sum(s) <= high * |s| as real
  {
    if s != [] {
      SumWithin(s[..|s| - 1], low, high);
      var n := |s| as real;
      assert low * n == low * (n - 1.0) + low && high * n == high * (n - 1.0) + high;
    }
  }

  lemma MeanWithin(s: seq<real>, low: real, high: real)
    requires s != [] && Within(s, low, high)
    ensures low <= Mean(s) <= high
  {
    SumWithin(s, low, high);
    Quotient(Sum(s), |s| as real, low, high);
  }

  lemma Quotient(x: real, n: real, low: real, high: real)
    requires n > 0.0 && low * n <= x <= high * n
    ensures low <= x / n <= high
  {}

  lemma {:induction false} SumConcat(a: seq<real>, b: seq<real>)
    ensures Sum(a + b) == Sum(a) + Sum(b)
  {
    if b == [] {
      assert a + b == a;
    } else {
      SumConcat(a, b[..|b| - 1]);
      assert (a + b)[..|a + b| - 1] == a + b[..|b| - 1];
    }
  }

  lemma SumOne(x: real)
    ensures Sum([x]) == x
  {}

  lemma SumWithout(s: seq<real>, i: nat)
    requires i < |s|
    ensures Sum(s) == Sum(s[..i] + s[i + 1..]) + s[i]
  {
    hide Sum;
    var before, x, after := s[..i], s[i], s[i + 1..];
    assert s == (before + [x]) + after;
    SumConcat(before + [x], after);
    SumConcat(before, [x]);
    SumConcat(before, after);
    SumOne(x);
  }

  lemma {:induction false} SumOfPermutation(a: seq<real>, b: seq<real>)
    requires multiset(a) == multiset(b)
    ensures Sum(a) == Sum(b) && |a| == |b|
  {
    SameLength(a, b);
    if a != [] {
      var i := TakeOut(a, b);
      SumOfPermutation(a[..|a| - 1], b[..i] + b[i + 1..]);
      SumWithout(b, i);
    }
  }

  // ----- the percentile bootstrap -----

  datatype Interval = Interval(point: real, lo: real, hi: real)

  predicate RealLess(x: real, y: real) { x < y }

  lemma RealOrder()
    ensures O.StrictTotal(RealLess)
  {}

  predicate InRange(row: seq<nat>, n: nat) {
    forall j :: 0 <= j < |row| ==> row[j] < n
  }

  /** One row of indices per resample, each row as long as the values: what the generator drew. */
  ghost predicate Draws(picks: seq<seq<nat>>, n: nat) {
    forall row :: row in picks ==> |row| == n && InRange(row, n)
  }

  function Sample(values: seq<real>, row: seq<nat>): (s: seq<real>)
    requires InRange(row, |values|)
    ensures |s| == |row| && forall j :: 0 <= j < |row| ==> s[j] == values[row[j]]
  {
    if row == [] then [] else Sample(values, row[..|row| - 1]) + [values[row[|row| - 1]]]
  }

  ghost function Boots(values: seq<real>, picks: seq<seq<nat>>): (boots: seq<real>)
    requires values != [] && Draws(picks, |values|)
    ensures |boots| == |picks|
  {
    if picks == [] then []
    else Boots(values, picks[..|picks| - 1]) + [Mean(Sample(values, picks[|picks| - 1]))]
  }

  /** Python's `int`: towards zero. */
  function Truncated(x: real): int {
    if x >= 0.0 then x.Floor else -((-x).Floor)
  }

  /** Python's indexing: negative counts from the end, None for IndexError. */
  function At(s: seq<real>, i: int): Option<real> {
    if 0 <= i < |s| then Some(s[i]) else if -|s| <= i < 0 then Some(s[|s| + i]) else None
  }

  function Part(h: real, n: nat): real { h * n as real }

  function LoIndex(alpha: real, n: nat): int { Truncated(Part(alpha / 2.0, n)) }

  function HiIndex(alpha: real, n: nat): int { Truncated(Part(1.0 - alpha / 2.0, n)) }

  function Percentiles(point: real, sorted: seq<real>, alpha: real): Option<Interval> {
    var lo, hi := At(sorted, LoIndex(alpha, |sorted|)), At(sorted, HiIndex(alpha, |sorted|));
    if lo.None? || hi.None? then None else Some(Interval(point, lo.value, hi.value))
  }

  ghost function Bootstrap(values: seq<real>, picks: seq<seq<nat>>, alpha: real): Option<Interval>
    requires values != [] && Draws(picks, |values|)
  {
    RealOrder();
    Percentiles(Mean(values), O.SortSeq(RealLess, Boots(values, picks)), alpha)
  }

  method PercentileBootstrap(values: seq<real>, picks: seq<seq<nat>>, alpha: real) returns (r: Option<Interval>)
    requires values != [] && Draws(picks, |values|)
    ensures r == Bootstrap(values, picks, alpha)
  {
    hide Percentiles, Mean, Sample;
    RealOrder();
    var boots: seq<real> := [];
    for i := 0 to |picks|
      invariant boots == Boots(values, picks[..i])
    {
      assert picks[i] in picks;
      var sample := Sample(values, picks[i]);
      assert picks[..i + 1][..i] == picks[..i];
      boots := boots + [Mean(sample)];
    }
    assert picks[..|picks|] == picks;
    r := Percentiles(Mean(values), O.SortSeq(RealLess, boots), alpha);
  }

  lemma {:induction false} BootsWithin(values: seq<real>, picks: seq<seq<nat>>, low: real, high: real)
    requires values != [] && Draws(picks, |values|) && Within(values, low, high)
    ensures Within(Boots(values, picks), low, high)
  {
    if picks != [] {
      var row := picks[|picks| - 1];
      assert row in picks;
      BootsWithin(values, picks[..|picks| - 1], low, high);
      MeanWithin(Sample(values, row), low, high);
    }
  }

  lemma PermutationWithin(a: seq<real>, b: seq<real>, low: real, high: real)
    requires multiset(a) == multiset(b) && Within(a, low, high)
    ensures Within(b, low, high)
  {
    O.SameElements(a, b);
    forall i | 0 <= i < |b| ensures low <= b[i] <= high {
      assert b[i] in a;
    }
  }

  /** For any resampling and any alpha, an interval that is produced lies within the values. */
  lemma IntervalWithinValues(values: seq<real>, picks: seq<seq<nat>>, alpha: real, low: real, high: real)
    requires values != [] && Draws(picks, |values|) && Within(values, low, high)
    ensures Bootstrap(values, picks, alpha).Some? ==>
      var i := Bootstrap(values, picks, alpha).value;
      low <= i.point <= high && low <= i.lo <= high && low <= i.hi <= high
  {
    RealOrder();
    MeanWithin(values, low, high);
    BootsWithin(values, picks, low, high);
    PermutationWithin(Boots(values, picks), O.SortSeq(RealLess, Boots(values, picks)), low, high);
  }

  /** Between 0 and 2 the indices are in range exactly when alpha is neither end and there is a
    * resample; up to 1 the lower index is the smaller.
    */
  lemma IndicesInRange(alpha: real, n: nat)
    requires 0.0 <= alpha <= 2.0
    ensures 0 <= LoIndex(alpha, n) < n && 0 <= HiIndex(alpha, n) < n <==> 0.0 < alpha < 2.0 && n > 0
    ensures 0 <= LoIndex(alpha, n) <= n && 0 <= HiIndex(alpha, n) <= n
    ensures alpha <= 1.0 ==> LoIndex(alpha, n) <= HiIndex(alpha, n)
  {
    hide Part, Truncated;
    var h := alpha / 2.0;
    PartOf(h, n);
    PartOf(1.0 - h, n);
    if alpha <= 1.0 {
      PartsInOrder(h, 1.0 - h, n);
    }
  }

  lemma PartsInOrder(g: real, h: real, n: nat)
    requires 0.0 <= g <= h
    ensures Truncated(Part(g, n)) <= Truncated(Part(h, n))
  {
    var x := n as real;
    ProductSign(h - g, x);
    ProductSign(g, x);
    assert Part(h, n) - Part(g, n) == (h - g) * x;
  }

  lemma ProductSign(a: real, b: real)
    requires a >= 0.0 && b >= 0.0
    ensures a * b >= 0.0
    ensures a * b == 0.0 <==> a == 0.0 || b == 0.0
  {}

  lemma PartOf(h: real, n: nat)
    requires 0.0 <= h <= 1.0
    ensures 0 <= Truncated(Part(h, n)) <= n
    ensures Truncated(Part(h, n)) < n <==> h < 1.0 && n > 0
  {
    var x := n as real;
    ProductSign(h, x);
    ProductSign(1.0 - h, x);
    assert x - Part(h, n) == (1.0 - h) * x;
  }

  /** With at least one resample, an alpha from 0 to 2 gives an interval exactly when it is neither
    * end; up to 1 the interval's ends are in order.
    */
  lemma IntervalInOrder(values: seq<real>, picks: seq<seq<nat>>, alpha: real)
    requires values != [] && Draws(picks, |values|) && picks != [] && 0.0 <= alpha <= 2.0
    ensures Bootstrap(values, picks, alpha).Some? <==> 0.0 < alpha < 2.0
    ensures Bootstrap(values, picks, alpha).Some? && alpha <= 1.0 ==>
      Bootstrap(values, picks, alpha).value.lo <= Bootstrap(values, picks, alpha).value.hi
  {
    RealOrder();
    IndicesInRange(alpha, |picks|);
  }

  datatype Side = Below | Above

  predicate Beyond(y: real, x: real, side: Side) {
    if side.Below? then y < x else y > x
  }

  /** How many of the values lie on that side of `x`. */
  function Count(s: seq<real>, x: real, side: Side): (n: nat)
    ensures n <= |s|
  {
    if s == [] then 0 else Count(s[..|s| - 1], x, side) + (if Beyond(s[|s| - 1], x, side) then 1 else 0)
  }

  lemma {:induction false} CountConcat(a: seq<real>, b: seq<real>, x: real, side: Side)
    ensures Count(a + b, x, side) == Count(a, x, side) + Count(b, x, side)
  {
    if b == [] {
      assert a + b == a;
    } else {
      CountConcat(a, b[..|b| - 1], x, side);
      assert (a + b)[..|a + b| - 1] == a + b[..|b| - 1];
    }
  }

  lemma CountWithout(s: seq<real>, i: nat, x: real, side: Side)
    requires i < |s|
    ensures Count(s, x, side) == Count(s[..i] + s[i + 1..], x, side) + if Beyond(s[i], x, side) then 1 else 0
  {
    var before, after := s[..i], s[i + 1..];
    assert s == (before + [s[i]]) + after;
    CountConcat(before + [s[i]], after, x, side);
    CountConcat(before, [s[i]], x, side);
    CountConcat(before, after, x, side);
  }

  lemma {:induction false} CountOfPermutation(a: seq<real>, b: seq<real>, x: real, side: Side)
    requires multiset(a) == multiset(b)
    ensures Count(a, x, side) == Count(b, x, side)
  {
    SameLength(a, b);
    if a != [] {
      var i := TakeOut(a, b);
      CountOfPermutation(a[..|a| - 1], b[..i] + b[i + 1..], x, side);
      CountWithout(b, i, x, side);
    }
  }

  lemma {:induction false} CountNone(s: seq<real>, x: real, side: Side)
    requires forall i :: 0 <= i < |s| ==> !Beyond(s[i], x, side)
    ensures Count(s, x, side) == 0
  {
    if s != [] {
      CountNone(s[..|s| - 1], x, side);
    }
  }

  /** In a sorted list at most `k` values lie below the one at `k`, and at most the rest above it. */
  lemma CountsAt(sorted: seq<real>, k: nat)
    requires O.Ordered(RealLess, sorted) && k < |sorted|
    ensures Count(sorted, sorted[k], Below) <= k && Count(sorted, sorted[k], Above) <= |sorted| - 1 - k
  {
    hide Count;
    var x := sorted[k];
    forall i | 0 <= i < |sorted| && i != k ensures if i < k then !Beyond(sorted[i], x, Above) else !Beyond(sorted[i], x, Below) {
      assert i < k ==> !RealLess(x, sorted[i]);
      assert i > k ==> !RealLess(sorted[i], x);
    }
    assert sorted == sorted[..k] + sorted[k..] && sorted == sorted[..k + 1] + sorted[k + 1..];
    CountConcat(sorted[..k], sorted[k..], x, Below);
    CountNone(sorted[k..], x, Below);
    CountConcat(sorted[..k + 1], sorted[k + 1..], x, Above);
    CountNone(sorted[..k + 1], x, Above);
  }

  /** The end is a quantile of the resample means: no more than the fraction `h` of them lie below
    * it, and more than that do not lie above it.
    */
  ghost predicate IsQuantile(boots: seq<real>, end: real, h: real) {
    Count(boots, end, Below) as real <= h * |boots| as real < (|boots| - Count(boots, end, Above)) as real
  }

  lemma QuantileAt(boots: seq<real>, sorted: seq<real>, h: real)
    requires boots != [] && 0.0 <= h < 1.0
    requires O.Ordered(RealLess, sorted) && multiset(sorted) == multiset(boots)
    ensures |sorted| == |boots| && 0 <= Truncated(Part(h, |boots|)) < |boots|
    ensures IsQuantile(boots, sorted[Truncated(Part(h, |boots|))], h)
  {
    hide Count, Part;
    SameLength(sorted, boots);
    PartOf(h, |boots|);
    var i := Truncated(Part(h, |boots|));
    CountsAt(sorted, i);
    CountOfPermutation(boots, sorted, sorted[i], Below);
    CountOfPermutation(boots, sorted, sorted[i], Above);
    FloorOfPart(h, |boots|);
  }

  lemma FloorOfPart(h: real, n: nat)
    requires 0.0 <= h
    ensures Truncated(Part(h, n)) as real <= h * n as real < (Truncated(Part(h, n)) + 1) as real
  {
    ProductSign(h, n as real);
  }

  /** The ends of the interval are the two quantiles of the resample means that alpha asks for. */
  lemma EndsAreQuantiles(values: seq<real>, picks: seq<seq<nat>>, alpha: real)
    requires values != [] && Draws(picks, |values|) && picks != [] && 0.0 < alpha < 2.0
    ensures Bootstrap(values, picks, alpha).Some?
    ensures IsQuantile(Boots(values, picks), Bootstrap(values, picks, alpha).value.lo, alpha / 2.0)
    ensures IsQuantile(Boots(values, picks), Bootstrap(values, picks, alpha).value.hi, 1.0 - alpha / 2.0)
  {
    hide IsQuantile, Truncated, Part, Boots;
    RealOrder();
    var boots := Boots(values, picks);
    QuantileAt(boots, O.SortSeq(RealLess, boots), alpha / 2.0);
    QuantileAt(boots, O.SortSeq(RealLess, boots), 1.0 - alpha / 2.0);
  }

  // ----- family means -----

  datatype Observation = Observation(family: string, baseline: real, candidate: real)

  /** The family's deltas, in order. */
  function Deltas(observations: seq<Observation>, family: string): seq<real> {
    if observations == [] then []
    else
      var last := observations[|observations| - 1];
      Deltas(observations[..|observations| - 1], family) + (if last.family == family then [last.candidate - last.baseline] else [])
  }

  ghost function Families(observations: seq<Observation>): set<string> {
    set o | o in observations :: o.family
  }

  lemma {:induction false} FamilyHasDeltas(observations: seq<Observation>, family: string)
    ensures family in Families(observations) <==> Deltas(observations, family) != []
  {
    if observations != [] {
      var front, last := observations[..|observations| - 1], observations[|observations| - 1];
      FamilyHasDeltas(front, family);
      assert observations == front + [last];
      assert family in Families(observations) <==> family in Families(front) || family == last.family;
    }
  }

  function MeansOf(families: map<string, seq<real>>, ids: seq<string>): (means: seq<real>)
    requires forall i :: 0 <= i < |ids| ==> ids[i] in families && families[ids[i]] != []
    ensures |means| == |ids|
  {
    if ids == [] then [] else MeansOf(families, ids[..|ids| - 1]) + [Mean(families[ids[|ids| - 1]])]
  }

  ghost function Grouped(observations: seq<Observation>): (families: map<string, seq<real>>)
    ensures families.Keys == Families(observations)
    ensures forall id :: id in families ==> families[id] == Deltas(observations, id) != []
  {
    forall family | family in Families(observations) ensures Deltas(observations, family) != [] {
      FamilyHasDeltas(observations, family);
    }
    map family | family in Families(observations) :: Deltas(observations, family)
  }

  /** The ids of the families in order. */
  ghost function FamilyIds(observations: seq<Observation>): (ids: seq<string>)
    ensures |ids| == |Families(observations)|
    ensures forall i :: 0 <= i < |ids| ==> ids[i] in Families(observations)
  {
    O.StringOrder();
    var ids := O.SortedSet(O.StringLess, Families(observations));
    assert forall i :: 0 <= i < |ids| ==> ids[i] in ids;
    ids
  }

  /** One mean per family, in the order of the family ids. */
  ghost function FamilyMeans(observations: seq<Observation>): (means: seq<real>)
    ensures |means| == |Families(observations)|
  {
    MeansOf(Grouped(observations), FamilyIds(observations))
  }

  datatype FamilyInterval = FamilyInterval(interval: Interval, families: nat, cases: nat)

  lemma FamiliesOneMore(observations: seq<Observation>, o: Observation)
    ensures Families(observations + [o]) == Families(observations) + {o.family}
  {}

  lemma DeltasOneMore(observations: seq<Observation>, o: Observation)
    ensures forall family ::
      Deltas(observations + [o], family) == Deltas(observations, family) + (if o.family == family then [o.candidate - o.baseline] else [])
  {}

  lemma NoFamilies()
    ensures Families([]) == {}
  {}

  method GroupByFamily(observations: seq<Observation>) returns (families: map<string, seq<real>>)
    ensures families == Grouped(observations)
  {
    hide Families, Deltas;
    families := map[];
    NoFamilies();
    for i := 0 to |observations|
      invariant families.Keys == Families(observations[..i])
      invariant forall id :: id in families ==> families[id] == Deltas(observations[..i], id)
    {
      var o := observations[i];
      ghost var before, after := observations[..i], observations[..i + 1];
      assert after == before + [o];
      FamilyHasDeltas(before, o.family);
      DeltasOneMore(before, o);
      FamiliesOneMore(before, o);
      if o.family in families {
        families := families[o.family := families[o.family] + [o.candidate - o.baseline]];
      } else {
        families := families[o.family := [o.candidate - o.baseline]];
      }
    }
    assert observations[..|observations|] == observations;
  }

  method FamilyClusterBootstrap(observations: seq<Observation>, picks: seq<seq<nat>>, alpha: real) returns (r: Option<FamilyInterval>)
    requires Draws(picks, |Families(observations)|)
    ensures observations == [] ==> r == Some(FamilyInterval(Interval(0.0, 0.0, 0.0), 0, 0))
    ensures observations != [] ==> FamilyMeans(observations) != []
    ensures observations != [] ==>
      var interval := Bootstrap(FamilyMeans(observations), picks, alpha);
      r == if interval.None? then None else Some(FamilyInterval(interval.value, |Families(observations)|, |observations|))
  {
    hide Deltas, Bootstrap, MeansOf;
    O.StringOrder();
    var families := GroupByFamily(observations);
    var ids := O.SortedSet(O.StringLess, families.Keys);
    if ids == [] {
      assert observations != [] ==> observations[0].family in Families(observations);
      return Some(FamilyInterval(Interval(0.0, 0.0, 0.0), 0, 0));
    }
    assert ids[0] in Families(observations);
    assert forall i :: 0 <= i < |ids| ==> ids[i] in ids;
    var means := MeansOf(families, ids);
    var interval := PercentileBootstrap(means, picks, alpha);
    r := if interval.None? then None else Some(FamilyInterval(interval.value, |ids|, |observations|));
  }

  lemma {:induction false} DeltasConcat(a: seq<Observation>, b: seq<Observation>, family: string)
    ensures Deltas(a + b, family) == Deltas(a, family) + Deltas(b, family)
  {
    if b == [] {
      assert a + b == a;
    } else {
      DeltasConcat(a, b[..|b| - 1], family);
      assert (a + b)[..|a + b| - 1] == a + b[..|b| - 1];
    }
  }

  lemma DeltasWithout(s: seq<Observation>, i: nat, family: string)
    requires i < |s|
    ensures multiset(Deltas(s, family)) == multiset(Deltas(s[..i] + s[i + 1..], family)) + multiset(Deltas([s[i]], family))
  {
    assert s == s[..i] + [s[i]] + s[i + 1..];
    DeltasConcat(s[..i] + [s[i]], s[i + 1..], family);
    DeltasConcat(s[..i], [s[i]], family);
    DeltasConcat(s[..i], s[i + 1..], family);
  }

  lemma {:induction false} DeltasOfPermutation(a: seq<Observation>, b: seq<Observation>, family: string)
    requires multiset(a) == multiset(b)
    ensures multiset(Deltas(a, family)) == multiset(Deltas(b, family))
  {
    if a == [] {
      assert |multiset(b)| == 0;
    } else {
      var i := TakeOut(a, b);
      DeltasOfPermutation(a[..|a| - 1], b[..i] + b[i + 1..], family);
      DeltasWithout(b, i, family);
      DeltasWithout(a, |a| - 1, family);
      assert a[..|a| - 1] + a[|a| - 1 + 1..] == a[..|a| - 1];
    }
  }

  lemma {:induction false} MeansAgree(f: map<string, seq<real>>, g: map<string, seq<real>>, ids: seq<string>)
    requires forall i :: 0 <= i < |ids| ==>
      ids[i] in f && ids[i] in g && f[ids[i]] != [] && g[ids[i]] != [] && multiset(f[ids[i]]) == multiset(g[ids[i]])
    ensures MeansOf(f, ids) == MeansOf(g, ids)
  {
    if ids != [] {
      MeansAgree(f, g, ids[..|ids| - 1]);
      SumOfPermutation(f[ids[|ids| - 1]], g[ids[|ids| - 1]]);
    }
  }

  /** The family means, hence the interval for a given resampling, depend only on which
    * observations there are, not on their order.
    */
  lemma FamilyMeansIgnoreOrder(a: seq<Observation>, b: seq<Observation>)
    requires multiset(a) == multiset(b)
    ensures FamilyMeans(a) == FamilyMeans(b)
  {
    O.StringOrder();
    O.SameElements(a, b);
    assert Families(a) == Families(b);
    forall id | id in Families(a) ensures multiset(Grouped(a)[id]) == multiset(Grouped(b)[id]) {
      DeltasOfPermutation(a, b, id);
    }
    MeansAgree(Grouped(a), Grouped(b), FamilyIds(a));
  }

  lemma {:induction false} DeltasWithin(observations: seq<Observation>, family: string, low: real, high: real)
    requires forall i :: 0 <= i < |observations| ==> low <= observations[i].candidate - observations[i].baseline <= high
    ensures Within(Deltas(observations, family), low, high)
  {
    if observations != [] {
      DeltasWithin(observations[..|observations| - 1], family, low, high);
    }
  }

  lemma {:induction false} MeansWithin(families: map<string, seq<real>>, ids: seq<string>, low: real, high: real)
    requires forall i :: 0 <= i < |ids| ==> ids[i] in families && families[ids[i]] != [] && Within(families[ids[i]], low, high)
    ensures Within(MeansOf(families, ids), low, high)
  {
    if ids != [] {
      MeansWithin(families, ids[..|ids| - 1], low, high);
      MeanWithin(families[ids[|ids| - 1]], low, high);
    }
  }

  /** The scores of one family's cases. */
  function FamilyScores(observations: seq<Observation>, family: string, candidate: bool): seq<real> {
    if observations == [] then []
    else
      var last := observations[|observations| - 1];
      FamilyScores(observations[..|observations| - 1], family, candidate)
      + (if last.family != family then [] else if candidate then [last.candidate] else [last.baseline])
  }

  lemma {:induction false} FamilySums(observations: seq<Observation>, family: string)
    ensures |Deltas(observations, family)| == |FamilyScores(observations, family, true)| == |FamilyScores(observations, family, false)|
    ensures Sum(Deltas(observations, family)) == Sum(FamilyScores(observations, family, true)) - Sum(FamilyScores(observations, family, false))
  {
    if observations != [] {
      var front, last := observations[..|observations| - 1], observations[|observations| - 1];
      FamilySums(front, family);
      if last.family == family {
        SumOneMore(Deltas(front, family), last.candidate - last.baseline);
        SumOneMore(FamilyScores(front, family, true), last.candidate);
        SumOneMore(FamilyScores(front, family, false), last.baseline);
      } else {
        assert forall s: seq<real> :: s + [] == s;
      }
    }
  }

  lemma SumOneMore(s: seq<real>, x: real)
    ensures Sum(s + [x]) == Sum(s) + x
  {
    assert (s + [x])[..|s|] == s;
  }

  /** Each family counts once, with the candidate's mean score over its cases less the baseline's, in
    * order of the family ids.
    */
  lemma FamilyMeansAreDifferences(observations: seq<Observation>, k: nat)
    requires k < |Families(observations)|
    ensures var candidates, baselines := FamilyScores(observations, FamilyIds(observations)[k], true), FamilyScores(observations, FamilyIds(observations)[k], false);
      candidates != [] && baselines != [] && FamilyMeans(observations)[k] == Mean(candidates) - Mean(baselines)
  {
    hide Sum, Mean, FamilyIds;
    var id := FamilyIds(observations)[k];
    FamilySums(observations, id);
    MeanAt(Grouped(observations), FamilyIds(observations), k);
    MeanOfDifference(Deltas(observations, id), FamilyScores(observations, id, true), FamilyScores(observations, id, false));
  }

  lemma {:induction false} MeanAt(families: map<string, seq<real>>, ids: seq<string>, k: nat)
    requires forall i :: 0 <= i < |ids| ==> ids[i] in families && families[ids[i]] != []
    requires k < |ids|
    ensures MeansOf(families, ids)[k] == Mean(families[ids[k]])
  {
    if k < |ids| - 1 {
      MeanAt(families, ids[..|ids| - 1], k);
    }
  }

  // ----- the verdict -----

  datatype Verdict = SignificantImprovement | NoRegressionNotSignificant | RegressionRisk

  function VerdictOf(ciLo: real, p: real, alpha: real): Verdict {
    if ciLo > 0.0 && p < alpha then SignificantImprovement
    else if ciLo >= 0.0 then NoRegressionNotSignificant
    else RegressionRisk
  }

  function CaseDeltas(pairs: seq<Pair>): (deltas: seq<real>)
    ensures |deltas| == |pairs|
    ensures forall i :: 0 <= i < |pairs| ==> deltas[i] == pairs[i].cand - pairs[i].base
  {
    if pairs == [] then []
    else CaseDeltas(pairs[..|pairs| - 1]) + [pairs[|pairs| - 1].cand - pairs[|pairs| - 1].base]
  }

  /** The least and the greatest value. */
  lemma {:induction false} Extremes(s: seq<real>) returns (low: real, high: real)
    requires s != []
    ensures low in s && high in s && Within(s, low, high)
  {
    var front, last := s[..|s| - 1], s[|s| - 1];
    assert s == front + [last];
    low, high := last, last;
    if front != [] {
      low, high := Extremes(front);
      low, high := if last < low then last else low, if last > high then last else high;
    }
  }

  /** What the range of the values says about the verdict, for every resampling. */
  lemma RangeDecides(values: seq<real>, picks: seq<seq<nat>>, p: real, alpha: real, low: real, high: real)
    requires values != [] && Draws(picks, |values|) && Within(values, low, high) && Bootstrap(values, picks, alpha).Some?
    ensures var v := VerdictOf(Bootstrap(values, picks, alpha).value.lo, p, alpha);
      && (low >= 0.0 ==> v != RegressionRisk)
      && (high <= 0.0 ==> v != SignificantImprovement)
      && (high < 0.0 ==> v == RegressionRisk)
      && (low > 0.0 ==> v == if p < alpha then SignificantImprovement else NoRegressionNotSignificant)
  {
    hide Bootstrap, Draws;
    IntervalWithinValues(values, picks, alpha, low, high);
  }

  /** The verdict over whole runs, for every resampling: when no case got worse it is never a
    * regression risk; when none got better, never an improvement, whatever the p-value; when all got
    * worse, a regression risk.
    */
  lemma VerdictFollowsRuns(pairs: seq<Pair>, picks: seq<seq<nat>>, threshold: real, alpha: real)
    requires pairs != [] && Draws(picks, |pairs|) && Bootstrap(CaseDeltas(pairs), picks, alpha).Some?
    ensures var v := VerdictOf(Bootstrap(CaseDeltas(pairs), picks, alpha).value.lo, PValue(pairs, threshold), alpha);
      && ((forall i :: 0 <= i < |pairs| ==> pairs[i].cand >= pairs[i].base) ==> v != RegressionRisk)
      && ((forall i :: 0 <= i < |pairs| ==> pairs[i].cand <= pairs[i].base) ==> v != SignificantImprovement)
      && ((forall i :: 0 <= i < |pairs| ==> pairs[i].cand < pairs[i].base) ==> v == RegressionRisk)
  {
    hide Bootstrap, PValue, Draws, VerdictOf;
    var low, high := Extremes(CaseDeltas(pairs));
    RangeDecides(CaseDeltas(pairs), picks, PValue(pairs, threshold), alpha, low, high);
  }

  /** When every case was won the verdict is an improvement exactly when there are cases enough for
    * alpha, at 0.05 from six on.
    */
  lemma AllWonVerdict(pairs: seq<Pair>, picks: seq<seq<nat>>, threshold: real, alpha: real)
    requires pairs != [] && Draws(picks, |pairs|) && Bootstrap(CaseDeltas(pairs), picks, alpha).Some?
    requires forall p :: p in pairs ==> p.base < threshold <= p.cand
    ensures VerdictOf(Bootstrap(CaseDeltas(pairs), picks, alpha).value.lo, PValue(pairs, threshold), alpha) ==
      if 2.0 * M.Half(|pairs|) < alpha then SignificantImprovement else NoRegressionNotSignificant
  {
    hide Bootstrap, Draws, VerdictOf, M.ExactP, M.Half;
    var low, high := Extremes(CaseDeltas(pairs));
    AllWon(pairs, threshold);
    M.SmallestValue(0, |pairs|);
    forall p | p in pairs ensures p.cand - p.base > 0.0 {}
    RangeDecides(CaseDeltas(pairs), picks, PValue(pairs, threshold), alpha, low, high);
  }

  /** The same for families, whatever the p-value that comes with them. */
  lemma VerdictFollowsFamilies(observations: seq<Observation>, picks: seq<seq<nat>>, p: real, alpha: real)
    requires observations != [] && Draws(picks, |Families(observations)|) && FamilyMeans(observations) != []
    requires Bootstrap(FamilyMeans(observations), picks, alpha).Some?
    ensures var v := VerdictOf(Bootstrap(FamilyMeans(observations), picks, alpha).value.lo, p, alpha);
      && ((forall o :: o in observations ==> o.candidate >= o.baseline) ==> v != RegressionRisk)
      && ((forall o :: o in observations ==> o.candidate <= o.baseline) ==> v != SignificantImprovement)
      && ((forall o :: o in observations ==> o.candidate < o.baseline) ==> v == RegressionRisk)
  {
    hide Bootstrap, Draws, VerdictOf, FamilyMeans;
    var deltas := seq(|observations|, i requires 0 <= i < |observations| => observations[i].candidate - observations[i].baseline);
    assert |deltas| > 0;
    var low, high := Extremes(deltas);
    forall i | 0 <= i < |observations| ensures low <= observations[i].candidate - observations[i].baseline <= high {
      assert low <= deltas[i] <= high;
    }
    FamilyMeansWithin(observations, low, high);
    RangeDecides(FamilyMeans(observations), picks, p, alpha, low, high);
    var i :| 0 <= i < |deltas| && deltas[i] == low;
    var j :| 0 <= j < |deltas| && deltas[j] == high;
    assert observations[i] in observations && observations[j] in observations;
  }

  lemma FamilyMeansWithin(observations: seq<Observation>, low: real, high: real)
    requires forall i :: 0 <= i < |observations| ==> low <= observations[i].candidate - observations[i].baseline <= high
    ensures Within(FamilyMeans(observations), low, high)
  {
    forall id | id in Families(observations) ensures Within(Grouped(observations)[id], low, high) {
      DeltasWithin(observations, id, low, high);
    }
    MeansWithin(Grouped(observations), FamilyIds(observations), low, high);
  }

  function Scores(pairs: seq<Pair>, candidate: bool): (scores: seq<real>)
    ensures |scores| == |pairs|
    ensures forall i :: 0 <= i < |pairs| ==> scores[i] == if candidate then pairs[i].cand else pairs[i].base
  {
    seq(|pairs|, i requires 0 <= i < |pairs| => if candidate then pairs[i].cand else pairs[i].base)
  }

  lemma {:induction false} SumOfDeltas(pairs: seq<Pair>)
    ensures Sum(CaseDeltas(pairs)) == Sum(Scores(pairs, true)) - Sum(Scores(pairs, false))
  {
    if pairs != [] {
      var front := pairs[..|pairs| - 1];
      SumOfDeltas(front);
      assert Scores(pairs, true)[..|front|] == Scores(front, true) && Scores(pairs, false)[..|front|] == Scores(front, false);
    }
  }

  lemma PointIsMean(values: seq<real>, picks: seq<seq<nat>>, alpha: real)
    requires values != [] && Draws(picks, |values|) && Bootstrap(values, picks, alpha).Some?
    ensures Bootstrap(values, picks, alpha).value.point == Mean(values)
  {}

  /** The point estimate is the candidate's mean score less the base's. */
  lemma PointIsMeanDifference(pairs: seq<Pair>, picks: seq<seq<nat>>, alpha: real)
    requires pairs != [] && Draws(picks, |pairs|) && Bootstrap(CaseDeltas(pairs), picks, alpha).Some?
    ensures Bootstrap(CaseDeltas(pairs), picks, alpha).value.point == Mean(Scores(pairs, true)) - Mean(Scores(pairs, false))
  {
    hide Sum, Mean, Bootstrap, Draws;
    PointIsMean(CaseDeltas(pairs), picks, alpha);
    SumOfDeltas(pairs);
    MeanOfDifference(CaseDeltas(pairs), Scores(pairs, true), Scores(pairs, false));
  }

  lemma MeanOfDifference(d: seq<real>, a: seq<real>, b: seq<real>)
    requires |d| == |a| == |b| > 0 && Sum(d) == Sum(a) - Sum(b)
    ensures Mean(d) == Mean(a) - Mean(b)
  {
    hide Sum;
    DifferenceOver(Sum(a), Sum(b), |d| as real);
  }

  lemma DifferenceOver(x: real, y: real, n: real)
    requires n != 0.0
    ensures (x - y) / n == x / n - y / n
  {}

  /** At 0.05 a significant improvement takes at least six discordant cases. */
  lemma SignificanceNeedsSix(pairs: seq<Pair>, threshold: real, ciLo: real)
    requires VerdictOf(ciLo, PValue(pairs, threshold), 0.05).SignificantImprovement?
    ensures |Moved(pairs, threshold, Regression)| + |Moved(pairs, threshold, Improvement)| >= 6
  {
    var b, c := |Moved(pairs, threshold, Regression)|, |Moved(pairs, threshold, Improvement)|;
    assert b + c == b + c && M.ExactP(b, c) < 0.05;
    M.SignificantFromSix(b + c);
  }
}
