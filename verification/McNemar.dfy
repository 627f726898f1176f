/** The exact McNemar p-value, over the reals, against what it stands for: the chance that fair
  * coin tosses come out at least as lopsided as the discordant pairs did.
  */
module McNemar {
  import opened Basics
  import O = Ordering

  // ----- the computation -----

  /** Number of ways to choose `k` of `n`. */
  function Comb(n: nat, k: nat): nat {
    if k == 0 then 1 else if n == 0 then 0 else Comb(n - 1, k - 1) + Comb(n - 1, k)
  }

  /** Sum of Comb(n, i) for i up to and including `k`. */
  function TailSum(n: nat, k: nat): nat {
    if k == 0 then Comb(n, 0) else TailSum(n, k - 1) + Comb(n, k)
  }

  function Pow2(n: nat): (p: nat)
    ensures p > 0
  {
    if n == 0 then 1 else 2 * Pow2(n - 1)
  }

  /** 0.5 ** n */
  function Half(n: nat): (h: real)
    ensures h > 0.0
  {
    if n == 0 then 1.0 else 0.5 * Half(n - 1)
  }

  /** The chance of `count` outcomes of `n` tosses. */
  function Chance(count: nat, n: nat): real {
    count as real * Half(n)
  }

  function ExactP(b: nat, c: nat): real {
    var n := b + c;
    if n == 0 then 1.0
    else
      var tail := Chance(TailSum(n, Min(b, c)), n);
      if 2.0 * tail < 1.0 then 2.0 * tail else 1.0
  }

  // ----- tail sums -----

  /** Pascal's rule, summed. */
  lemma {:induction false} TailPascal(n: nat, k: nat)
    requires n > 0
    ensures TailSum(n, k) == TailSum(n - 1, k) + (if k == 0 then 0 else TailSum(n - 1, k - 1))
  {
    if k > 0 {
      TailPascal(n, k - 1);
    }
  }

  /** A low tail and the complementary high tail, by symmetry another low tail, make the whole. */
  lemma {:induction false} TailComplement(n: nat, k: nat)
    requires k < n
    ensures TailSum(n, k) + TailSum(n, n - 1 - k) == Pow2(n)
  {
    TailPascal(n, k);
    TailPascal(n, n - 1 - k);
    if n == 1 {
      TailWhole(0, 0);
    } else {
      if k < n - 1 { TailComplement(n - 1, k); } else { TailWhole(n - 1, k); }
      if k > 0 { TailComplement(n - 1, k - 1); } else { TailWhole(n - 1, n - 1); }
    }
  }

  lemma {:induction false} TailWhole(n: nat, k: nat)
    requires k >= n
    ensures TailSum(n, k) == Pow2(n)
    decreases n, k
  {
    if n == 0 {
      if k > 0 { TailWhole(0, k - 1); }
    } else {
      TailPascal(n, k);
      TailWhole(n - 1, k);
      TailWhole(n - 1, k - 1);
    }
  }

  lemma {:induction false} CombPositive(n: nat, k: nat)
    requires k <= n
    ensures Comb(n, k) > 0
  {
    if k > 0 { CombPositive(n - 1, k - 1); }
  }

  lemma {:induction false} TailIncreases(n: nat, j: nat, k: nat)
    requires j < k <= n
    ensures 0 < TailSum(n, j) < TailSum(n, k)
    decreases k
  {
    CombPositive(n, k);
    if j < k - 1 {
      TailIncreases(n, j, k - 1);
    } else if j > 0 {
      TailIncreases(n, j - 1, j);
    }
  }

  lemma TailAtLeastOne(n: nat, k: nat)
    requires k <= n
    ensures TailSum(n, k) >= 1
    ensures TailSum(n, k) == 1 <==> k == 0
  {
    if k > 0 { TailIncreases(n, 0, k); }
  }

  /** Where twice the tail stands against the whole: above it exactly on a tie, equal to it when
    * the counts are one apart, below it otherwise.
    */
  lemma TwiceTail(b: nat, c: nat)
    requires b + c > 0
    ensures b == c ==> 2 * TailSum(b + c, Min(b, c)) > Pow2(b + c)
    ensures b == c + 1 || c == b + 1 ==> 2 * TailSum(b + c, Min(b, c)) == Pow2(b + c)
    ensures b > c + 1 || c > b + 1 ==> 2 * TailSum(b + c, Min(b, c)) < Pow2(b + c)
  {
    var n, k := b + c, Min(b, c);
    TailComplement(n, k);
    if b == c {
      TailIncreases(n, k - 1, k);
    } else if b > c + 1 || c > b + 1 {
      TailIncreases(n, k, n - 1 - k);
    }
  }

  lemma {:induction false} HalfPow2(n: nat)
    ensures Pow2(n) as real * Half(n) == 1.0
  {
    if n > 0 {
      HalfPow2(n - 1);
      var p, h := Pow2(n - 1) as real, Half(n - 1);
      assert (2.0 * p) * (0.5 * h) == p * h;
    }
  }

  lemma ChanceOrder(s: nat, t: nat, n: nat)
    ensures s < t <==> Chance(s, n) < Chance(t, n)
    ensures Chance(2 * s, n) == 2.0 * Chance(s, n)
  {
    var h := Half(n);
    hide Half;
    if s < t {
      assert t as real * h - s as real * h == (t - s) as real * h;
    } else {
      assert s as real * h - t as real * h == (s - t) as real * h;
    }
  }

  lemma ChanceOfAll(n: nat)
    ensures Chance(Pow2(n), n) == 1.0 && Chance(0, n) == 0.0
  {
    HalfPow2(n);
  }

  /** The uncapped value, and when it reaches 1. */
  lemma Uncapped(b: nat, c: nat)
    requires b + c > 0
    ensures b == c <==> 2.0 * Chance(TailSum(b + c, Min(b, c)), b + c) > 1.0
    ensures ExactP(b, c) == if b == c then 1.0 else 2.0 * Chance(TailSum(b + c, Min(b, c)), b + c)
    ensures b <= c + 1 && c <= b + 1 <==> ExactP(b, c) == 1.0
  {
    hide Chance, TailSum, Pow2;
    var n := b + c;
    var t, p := TailSum(n, Min(b, c)), Pow2(n);
    TwiceTail(b, c);
    ChanceOfAll(n);
    ChanceOrder(p, 2 * t, n);
    ChanceOrder(2 * t, p, n);
    ChanceOrder(t, 0, n);
  }

  // ----- what the value satisfies -----

  lemma Symmetric(b: nat, c: nat)
    ensures ExactP(b, c) == ExactP(c, b)
  {}

  /** The value is a probability, 1 exactly when the counts differ by at most one; and the cap at 1
    * matters exactly on a tie with something to compare.
    */
  lemma ProbabilityAndCap(b: nat, c: nat)
    ensures 0.0 < ExactP(b, c) <= 1.0
    ensures ExactP(b, c) == 1.0 <==> b <= c + 1 && c <= b + 1
    ensures b + c > 0 ==> (2.0 * Chance(TailSum(b + c, Min(b, c)), b + c) > 1.0 <==> b == c)
  {
    hide Chance, TailSum;
    if b + c > 0 {
      Uncapped(b, c);
      TailAtLeastOne(b + c, Min(b, c));
      ChanceOfAll(b + c);
      ChanceOrder(0, TailSum(b + c, Min(b, c)), b + c);
    }
  }

  /** With the number of discordant pairs fixed, the less balanced the split the smaller the value. */
  lemma IncreasesWithBalance(b: nat, c: nat, b': nat, c': nat)
    requires b + c == b' + c' && Min(b, c) < Min(b', c')
    ensures ExactP(b, c) < ExactP(b', c')
  {
    hide Chance, TailSum;
    var n := b + c;
    Uncapped(b, c);
    Uncapped(b', c');
    if b' != c' {
      TailIncreases(n, Min(b, c), Min(b', c'));
      ChanceOrder(TailSum(n, Min(b, c)), TailSum(n, Min(b', c')), n);
    }
  }

  /** No value is below 2 * 0.5^n, and exactly the one-sided splits reach it. */
  lemma SmallestValue(b: nat, c: nat)
    requires b + c > 0
    ensures ExactP(b, c) >= 2.0 * Half(b + c)
    ensures ExactP(b, c) == 2.0 * Half(b + c) <==> b == 0 || c == 0
  {
    var n, k := b + c, Min(b, c);
    assert Chance(1, n) == Half(n);
    hide Chance, TailSum, Pow2, Half;
    Uncapped(b, c);
    TailAtLeastOne(n, k);
    ChanceOrder(1, TailSum(n, k), n);
    ChanceOrder(TailSum(n, k), 1, n);
    if b == c {
      ChanceOfAll(n);
      Pow2AtLeast(n, 2);
      assert Pow2(2) == 4 by { Pow2Of2(); }
      ChanceOrder(2, Pow2(n), n);
      ChanceOrder(1, 2, n);
    }
  }

  lemma Pow2Of2()
    ensures Pow2(2) == 4
  {}

  lemma {:induction false} Pow2AtLeast(n: nat, m: nat)
    requires m <= n
    ensures Pow2(m) <= Pow2(n)
  {
    if m < n { Pow2AtLeast(n - 1, m); }
  }

  /** Some split of `n` discordant pairs is significant at 0.05 exactly from six pairs on. */
  lemma SignificantFromSix(n: nat)
    ensures (exists b: nat, c: nat :: b + c == n && ExactP(b, c) < 0.05) <==> n >= 6
  {
    assert Half(6) == 0.015625 && Half(5) == 0.03125;
    if n < 6 {
      forall b: nat, c: nat | b + c == n ensures ExactP(b, c) >= 0.05 {
        if n > 0 {
          SmallestValue(b, c);
          HalfAtMost(5, n);
        }
      }
    } else {
      SmallestValue(0, n);
      HalfAtMost(n, 6);
      assert 0 + n == n && ExactP(0, n) < 0.05;
    }
  }

  lemma {:induction false} HalfAtMost(n: nat, m: nat)
    requires m <= n
    ensures Half(n) <= Half(m)
  {
    if m < n { HalfAtMost(n - 1, m); }
  }

  // ----- what the value means -----

  function Heads(tosses: seq<bool>): nat {
    if tosses == [] then 0 else Heads(tosses[..|tosses| - 1]) + (if tosses[|tosses| - 1] then 1 else 0)
  }

  ghost function Extended(all: set<seq<bool>>, last: bool): set<seq<bool>> {
    set s | s in all :: s + [last]
  }

  lemma InExtended(all: set<seq<bool>>, last: bool, s: seq<bool>)
    ensures s in Extended(all, last) <==> s != [] && s[|s| - 1] == last && s[..|s| - 1] in all
  {
    if s in Extended(all, last) {
      var front :| front in all && s == front + [last];
      assert s[..|s| - 1] == front;
    }
    if s != [] {
      assert s == s[..|s| - 1] + [s[|s| - 1]];
    }
  }

  /** Every way `n` coins can fall. */
  ghost function Tosses(n: nat): set<seq<bool>> {
    if n == 0 then {[]} else Extended(Tosses(n - 1), true) + Extended(Tosses(n - 1), false)
  }

  lemma {:induction false} TossesAreAll(n: nat, s: seq<bool>)
    ensures s in Tosses(n) <==> |s| == n
  {
    if n == 0 {
      assert |s| == 0 ==> s == [];
    } else {
      if |s| == n {
        TossesAreAll(n - 1, s[..n - 1]);
        assert s == s[..n - 1] + [s[n - 1]];
        assert s in Extended(Tosses(n - 1), s[n - 1]);
      }
      forall front | front in Tosses(n - 1) ensures |front| == n - 1 {
        TossesAreAll(n - 1, front);
      }
    }
  }

  lemma {:induction false} ExtendedCount(all: set<seq<bool>>, last: bool)
    ensures |Extended(all, last)| == |all|
  {
    if all != {} {
      var s :| s in all;
      ExtendedCount(all - {s}, last);
      assert s + [last] !in Extended(all - {s}, last) by {
        forall t: seq<bool> ensures (t + [last])[..|t + [last]| - 1] == t {}
      }
      assert Extended(all, last) == Extended(all - {s}, last) + {s + [last]};
    }
  }

  /** The outcomes with at most `k` heads. */
  ghost function Low(n: nat, k: nat): set<seq<bool>> {
    set s | s in Tosses(n) && Heads(s) <= k
  }

  lemma {:induction false} LowSplits(n: nat, k: nat)
    requires n > 0
    ensures Low(n, k) == Extended(Low(n - 1, k), false) + (if k == 0 then {} else Extended(Low(n - 1, k - 1), true))
    ensures Extended(Low(n - 1, k), false) !! (if k == 0 then {} else Extended(Low(n - 1, k - 1), true))
  {
    hide Extended;
    var front := Tosses(n - 1);
    forall s
      ensures s in Extended(Low(n - 1, k), false) <==> s in Low(n, k) && s != [] && !s[|s| - 1]
      ensures k > 0 ==> (s in Extended(Low(n - 1, k - 1), true) <==> s in Low(n, k) && s != [] && s[|s| - 1])
      ensures s in Low(n, k) ==> s != [] && (k == 0 ==> !s[|s| - 1])
    {
      InExtended(front, true, s);
      InExtended(front, false, s);
      InExtended(Low(n - 1, k), false, s);
      if k > 0 {
        InExtended(Low(n - 1, k - 1), true, s);
      }
    }
  }

  lemma LowStep(n: nat, k: nat)
    requires n > 0
    ensures |Low(n, k)| == |Low(n - 1, k)| + (if k == 0 then 0 else |Low(n - 1, k - 1)|)
  {
    hide Low, Extended;
    LowSplits(n, k);
    ExtendedCount(Low(n - 1, k), false);
    if k > 0 {
      ExtendedCount(Low(n - 1, k - 1), true);
      O.UnionCount(Extended(Low(n - 1, k), false), Extended(Low(n - 1, k - 1), true));
    }
  }

  lemma LowOfNone(k: nat)
    ensures |Low(0, k)| == 1 == TailSum(0, k)
  {
    assert Low(0, k) == {[]};
    TailWhole(0, k);
  }

  /** The tail sum counts the outcomes with at most `k` heads. */
  lemma {:induction false} TailCounts(n: nat, k: nat)
    ensures |Low(n, k)| == TailSum(n, k)
  {
    hide Low, TailSum;
    if n == 0 {
      LowOfNone(k);
    } else {
      LowStep(n, k);
      TailPascal(n, k);
      TailCounts(n - 1, k);
      if k > 0 {
        TailCounts(n - 1, k - 1);
      }
    }
  }

  lemma {:induction false} TossesCount(n: nat)
    ensures |Tosses(n)| == Pow2(n)
  {
    if n > 0 {
      TossesDouble(n);
      TossesCount(n - 1);
    }
  }

  lemma TossesDouble(n: nat)
    requires n > 0
    ensures |Tosses(n)| == 2 * |Tosses(n - 1)|
  {
    hide Extended;
    var all := Tosses(n - 1);
    ExtendedCount(all, true);
    ExtendedCount(all, false);
    forall s | s in Extended(all, true) ensures s !in Extended(all, false) {
      InExtended(all, true, s);
      InExtended(all, false, s);
    }
    O.UnionCount(Extended(all, true), Extended(all, false));
  }

  /** The outcomes at least as lopsided as `b` against `c`, to either side. */
  ghost function AsExtreme(b: nat, c: nat): set<seq<bool>> {
    set s | s in Tosses(b + c) && (Heads(s) <= Min(b, c) || Heads(s) >= b + c - Min(b, c))
  }

  lemma ExtremeOnTie(k: nat)
    ensures |AsExtreme(k, k)| == Pow2(2 * k)
  {
    TossesCount(2 * k);
    assert AsExtreme(k, k) == Tosses(2 * k);
  }

  lemma TwoTails(b: nat, c: nat)
    requires b != c
    ensures var n, k := b + c, Min(b, c);
      var low, below := Low(n, k), Low(n, n - 1 - k);
      && AsExtreme(b, c) == low + (Tosses(n) - below) && low !! Tosses(n) - below
      && Tosses(n) == below + (Tosses(n) - below)
  {
    hide Tosses, Heads;
  }

  /** Off a tie the two tails do not meet, and have the same size. */
  lemma ExtremeOffTie(b: nat, c: nat)
    requires b != c
    ensures |AsExtreme(b, c)| == 2 * TailSum(b + c, Min(b, c))
  {
    hide TailSum, Pow2, Tosses, Low, AsExtreme;
    var n, k := b + c, Min(b, c);
    TossesCount(n);
    TailCounts(n, k);
    TailCounts(n, n - 1 - k);
    TailComplement(n, k);
    TwoTails(b, c);
    O.UnionCount(Low(n, k), Tosses(n) - Low(n, n - 1 - k));
    O.UnionCount(Low(n, n - 1 - k), Tosses(n) - Low(n, n - 1 - k));
  }

  /** The p-value is the two-sided tail probability: the outcomes at least as lopsided, each having
    * chance 0.5^n. This includes ties, where the cap makes it so.
    */
  lemma TwoSidedProbability(b: nat, c: nat)
    ensures ExactP(b, c) == Chance(|AsExtreme(b, c)|, b + c)
  {
    hide Chance, TailSum, Pow2, AsExtreme;
    ChanceOfAll(b + c);
    if b == c {
      ExtremeOnTie(b);
      if b > 0 { Uncapped(b, c); }
    } else {
      ExtremeOffTie(b, c);
      Uncapped(b, c);
      ChanceOrder(TailSum(b + c, Min(b, c)), 0, b + c);
    }
  }
}
