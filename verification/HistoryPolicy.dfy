/** The storage bound and the prompt bound on a transcript. */
module HistoryPolicy {

  /** `trim_for_storage`: the last `n` turns; no bound when `n` is not positive. */
  function Trim<T>(n: int, turns: seq<T>): (r: seq<T>)
    ensures exists k :: 0 <= k <= |turns| && r == turns[k..]
    ensures n > 0 ==> |r| <= n
    ensures n <= 0 || |turns| <= n ==> r == turns
  {
    if n > 0 && |turns| > n then turns[|turns| - n..] else turns[0..]
  }

  /** Trimming early loses nothing: what is trimmed away could not have survived a later append. */
  lemma TrimThenAppend<T>(n: int, a: seq<T>, b: seq<T>)
    ensures Trim(n, Trim(n, a) + b) == Trim(n, a + b)
  {
    if n > 0 && |a| > n {
      assert (a[|a| - n..] + b)[|b|..] == (a + b)[|a| + |b| - n..];
    }
  }

  /** Replacing the last pair on a trimmed transcript gives the trimmed replacement exactly when
    * the replacement is a full pair or nothing had been trimmed. A shorter replacement on a
    * trimmed transcript leaves it one or two turns short.
    */
  lemma TrimThenReplace<T>(n: int, a: seq<T>, b: seq<T>)
    requires |Trim(n, a)| >= 2
    ensures var kept := Trim(n, a);
      Trim(n, kept[..|kept| - 2] + b) == Trim(n, a[..|a| - 2] + b) <==> |b| >= 2 || n <= 0 || |a| <= n
  {
    var kept := Trim(n, a);
    if n > 0 && |a| > n {
      assert kept == a[|a| - n..];
      var short := kept[..|kept| - 2] + b;
      var full := a[..|a| - 2] + b;
      assert |short| == n - 2 + |b| && |full| == |a| - 2 + |b|;
      if |b| >= 2 {
        assert short == full[|a| - n..];
        assert Trim(n, short) == short[|b| - 2..];
        assert Trim(n, full) == full[|a| + |b| - 2 - n..];
      } else {
        assert |Trim(n, short)| == n - 2 + |b|;
        assert |Trim(n, full)| == (if |a| - 2 + |b| > n then n else |a| - 2 + |b|);
      }
    }
  }

  /** The last pair survives trimming, and can be replaced by another whole pair either before
    * or after it.
    */
  lemma TrimKeepsLastPair<T>(n: int, a: seq<T>, pair: seq<T>, b: seq<T>)
    requires |pair| == 2 && |b| >= 2 && |Trim(n, a + pair)| >= 2
    ensures var kept := Trim(n, a + pair);
      && kept[|kept| - 2] == pair[0] && kept[|kept| - 1] == pair[1]
      && Trim(n, kept[..|kept| - 2] + b) == Trim(n, a + b)
  {
    TrimThenReplace(n, a + pair, b);
    assert (a + pair)[..|a + pair| - 2] == a;
  }

  /** Trimming a suffix gives a suffix of what trimming the whole gives. */
  lemma TrimSuffix<T>(n: int, a: seq<T>, b: seq<T>)
    ensures exists k :: 0 <= k <= |Trim(n, a + b)| && Trim(n, b) == Trim(n, a + b)[k..]
  {
    var whole := Trim(n, a + b);
    var k := |whole| - |Trim(n, b)|;
    assert Trim(n, b) == whole[k..];
  }

  function TotalChars(contents: seq<string>): nat {
    if contents == [] then 0 else |contents[0]| + TotalChars(contents[1..])
  }

  lemma {:induction false} TotalCharsOfSuffix(contents: seq<string>, k: nat)
    requires k <= |contents|
    ensures TotalChars(contents[k..]) <= TotalChars(contents)
  {
    if k > 0 {
      assert contents[k..] == contents[1..][k - 1..];
      TotalCharsOfSuffix(contents[1..], k - 1);
    }
  }

  /** `cap_for_prompt`: drop oldest turns until the text fits. What is left is the longest
    * suffix that fits, and everything when there is no cap.
    */
  method CapForPrompt(maxChars: int, contents: seq<string>) returns (r: seq<string>, ghost dropped: nat)
    ensures dropped <= |contents| && r == contents[dropped..]
    ensures maxChars <= 0 ==> dropped == 0
    ensures maxChars > 0 ==> TotalChars(r) <= maxChars
    ensures maxChars > 0 ==> forall k :: 0 <= k < dropped ==> TotalChars(contents[k..]) > maxChars
  {
    dropped := 0;
    if maxChars <= 0 || contents == [] {
      return contents, 0;
    }
    r := contents;
    while r != [] && TotalChars(r) > maxChars
      invariant dropped <= |contents| && r == contents[dropped..]
      invariant forall k :: 0 <= k < dropped ==> TotalChars(contents[k..]) > maxChars
      decreases |r|
    {
      r := r[1..];
      dropped := dropped + 1;
    }
  }
}
