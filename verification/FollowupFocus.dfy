/** Which earlier answers a follow-up is about: candidates listed from the transcript, and the
  * resolution of an explanation to the answers it goes back to, through other explanations.
  */
module FollowupFocus {
  import opened Basics

  datatype Mode = Answer | Explanation | Direct

  /** A transcript turn. Optional strings count as absent when empty, as in the source's tests. */
  datatype Turn = Turn(
    assistant: bool, exchange: string, content: string, mode: Mode, sources: seq<string>, subject: string,
    restoreRef: string, toolResultVersion: int, anyResult: bool)

  datatype Candidate = Candidate(position: nat, exchange: string, restoreRef: string, question: string)

  datatype Focus = NoFocus | Resolved(positions: seq<nat>) | About(subject: string) | Unavailable

  /** `Invalid` is where building the focus fails validation. */
  datatype Outcome = Valid(focus: Focus) | Invalid

  const MAX_SOURCE_CANDIDATES: nat := 20
  const MAX_QUESTION_CHARS: nat := 160
  const MAX_POSITIONS: nat := 8

  function Clip(s: string): (r: string)
    ensures r <= s && |r| == Min(|s|, MAX_QUESTION_CHARS)
  {
    if |s| <= MAX_QUESTION_CHARS then s else s[..MAX_QUESTION_CHARS]
  }

  // ----- lookups; a later turn or candidate replaces an earlier one with the same exchange -----

  function Questions(history: seq<Turn>): map<string, string> {
    if history == [] then map[]
    else
      var before, t := Questions(history[..|history| - 1]), history[|history| - 1];
      if !t.assistant && t.exchange != "" then before[t.exchange := t.content] else before
  }

  /** The last assistant turn of each exchange. */
  function Assistants(history: seq<Turn>): map<string, Turn> {
    if history == [] then map[]
    else
      var before, t := Assistants(history[..|history| - 1]), history[|history| - 1];
      if t.assistant && t.exchange != "" then before[t.exchange := t] else before
  }

  function Leaves(candidates: seq<Candidate>): map<string, nat> {
    if candidates == [] then map[]
    else
      var c := candidates[|candidates| - 1];
      Leaves(candidates[..|candidates| - 1])[c.exchange := c.position]
  }

  // ----- candidates -----

  predicate IsSource(t: Turn, questions: map<string, string>) {
    && t.assistant && t.exchange in questions && t.restoreRef != "" && t.mode == Answer
    && t.sources == [] && t.toolResultVersion == 1 && t.anyResult
  }

  function Sources(history: seq<Turn>, questions: map<string, string>): (sources: seq<Turn>)
    ensures forall i :: 0 <= i < |sources| ==> sources[i] in history && IsSource(sources[i], questions)
  {
    if history == [] then []
    else
      var front, t := history[..|history| - 1], history[|history| - 1];
      assert history == front + [t];
      Sources(front, questions) + (if IsSource(t, questions) then [t] else [])
  }

  function Last<T>(s: seq<T>, n: nat): (r: seq<T>)
    ensures |r| == Min(|s|, n) && forall i :: 0 <= i < |r| ==> r[i] == s[|s| - |r| + i]
  {
    if |s| <= n then s else s[|s| - n..]
  }

  function Numbered(window: seq<Turn>, questions: map<string, string>): (candidates: seq<Candidate>)
    requires forall i :: 0 <= i < |window| ==> window[i].exchange in questions
    ensures |candidates| == |window|
    ensures forall i :: 0 <= i < |window| ==>
      candidates[i] == Candidate(i + 1, window[i].exchange, window[i].restoreRef, Clip(questions[window[i].exchange]))
  {
    if window == [] then []
    else
      var last := |window| - 1;
      Numbered(window[..last], questions) +
      [Candidate(last + 1, window[last].exchange, window[last].restoreRef, Clip(questions[window[last].exchange]))]
  }

  function SourceCandidates(history: seq<Turn>): seq<Candidate> {
    var questions := Questions(history);
    Numbered(Last(Sources(history, questions), MAX_SOURCE_CANDIDATES), questions)
  }

  /** The last user turn of the exchange is at `j`. */
  ghost predicate LastAsked(history: seq<Turn>, eid: string, j: nat) {
    && j < |history| && !history[j].assistant && history[j].exchange == eid != ""
    && forall i :: j < i < |history| ==> history[i].assistant || history[i].exchange != eid
  }

  /** The lookup holds, for each exchange with a user turn, what its last user turn said. */
  lemma {:induction false} QuestionsAre(history: seq<Turn>, eid: string)
    ensures eid in Questions(history) <==> exists j: nat :: LastAsked(history, eid, j)
    ensures forall j: nat :: LastAsked(history, eid, j) ==> Questions(history)[eid] == history[j].content
  {
    if history != [] {
      var front, last := history[..|history| - 1], |history| - 1;
      QuestionsAre(front, eid);
      if !history[last].assistant && history[last].exchange == eid && eid != "" {
        assert LastAsked(history, eid, last);
      } else {
        forall j: nat ensures LastAsked(history, eid, j) <==> LastAsked(front, eid, j) {}
      }
    }
  }

  /** An answer that rests on no other answer, can be restored, and whose exchange was asked. */
  ghost predicate Qualifies(history: seq<Turn>, t: Turn) {
    && t.assistant && t.mode == Answer && t.sources == [] && t.restoreRef != "" && t.toolResultVersion == 1 && t.anyResult
    && exists j: nat :: LastAsked(history, t.exchange, j)
  }

  /** Where the sources of the first turns are: in order, and none left out. */
  lemma {:induction false} SourcesAt(history: seq<Turn>, questions: map<string, string>) returns (at: seq<nat>)
    ensures |at| == |Sources(history, questions)|
    ensures forall i :: 0 <= i < |at| ==> at[i] < |history| && history[at[i]] == Sources(history, questions)[i]
    ensures forall i, j :: 0 <= i < j < |at| ==> at[i] < at[j]
    ensures forall k :: 0 <= k < |history| && IsSource(history[k], questions) ==> k in at
  {
    at := [];
    if history != [] {
      var front, last := history[..|history| - 1], |history| - 1;
      at := SourcesAt(front, questions);
      assert forall k :: 0 <= k < last ==> history[k] == front[k];
      if IsSource(history[last], questions) {
        at := at + [last];
      }
    }
  }

  /** The candidates are the latest twenty answers that qualify, oldest first, numbered from one, each
    * with the question its exchange last asked. `at` are their places.
    */
  ghost predicate AreLatest(history: seq<Turn>, candidates: seq<Candidate>, at: seq<nat>) {
    && |at| == |candidates| <= MAX_SOURCE_CANDIDATES
    && (forall i :: 0 <= i < |at| ==> at[i] < |history| && CandidateOf(history, history[at[i]], candidates[i], i))
    && (forall i, j :: 0 <= i < j < |at| ==> at[i] < at[j])
    && forall k :: 0 <= k < |history| && Qualifies(history, history[k]) ==> k in at || (|at| == MAX_SOURCE_CANDIDATES && k < at[0])
  }

  lemma CandidatesAreLatest(history: seq<Turn>) returns (at: seq<nat>)
    ensures AreLatest(history, SourceCandidates(history), at)
  {
    hide Questions, Sources, SourceCandidates, Qualifies, CandidateOf, IsSource;
    var all := SourcesAt(history, Questions(history));
    CandidateCount(history);
    var n := |SourceCandidates(history)|;
    at := all[|all| - n..];
    forall i | 0 <= i < n ensures at[i] < |history| && CandidateOf(history, history[at[i]], SourceCandidates(history)[i], i) {
      CandidateIs(history, i);
    }
    NoneMissing(history, all, n);
  }

  /** The last twenty of all sources miss only what comes before them. */
  lemma NoneMissing(history: seq<Turn>, all: seq<nat>, n: nat)
    requires n == Min(|all|, MAX_SOURCE_CANDIDATES) && forall i, j :: 0 <= i < j < |all| ==> all[i] < all[j]
    requires forall k :: 0 <= k < |history| && IsSource(history[k], Questions(history)) ==> k in all
    ensures var at := all[|all| - n..];
      forall k :: 0 <= k < |history| && Qualifies(history, history[k]) ==> k in at || (n == MAX_SOURCE_CANDIDATES && k < at[0])
  {
    hide Questions, Qualifies, IsSource;
    forall k | 0 <= k < |history| && Qualifies(history, history[k]) && k !in all[|all| - n..]
      ensures n == MAX_SOURCE_CANDIDATES && k < all[|all| - n..][0]
    {
      SourceIff(history, history[k]);
      NotAmongLast(all, n, k);
    }
  }

  lemma NotAmongLast(all: seq<nat>, n: nat, k: nat)
    requires n <= |all| && k in all && k !in all[|all| - n..] && forall i, j :: 0 <= i < j < |all| ==> all[i] < all[j]
    ensures n < |all| && (n > 0 ==> k < all[|all| - n])
  {
    forall i | |all| - n <= i < |all| ensures all[i] in all[|all| - n..] {
      assert all[|all| - n..][i - (|all| - n)] == all[i];
    }
  }

  lemma CandidateCount(history: seq<Turn>)
    ensures |SourceCandidates(history)| == Min(|Sources(history, Questions(history))|, MAX_SOURCE_CANDIDATES)
  {
    hide Questions, Sources;
  }

  lemma SourceIff(history: seq<Turn>, t: Turn)
    ensures IsSource(t, Questions(history)) <==> Qualifies(history, t)
  {
    hide Questions, LastAsked;
    QuestionsAre(history, t.exchange);
  }

  /** The i-th candidate is made from its place among the latest sources. */
  lemma CandidateIs(history: seq<Turn>, i: nat)
    requires i < |SourceCandidates(history)|
    ensures var sources := Sources(history, Questions(history));
      && |SourceCandidates(history)| <= |sources|
      && CandidateOf(history, sources[|sources| - |SourceCandidates(history)| + i], SourceCandidates(history)[i], i)
  {
    hide Questions, Sources, LastAsked;
    var sources := Sources(history, Questions(history));
    var t := sources[|sources| - |SourceCandidates(history)| + i];
    SourceIff(history, t);
    QuestionsAre(history, t.exchange);
  }

  ghost predicate CandidateOf(history: seq<Turn>, t: Turn, c: Candidate, i: nat) {
    && Qualifies(history, t) && c.position == i + 1 && c.exchange == t.exchange && c.restoreRef == t.restoreRef
    && forall j: nat :: LastAsked(history, t.exchange, j) ==> c.question == Clip(history[j].content)
  }

  // ----- expanding an explanation -----

  /** Where exchange ids lead: to a candidate's position, or on to the sources of an explanation. */
  datatype Links = Links(leaf: map<string, nat>, assistants: map<string, Turn>) {
    predicate Inner(eid: string) {
      eid !in leaf && eid in assistants && assistants[eid].mode == Explanation && assistants[eid].sources != []
    }

    function Next(eid: string): seq<string>
      requires Inner(eid)
    {
      assistants[eid].sources
    }

    /** Neither a candidate nor an explanation with sources. */
    predicate Dead(eid: string) {
      eid !in leaf && !Inner(eid)
    }
  }

  lemma Unvisited(all: set<string>, visited: set<string>, eid: string)
    requires eid in all && eid !in visited
    ensures all - (visited + {eid}) < all - visited
  {}

  /** The leaf positions in the order the expansion reaches them, repeats included; None when it
    * comes back to an id on its own path or to a dead end.
    */
  function Expand(links: Links, eids: seq<string>, visited: set<string>): Option<seq<nat>>
    decreases links.assistants.Keys - visited, |eids|
  {
    if eids == [] then Some([])
    else if eids[0] in visited || links.Dead(eids[0]) then None
    else
      var here := if eids[0] in links.leaf then Some([links.leaf[eids[0]]]) else ExpandNext(links, eids[0], visited);
      if here.None? then None
      else
        var rest := Expand(links, eids[1..], visited);
        if rest.None? then None else Some(here.value + rest.value)
  }

  function ExpandNext(links: Links, eid: string, visited: set<string>): Option<seq<nat>>
    requires links.Inner(eid) && eid !in visited
    decreases links.assistants.Keys - visited, 0
  {
    Unvisited(links.assistants.Keys, visited, eid);
    Expand(links, links.Next(eid), visited + {eid})
  }

  /** Each value once, where it first occurs, after those already listed. */
  function FirstVisits(positions: seq<nat>, leaves: seq<nat>): seq<nat>
    decreases |leaves|
  {
    if leaves == [] then positions
    else FirstVisits(if leaves[0] in positions then positions else positions + [leaves[0]], leaves[1..])
  }

  lemma {:induction false} FirstVisitsConcat(positions: seq<nat>, a: seq<nat>, b: seq<nat>)
    ensures FirstVisits(positions, a + b) == FirstVisits(FirstVisits(positions, a), b)
    decreases |a|
  {
    if a == [] {
      assert a + b == b;
    } else {
      assert (a + b)[1..] == a[1..] + b;
      FirstVisitsConcat(if a[0] in positions then positions else positions + [a[0]], a[1..], b);
    }
  }

  lemma {:induction false} FirstVisitsAre(positions: seq<nat>, leaves: seq<nat>)
    requires Distinct(positions)
    ensures Distinct(FirstVisits(positions, leaves)) && positions <= FirstVisits(positions, leaves)
    ensures forall x :: x in FirstVisits(positions, leaves) <==> x in positions || x in leaves
    decreases |leaves|
  {
    if leaves != [] {
      var more := if leaves[0] in positions then positions else positions + [leaves[0]];
      FirstVisitsAre(more, leaves[1..]);
      assert leaves == [leaves[0]] + leaves[1..];
    }
  }

  /** The nested `_resolve_eids`, which appends to `positions` and `seen` as it goes. */
  method ResolveEids(links: Links, eids: seq<string>, visited: set<string>, positions: seq<nat>, seen: set<nat>)
    returns (ok: bool, positions': seq<nat>, seen': set<nat>)
    requires seen == set x | x in positions
    ensures seen' == set x | x in positions'
    ensures ok <==> Expand(links, eids, visited).Some?
    ensures ok ==> positions' == FirstVisits(positions, Expand(links, eids, visited).value)
    decreases links.assistants.Keys - visited, |eids|
  {
    positions', seen' := positions, seen;
    ghost var reached: seq<nat> := [];
    assert eids[0..] == eids;
    assert forall s: seq<nat> :: [] + s == s;
    for i := 0 to |eids|
      invariant seen' == set x | x in positions'
      invariant positions' == FirstVisits(positions, reached)
      invariant Expand(links, eids, visited) == Prepended(reached, Expand(links, eids[i..], visited))
    {
      var eid := eids[i];
      assert eids[i..][0] == eid && eids[i..][1..] == eids[i + 1..];
      if eid in visited {
        return false, positions', seen';
      }
      if eid in links.leaf {
        FirstVisitsConcat(positions, reached, [links.leaf[eid]]);
        LeafStep(positions', links.leaf[eid]);
        if links.leaf[eid] !in seen' {
          seen' := seen' + {links.leaf[eid]};
          positions' := positions' + [links.leaf[eid]];
        }
        PrependedMore(reached, [links.leaf[eid]], Expand(links, eids[i + 1..], visited));
        reached := reached + [links.leaf[eid]];
      } else if links.Inner(eid) {
        Unvisited(links.assistants.Keys, visited, eid);
        ghost var inside := Expand(links, links.Next(eid), visited + {eid});
        var found;
        found, positions', seen' := ResolveEids(links, links.Next(eid), visited + {eid}, positions', seen');
        if !found {
          return false, positions', seen';
        }
        FirstVisitsConcat(positions, reached, inside.value);
        PrependedMore(reached, inside.value, Expand(links, eids[i + 1..], visited));
        reached := reached + inside.value;
      } else {
        return false, positions', seen';
      }
    }
    assert eids[|eids|..] == [];
    assert reached + [] == reached;
    ok := true;
  }

  function Prepended(front: seq<nat>, rest: Option<seq<nat>>): Option<seq<nat>> {
    if rest.None? then None else Some(front + rest.value)
  }

  lemma PrependedMore(front: seq<nat>, here: seq<nat>, rest: Option<seq<nat>>)
    ensures Prepended(front, Prepended(here, rest)) == Prepended(front + here, rest)
  {
    if rest.Some? {
      assert front + (here + rest.value) == front + here + rest.value;
    }
  }

  lemma LeafStep(positions: seq<nat>, x: nat)
    ensures FirstVisits(positions, [x]) == if x in positions then positions else positions + [x]
  {}

  // ----- what the expansion means, by paths -----

  /** Ids each leading to the next, from one of `eids`. */
  ghost predicate Path(links: Links, eids: seq<string>, p: seq<string>)
    decreases |p|
  {
    && p != [] && p[0] in eids
    && (|p| > 1 ==> links.Inner(p[0]) && Path(links, links.Next(p[0]), p[1..]))
  }

  /** The path repeats no id, meets none of `visited`, and has not come to a dead end. */
  ghost predicate Fine(links: Links, visited: set<string>, p: seq<string>)
    requires p != []
  {
    && Distinct(p) && (forall i :: 0 <= i < |p| ==> p[i] !in visited)
    && !links.Dead(p[|p| - 1])
  }

  lemma HeadPath(links: Links, eids: seq<string>, eid: string, q: seq<string>)
    requires eid in eids && links.Inner(eid) && Path(links, links.Next(eid), q)
    ensures Path(links, eids, [eid] + q)
  {}

  lemma MorePaths(links: Links, eids: seq<string>, p: seq<string>)
    requires eids != [] && Path(links, eids[1..], p)
    ensures Path(links, eids, p)
  {}

  /** When the expansion succeeds every path is fine, and ends at a position it found or goes on. */
  lemma {:induction false} SuccessMeansFine(links: Links, eids: seq<string>, visited: set<string>, p: seq<string>)
    requires Expand(links, eids, visited).Some? && Path(links, eids, p)
    ensures Fine(links, visited, p)
    ensures p[|p| - 1] in links.leaf ==> links.leaf[p[|p| - 1]] in Expand(links, eids, visited).value
    decreases links.assistants.Keys - visited, |eids|
  {
    if p[0] == eids[0] {
      if |p| > 1 {
        Unvisited(links.assistants.Keys, visited, p[0]);
        SuccessMeansFine(links, links.Next(p[0]), visited + {p[0]}, p[1..]);
        FineHead(links, visited, p);
      }
    } else {
      assert p[0] in eids[1..];
      SuccessMeansFine(links, eids[1..], visited, p);
    }
  }

  lemma FineHead(links: Links, visited: set<string>, p: seq<string>)
    requires |p| > 1 && p[0] !in visited && Fine(links, visited + {p[0]}, p[1..])
    ensures Fine(links, visited, p)
  {
    var q := p[1..];
    forall i | 0 < i < |p| ensures p[i] !in visited && p[i] != p[0] {
      assert q[i - 1] == p[i];
    }
    forall i, j | 0 < i < j < |p| ensures p[i] != p[j] {
      assert q[i - 1] != q[j - 1];
    }
  }

  /** When it fails some path is not fine. */
  lemma {:induction false} FailureHasPath(links: Links, eids: seq<string>, visited: set<string>) returns (p: seq<string>)
    requires Expand(links, eids, visited).None?
    ensures Path(links, eids, p) && !Fine(links, visited, p)
    decreases links.assistants.Keys - visited, |eids|
  {
    var eid := eids[0];
    if eid in visited || links.Dead(eid) {
      p := [eid];
      assert p[0] == eid;
    } else if links.Inner(eid) && Expand(links, links.Next(eid), visited + {eid}).None? {
      Unvisited(links.assistants.Keys, visited, eid);
      var q := FailureHasPath(links, links.Next(eid), visited + {eid});
      p := [eid] + q;
      HeadPath(links, eids, eid, q);
      if Fine(links, visited, p) {
        FineTail(links, visited, eid, q);
      }
    } else {
      p := FailureHasPath(links, eids[1..], visited);
      MorePaths(links, eids, p);
    }
  }

  lemma FineTail(links: Links, visited: set<string>, eid: string, q: seq<string>)
    requires q != [] && Fine(links, visited, [eid] + q)
    ensures Fine(links, visited + {eid}, q)
  {
    var p := [eid] + q;
    forall i | 0 <= i < |q| ensures q[i] !in visited && q[i] != eid {
      assert p[i + 1] == q[i] && p[0] == eid;
    }
    forall i, j | 0 <= i < j < |q| ensures q[i] != q[j] {
      assert p[i + 1] != p[j + 1];
    }
    assert p[|p| - 1] == q[|q| - 1];
  }

  /** Every position found is that of a candidate some path ends at. */
  lemma {:induction false} FoundHasPath(links: Links, eids: seq<string>, visited: set<string>, x: nat) returns (p: seq<string>)
    requires Expand(links, eids, visited).Some? && x in Expand(links, eids, visited).value
    ensures Path(links, eids, p) && p[|p| - 1] in links.leaf && links.leaf[p[|p| - 1]] == x
    decreases links.assistants.Keys - visited, |eids|
  {
    var eid := eids[0];
    if eid in links.leaf && links.leaf[eid] == x {
      p := [eid];
      assert p[0] == eid;
    } else if eid !in links.leaf && x in Expand(links, links.Next(eid), visited + {eid}).value {
      Unvisited(links.assistants.Keys, visited, eid);
      var q := FoundHasPath(links, links.Next(eid), visited + {eid}, x);
      p := [eid] + q;
      HeadPath(links, eids, eid, q);
    } else {
      p := FoundHasPath(links, eids[1..], visited, x);
      MorePaths(links, eids, p);
    }
  }

  lemma {:induction false} SomethingFound(links: Links, eids: seq<string>, visited: set<string>)
    requires Expand(links, eids, visited).Some? && eids != []
    ensures Expand(links, eids, visited).value != []
    decreases links.assistants.Keys - visited, |eids|
  {
    if eids[0] !in links.leaf {
      Unvisited(links.assistants.Keys, visited, eids[0]);
      SomethingFound(links, links.Next(eids[0]), visited + {eids[0]});
    }
  }

  /** The expansion of `eids` succeeds exactly when no path from them repeats an id or comes to a
    * dead end; the positions are then those of the candidates paths end at, each once, at least one.
    */
  lemma ResolutionMeaning(links: Links, eids: seq<string>)
    requires eids != []
    ensures Expand(links, eids, {}).Some? <==> forall p :: Path(links, eids, p) ==> Fine(links, {}, p)
    ensures Expand(links, eids, {}).Some? ==>
      var positions := FirstVisits([], Expand(links, eids, {}).value);
      && positions != [] && Distinct(positions)
      && forall x :: x in positions <==> exists p :: Path(links, eids, p) && p[|p| - 1] in links.leaf && links.leaf[p[|p| - 1]] == x
  {
    if Expand(links, eids, {}).Some? {
      forall p | Path(links, eids, p) ensures Fine(links, {}, p) {
        SuccessMeansFine(links, eids, {}, p);
      }
      var leaves := Expand(links, eids, {}).value;
      SomethingFound(links, eids, {});
      FirstVisitsAre([], leaves);
      assert leaves[0] in FirstVisits([], leaves);
      forall x ensures x in leaves <==> exists p :: Path(links, eids, p) && p[|p| - 1] in links.leaf && links.leaf[p[|p| - 1]] == x {
        if x in leaves {
          var p := FoundHasPath(links, eids, {}, x);
        }
        forall p | Path(links, eids, p) && p[|p| - 1] in links.leaf && links.leaf[p[|p| - 1]] == x ensures x in leaves {
          SuccessMeansFine(links, eids, {}, p);
        }
      }
    } else {
      var p := FailureHasPath(links, eids, {});
    }
  }

  // ----- the focus -----

  function LinksOf(history: seq<Turn>, candidates: seq<Candidate>): Links {
    Links(Leaves(candidates), Assistants(history))
  }

  /** `FollowupFocus`'s own validation of a resolved focus. */
  predicate SelectionValid(positions: seq<nat>) {
    1 <= |positions| <= MAX_POSITIONS && (forall i, j :: 0 <= i < j < |positions| ==> positions[i] != positions[j])
    && forall i :: 0 <= i < |positions| ==> 1 <= positions[i] <= MAX_SOURCE_CANDIDATES
  }

  function ResolvedOutcome(positions: seq<nat>): Outcome {
    if SelectionValid(positions) then Valid(Resolved(positions)) else Invalid
  }

  /** The turn settles the focus. */
  predicate Decides(t: Turn) {
    t.assistant && (t.mode != Answer || (t.restoreRef != "" && t.anyResult))
  }

  function DecidedBy(t: Turn, history: seq<Turn>, candidates: seq<Candidate>): Outcome {
    var links, questions := LinksOf(history, candidates), Questions(history);
    match t.mode
    case Explanation =>
      if t.sources == [] then Valid(Unavailable)
      else
        var leaves := Expand(links, t.sources, {});
        if leaves.None? then Valid(Unavailable) else ResolvedOutcome(FirstVisits([], leaves.value))
    case Direct =>
      var subject := if t.subject != "" then t.subject else if t.exchange in questions then questions[t.exchange] else "";
      if subject != "" then Valid(About(Clip(subject))) else Valid(Unavailable)
    case Answer =>
      if t.exchange != "" && t.exchange in links.leaf then ResolvedOutcome([links.leaf[t.exchange]]) else Valid(Unavailable)
  }

  /** The latest turn that decides, if any. */
  function Latest(history: seq<Turn>): (k: Option<nat>)
    ensures k.Some? ==> k.value < |history| && Decides(history[k.value])
    ensures forall i :: (if k.Some? then k.value else -1) < i < |history| ==> !Decides(history[i])
  {
    if history == [] then None
    else if Decides(history[|history| - 1]) then Some(|history| - 1)
    else Latest(history[..|history| - 1])
  }

  function FocusOf(history: seq<Turn>, candidates: seq<Candidate>): Outcome {
    if Latest(history).None? then Valid(NoFocus) else DecidedBy(history[Latest(history).value], history, candidates)
  }

  /** The latest deciding turn settles the focus; with none there is no focus. */
  method SourceFocus(history: seq<Turn>, candidates: seq<Candidate>) returns (outcome: Outcome)
    ensures outcome == FocusOf(history, candidates)
  {
    var links, questions := LinksOf(history, candidates), Questions(history);
    var i := |history|;
    assert history[..i] == history;
    while i > 0
      invariant 0 <= i <= |history|
      invariant Latest(history) == Latest(history[..i])
    {
      i := i - 1;
      var t := history[i];
      assert history[..i + 1][..i] == history[..i];
      if !t.assistant {
        continue;
      }
      if t.mode == Explanation {
        if t.sources == [] {
          return Valid(Unavailable);
        }
        var ok, positions, seen := ResolveEids(links, t.sources, {}, [], {});
        if !ok {
          return Valid(Unavailable);
        }
        return ResolvedOutcome(positions);
      }
      if t.mode == Direct {
        var subject := if t.subject != "" then t.subject else if t.exchange in questions then questions[t.exchange] else "";
        if subject != "" {
          return Valid(About(Clip(subject)));
        }
        return Valid(Unavailable);
      }
      if t.restoreRef != "" && t.anyResult {
        if t.exchange != "" && t.exchange in links.leaf {
          return ResolvedOutcome([links.leaf[t.exchange]]);
        }
        return Valid(Unavailable);
      }
    }
    return Valid(NoFocus);
  }

  lemma CandidatesInRange(history: seq<Turn>)
    ensures |SourceCandidates(history)| <= MAX_SOURCE_CANDIDATES
    ensures forall i :: 0 <= i < |SourceCandidates(history)| ==> SourceCandidates(history)[i].position == i + 1
  {}

  lemma {:induction false} LeavesInRange(candidates: seq<Candidate>)
    requires forall i :: 0 <= i < |candidates| ==> 1 <= candidates[i].position <= MAX_SOURCE_CANDIDATES
    ensures forall eid :: eid in Leaves(candidates) ==> 1 <= Leaves(candidates)[eid] <= MAX_SOURCE_CANDIDATES
  {
    if candidates != [] {
      LeavesInRange(candidates[..|candidates| - 1]);
    }
  }

  lemma PositionsInRange(links: Links, eids: seq<string>)
    requires eids != [] && Expand(links, eids, {}).Some?
    requires forall eid :: eid in links.leaf ==> 1 <= links.leaf[eid] <= MAX_SOURCE_CANDIDATES
    ensures var positions := FirstVisits([], Expand(links, eids, {}).value);
      SelectionValid(positions) <==> |positions| <= MAX_POSITIONS
  {
    var positions := FirstVisits([], Expand(links, eids, {}).value);
    ResolutionMeaning(links, eids);
    forall i | 0 <= i < |positions| ensures 1 <= positions[i] <= MAX_SOURCE_CANDIDATES {
      assert positions[i] in positions;
    }
  }

  /** With candidates as the transcript lists them, validation fails exactly when an explanation
    * resolves to more than eight positions.
    */
  lemma InvalidIffMoreThanEight(t: Turn, history: seq<Turn>)
    ensures DecidedBy(t, history, SourceCandidates(history)).Invalid? <==>
      && t.mode == Explanation && t.sources != []
      && var leaves := Expand(LinksOf(history, SourceCandidates(history)), t.sources, {});
         leaves.Some? && |FirstVisits([], leaves.value)| > MAX_POSITIONS
  {
    hide Expand, FirstVisits, SourceCandidates, Questions, Assistants;
    var candidates := SourceCandidates(history);
    var links := LinksOf(history, candidates);
    CandidatesInRange(history);
    LeavesInRange(candidates);
    if t.mode == Explanation && t.sources != [] && Expand(links, t.sources, {}).Some? {
      PositionsInRange(links, t.sources);
    }
  }

  // ----- what the focus is -----

  /** Turns after the k-th that settle nothing: a user's, or an answer that cannot be restored or had
    * no result.
    */
  ghost predicate SettledLastAt(history: seq<Turn>, k: nat) {
    && k < |history|
    && forall i :: k < i < |history| ==>
         !history[i].assistant || (history[i].mode == Answer && (history[i].restoreRef == "" || !history[i].anyResult))
  }

  lemma LatestIs(history: seq<Turn>, k: nat)
    requires SettledLastAt(history, k) && Decides(history[k])
    ensures Latest(history) == Some(k)
  {}

  /** There is no focus exactly when no turn settles it. */
  lemma NoFocusIff(history: seq<Turn>)
    ensures FocusOf(history, SourceCandidates(history)) == Valid(NoFocus) <==>
      forall i :: 0 <= i < |history| && history[i].assistant ==> history[i].mode == Answer && (history[i].restoreRef == "" || !history[i].anyResult)
  {
    hide Expand, FirstVisits, Questions, SourceCandidates;
  }

  /** The lookup gives the position of the last candidate with that exchange. */
  lemma {:induction false} LeavesAre(candidates: seq<Candidate>, eid: string)
    ensures eid in Leaves(candidates) <==> exists i :: 0 <= i < |candidates| && candidates[i].exchange == eid
    ensures forall i: nat :: LastNamed(candidates, eid, i) ==> Leaves(candidates)[eid] == candidates[i].position
  {
    if candidates != [] {
      var front, last := candidates[..|candidates| - 1], |candidates| - 1;
      LeavesAre(front, eid);
      if candidates[last].exchange != eid {
        forall i: nat ensures LastNamed(candidates, eid, i) <==> LastNamed(front, eid, i) {}
      }
    }
  }

  ghost predicate LastNamed(candidates: seq<Candidate>, eid: string, i: nat) {
    i < |candidates| && candidates[i].exchange == eid && forall j :: i < j < |candidates| ==> candidates[j].exchange != eid
  }

  /** When an answer settles it, the focus is that answer alone, at the place of the last candidate of
    * its exchange; and it is unavailable exactly when there is no such candidate.
    */
  lemma AnswerFocus(history: seq<Turn>, k: nat)
    requires SettledLastAt(history, k)
    requires var t := history[k]; t.assistant && t.mode == Answer && t.restoreRef != "" && t.anyResult
    ensures var candidates, eid := SourceCandidates(history), history[k].exchange;
      var focus := FocusOf(history, candidates);
      && (forall i: nat :: LastNamed(candidates, eid, i) ==> focus == Valid(Resolved([i + 1])))
      && (focus == Valid(Unavailable) <==> forall i :: 0 <= i < |candidates| ==> candidates[i].exchange != eid)
  {
    hide Expand, FirstVisits, Questions, SourceCandidates, Assistants, Leaves, Latest, LastNamed, ResolvedOutcome;
    var candidates, eid := SourceCandidates(history), history[k].exchange;
    LatestIs(history, k);
    NamedAreAsked(history);
    LeavesAre(candidates, eid);
    CandidatesInRange(history);
    if exists i :: 0 <= i < |candidates| && candidates[i].exchange == eid {
      var i := LastOf(candidates, eid);
      OnePosition(i + 1);
      OnlyLast(candidates, eid, i);
    } else {
      NoneNamed(candidates, eid);
    }
  }

  lemma OnePosition(x: nat)
    requires 1 <= x <= MAX_SOURCE_CANDIDATES
    ensures ResolvedOutcome([x]) == Valid(Resolved([x]))
  {}

  lemma OnlyLast(candidates: seq<Candidate>, eid: string, i: nat)
    requires LastNamed(candidates, eid, i)
    ensures i < |candidates| && candidates[i].exchange == eid && forall j: nat :: LastNamed(candidates, eid, j) ==> j == i
  {}

  lemma NoneNamed(candidates: seq<Candidate>, eid: string)
    requires forall i :: 0 <= i < |candidates| ==> candidates[i].exchange != eid
    ensures forall i: nat :: !LastNamed(candidates, eid, i)
  {}

  lemma NamedAreAsked(history: seq<Turn>)
    ensures forall i :: 0 <= i < |SourceCandidates(history)| ==> SourceCandidates(history)[i].exchange != ""
  {
    hide SourceCandidates;
    var at := CandidatesAreLatest(history);
    forall i | 0 <= i < |at| ensures SourceCandidates(history)[i].exchange != "" {
      assert CandidateOf(history, history[at[i]], SourceCandidates(history)[i], i);
    }
  }

  lemma {:induction false} LastOf(candidates: seq<Candidate>, eid: string) returns (i: nat)
    requires exists k :: 0 <= k < |candidates| && candidates[k].exchange == eid
    ensures LastNamed(candidates, eid, i)
  {
    i := |candidates| - 1;
    if candidates[i].exchange != eid {
      i := LastOf(candidates[..|candidates| - 1], eid);
    }
  }

  /** A follow-up on a new answer is about that answer: when the answer that settles the focus
    * qualifies itself, it is the last candidate and the focus.
    */
  lemma NewAnswerIsFocus(history: seq<Turn>, k: nat)
    requires SettledLastAt(history, k) && Qualifies(history, history[k])
    ensures var candidates := SourceCandidates(history);
      && candidates != [] && candidates[|candidates| - 1].exchange == history[k].exchange
      && FocusOf(history, candidates) == Valid(Resolved([|candidates|]))
  {
    hide SourceCandidates, FocusOf, LastAsked;
    var candidates := SourceCandidates(history);
    var at := CandidatesAreLatest(history);
    assert k in at;
    var m :| 0 <= m < |at| && at[m] == k;
    assert CandidateOf(history, history[at[|at| - 1]], candidates[|at| - 1], |at| - 1);
    assert m == |at| - 1;
    AnswerFocus(history, k);
    assert LastNamed(candidates, history[k].exchange, |at| - 1);
  }

  /** When a direct answer settles it, the focus is the subject it carries, or else what its exchange
    * last asked, cut to length; unavailable when both are missing or empty.
    */
  lemma DirectFocus(history: seq<Turn>, k: nat)
    requires SettledLastAt(history, k) && history[k].assistant && history[k].mode == Direct
    ensures var t, focus := history[k], FocusOf(history, SourceCandidates(history));
      && (t.subject != "" ==> focus == Valid(About(Clip(t.subject))))
      && (t.subject == "" ==> forall j: nat :: LastAsked(history, t.exchange, j) ==>
            focus == Valid(if history[j].content == "" then Unavailable else About(Clip(history[j].content))))
      && (t.subject == "" && (forall j: nat :: !LastAsked(history, t.exchange, j)) ==> focus == Valid(Unavailable))
  {
    hide Expand, FirstVisits, Questions, SourceCandidates, Assistants, Leaves, Latest, LastAsked, Clip;
    LatestIs(history, k);
    QuestionsAre(history, history[k].exchange);
  }

  /** The last assistant turn of the exchange is at `k`. */
  ghost predicate LastAnswered(history: seq<Turn>, eid: string, k: nat) {
    && k < |history| && history[k].assistant && history[k].exchange == eid != ""
    && forall i :: k < i < |history| ==> !history[i].assistant || history[i].exchange != eid
  }

  /** The lookup an explanation is followed by gives the last assistant turn of each exchange. */
  lemma {:induction false} AssistantsAre(history: seq<Turn>, eid: string)
    ensures eid in Assistants(history) <==> exists k: nat :: LastAnswered(history, eid, k)
    ensures forall k: nat :: LastAnswered(history, eid, k) ==> Assistants(history)[eid] == history[k]
  {
    if history != [] {
      var front, last := history[..|history| - 1], |history| - 1;
      AssistantsAre(front, eid);
      if history[last].assistant && history[last].exchange == eid && eid != "" {
        assert LastAnswered(history, eid, last);
      } else {
        forall k: nat ensures LastAnswered(history, eid, k) <==> LastAnswered(front, eid, k) {}
      }
    }
  }

  /** When an explanation settles it, the focus is unavailable exactly when it names nothing or some
    * path from what it names fails; otherwise it is the candidates the paths end at, each once, or
    * invalid when they are more than eight.
    */
  lemma ExplanationFocus(history: seq<Turn>, k: nat) returns (positions: seq<nat>)
    requires SettledLastAt(history, k) && history[k].assistant && history[k].mode == Explanation
    ensures var candidates, eids := SourceCandidates(history), history[k].sources;
      var links, focus := LinksOf(history, candidates), FocusOf(history, candidates);
      && (focus == Valid(Unavailable) <==> eids == [] || exists p :: Path(links, eids, p) && !Fine(links, {}, p))
      && (focus != Valid(Unavailable) ==>
            && focus == (if |positions| <= MAX_POSITIONS then Valid(Resolved(positions)) else Invalid)
            && Distinct(positions)
            && forall x :: x in positions <==> exists p :: Path(links, eids, p) && p[|p| - 1] in links.leaf && links.leaf[p[|p| - 1]] == x)
  {
    hide Expand, FirstVisits, Questions, SourceCandidates, Assistants, Leaves, Latest, Path, Fine;
    LatestIs(history, k);
    var candidates, eids := SourceCandidates(history), history[k].sources;
    var links := LinksOf(history, candidates);
    positions := [];
    if eids != [] {
      ResolutionMeaning(links, eids);
      if Expand(links, eids, {}).Some? {
        positions := FirstVisits([], Expand(links, eids, {}).value);
        CandidatesInRange(history);
        LeavesInRange(candidates);
        PositionsInRange(links, eids);
      }
    }
  }

  // ----- explanations that build on one another -----

  function AnswerId(i: nat): string { seq(2 * i + 1, _ => 'x') }

  function WhyId(i: nat): string { seq(2 * i + 2, _ => 'x') }

  function Asks(eid: string): Turn { Turn(false, eid, "?", Answer, [], "", "", 0, false) }

  function Answers(i: nat): Turn { Turn(true, AnswerId(i), "!", Answer, [], "", "ref", 1, true) }

  /** Explains the i-th answer and, through the explanation before, all earlier ones. */
  function Explains(i: nat): Turn {
    Turn(true, WhyId(i), "!", Explanation, if i == 0 then [AnswerId(0)] else [WhyId(i - 1), AnswerId(i)], "", "", 0, false)
  }

  lemma AnswersTo(i: nat)
    ensures Answers(i).exchange == AnswerId(i)
  {}

  lemma ExplainsBy(i: nat)
    ensures Explains(i).mode == Explanation
    ensures Explains(i).sources == if i == 0 then [AnswerId(0)] else [WhyId(i - 1), AnswerId(i)]
  {}

  /** Every answer is followed by an explanation. */
  function Explained(n: nat): seq<Turn> {
    if n == 0 then []
    else Explained(n - 1) + [Asks(AnswerId(n - 1))] + [Answers(n - 1)] + [Asks(WhyId(n - 1))] + [Explains(n - 1)]
  }

  lemma OneMoreTurn(history: seq<Turn>, t: Turn, questions: map<string, string>)
    ensures Questions(history + [t]) == if !t.assistant && t.exchange != "" then Questions(history)[t.exchange := t.content] else Questions(history)
    ensures Assistants(history + [t]) == if t.assistant && t.exchange != "" then Assistants(history)[t.exchange := t] else Assistants(history)
    ensures Sources(history + [t], questions) == Sources(history, questions) + if IsSource(t, questions) then [t] else []
  {
    assert (history + [t])[..|history|] == history;
  }

  lemma IdsDiffer(i: nat, j: nat)
    ensures AnswerId(i) != WhyId(j) && AnswerId(i) != "" && WhyId(j) != ""
    ensures i != j ==> AnswerId(i) != AnswerId(j) && WhyId(i) != WhyId(j)
  {
    assert |AnswerId(i)| == 2 * i + 1 && |AnswerId(j)| == 2 * j + 1;
    assert |WhyId(i)| == 2 * i + 2 && |WhyId(j)| == 2 * j + 2;
  }

  ghost predicate LooksUp(n: nat, questions: map<string, string>, assistants: map<string, Turn>) {
    forall i: nat :: i < n ==> AnswerId(i) in questions && WhyId(i) in assistants && assistants[WhyId(i)] == Explains(i)
  }

  /** What the n-th round of turns adds to the lookups. */
  lemma OneMoreRound(n: nat, questions: map<string, string>)
    requires n > 0
    ensures Questions(Explained(n)) == Questions(Explained(n - 1))[AnswerId(n - 1) := "?"][WhyId(n - 1) := "?"]
    ensures Assistants(Explained(n)) == Assistants(Explained(n - 1))[AnswerId(n - 1) := Answers(n - 1)][WhyId(n - 1) := Explains(n - 1)]
    ensures Sources(Explained(n), questions) == Sources(Explained(n - 1), questions) + if AnswerId(n - 1) in questions then [Answers(n - 1)] else []
  {
    hide Questions, Assistants, Sources, AnswerId, WhyId;
    var h0 := Explained(n - 1);
    var h1 := h0 + [Asks(AnswerId(n - 1))];
    var h2 := h1 + [Answers(n - 1)];
    var h3 := h2 + [Asks(WhyId(n - 1))];
    IdsDiffer(n - 1, n - 1);
    OneMoreTurn(h0, Asks(AnswerId(n - 1)), questions);
    OneMoreTurn(h1, Answers(n - 1), questions);
    OneMoreTurn(h2, Asks(WhyId(n - 1)), questions);
    OneMoreTurn(h3, Explains(n - 1), questions);
  }

  lemma {:induction false} ExplainedLookups(n: nat)
    ensures LooksUp(n, Questions(Explained(n)), Assistants(Explained(n)))
  {
    hide Questions, Assistants, AnswerId, WhyId, Explained, Explains;
    if n > 0 {
      ExplainedLookups(n - 1);
      OneMoreRound(n, map[]);
      forall i: nat | i < n - 1 ensures WhyId(i) != WhyId(n - 1) && WhyId(i) != AnswerId(n - 1) {
        IdsDiffer(i, n - 1);
        IdsDiffer(n - 1, i);
      }
    }
  }

  lemma {:induction false} ExplainedSources(n: nat, questions: map<string, string>)
    requires forall i: nat :: i < n ==> AnswerId(i) in questions
    ensures Sources(Explained(n), questions) == seq(n, i requires 0 <= i => Answers(i))
  {
    hide Questions, Sources, Explained, AnswerId, WhyId, Answers;
    if n == 0 {
      NothingExplained(questions);
    } else {
      ExplainedSources(n - 1, questions);
      OneMoreRound(n, questions);
      assert AnswerId(n - 1) in questions;
    }
  }

  lemma NothingExplained(questions: map<string, string>)
    ensures Sources(Explained(0), questions) == []
  {}

  lemma {:induction false} AnswersAreLeaves(candidates: seq<Candidate>)
    requires forall i :: 0 <= i < |candidates| ==> candidates[i].exchange == AnswerId(i) && candidates[i].position == i + 1
    ensures forall i: nat :: i < |candidates| ==> AnswerId(i) in Leaves(candidates) && Leaves(candidates)[AnswerId(i)] == i + 1
    ensures forall i: nat :: WhyId(i) !in Leaves(candidates)
  {
    hide AnswerId, WhyId;
    if candidates != [] {
      var last := |candidates| - 1;
      AnswersAreLeaves(candidates[..last]);
      forall i: nat ensures i != last ==> AnswerId(i) != AnswerId(last) {
        IdsDiffer(i, last);
      }
      forall i: nat ensures WhyId(i) != AnswerId(last) {
        IdsDiffer(last, i);
      }
    }
  }

  function UpTo(n: nat): seq<nat> {
    seq(n, i requires 0 <= i => i + 1)
  }

  ghost predicate LinksUp(n: nat, links: Links) {
    forall i: nat :: i < n ==>
      && AnswerId(i) in links.leaf && links.leaf[AnswerId(i)] == i + 1
      && WhyId(i) !in links.leaf && WhyId(i) in links.assistants && links.assistants[WhyId(i)] == Explains(i)
  }

  lemma ExpandLeaf(links: Links, i: nat, n: nat, visited: set<string>)
    requires LinksUp(n, links) && i < n && AnswerId(i) !in visited
    ensures Expand(links, [AnswerId(i)], visited) == Some([i + 1])
  {
    hide AnswerId, WhyId, Explains;
    assert [AnswerId(i)][1..] == [];
    assert [i + 1] + [] == [i + 1];
  }

  /** The k-th explanation resolves to all answers up to the k-th. */
  lemma {:induction false} ExplainsAll(links: Links, n: nat, k: nat, visited: set<string>)
    requires LinksUp(n, links) && k < n
    requires forall i: nat :: i < n ==> AnswerId(i) !in visited && (i < k ==> WhyId(i) !in visited)
    ensures Expand(links, Explains(k).sources, visited) == Some(UpTo(k + 1))
  {
    hide AnswerId, WhyId, Explains, Expand;
    ExplainsBy(k);
    ExpandLeaf(links, k, n, visited);
    if k == 0 {
      assert UpTo(1) == [1];
    } else {
      assert UpTo(k + 1) == UpTo(k) + [k + 1];
      var inner := visited + {WhyId(k - 1)};
      forall i: nat | i < n ensures AnswerId(i) !in inner && (i < k - 1 ==> WhyId(i) !in inner) {
        IdsDiffer(i, k - 1);
      }
      ExplainsAll(links, n, k - 1, inner);
      ExplainsBy(k - 1);
      ExpandInner(links, WhyId(k - 1), AnswerId(k), visited);
    }
  }

  lemma ExpandInner(links: Links, eid: string, leaf: string, visited: set<string>)
    requires links.Inner(eid) && eid !in visited && leaf in links.leaf
    requires Expand(links, links.Next(eid), visited + {eid}).Some? && Expand(links, [leaf], visited).Some?
    ensures Expand(links, [eid, leaf], visited) ==
      Some(Expand(links, links.Next(eid), visited + {eid}).value + Expand(links, [leaf], visited).value)
  {
    assert [eid, leaf][1..] == [leaf];
  }

  lemma {:induction false} FirstVisitsOfDistinct(positions: seq<nat>, leaves: seq<nat>)
    requires Distinct(positions + leaves)
    ensures FirstVisits(positions, leaves) == positions + leaves
    decreases |leaves|
  {
    if leaves != [] {
      assert leaves[0] !in positions by {
        assert (positions + leaves)[|positions|] == leaves[0];
        assert forall i :: 0 <= i < |positions| ==> (positions + leaves)[i] == positions[i];
      }
      assert positions + [leaves[0]] + leaves[1..] == positions + leaves;
      FirstVisitsOfDistinct(positions + [leaves[0]], leaves[1..]);
    }
  }

  lemma ExplainedCandidates(n: nat)
    requires n <= MAX_SOURCE_CANDIDATES
    ensures var candidates := SourceCandidates(Explained(n));
      && |candidates| == n
      && forall i :: 0 <= i < n ==> candidates[i].exchange == AnswerId(i) && candidates[i].position == i + 1
  {
    hide Questions, Sources, Explained, Explains, Answers, Numbered, Clip, AnswerId, WhyId;
    var history := Explained(n);
    ExplainedLookups(n);
    ExplainedSources(n, Questions(history));
    var window := Last(Sources(history, Questions(history)), MAX_SOURCE_CANDIDATES);
    forall i | 0 <= i < n ensures SourceCandidates(history)[i].exchange == AnswerId(i) {
      assert window[i] == Answers(i);
      AnswersTo(i);
    }
  }

  lemma ExplainedLinks(n: nat)
    requires n <= MAX_SOURCE_CANDIDATES
    ensures LinksUp(n, LinksOf(Explained(n), SourceCandidates(Explained(n))))
  {
    hide Questions, Assistants, SourceCandidates, Leaves, Explained, Explains, AnswerId, WhyId;
    ExplainedLookups(n);
    ExplainedCandidates(n);
    AnswersAreLeaves(SourceCandidates(Explained(n)));
  }

  lemma UpToDistinct(n: nat)
    ensures Distinct(UpTo(n)) && |UpTo(n)| == n && forall i :: 0 <= i < n ==> UpTo(n)[i] == i + 1
  {}

  lemma ResolvedUpTo(n: nat)
    requires 1 <= n <= MAX_SOURCE_CANDIDATES
    ensures FirstVisits([], UpTo(n)) == UpTo(n)
    ensures ResolvedOutcome(UpTo(n)) == if n <= MAX_POSITIONS then Valid(Resolved(UpTo(n))) else Invalid
  {
    hide FirstVisits, UpTo;
    UpToDistinct(n);
    assert [] + UpTo(n) == UpTo(n);
    FirstVisitsOfDistinct([], UpTo(n));
  }

  lemma LastExplains(n: nat)
    requires n > 0
    ensures var history := Explained(n);
      history != [] && history[|history| - 1] == Explains(n - 1) && Latest(history) == Some(|history| - 1)
  {
    hide AnswerId, WhyId;
  }

  /** The failing case can be reached, though no explanation names more than two exchanges: after n
    * answers, each explained together with the explanation before, the focus is on all n answers up
    * to eight, and fails from nine on.
    */
  lemma LongExplanationsFail(n: nat)
    requires 1 <= n <= MAX_SOURCE_CANDIDATES
    ensures var history := Explained(n);
      && Latest(history) == Some(|history| - 1) && history[|history| - 1] == Explains(n - 1) && |Explains(n - 1).sources| <= 2
      && DecidedBy(Explains(n - 1), history, SourceCandidates(history)) == if n <= MAX_POSITIONS then Valid(Resolved(UpTo(n))) else Invalid
  {
    hide Questions, LinksOf, SourceCandidates, Explained, Explains, Latest, UpTo, ResolvedOutcome, AnswerId, WhyId, Expand, FirstVisits;
    var history := Explained(n);
    ExplainsBy(n - 1);
    LastExplains(n);
    ResolvedUpTo(n);
    ExplainedLinks(n);
    ExplainsAll(LinksOf(history, SourceCandidates(history)), n, n - 1, {});
  }
}
