/** Rebuilding a thread's memory from its query records: the replay, its agreement with the live
  * store, and what a partial read gives.
  */
module DurableHistory {
  import opened Basics
  import opened OptimisticStore
  import opened HistoryPolicy
  import opened Transcripts

  /** One kept row of a thread. `operation` is "result_page", "regenerate" or anything else. */
  datatype Row = Row(exchangeId: string, operation: Option<string>, question: string, answer: string)

  const RESULT_PAGE := "result_page"
  const REGENERATE := "regenerate"

  /** The text rules: redaction and truncation of a question, redaction, stripping and truncation
    * of an answer, and whether a question is only white space.
    */
  datatype TextRules = TextRules(question: string -> string, answer: string -> string, blank: string -> bool)

  ghost predicate QuestionRuleIdempotent(t: TextRules) {
    forall q :: t.question(t.question(q)) == t.question(q)
  }

  /** `build_exchange_turns`: a user turn with the context mode, and an assistant turn, with
    * everything else that is kept of the exchange, unless the answer is empty.
    */
  function ExchangeTurns(t: TextRules, question: string, answer: string, exchangeId: string, contextMode: Option<string>, extra: string): seq<Turn> {
    [Turn(User, t.question(question), Some(exchangeId), contextMode, "")]
    + if t.answer(answer) != "" then [Turn(Assistant, t.answer(answer), Some(exchangeId), None, extra)] else []
  }

  // ----- the replay -----

  /** What one more row does to the kept rows. */
  function KeepRow(t: TextRules, kept: seq<Row>, row: Row): seq<Row> {
    if row.operation == Some(RESULT_PAGE) then kept
    else if row.operation == Some(REGENERATE) then
      if kept == [] then kept
      else
        var merged := row.(question := kept[|kept| - 1].question);
        if t.blank(merged.question) then kept[..|kept| - 1] else kept[..|kept| - 1] + [merged]
    else if t.blank(row.question) then kept
    else kept + [row]
  }

  function Kept(t: TextRules, rows: seq<Row>): seq<Row> {
    if rows == [] then [] else KeepRow(t, Kept(t, rows[..|rows| - 1]), rows[|rows| - 1])
  }

  function RowTurns(t: TextRules, kept: seq<Row>): seq<Turn> {
    if kept == [] then []
    else RowTurns(t, kept[..|kept| - 1]) + ExchangeTurns(t, kept[|kept| - 1].question, kept[|kept| - 1].answer, kept[|kept| - 1].exchangeId, None, "")
  }

  /** `history_from_rows` */
  method HistoryFromRows(t: TextRules, rows: seq<Row>, maxStoredTurns: int) returns (r: seq<Turn>)
    ensures r == Trim(maxStoredTurns, RowTurns(t, Kept(t, rows)))
  {
    var kept: seq<Row> := [];
    for i := 0 to |rows|
      invariant kept == Kept(t, rows[..i])
    {
      assert rows[..i + 1][..i] == rows[..i];
      var row := rows[i];
      if row.operation == Some(RESULT_PAGE) {
        continue;
      }
      if row.operation == Some(REGENERATE) {
        if kept == [] {
          continue;
        }
        var popped := kept[|kept| - 1];
        kept := kept[..|kept| - 1];
        row := row.(question := popped.question);
      }
      if !t.blank(row.question) {
        kept := kept + [row];
      }
    }
    assert rows[..|rows|] == rows;
    var turns: seq<Turn> := [];
    for i := 0 to |kept|
      invariant turns == RowTurns(t, kept[..i])
    {
      assert kept[..i + 1][..i] == kept[..i];
      turns := turns + ExchangeTurns(t, kept[i].question, kept[i].answer, kept[i].exchangeId, None, "");
    }
    assert kept[..|kept|] == kept;
    r := Trim(maxStoredTurns, turns);
  }

  /** Every kept row has a question. */
  lemma {:induction false} KeptHaveQuestions(t: TextRules, rows: seq<Row>)
    ensures forall i :: 0 <= i < |Kept(t, rows)| ==> !t.blank(Kept(t, rows)[i].question)
  {
    if rows != [] {
      KeptHaveQuestions(t, rows[..|rows| - 1]);
    }
  }

  /** A result page leaves no trace, wherever it is in the log. */
  lemma {:induction false} ResultPagesSkipped(t: TextRules, before: seq<Row>, page: Row, after: seq<Row>)
    requires page.operation == Some(RESULT_PAGE)
    ensures Kept(t, before + [page] + after) == Kept(t, before + after)
  {
    hide Kept, KeepRow;
    if after == [] {
      assert before + [page] + [] == before + [page] && before + [] == before;
      KeptOneMore(t, before, page);
      PageKeepsAll(t, Kept(t, before), page);
    } else {
      var init, last := after[..|after| - 1], after[|after| - 1];
      assert before + [page] + after == before + [page] + init + [last] && before + after == before + init + [last];
      ResultPagesSkipped(t, before, page, init);
      KeptOneMore(t, before + [page] + init, last);
      KeptOneMore(t, before + init, last);
    }
  }

  lemma KeptOneMore(t: TextRules, rows: seq<Row>, row: Row)
    ensures Kept(t, rows + [row]) == KeepRow(t, Kept(t, rows), row)
  {
    assert (rows + [row])[..|rows|] == rows;
  }

  lemma PageKeepsAll(t: TextRules, kept: seq<Row>, page: Row)
    requires page.operation == Some(RESULT_PAGE)
    ensures KeepRow(t, kept, page) == kept
  {}

  /** What the newest row leaves at the end of the history: an ask, after all there was, or a
    * regenerate, in place of the last exchange and under its question. The question has gone through
    * the question rule; the answer through the answer rule, and is missing when that leaves nothing.
    */
  lemma NewestRowEnds(t: TextRules, rows: seq<Row>, row: Row)
    requires row.operation != Some(RESULT_PAGE)
    requires if row.operation == Some(REGENERATE) then Kept(t, rows) != [] else !t.blank(row.question)
    ensures var before := if row.operation == Some(REGENERATE) then Kept(t, rows)[..|Kept(t, rows)| - 1] else Kept(t, rows);
      var question := if row.operation == Some(REGENERATE) then Kept(t, rows)[|before|].question else row.question;
      var turns, said := RowTurns(t, Kept(t, rows + [row])), t.answer(row.answer);
      var n := |RowTurns(t, before)|;
      && turns[..n] == RowTurns(t, before)
      && |turns| == n + (if said == "" then 1 else 2)
      && turns[n] == Turn(User, t.question(question), Some(row.exchangeId), None, "")
      && (said != "" ==> turns[n + 1] == Turn(Assistant, said, Some(row.exchangeId), None, ""))
  {
    KeptHaveQuestions(t, rows);
    KeptOneMore(t, rows, row);
  }

  // ----- a window of the log -----

  ghost predicate IsSuffix<T>(a: seq<T>, b: seq<T>) {
    |a| <= |b| && a == b[|b| - |a|..]
  }

  /** One row keeps the kept rows of a window a suffix of the kept rows of the whole log. */
  lemma KeepRowSuffix(t: TextRules, a: seq<Row>, b: seq<Row>, row: Row)
    requires IsSuffix(a, b) && forall i :: 0 <= i < |b| ==> !t.blank(b[i].question)
    ensures IsSuffix(KeepRow(t, a, row), KeepRow(t, b, row))
  {}

  lemma {:induction false} WindowKeepsSuffix(t: TextRules, before: seq<Row>, window: seq<Row>)
    ensures IsSuffix(Kept(t, window), Kept(t, before + window))
  {
    if window == [] {
      assert Kept(t, before)[|Kept(t, before)|..] == [];
    } else {
      var init := window[..|window| - 1];
      assert (before + window)[..|before + window| - 1] == before + init;
      WindowKeepsSuffix(t, before, init);
      KeptHaveQuestions(t, before + init);
      KeepRowSuffix(t, Kept(t, init), Kept(t, before + init), window[|window| - 1]);
    }
  }

  lemma {:induction false} RowTurnsConcat(t: TextRules, a: seq<Row>, b: seq<Row>)
    ensures RowTurns(t, a + b) == RowTurns(t, a) + RowTurns(t, b)
  {
    if b == [] {
      assert a + b == a;
    } else {
      assert (a + b)[..|a + b| - 1] == a + b[..|b| - 1];
      RowTurnsConcat(t, a, b[..|b| - 1]);
    }
  }

  /** Window soundness: replaying any suffix of the log, even one that opens with regenerates or
    * result pages, gives a suffix of what the whole log gives.
    */
  lemma WindowSound(t: TextRules, before: seq<Row>, window: seq<Row>, n: int)
    ensures IsSuffix(Trim(n, RowTurns(t, Kept(t, window))), Trim(n, RowTurns(t, Kept(t, before + window))))
  {
    WindowKeepsSuffix(t, before, window);
    var w, whole := Kept(t, window), Kept(t, before + window);
    var head := whole[..|whole| - |w|];
    assert whole == head + w;
    RowTurnsConcat(t, head, w);
    TrimSuffix(n, RowTurns(t, head), RowTurns(t, w));
  }

  // ----- the live store over the same log -----

  /** A live exchange: the row it leaves, the context mode it was asked under, the exchange a
    * regenerate asks to replace, and what its assistant turn holds besides the text.
    */
  datatype Exchange = Exchange(row: Row, contextMode: Option<string>, target: string, extra: string)

  function Rows(log: seq<Exchange>): (rows: seq<Row>)
    ensures |rows| == |log| && forall i :: 0 <= i < |log| ==> rows[i] == log[i].row
  {
    seq(|log|, i requires 0 <= i < |log| => log[i].row)
  }

  /** The question the service takes up again: that of the latest user turn of the exchange. */
  function AskedQuestion(turns: seq<Turn>, target: string): string {
    if turns == [] then ""
    else
      var last := turns[|turns| - 1];
      if last.role.User? && last.exchangeId == Some(target) then last.content else AskedQuestion(turns[..|turns| - 1], target)
  }

  /** The write one live exchange makes. A regenerate repeats the stored question under its own
    * context mode, which the store compares with the stored one; a result page writes nothing.
    */
  function LiveWrite(t: TextRules, user: string, entityId: Option<int>, turns: seq<Turn>, e: Exchange): Option<Write> {
    if e.row.operation == Some(RESULT_PAGE) then None
    else if e.row.operation == Some(REGENERATE) then
      if e.target == "" || turns == [] then None
      else
        var asked := AskedQuestion(turns, e.target);
        var question := if asked != "" then asked else e.row.question;
        Some(Replace(user, entityId, e.target, question, e.contextMode,
                     ExchangeTurns(t, question, e.row.answer, e.row.exchangeId, e.contextMode, e.extra)))
    else Some(Append(user, entityId, ExchangeTurns(t, e.row.question, e.row.answer, e.row.exchangeId, e.contextMode, e.extra), None))
  }

  /** The live thread after a log, or nothing when the log is not one of the live store: a
    * regenerate that was refused, or a write to an expired thread. `clock` gives the times of the
    * write for each exchange.
    */
  function Live(t: TextRules, p: Policy, user: string, entityId: Option<int>, log: seq<Exchange>, clock: nat -> Times): Option<Option<Thread>> {
    if log == [] then Some(None)
    else
      var e := log[|log| - 1];
      var before := Live(t, p, user, entityId, log[..|log| - 1], clock);
      if before.None? || e.row.operation == Some(RESULT_PAGE) then before
      else LiveExchange(t, p, user, entityId, before.value, e, clock(|log| - 1))
  }

  function LiveExchange(t: TextRules, p: Policy, user: string, entityId: Option<int>, before: Option<Thread>, e: Exchange, at: Times): Option<Option<Thread>> {
    var w := LiveWrite(t, user, entityId, if before.Some? then before.value.turns else [], e);
    if before.Some? && Expired(p, before.value, at.tExpiry) then None
    else if w.None? then None
    else
      var d := Decide(p, before, w.value, at);
      if d.write.None? then None else Some(d.write)
  }

  /** Every ask has a question, and every regenerate an answer left after the text rules. */
  ghost predicate Worded(t: TextRules, log: seq<Exchange>) {
    forall i :: 0 <= i < |log| ==> WordedExchange(t, log[i])
  }

  predicate WordedExchange(t: TextRules, e: Exchange) {
    if e.row.operation == Some(RESULT_PAGE) then true
    else if e.row.operation == Some(REGENERATE) then t.answer(e.row.answer) != ""
    else !t.blank(e.row.question)
  }

  // ----- the replay, with what the rows leave out -----

  function MergeLast(kept: seq<Exchange>, e: Exchange): seq<Exchange>
    requires kept != []
  {
    kept[..|kept| - 1] + [e.(row := e.row.(question := kept[|kept| - 1].row.question))]
  }

  function KeepExchange(t: TextRules, kept: seq<Exchange>, e: Exchange): seq<Exchange> {
    if e.row.operation == Some(RESULT_PAGE) then kept
    else if e.row.operation == Some(REGENERATE) then
      if kept == [] then kept
      else if t.blank(kept[|kept| - 1].row.question) then kept[..|kept| - 1]
      else MergeLast(kept, e)
    else if t.blank(e.row.question) then kept
    else kept + [e]
  }

  function KeptExchanges(t: TextRules, log: seq<Exchange>): seq<Exchange> {
    if log == [] then [] else KeepExchange(t, KeptExchanges(t, log[..|log| - 1]), log[|log| - 1])
  }

  function LogTurns(t: TextRules, kept: seq<Exchange>): seq<Turn> {
    if kept == [] then []
    else
      var e := kept[|kept| - 1];
      LogTurns(t, kept[..|kept| - 1]) + ExchangeTurns(t, e.row.question, e.row.answer, e.row.exchangeId, e.contextMode, e.extra)
  }

  /** The rows of the kept exchanges are the kept rows. */
  lemma {:induction false} KeptRows(t: TextRules, log: seq<Exchange>)
    ensures Rows(KeptExchanges(t, log)) == Kept(t, Rows(log))
  {
    if log != [] {
      var init := log[..|log| - 1];
      KeptRows(t, init);
      assert Rows(log)[..|log| - 1] == Rows(init);
    }
  }

  /** What a replay can give back of a turn: who said what, in which exchange. */
  datatype Words = Words(role: Role, content: string, exchangeId: Option<string>)

  function Text(turns: seq<Turn>): (text: seq<Words>)
    ensures |text| == |turns|
    ensures forall i :: 0 <= i < |turns| ==> text[i] == Words(turns[i].role, turns[i].content, turns[i].exchangeId)
  {
    seq(|turns|, i requires 0 <= i < |turns| => Words(turns[i].role, turns[i].content, turns[i].exchangeId))
  }

  lemma TextOfTrim(n: int, turns: seq<Turn>)
    ensures Text(Trim(n, turns)) == Trim(n, Text(turns))
  {}

  /** The text of the kept exchanges does not depend on what the rows leave out. */
  lemma {:induction false} TextOfRows(t: TextRules, kept: seq<Exchange>)
    ensures Text(LogTurns(t, kept)) == Text(RowTurns(t, Rows(kept)))
  {
    if kept != [] {
      var init, e := kept[..|kept| - 1], kept[|kept| - 1];
      TextOfRows(t, init);
      assert Rows(kept)[..|kept| - 1] == Rows(init);
      TextOfConcat(LogTurns(t, init), ExchangeTurns(t, e.row.question, e.row.answer, e.row.exchangeId, e.contextMode, e.extra));
      TextOfConcat(RowTurns(t, Rows(init)), ExchangeTurns(t, e.row.question, e.row.answer, e.row.exchangeId, None, ""));
      TextOfExchange(t, e);
    }
  }

  lemma TextOfConcat(a: seq<Turn>, b: seq<Turn>)
    ensures Text(a + b) == Text(a) + Text(b)
  {}

  lemma TextOfExchange(t: TextRules, e: Exchange)
    ensures Text(ExchangeTurns(t, e.row.question, e.row.answer, e.row.exchangeId, e.contextMode, e.extra)) ==
      Text(ExchangeTurns(t, e.row.question, e.row.answer, e.row.exchangeId, None, ""))
  {}

  // ----- one exchange -----

  /** The stored turns are those of the kept exchanges. */
  ghost predicate Agrees(t: TextRules, p: Policy, user: string, entityId: Option<int>, kept: seq<Exchange>, live: Option<Thread>) {
    if live.None? then kept == []
    else live.value.turns == Trim(p.maxStoredTurns, LogTurns(t, kept)) && Owns(live.value, user, entityId)
  }

  /** The store takes every ask. */
  lemma AskGoesThrough(t: TextRules, p: Policy, user: string, entityId: Option<int>, e: Exchange, before: Option<Thread>, at: Times)
    requires e.row.operation != Some(RESULT_PAGE) && e.row.operation != Some(REGENERATE)
    requires before.Some? ==> !Expired(p, before.value, at.tExpiry) && Owns(before.value, user, entityId)
    ensures var after := LiveExchange(t, p, user, entityId, before, e, at);
      var turns := ExchangeTurns(t, e.row.question, e.row.answer, e.row.exchangeId, e.contextMode, e.extra);
      after == Some(Some(Extend(p, if before.Some? then before.value else NewThread(user, entityId, None, at.tCreate), turns)))
  {
    hide ExchangeTurns;
  }

  lemma AskAgrees(t: TextRules, p: Policy, user: string, entityId: Option<int>, kept: seq<Exchange>, e: Exchange, before: Option<Thread>, at: Times)
    requires e.row.operation != Some(RESULT_PAGE) && e.row.operation != Some(REGENERATE) && WordedExchange(t, e)
    requires Agrees(t, p, user, entityId, kept, before)
    requires before.Some? ==> !Expired(p, before.value, at.tExpiry)
    ensures var after := LiveExchange(t, p, user, entityId, before, e, at);
      && after.Some? && after.value.Some? && Agrees(t, p, user, entityId, KeepExchange(t, kept, e), after.value)
      && after.value.value.createdAt == if before.Some? then before.value.createdAt else at.tCreate
  {
    hide LiveExchange, ExchangeTurns, Expired;
    var turns := ExchangeTurns(t, e.row.question, e.row.answer, e.row.exchangeId, e.contextMode, e.extra);
    AskGoesThrough(t, p, user, entityId, e, before, at);
    TrimThenAppend(p.maxStoredTurns, LogTurns(t, kept), turns);
    assert (kept + [e])[..|kept|] == kept;
    assert [] + turns == turns;
  }

  /** The store takes the regenerate: it names the last kept exchange, under the context mode that
    * exchange was stored with; that exchange has an answer, the bound keeps pairs, and there is a
    * question to repeat.
    */
  predicate Accepted(t: TextRules, n: int, kept: seq<Exchange>, e: Exchange) {
    && kept != [] && n != 1
    && var last := kept[|kept| - 1];
       && e.target != "" && e.target == last.row.exchangeId
       && e.contextMode == last.contextMode
       && t.answer(last.row.answer) != ""
       && (t.question(last.row.question) != "" || e.row.question == "")
  }

  /** The turns of the last kept exchange. */
  function LastPair(t: TextRules, last: Exchange): (pair: seq<Turn>)
    requires t.answer(last.row.answer) != ""
    ensures |pair| == 2 && pair[0].role.User? && pair[1].role.Assistant?
  {
    ExchangeTurns(t, last.row.question, last.row.answer, last.row.exchangeId, last.contextMode, last.extra)
  }

  /** What trimming leaves at the end of the log: the last exchange's two turns, when it has two and
    * the bound is not one; otherwise no user turn followed by an assistant turn of its own.
    */
  lemma StoredTail(t: TextRules, n: int, kept: seq<Exchange>)
    requires kept != []
    ensures var stored, last := Trim(n, LogTurns(t, kept)), kept[|kept| - 1];
      && stored != []
      && stored[|stored| - 1].exchangeId == Some(last.row.exchangeId)
      && (stored[|stored| - 1].role.Assistant? <==> t.answer(last.row.answer) != "")
      && (n == 1 ==> |stored| == 1)
      && (n != 1 && t.answer(last.row.answer) != "" ==> |stored| >= 2 && stored[|stored| - 2..] == LastPair(t, last))
  {
    var all := LogTurns(t, kept);
    var stored := Trim(n, all);
    assert stored[|stored| - 1] == all[|all| - 1];
    if |stored| >= 2 {
      assert stored[|stored| - 2..] == all[|all| - 2..];
    }
  }

  lemma AskedInPair(turns: seq<Turn>, target: string)
    requires |turns| >= 2 && turns[|turns| - 2].role.User? && turns[|turns| - 1].role.Assistant? && turns[|turns| - 2].exchangeId == Some(target)
    ensures AskedQuestion(turns, target) == turns[|turns| - 2].content
  {
    assert turns[..|turns| - 1][|turns| - 2] == turns[|turns| - 2];
  }

  /** Replacing the stored pair by the regenerated one is replaying the merged exchange. */
  lemma ReplaceIsMerge(t: TextRules, n: int, kept: seq<Exchange>, e: Exchange)
    requires QuestionRuleIdempotent(t) && kept != [] && n != 1 && t.answer(e.row.answer) != "" && t.answer(kept[|kept| - 1].row.answer) != ""
    ensures var stored, last := Trim(n, LogTurns(t, kept)), kept[|kept| - 1];
      && |stored| >= 2
      && Trim(n, stored[..|stored| - 2] + ExchangeTurns(t, t.question(last.row.question), e.row.answer, e.row.exchangeId, e.contextMode, e.extra))
        == Trim(n, LogTurns(t, MergeLast(kept, e)))
  {
    var init, last := kept[..|kept| - 1], kept[|kept| - 1];
    var pair := ExchangeTurns(t, last.row.question, e.row.answer, e.row.exchangeId, e.contextMode, e.extra);
    assert pair == ExchangeTurns(t, t.question(last.row.question), e.row.answer, e.row.exchangeId, e.contextMode, e.extra);
    StoredTail(t, n, kept);
    TrimKeepsLastPair(n, LogTurns(t, init), LastPair(t, last), pair);
    assert MergeLast(kept, e)[..|init|] == init;
  }

  /** On a stored pair the store takes the regenerate exactly when target and context mode are the
    * stored ones and there is a question to repeat, and puts its turns in place of the pair.
    */
  lemma StoreDecides(t: TextRules, p: Policy, user: string, entityId: Option<int>, before: Thread, last: Exchange, e: Exchange, at: Times)
    requires e.row.operation == Some(REGENERATE) && t.answer(last.row.answer) != ""
    requires QuestionRuleIdempotent(t)
    requires Owns(before, user, entityId) && !Expired(p, before, at.tExpiry)
    requires |before.turns| >= 2 && before.turns[|before.turns| - 2..] == LastPair(t, last)
    ensures var after := LiveExchange(t, p, user, entityId, Some(before), e, at);
      var asked := t.question(last.row.question);
      && (after.Some? <==> e.target != "" && e.target == last.row.exchangeId && e.contextMode == last.contextMode && (asked != "" || e.row.question == ""))
      && (after.Some? ==>
            after == Some(Some(ReplaceTail(p, before, ExchangeTurns(t, asked, e.row.answer, e.row.exchangeId, e.contextMode, e.extra)))))
  {
    var tail := before.turns[|before.turns| - 2..];
    assert tail[0] == before.turns[|before.turns| - 2] && tail[1] == before.turns[|before.turns| - 1];
    if e.target == last.row.exchangeId {
      AskedInPair(before.turns, e.target);
    }
  }

  /** A tail that is no pair, or no thread at all, refuses every regenerate. */
  lemma StoreRefuses(t: TextRules, p: Policy, user: string, entityId: Option<int>, before: Option<Thread>, e: Exchange, at: Times)
    requires e.row.operation == Some(REGENERATE)
    requires before.Some? ==> |before.value.turns| < 2 || !before.value.turns[|before.value.turns| - 1].role.Assistant?
    ensures LiveExchange(t, p, user, entityId, before, e, at).None?
  {}

  lemma RegenerateAgrees(t: TextRules, p: Policy, user: string, entityId: Option<int>, kept: seq<Exchange>, e: Exchange, before: Option<Thread>, at: Times)
    requires QuestionRuleIdempotent(t) && e.row.operation == Some(REGENERATE) && WordedExchange(t, e)
    requires forall i :: 0 <= i < |kept| ==> !t.blank(kept[i].row.question)
    requires Agrees(t, p, user, entityId, kept, before)
    requires before.Some? ==> !Expired(p, before.value, at.tExpiry)
    ensures var after := LiveExchange(t, p, user, entityId, before, e, at);
      && (after.Some? <==> Accepted(t, p.maxStoredTurns, kept, e))
      && (after.Some? ==> after.value.Some? && before.Some? && after.value.value.createdAt == before.value.createdAt)
      && (after.Some? ==> Agrees(t, p, user, entityId, KeepExchange(t, kept, e), after.value))
  {
    hide ExchangeTurns, QuestionRuleIdempotent, TailMatches, Expired, LiveExchange, LogTurns;
    if kept == [] {
      assert before.Some? ==> |before.value.turns| < 2 by { NothingStored(t, p.maxStoredTurns); }
      StoreRefuses(t, p, user, entityId, before, e, at);
    } else {
      var last := kept[|kept| - 1];
      StoredTail(t, p.maxStoredTurns, kept);
      if t.answer(last.row.answer) == "" || p.maxStoredTurns == 1 {
        StoreRefuses(t, p, user, entityId, before, e, at);
      } else {
        StoreDecides(t, p, user, entityId, before.value, last, e, at);
        ReplaceIsMerge(t, p.maxStoredTurns, kept, e);
      }
    }
  }

  lemma NothingStored(t: TextRules, n: int)
    ensures Trim(n, LogTurns(t, [])) == []
  {}

  // ----- whole logs -----

  lemma {:induction false} LiveAgrees(t: TextRules, p: Policy, user: string, entityId: Option<int>, log: seq<Exchange>, clock: nat -> Times)
    requires QuestionRuleIdempotent(t) && Worded(t, log)
    ensures var live := Live(t, p, user, entityId, log, clock);
      live.Some? ==> Agrees(t, p, user, entityId, KeptExchanges(t, log), live.value)
  {
    if log != [] {
      var init, e := log[..|log| - 1], log[|log| - 1];
      LiveAgrees(t, p, user, entityId, init, clock);
      KeptExchangesHaveQuestions(t, init);
      var before := Live(t, p, user, entityId, init, clock);
      var at := clock(|log| - 1);
      if before.Some? && e.row.operation != Some(RESULT_PAGE) && (before.value.Some? ==> !Expired(p, before.value.value, at.tExpiry)) {
        assert WordedExchange(t, e);
        if e.row.operation == Some(REGENERATE) {
          RegenerateAgrees(t, p, user, entityId, KeptExchanges(t, init), e, before.value, at);
        } else {
          AskAgrees(t, p, user, entityId, KeptExchanges(t, init), e, before.value, at);
        }
      }
    }
  }

  lemma KeptExchangesHaveQuestions(t: TextRules, log: seq<Exchange>)
    ensures forall i :: 0 <= i < |KeptExchanges(t, log)| ==> !t.blank(KeptExchanges(t, log)[i].row.question)
  {
    KeptRows(t, log);
    KeptHaveQuestions(t, Rows(log));
    forall i | 0 <= i < |KeptExchanges(t, log)| ensures !t.blank(KeptExchanges(t, log)[i].row.question) {
      assert Rows(KeptExchanges(t, log))[i] == KeptExchanges(t, log)[i].row;
    }
  }

  /** Replay agrees with the live store: for every log of asks, regenerates and result pages the
    * live store took, under any context modes and whatever else its turns hold, the turns rebuilt
    * from the rows have the text of the turns it stores.
    */
  lemma ReplayAgrees(t: TextRules, p: Policy, user: string, entityId: Option<int>, log: seq<Exchange>, clock: nat -> Times)
    requires QuestionRuleIdempotent(t) && Worded(t, log) && Live(t, p, user, entityId, log, clock).Some?
    ensures var stored := Live(t, p, user, entityId, log, clock).value;
      Text(Trim(p.maxStoredTurns, RowTurns(t, Kept(t, Rows(log))))) == if stored.Some? then Text(stored.value.turns) else []
  {
    hide Live;
    var kept := KeptExchanges(t, log);
    LiveAgrees(t, p, user, entityId, log, clock);
    KeptRows(t, log);
    TextOfRows(t, kept);
    TextOfTrim(p.maxStoredTurns, LogTurns(t, kept));
    TextOfTrim(p.maxStoredTurns, RowTurns(t, Kept(t, Rows(log))));
  }

  /** Each regenerate in the log is one the store takes after what was kept before it. */
  ghost predicate RegeneratesAccepted(t: TextRules, n: int, log: seq<Exchange>) {
    forall i :: 0 <= i < |log| && log[i].row.operation == Some(REGENERATE) ==> Accepted(t, n, KeptExchanges(t, log[..i]), log[i])
  }

  /** On a thread never found expired, the live store takes a whole log exactly when it takes each
    * regenerate.
    */
  lemma {:induction false} LiveTakesLog(t: TextRules, p: Policy, user: string, entityId: Option<int>, log: seq<Exchange>, clock: nat -> Times)
    requires QuestionRuleIdempotent(t) && Worded(t, log)
    requires forall created: nat, i: nat :: created <= i ==> clock(created).tCreate > 0.0 && clock(i).tExpiry - clock(created).tCreate <= p.absoluteTtl
    ensures var live := Live(t, p, user, entityId, log, clock);
      && (live.Some? <==> RegeneratesAccepted(t, p.maxStoredTurns, log))
      && (live.Some? && live.value.Some? ==> exists created: nat :: created < |log| && live.value.value.createdAt == clock(created).tCreate)
  {
    hide LiveExchange, Accepted, Agrees, RegeneratesAccepted, KeepExchange, QuestionRuleIdempotent;
    if log == [] {
      NoneToAccept(t, p.maxStoredTurns);
    } else {
      var init, e := log[..|log| - 1], log[|log| - 1];
      LiveTakesLog(t, p, user, entityId, init, clock);
      LiveAgrees(t, p, user, entityId, init, clock);
      KeptExchangesHaveQuestions(t, init);
      AcceptedOneMore(t, p.maxStoredTurns, init, e);
      assert log == init + [e];
      var before := Live(t, p, user, entityId, init, clock);
      var at := clock(|log| - 1);
      if before.Some? && e.row.operation != Some(RESULT_PAGE) {
        assert WordedExchange(t, e);
        assert before.value.Some? ==> !Expired(p, before.value.value, at.tExpiry);
        if e.row.operation == Some(REGENERATE) {
          RegenerateAgrees(t, p, user, entityId, KeptExchanges(t, init), e, before.value, at);
        } else {
          AskAgrees(t, p, user, entityId, KeptExchanges(t, init), e, before.value, at);
        }
      }
    }
  }

  lemma NoneToAccept(t: TextRules, n: int)
    ensures RegeneratesAccepted(t, n, [])
  {}

  lemma AcceptedOneMore(t: TextRules, n: int, init: seq<Exchange>, e: Exchange)
    ensures RegeneratesAccepted(t, n, init + [e]) <==>
      RegeneratesAccepted(t, n, init) && (e.row.operation == Some(REGENERATE) ==> Accepted(t, n, KeptExchanges(t, init), e))
  {
    var log := init + [e];
    assert log[..|init|] == init && log[|init|] == e;
    forall i | 0 <= i < |init| ensures log[i] == init[i] && log[..i] == init[..i] {}
  }

  /** An ask made on a page is stored under the page's context mode, and the service's regenerate
    * carries none: the store takes the ask and refuses the regenerate.
    */
  lemma PageQuestionCannotBeRegenerated(t: TextRules, p: Policy, user: string, entityId: Option<int>, ask: Exchange, again: Exchange, clock: nat -> Times)
    requires QuestionRuleIdempotent(t) && WordedExchange(t, ask) && WordedExchange(t, again)
    requires ask.row.operation != Some(RESULT_PAGE) && ask.row.operation != Some(REGENERATE) && ask.contextMode == Some("jobs")
    requires again.row.operation == Some(REGENERATE) && again.contextMode == None
    requires forall created: nat, i: nat :: created <= i ==> clock(created).tCreate > 0.0 && clock(i).tExpiry - clock(created).tCreate <= p.absoluteTtl
    ensures Live(t, p, user, entityId, [ask], clock).Some?
    ensures Live(t, p, user, entityId, [ask, again], clock).None?
  {
    var log := [ask, again];
    LiveTakesLog(t, p, user, entityId, [ask], clock);
    LiveTakesLog(t, p, user, entityId, log, clock);
    assert log[..1] == [ask] && [ask][..0] == [];
    assert KeptExchanges(t, [ask]) == [ask];
    assert !Accepted(t, p.maxStoredTurns, KeptExchanges(t, log[..1]), log[1]);
  }
}
