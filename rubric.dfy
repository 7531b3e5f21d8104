/**
 * The rubric loader: flattens per-topic rubric documents into the weighted
 * tables the two scorers join against. One row per rubric question (for
 * question-generation scoring) and one row per short answer (for
 * report-generation scoring); every row carries its question's importance
 * weight.
 */
module Rubric {
  import opened Results

  /** The weights IMPORTANCE_MAP can produce. */
  type Weight = w: nat | w == 1 || w == 2 || w == 4 witness 1

  const HaveToKnow: string := "A: Have to Know"
  const GoodToKnow: string := "B: Good to Know"
  const NiceToKnow: string := "C: Nice to Know"

  /**
   * IMPORTANCE_MAP: the three importance tiers and their weights; any other
   * text has no weight.
   */
  function ImportanceWeight(importance: string): (r: Option<Weight>)
    ensures r.Some? <==> importance == HaveToKnow || importance == GoodToKnow || importance == NiceToKnow
    ensures importance == HaveToKnow ==> r == Some(4)
    ensures importance == GoodToKnow ==> r == Some(2)
    ensures importance == NiceToKnow ==> r == Some(1)
  {
    if importance == HaveToKnow then Some(4)
    else if importance == GoodToKnow then Some(2)
    else if importance == NiceToKnow then Some(1)
    else None
  }

  // ---------------------------------------------------------------------------
  // Question ranks: the integer after the last '-' of a question id.

  /**
   * `s.split("-")[-1]`: the longest suffix of `s` that holds no '-'; it is
   * either all of `s` or follows a '-'.
   */
  function LastSegment(s: string): (r: string)
    ensures '-' !in r
    ensures |r| <= |s| && r == s[|s| - |r|..]
    ensures |r| < |s| ==> s[|s| - |r| - 1] == '-'
  {
    if s == [] || s[|s| - 1] == '-' then []
    else
      var prefix := LastSegment(s[..|s| - 1]);
      LastSegmentStep(s, prefix);
      prefix + [s[|s| - 1]]
  }

  /** Extending the last segment of all but the last character of `s` by that character. */
  lemma {:induction false} LastSegmentStep(s: string, prefix: string)
    requires s != [] && s[|s| - 1] != '-'
    requires '-' !in prefix
    requires |prefix| <= |s| - 1 && prefix == s[..|s| - 1][|s| - 1 - |prefix|..]
    requires |prefix| < |s| - 1 ==> s[..|s| - 1][|s| - 1 - |prefix| - 1] == '-'
    ensures '-' !in prefix + [s[|s| - 1]]
    ensures prefix + [s[|s| - 1]] == s[|s| - |prefix| - 1..]
    ensures |prefix| + 1 < |s| ==> s[|s| - |prefix| - 2] == '-'
  {
    var init := s[..|s| - 1];
    assert s[|s| - |prefix| - 1..] == init[|init| - |prefix|..] + [s[|s| - 1]];
  }

  lemma {:induction false} LastSegmentAfterDash(prefix: string, tail: string)
    requires '-' !in tail
    ensures LastSegment(prefix + "-" + tail) == tail
  {
    var s := prefix + "-" + tail;
    assert s[|prefix|] == '-';
    assert s[|s| - |tail|..] == tail;
  }

  predicate IsDigit(c: char)
  {
    '0' <= c <= '9'
  }

  predicate AllDigits(s: string)
  {
    forall i :: 0 <= i < |s| ==> IsDigit(s[i])
  }

  /** The value of a string of decimal digits (leading zeros allowed, as `int()` does). */
  function DigitsValue(ds: string): nat
    requires AllDigits(ds)
  {
    if ds == [] then 0
    else 10 * DigitsValue(ds[..|ds| - 1]) + (ds[|ds| - 1] as int - '0' as int)
  }

  /** The decimal numeral of `n`, without leading zeros. */
  function Decimal(n: nat): (r: string)
    ensures r != [] && AllDigits(r)
  {
    if n < 10 then ['0' + n as char]
    else Decimal(n / 10) + ['0' + (n % 10) as char]
  }

  lemma {:induction false} DecimalRoundTrip(n: nat)
    ensures DigitsValue(Decimal(n)) == n
  {
    var d := Decimal(n);
    if n >= 10 {
      DecimalRoundTrip(n / 10);
      assert d[..|d| - 1] == Decimal(n / 10);
    }
  }

  /**
   * `int(question_id.split("-")[-1])`: the rank of a rubric question, or None
   * where `int()` raises because the last segment is empty or not a numeral.
   */
  function ParseRank(questionId: string): (r: Option<nat>)
    ensures r.Some? <==> LastSegment(questionId) != [] && AllDigits(LastSegment(questionId))
    ensures r.Some? ==> r.value == DigitsValue(LastSegment(questionId))
  {
    var segment := LastSegment(questionId);
    if segment != [] && AllDigits(segment) then Some(DigitsValue(segment)) else None
  }

  /** A question id that ends in "-" and a numeral has that numeral as its rank. */
  lemma {:induction false} RankOfQuestionId(prefix: string, rank: nat)
    ensures ParseRank(prefix + "-" + Decimal(rank)) == Some(rank)
  {
    var digits := Decimal(rank);
    assert '-' !in digits;
    LastSegmentAfterDash(prefix, digits);
    DecimalRoundTrip(rank);
  }

  // ---------------------------------------------------------------------------
  // Rubric documents and the flattened rows.

  /** A rubric question as the documents state it; short answers by their ids. */
  datatype RubricQuestion = RubricQuestion(questionId: string, importance: string, shortAnswers: seq<string>)

  /** One topic's rubric document. */
  datatype RubricDocument = RubricDocument(topicId: string, rubrics: seq<RubricQuestion>)

  /** A row of the question table: (topic_id, rubric_question_rank, question_score). */
  datatype QuestionRow = QuestionRow(topicId: string, rubricQuestionRank: nat, questionScore: Weight)

  /** A row of the answer table: (topic_id, question_id, answer_id, question_score). */
  datatype AnswerRow = AnswerRow(topicId: string, questionId: string, answerId: string, questionScore: Weight)

  /** Why a rubric cannot be flattened. */
  datatype LoadError =
    | MalformedQuestionId(topicId: string, questionId: string)
    | UnknownImportance(topicId: string, questionId: string, importance: string)
    | EmptyTable  // no row at all: the frame has no columns, so selecting one fails

  /** A rubric question together with the topic whose document lists it. */
  datatype QuestionEntry = QuestionEntry(topicId: string, question: RubricQuestion)

  /** A short answer together with its question and topic. */
  datatype AnswerEntry = AnswerEntry(topicId: string, question: RubricQuestion, answerId: string)

  /** The question row of one entry, or why there is none. */
  function QuestionRowOf(e: QuestionEntry): (r: Result<QuestionRow, LoadError>)
    ensures r.Success? <==> ParseRank(e.question.questionId).Some? && ImportanceWeight(e.question.importance).Some?
    ensures r.Success? ==>
              && r.value.topicId == e.topicId
              && r.value.rubricQuestionRank == ParseRank(e.question.questionId).value
              && r.value.questionScore == ImportanceWeight(e.question.importance).value
  {
    match ParseRank(e.question.questionId)
    case None => Failure(MalformedQuestionId(e.topicId, e.question.questionId))
    case Some(rank) =>
      match ImportanceWeight(e.question.importance)
      case None => Failure(UnknownImportance(e.topicId, e.question.questionId, e.question.importance))
      case Some(w) => Success(QuestionRow(e.topicId, rank, w))
  }

  /** The answer row of one entry: the answer inherits its question's weight. */
  function AnswerRowOf(e: AnswerEntry): (r: Result<AnswerRow, LoadError>)
    ensures r.Success? <==> ImportanceWeight(e.question.importance).Some?
    ensures r.Success? ==>
              && r.value.topicId == e.topicId
              && r.value.questionId == e.question.questionId
              && r.value.answerId == e.answerId
              && r.value.questionScore == ImportanceWeight(e.question.importance).value
  {
    match ImportanceWeight(e.question.importance)
    case None => Failure(UnknownImportance(e.topicId, e.question.questionId, e.question.importance))
    case Some(w) => Success(AnswerRow(e.topicId, e.question.questionId, e.answerId, w))
  }

  /**
   * Turns every entry into a row, in order, stopping at the first entry that
   * has none.
   */
  function Collect<E, R>(es: seq<E>, rowOf: E -> Result<R, LoadError>): Result<seq<R>, LoadError>
  {
    if es == [] then Success([])
    else
      var init := es[..|es| - 1];
      match Collect(init, rowOf)
      case Failure(e) => Failure(e)
      case Success(rows) =>
        match rowOf(es[|es| - 1])
        case Failure(e) => Failure(e)
        case Success(row) => Success(rows + [row])
  }

  /**
   * What Collect promises: it succeeds exactly when every entry has a row,
   * and then holds those rows in entry order; otherwise it reports the error
   * of the first entry that has none.
   */
  lemma {:induction false} CollectSpec<E, R>(es: seq<E>, rowOf: E -> Result<R, LoadError>)
    ensures Collect(es, rowOf).Success? <==> forall k :: 0 <= k < |es| ==> rowOf(es[k]).Success?
    ensures Collect(es, rowOf).Success? ==>
              |Collect(es, rowOf).value| == |es| &&
              forall k :: 0 <= k < |es| ==> rowOf(es[k]) == Success(Collect(es, rowOf).value[k])
    ensures Collect(es, rowOf).Failure? ==>
              exists k :: 0 <= k < |es| && rowOf(es[k]) == Failure(Collect(es, rowOf).error) &&
                          forall k' :: 0 <= k' < k ==> rowOf(es[k']).Success?
  {
    if es != [] {
      var init := es[..|es| - 1];
      CollectSpec(init, rowOf);
      var n := |es| - 1;
      if Collect(init, rowOf).Success? && rowOf(es[n]).Failure? {
        assert forall k' :: 0 <= k' < n ==> rowOf(es[k']).Success? by {
          forall k' | 0 <= k' < n ensures rowOf(es[k']).Success? {
            assert rowOf(init[k']).Success?;
          }
        }
      }
      if Collect(init, rowOf).Failure? {
        var k :| 0 <= k < |init| && rowOf(init[k]) == Failure(Collect(init, rowOf).error) &&
                 forall k' :: 0 <= k' < k ==> rowOf(init[k']).Success?;
        assert es[k] == init[k];
        assert forall k' :: 0 <= k' < k ==> es[k'] == init[k'];
      }
    }
  }

  lemma {:induction false} CollectAppend<E, R>(a: seq<E>, b: seq<E>, rowOf: E -> Result<R, LoadError>)
    ensures Collect(a + b, rowOf) ==
      match Collect(a, rowOf)
      case Failure(e) => Failure(e)
      case Success(ra) =>
        match Collect(b, rowOf)
        case Failure(e) => Failure(e)
        case Success(rb) => Success(ra + rb)
    decreases |b|
  {
    if b == [] {
      assert a + b == a;
      match Collect(a, rowOf)
      case Failure(e) =>
      case Success(ra) => assert ra + [] == ra;
    } else {
      var init := b[..|b| - 1];
      assert (a + b)[..|a + b| - 1] == a + init;
      assert (a + b)[|a + b| - 1] == b[|b| - 1];
      CollectAppend(a, init, rowOf);
      match Collect(a, rowOf)
      case Failure(e) =>
      case Success(ra) =>
        match Collect(init, rowOf)
        case Failure(e) =>
        case Success(ri) =>
          match rowOf(b[|b| - 1])
          case Failure(e) =>
          case Success(row) =>
            assert ra + (ri + [row]) == (ra + ri) + [row];
    }
  }

  // ---------------------------------------------------------------------------
  // The order in which the loaders visit questions and answers.

  lemma {:induction false} Regroup<T>(a: seq<T>, b: seq<T>, c: seq<T>)
    ensures (a + b) + c == a + (b + c)
  {
  }

  function QuestionEntriesOf(topicId: string, qs: seq<RubricQuestion>): (r: seq<QuestionEntry>)
    ensures |r| == |qs| && forall j :: 0 <= j < |qs| ==> r[j] == QuestionEntry(topicId, qs[j])
  {
    seq(|qs|, j requires 0 <= j < |qs| => QuestionEntry(topicId, qs[j]))
  }

  lemma {:induction false} QuestionEntriesOfAppend(topicId: string, a: seq<RubricQuestion>, b: seq<RubricQuestion>)
    ensures QuestionEntriesOf(topicId, a + b) == QuestionEntriesOf(topicId, a) + QuestionEntriesOf(topicId, b)
  {
    var l := QuestionEntriesOf(topicId, a + b);
    var r := QuestionEntriesOf(topicId, a) + QuestionEntriesOf(topicId, b);
    assert |l| == |r|;
    forall k | 0 <= k < |l| ensures l[k] == r[k] {
      if k < |a| { assert (a + b)[k] == a[k]; } else { assert (a + b)[k] == b[k - |a|]; }
    }
  }

  /** Every rubric question of every document, documents first. */
  function QuestionEntries(docs: seq<RubricDocument>): seq<QuestionEntry>
  {
    if docs == [] then []
    else
      var last := docs[|docs| - 1];
      QuestionEntries(docs[..|docs| - 1]) + QuestionEntriesOf(last.topicId, last.rubrics)
  }

  /** A question of one of the documents, with its document's topic. */
  ghost predicate ListsQuestion(docs: seq<RubricDocument>, e: QuestionEntry)
  {
    exists i, j :: 0 <= i < |docs| && 0 <= j < |docs[i].rubrics| && e == QuestionEntry(docs[i].topicId, docs[i].rubrics[j])
  }

  /** The entries are exactly the (topic, question) pairs of the documents. */
  lemma {:induction false} QuestionEntriesMembers(docs: seq<RubricDocument>, e: QuestionEntry)
    ensures e in QuestionEntries(docs) <==> ListsQuestion(docs, e)
  {
    if docs != [] {
      var init, last := docs[..|docs| - 1], docs[|docs| - 1];
      var tail := QuestionEntriesOf(last.topicId, last.rubrics);
      assert QuestionEntries(docs) == QuestionEntries(init) + tail;
      QuestionEntriesMembers(init, e);
      if e in QuestionEntries(init) {
        QuestionListedInPrefix(docs, e);
      } else if e in tail {
        var j :| 0 <= j < |last.rubrics| && tail[j] == e;
        assert e == QuestionEntry(docs[|docs| - 1].topicId, docs[|docs| - 1].rubrics[j]);
      }
      if ListsQuestion(docs, e) {
        var i, j :| 0 <= i < |docs| && 0 <= j < |docs[i].rubrics| && e == QuestionEntry(docs[i].topicId, docs[i].rubrics[j]);
        if i < |init| {
          assert init[i] == docs[i];
        } else {
          assert tail[j] == e;
        }
      }
    }
  }

  lemma {:induction false} QuestionListedInPrefix(docs: seq<RubricDocument>, e: QuestionEntry)
    requires docs != [] && ListsQuestion(docs[..|docs| - 1], e)
    ensures ListsQuestion(docs, e)
  {
    var init := docs[..|docs| - 1];
    var i, j :| 0 <= i < |init| && 0 <= j < |init[i].rubrics| && e == QuestionEntry(init[i].topicId, init[i].rubrics[j]);
    assert docs[i] == init[i];
  }

  lemma {:induction false} QuestionEntriesAppend(a: seq<RubricDocument>, b: seq<RubricDocument>)
    ensures QuestionEntries(a + b) == QuestionEntries(a) + QuestionEntries(b)
    decreases |b|
  {
    if b == [] {
      assert a + b == a;
    } else {
      var init, last := b[..|b| - 1], b[|b| - 1];
      assert (a + b)[..|a + b| - 1] == a + init && (a + b)[|a + b| - 1] == last;
      var tail := QuestionEntriesOf(last.topicId, last.rubrics);
      assert QuestionEntries(a + b) == QuestionEntries(a + init) + tail;
      assert QuestionEntries(b) == QuestionEntries(init) + tail;
      QuestionEntriesAppend(a, init);
      Regroup(QuestionEntries(a), QuestionEntries(init), tail);
    }
  }

  /**
   * The rows collected from `es`, or EmptyTable when there are none: a frame
   * built from no rows has no columns to select.
   */
  function TableOf<E, R>(es: seq<E>, rowOf: E -> Result<R, LoadError>): Result<seq<R>, LoadError>
  {
    var collected := Collect(es, rowOf);
    if collected.Success? && collected.value == [] then Failure(EmptyTable) else collected
  }

  /** The question table of the documents. */
  function QuestionTableOf(docs: seq<RubricDocument>): Result<seq<QuestionRow>, LoadError>
  {
    TableOf(QuestionEntries(docs), QuestionRowOf)
  }

  /**
   * The loader of the question table (`load_rubric_questions`): one row per
   * rubric question, documents in the given order, questions in document
   * order; stops at the first question whose id has no numeric rank or whose
   * importance is not a known tier.
   */
  method LoadRubricQuestions(docs: seq<RubricDocument>) returns (r: Result<seq<QuestionRow>, LoadError>)
    ensures r == QuestionTableOf(docs)
  {
    var rows: seq<QuestionRow> := [];
    for i := 0 to |docs|
      invariant Collect(QuestionEntries(docs[..i]), QuestionRowOf) == Success(rows)
    {
      QuestionEntriesSplit(docs, i);
      var next := AppendRows(QuestionEntries(docs[..i]), rows, QuestionEntriesOf(docs[i].topicId, docs[i].rubrics), QuestionRowOf);
      if next.Failure? {
        CollectAppend(QuestionEntries(docs[..i + 1]), QuestionEntries(docs[i + 1..]), QuestionRowOf);
        return next;
      }
      rows := next.value;
    }
    assert docs[..|docs|] == docs;
    if rows == [] {
      return Failure(EmptyTable);
    }
    return Success(rows);
  }

  lemma {:induction false} QuestionEntriesSplit(docs: seq<RubricDocument>, i: nat)
    requires i < |docs|
    ensures QuestionEntries(docs[..i + 1]) == QuestionEntries(docs[..i]) + QuestionEntriesOf(docs[i].topicId, docs[i].rubrics)
    ensures QuestionEntries(docs) == QuestionEntries(docs[..i + 1]) + QuestionEntries(docs[i + 1..])
  {
    var prefix := docs[..i + 1];
    assert |prefix| == i + 1;
    assert prefix[..i] == docs[..i];
    assert prefix[i] == docs[i];
    assert docs == prefix + docs[i + 1..];
    QuestionEntriesAppend(prefix, docs[i + 1..]);
  }

  /**
   * Visits `entries` in order, appending each entry's row to `rows` (the
   * rows of the entries `done` visited before); stops at the first entry
   * that has no row.
   */
  method AppendRows<E, R>(ghost done: seq<E>, rows: seq<R>, entries: seq<E>, rowOf: E -> Result<R, LoadError>)
    returns (r: Result<seq<R>, LoadError>)
    requires Collect(done, rowOf) == Success(rows)
    ensures r == Collect(done + entries, rowOf)
  {
    var acc := rows;
    assert done + entries[..0] == done;
    for j := 0 to |entries|
      invariant Collect(done + entries[..j], rowOf) == Success(acc)
    {
      var row := rowOf(entries[j]);
      CollectNext(done, entries, j, rowOf);
      if row.Failure? {
        return Failure(row.error);
      }
      acc := acc + [row.value];
    }
    assert entries[..|entries|] == entries;
    return Success(acc);
  }

  /**
   * Collect past the first `j` entries, one entry further: it extends its
   * rows by entry `j`'s row, or, where that entry has none, the whole of
   * `done + entries` stops with its error.
   */
  lemma {:induction false} CollectNext<E, R>(done: seq<E>, entries: seq<E>, j: nat, rowOf: E -> Result<R, LoadError>)
    requires j < |entries| && Collect(done + entries[..j], rowOf).Success?
    ensures rowOf(entries[j]).Success? ==>
              Collect(done + entries[..j + 1], rowOf) == Success(Collect(done + entries[..j], rowOf).value + [rowOf(entries[j]).value])
    ensures rowOf(entries[j]).Failure? ==> Collect(done + entries, rowOf) == Failure(rowOf(entries[j]).error)
  {
    var visited, entry := done + entries[..j], entries[j];
    assert entries[..j + 1] == entries[..j] + [entry];
    assert done + entries[..j + 1] == visited + [entry];
    CollectStep(visited, entry, rowOf);
    if rowOf(entry).Failure? {
      var later := entries[j + 1..];
      assert entries == entries[..j + 1] + later;
      assert done + entries == (visited + [entry]) + later;
      CollectAppend(visited + [entry], later, rowOf);
    }
  }

  /** One more entry: Collect extends its rows by that entry's row, or stops. */
  lemma {:induction false} CollectStep<E, R>(done: seq<E>, e: E, rowOf: E -> Result<R, LoadError>)
    ensures Collect(done + [e], rowOf) ==
      match Collect(done, rowOf)
      case Failure(err) => Failure(err)
      case Success(rows) =>
        match rowOf(e)
        case Failure(err) => Failure(err)
        case Success(row) => Success(rows + [row])
  {
    assert (done + [e])[..|done|] == done;
  }

  // ---------------------------------------------------------------------------
  // The answer table.

  function AnswerEntriesOf(topicId: string, q: RubricQuestion, answers: seq<string>): (r: seq<AnswerEntry>)
    ensures |r| == |answers| && forall k :: 0 <= k < |answers| ==> r[k] == AnswerEntry(topicId, q, answers[k])
  {
    seq(|answers|, k requires 0 <= k < |answers| => AnswerEntry(topicId, q, answers[k]))
  }

  /** The short answers of one document's questions, questions in order. */
  function DocumentAnswerEntries(topicId: string, qs: seq<RubricQuestion>): seq<AnswerEntry>
  {
    if qs == [] then []
    else
      var last := qs[|qs| - 1];
      DocumentAnswerEntries(topicId, qs[..|qs| - 1]) + AnswerEntriesOf(topicId, last, last.shortAnswers)
  }

  /** Every short answer of every document, documents first. */
  function AnswerEntries(docs: seq<RubricDocument>): seq<AnswerEntry>
  {
    if docs == [] then []
    else
      var last := docs[|docs| - 1];
      AnswerEntries(docs[..|docs| - 1]) + DocumentAnswerEntries(last.topicId, last.rubrics)
  }

  lemma {:induction false} DocumentAnswerEntriesAppend(topicId: string, a: seq<RubricQuestion>, b: seq<RubricQuestion>)
    ensures DocumentAnswerEntries(topicId, a + b) == DocumentAnswerEntries(topicId, a) + DocumentAnswerEntries(topicId, b)
    decreases |b|
  {
    if b == [] {
      assert a + b == a;
    } else {
      var init, last := b[..|b| - 1], b[|b| - 1];
      assert (a + b)[..|a + b| - 1] == a + init && (a + b)[|a + b| - 1] == last;
      var tail := AnswerEntriesOf(topicId, last, last.shortAnswers);
      assert DocumentAnswerEntries(topicId, a + b) == DocumentAnswerEntries(topicId, a + init) + tail;
      assert DocumentAnswerEntries(topicId, b) == DocumentAnswerEntries(topicId, init) + tail;
      DocumentAnswerEntriesAppend(topicId, a, init);
      Regroup(DocumentAnswerEntries(topicId, a), DocumentAnswerEntries(topicId, init), tail);
    }
  }

  lemma {:induction false} AnswerEntriesAppend(a: seq<RubricDocument>, b: seq<RubricDocument>)
    ensures AnswerEntries(a + b) == AnswerEntries(a) + AnswerEntries(b)
    decreases |b|
  {
    if b == [] {
      assert a + b == a;
    } else {
      var init, last := b[..|b| - 1], b[|b| - 1];
      assert (a + b)[..|a + b| - 1] == a + init && (a + b)[|a + b| - 1] == last;
      var tail := DocumentAnswerEntries(last.topicId, last.rubrics);
      assert AnswerEntries(a + b) == AnswerEntries(a + init) + tail;
      assert AnswerEntries(b) == AnswerEntries(init) + tail;
      AnswerEntriesAppend(a, init);
      Regroup(AnswerEntries(a), AnswerEntries(init), tail);
    }
  }

  /** The answer table of the documents. */
  function AnswerTableOf(docs: seq<RubricDocument>): Result<seq<AnswerRow>, LoadError>
  {
    TableOf(AnswerEntries(docs), AnswerRowOf)
  }

  /**
   * The loader of the answer table (`load_rubric_answers`): one row per short
   * answer, documents, questions and answers each in order; every row takes
   * the weight of the question it belongs to. Stops at the first answer whose
   * question's importance is not a known tier.
   */
  method LoadRubricAnswers(docs: seq<RubricDocument>) returns (r: Result<seq<AnswerRow>, LoadError>)
    ensures r == AnswerTableOf(docs)
  {
    var rows: seq<AnswerRow> := [];
    for i := 0 to |docs|
      invariant Collect(AnswerEntries(docs[..i]), AnswerRowOf) == Success(rows)
    {
      AnswerEntriesSplit(docs, i);
      var next := AppendDocumentAnswerRows(AnswerEntries(docs[..i]), rows, docs[i].topicId, docs[i].rubrics);
      if next.Failure? {
        CollectAppend(AnswerEntries(docs[..i + 1]), AnswerEntries(docs[i + 1..]), AnswerRowOf);
        return next;
      }
      rows := next.value;
    }
    assert docs[..|docs|] == docs;
    if rows == [] {
      return Failure(EmptyTable);
    }
    return Success(rows);
  }

  lemma {:induction false} AnswerEntriesSplit(docs: seq<RubricDocument>, i: nat)
    requires i < |docs|
    ensures AnswerEntries(docs[..i + 1]) == AnswerEntries(docs[..i]) + DocumentAnswerEntries(docs[i].topicId, docs[i].rubrics)
    ensures AnswerEntries(docs) == AnswerEntries(docs[..i + 1]) + AnswerEntries(docs[i + 1..])
  {
    var prefix := docs[..i + 1];
    assert |prefix| == i + 1;
    assert prefix[..i] == docs[..i];
    assert prefix[i] == docs[i];
    assert docs == prefix + docs[i + 1..];
    AnswerEntriesAppend(prefix, docs[i + 1..]);
  }

  /**
   * The middle loop of the answer loader: appends the rows of one document's
   * short answers, question by question, to `rows`, the rows of the entries
   * `done` visited before.
   */
  method AppendDocumentAnswerRows(ghost done: seq<AnswerEntry>, rows: seq<AnswerRow>, topicId: string, qs: seq<RubricQuestion>)
    returns (r: Result<seq<AnswerRow>, LoadError>)
    requires Collect(done, AnswerRowOf) == Success(rows)
    ensures r == Collect(done + DocumentAnswerEntries(topicId, qs), AnswerRowOf)
  {
    var acc := rows;
    assert done + DocumentAnswerEntries(topicId, qs[..0]) == done;
    for j := 0 to |qs|
      invariant Collect(done + DocumentAnswerEntries(topicId, qs[..j]), AnswerRowOf) == Success(acc)
    {
      ghost var visited := done + DocumentAnswerEntries(topicId, qs[..j]);
      var answers := AnswerEntriesOf(topicId, qs[j], qs[j].shortAnswers);
      ghost var later := DocumentAnswerEntries(topicId, qs[j + 1..]);
      DocumentAnswerEntriesSplit(done, topicId, qs, j);
      var next := AppendRows(visited, acc, answers, AnswerRowOf);
      if next.Failure? {
        CollectAppend(visited + answers, later, AnswerRowOf);
        return next;
      }
      acc := next.value;
    }
    assert qs[..|qs|] == qs;
    return Success(acc);
  }

  lemma {:induction false} DocumentAnswerEntriesSplit(done: seq<AnswerEntry>, topicId: string, qs: seq<RubricQuestion>, j: nat)
    requires j < |qs|
    ensures done + DocumentAnswerEntries(topicId, qs[..j + 1])
              == (done + DocumentAnswerEntries(topicId, qs[..j])) + AnswerEntriesOf(topicId, qs[j], qs[j].shortAnswers)
    ensures done + DocumentAnswerEntries(topicId, qs)
              == ((done + DocumentAnswerEntries(topicId, qs[..j])) + AnswerEntriesOf(topicId, qs[j], qs[j].shortAnswers))
                 + DocumentAnswerEntries(topicId, qs[j + 1..])
  {
    var prefix, rest := qs[..j + 1], qs[j + 1..];
    var visited, answers := DocumentAnswerEntries(topicId, qs[..j]), AnswerEntriesOf(topicId, qs[j], qs[j].shortAnswers);
    assert |prefix| == j + 1;
    assert prefix[..j] == qs[..j];
    assert prefix[j] == qs[j];
    assert DocumentAnswerEntries(topicId, prefix) == visited + answers;
    Regroup(done, visited, answers);
    assert qs == prefix + rest;
    DocumentAnswerEntriesAppend(topicId, prefix, rest);
    Regroup(done, visited + answers, DocumentAnswerEntries(topicId, rest));
    Regroup(done, DocumentAnswerEntries(topicId, prefix), DocumentAnswerEntries(topicId, rest));
  }

  // ---------------------------------------------------------------------------
  // What the loaded tables hold.

  /** No entry's row function reports EmptyTable: only an empty table does. */
  predicate NoEmptyTableError<E, R>(es: seq<E>, rowOf: E -> Result<R, LoadError>)
  {
    forall k :: 0 <= k < |es| ==> rowOf(es[k]) != Failure(EmptyTable)
  }

  /**
   * What TableOf promises: EmptyTable exactly for no entries; otherwise the
   * rows of Collect, one per entry in entry order, or the first entry's
   * error.
   */
  lemma {:induction false} TableSpec<E, R>(es: seq<E>, rowOf: E -> Result<R, LoadError>)
    requires NoEmptyTableError(es, rowOf)
    ensures TableOf(es, rowOf) == Failure(EmptyTable) <==> es == []
    ensures TableOf(es, rowOf).Success? <==> es != [] && forall k :: 0 <= k < |es| ==> rowOf(es[k]).Success?
    ensures TableOf(es, rowOf).Success? ==>
              |TableOf(es, rowOf).value| == |es| &&
              forall k :: 0 <= k < |es| ==> rowOf(es[k]) == Success(TableOf(es, rowOf).value[k])
    ensures TableOf(es, rowOf).Failure? && TableOf(es, rowOf).error != EmptyTable ==>
              exists k :: 0 <= k < |es| && rowOf(es[k]) == Failure(TableOf(es, rowOf).error) &&
                          forall k' :: 0 <= k' < k ==> rowOf(es[k']).Success?
  {
    CollectSpec(es, rowOf);
    if Collect(es, rowOf).Failure? {
      var k :| 0 <= k < |es| && rowOf(es[k]) == Failure(Collect(es, rowOf).error) &&
               forall k' :: 0 <= k' < k ==> rowOf(es[k']).Success?;
      assert Collect(es, rowOf).error != EmptyTable;
    }
  }

  /**
   * The question table is EmptyTable exactly when no document lists a
   * question; otherwise it loads exactly when every rubric question has a
   * numeric rank and a known importance, and then holds one row per entry,
   * in entry order: that entry's topic, rank and importance weight. A table
   * that does not load reports the first question without a row.
   */
  lemma {:induction false} QuestionTable(docs: seq<RubricDocument>)
    ensures QuestionTableOf(docs) == Failure(EmptyTable) <==> forall e :: !ListsQuestion(docs, e)
    ensures QuestionTableOf(docs).Success? <==>
              (exists e :: ListsQuestion(docs, e)) && forall e :: ListsQuestion(docs, e) ==> QuestionRowOf(e).Success?
    ensures QuestionTableOf(docs).Success? ==>
              var rows, es := QuestionTableOf(docs).value, QuestionEntries(docs);
              |rows| == |es| && forall k :: 0 <= k < |es| ==> QuestionRowOf(es[k]) == Success(rows[k])
    ensures QuestionTableOf(docs).Failure? && QuestionTableOf(docs).error != EmptyTable ==>
              var es := QuestionEntries(docs);
              exists k :: 0 <= k < |es| && QuestionRowOf(es[k]) == Failure(QuestionTableOf(docs).error) &&
                          forall k' :: 0 <= k' < k ==> QuestionRowOf(es[k']).Success?
  {
    var es := QuestionEntries(docs);
    TableSpec(es, QuestionRowOf);
    if es == [] {
      forall e
        ensures !ListsQuestion(docs, e)
      {
        QuestionEntriesMembers(docs, e);
      }
    } else {
      QuestionEntriesMembers(docs, es[0]);
    }
    if forall e :: ListsQuestion(docs, e) ==> QuestionRowOf(e).Success? {
      forall k | 0 <= k < |es|
        ensures QuestionRowOf(es[k]).Success?
      {
        QuestionEntriesMembers(docs, es[k]);
      }
    }
    if QuestionTableOf(docs).Success? {
      forall e | ListsQuestion(docs, e)
        ensures QuestionRowOf(e).Success?
      {
        QuestionEntriesMembers(docs, e);
        var k :| 0 <= k < |es| && es[k] == e;
      }
    }
  }

  /** A loaded question table holds the rows of the listed questions and no others. */
  lemma {:induction false} QuestionTableRows(docs: seq<RubricDocument>)
    ensures QuestionTableOf(docs).Success? ==>
              forall row :: row in QuestionTableOf(docs).value <==>
                exists e :: ListsQuestion(docs, e) && QuestionRowOf(e) == Success(row)
  {
    if QuestionTableOf(docs).Success? {
      forall row
        ensures row in QuestionTableOf(docs).value <==> exists e :: ListsQuestion(docs, e) && QuestionRowOf(e) == Success(row)
      {
        QuestionTableRow(docs, row);
      }
    }
  }

  lemma {:induction false} QuestionTableRow(docs: seq<RubricDocument>, row: QuestionRow)
    requires QuestionTableOf(docs).Success?
    ensures row in QuestionTableOf(docs).value <==> exists e :: ListsQuestion(docs, e) && QuestionRowOf(e) == Success(row)
  {
    var es, rows := QuestionEntries(docs), QuestionTableOf(docs).value;
    TableSpec(es, QuestionRowOf);
    if row in rows {
      var k :| 0 <= k < |rows| && rows[k] == row;
      QuestionEntriesMembers(docs, es[k]);
      assert es[k] in es;
    }
    if exists e :: ListsQuestion(docs, e) && QuestionRowOf(e) == Success(row) {
      var e :| ListsQuestion(docs, e) && QuestionRowOf(e) == Success(row);
      QuestionEntriesMembers(docs, e);
      var k :| 0 <= k < |es| && es[k] == e;
    }
  }

  /** A short answer of one of the questions `qs` of the document on `topicId`. */
  ghost predicate ListsDocumentAnswer(topicId: string, qs: seq<RubricQuestion>, e: AnswerEntry)
  {
    exists j, k :: 0 <= j < |qs| && 0 <= k < |qs[j].shortAnswers| && e == AnswerEntry(topicId, qs[j], qs[j].shortAnswers[k])
  }

  /** A short answer of one of the documents, with its question and topic. */
  ghost predicate ListsAnswer(docs: seq<RubricDocument>, e: AnswerEntry)
  {
    exists i :: 0 <= i < |docs| && ListsDocumentAnswer(docs[i].topicId, docs[i].rubrics, e)
  }

  lemma {:induction false} DocumentAnswerEntriesMembers(topicId: string, qs: seq<RubricQuestion>, e: AnswerEntry)
    ensures e in DocumentAnswerEntries(topicId, qs) <==> ListsDocumentAnswer(topicId, qs, e)
  {
    if qs != [] {
      var init, last := qs[..|qs| - 1], qs[|qs| - 1];
      var tail := AnswerEntriesOf(topicId, last, last.shortAnswers);
      assert DocumentAnswerEntries(topicId, qs) == DocumentAnswerEntries(topicId, init) + tail;
      DocumentAnswerEntriesMembers(topicId, init, e);
      if e in DocumentAnswerEntries(topicId, init) {
        DocumentAnswerListedInPrefix(topicId, qs, e);
      } else if e in tail {
        var k :| 0 <= k < |tail| && tail[k] == e;
        assert e == AnswerEntry(topicId, qs[|qs| - 1], qs[|qs| - 1].shortAnswers[k]);
      }
      if ListsDocumentAnswer(topicId, qs, e) {
        var j, k :| 0 <= j < |qs| && 0 <= k < |qs[j].shortAnswers| && e == AnswerEntry(topicId, qs[j], qs[j].shortAnswers[k]);
        if j < |init| {
          assert init[j] == qs[j];
        } else {
          assert tail[k] == e;
        }
      }
    }
  }

  lemma {:induction false} DocumentAnswerListedInPrefix(topicId: string, qs: seq<RubricQuestion>, e: AnswerEntry)
    requires qs != [] && ListsDocumentAnswer(topicId, qs[..|qs| - 1], e)
    ensures ListsDocumentAnswer(topicId, qs, e)
  {
    var init := qs[..|qs| - 1];
    var j, k :| 0 <= j < |init| && 0 <= k < |init[j].shortAnswers| && e == AnswerEntry(topicId, init[j], init[j].shortAnswers[k]);
    assert qs[j] == init[j];
  }

  lemma {:induction false} AnswerEntriesMembers(docs: seq<RubricDocument>, e: AnswerEntry)
    ensures e in AnswerEntries(docs) <==> ListsAnswer(docs, e)
  {
    if docs != [] {
      var init, last := docs[..|docs| - 1], docs[|docs| - 1];
      var tail := DocumentAnswerEntries(last.topicId, last.rubrics);
      assert AnswerEntries(docs) == AnswerEntries(init) + tail;
      AnswerEntriesMembers(init, e);
      DocumentAnswerEntriesMembers(last.topicId, last.rubrics, e);
      if e in AnswerEntries(init) {
        var i :| 0 <= i < |init| && ListsDocumentAnswer(init[i].topicId, init[i].rubrics, e);
        assert docs[i] == init[i];
      } else if e in tail {
        assert docs[|docs| - 1] == last;
      }
      if ListsAnswer(docs, e) {
        var i :| 0 <= i < |docs| && ListsDocumentAnswer(docs[i].topicId, docs[i].rubrics, e);
        if i < |init| {
          assert init[i] == docs[i];
        }
      }
    }
  }

  /**
   * The answer table is EmptyTable exactly when no document lists a short
   * answer; otherwise it loads exactly when every question that has a short
   * answer has a known importance (a question without short answers adds no
   * row, so its importance is never looked up), and then holds one row per
   * entry, in entry order, carrying its question's id and weight. A table
   * that does not load reports the first answer without a row.
   */
  lemma {:induction false} AnswerTable(docs: seq<RubricDocument>)
    ensures AnswerTableOf(docs) == Failure(EmptyTable) <==> forall e :: !ListsAnswer(docs, e)
    ensures AnswerTableOf(docs).Success? <==>
              (exists e :: ListsAnswer(docs, e)) && forall e :: ListsAnswer(docs, e) ==> AnswerRowOf(e).Success?
    ensures AnswerTableOf(docs).Success? ==>
              var rows, es := AnswerTableOf(docs).value, AnswerEntries(docs);
              |rows| == |es| && forall k :: 0 <= k < |es| ==> AnswerRowOf(es[k]) == Success(rows[k])
    ensures AnswerTableOf(docs).Failure? && AnswerTableOf(docs).error != EmptyTable ==>
              var es := AnswerEntries(docs);
              exists k :: 0 <= k < |es| && AnswerRowOf(es[k]) == Failure(AnswerTableOf(docs).error) &&
                          forall k' :: 0 <= k' < k ==> AnswerRowOf(es[k']).Success?
  {
    var es := AnswerEntries(docs);
    TableSpec(es, AnswerRowOf);
    if es == [] {
      forall e
        ensures !ListsAnswer(docs, e)
      {
        AnswerEntriesMembers(docs, e);
      }
    } else {
      AnswerEntriesMembers(docs, es[0]);
    }
    if forall e :: ListsAnswer(docs, e) ==> AnswerRowOf(e).Success? {
      forall k | 0 <= k < |es|
        ensures AnswerRowOf(es[k]).Success?
      {
        AnswerEntriesMembers(docs, es[k]);
      }
    }
    if AnswerTableOf(docs).Success? {
      forall e | ListsAnswer(docs, e)
        ensures AnswerRowOf(e).Success?
      {
        AnswerEntriesMembers(docs, e);
        var k :| 0 <= k < |es| && es[k] == e;
      }
    }
  }

  /** A loaded answer table holds the rows of the listed short answers and no others. */
  lemma {:induction false} AnswerTableRows(docs: seq<RubricDocument>)
    ensures AnswerTableOf(docs).Success? ==>
              forall row :: row in AnswerTableOf(docs).value <==>
                exists e :: ListsAnswer(docs, e) && AnswerRowOf(e) == Success(row)
  {
    if AnswerTableOf(docs).Success? {
      forall row
        ensures row in AnswerTableOf(docs).value <==> exists e :: ListsAnswer(docs, e) && AnswerRowOf(e) == Success(row)
      {
        AnswerTableRow(docs, row);
      }
    }
  }

  lemma {:induction false} AnswerTableRow(docs: seq<RubricDocument>, row: AnswerRow)
    requires AnswerTableOf(docs).Success?
    ensures row in AnswerTableOf(docs).value <==> exists e :: ListsAnswer(docs, e) && AnswerRowOf(e) == Success(row)
  {
    var es, rows := AnswerEntries(docs), AnswerTableOf(docs).value;
    TableSpec(es, AnswerRowOf);
    if row in rows {
      var k :| 0 <= k < |rows| && rows[k] == row;
      AnswerEntriesMembers(docs, es[k]);
      assert es[k] in es;
    }
    if exists e :: ListsAnswer(docs, e) && AnswerRowOf(e) == Success(row) {
      var e :| ListsAnswer(docs, e) && AnswerRowOf(e) == Success(row);
      AnswerEntriesMembers(docs, e);
      var k :| 0 <= k < |es| && es[k] == e;
    }
  }
}
