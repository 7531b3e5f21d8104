/**
 * Report-generation scoring (`score_report_generation`): each run's report
 * is judged against the short answers of the rubric. Per rubric question, the
 * share of supporting and of contradicting judgments, scaled by the
 * question's weight, adds to the run's supportive and contradictory totals,
 * which are normalised by the rubric weight of the topic and averaged over
 * topics.
 */
module ReportScoring {
  import opened Results
  import opened Rubric
  import opened Order
  import opened Sums
  import opened Tables
  import opened Frames

  /** One judgment: whether a run's report supports a rubric short answer. */
  datatype ReportAssessment = ReportAssessment(
    topicId: string, runTag: string, questionId: string, answerId: string, annotation: string)

  /** A judgment after the merge with the rubric answers: its score and its question's weight. */
  datatype JudgedAnswer = JudgedAnswer(
    topicId: string, runTag: string, questionId: string, answerId: string, score: real, questionScore: Weight)

  /** Why scoring cannot go on: a judgment that does not resolve. */
  datatype ReportError =
    | UnknownAnnotation(topicId: string, runTag: string, annotation: string)
    | MissingRubricAnswer(topicId: string, questionId: string, answerId: string)
    | NoResults  // no judgment at all: the per-topic table is empty and grouping it by run fails

  /** What a run scored in one topic. */
  datatype ReportScore = ReportScore(supportive: real, contradictory: real)

  /** A row of the per-topic table. */
  type ReportTopicScore = TopicRow<ReportScore>

  /** A row of the per-run table. */
  datatype ReportRunScore = ReportRunScore(runTag: string, supportiveScore: real, contradictoryScore: real)

  /** The two output tables. */
  datatype ReportScores = ReportScores(perTopic: seq<ReportTopicScore>, perRun: seq<ReportRunScore>)

  // ---------------------------------------------------------------------------
  // Labels and the merge.

  /**
   * The support label map: full support, partial support, contradiction (a
   * negative score), or no mention; any other label has no score.
   */
  function SupportScore(annotation: string): (r: Option<real>)
    ensures r == Some(1.0) <==> annotation == "supports"
    ensures r == Some(0.5) <==> annotation == "partial"
    ensures r == Some(-1.0) <==> annotation == "contradicts"
    ensures r == Some(0.0) <==> annotation == "none"
    ensures r.Some? ==> -1.0 <= r.value <= 1.0
  {
    if annotation == "supports" then Some(1.0)
    else if annotation == "partial" then Some(0.5)
    else if annotation == "contradicts" then Some(-1.0)
    else if annotation == "none" then Some(0.0)
    else None
  }

  predicate MatchesAnswer(row: AnswerRow, a: ReportAssessment)
  {
    row.topicId == a.topicId && row.questionId == a.questionId && row.answerId == a.answerId
  }

  /** The rubric answer rows of the judged (topic, question, answer). */
  function MatchingAnswer(a: ReportAssessment): AnswerRow -> bool
  {
    (row: AnswerRow) => MatchesAnswer(row, a)
  }

  /**
   * What the left merge pairs the judgment with: the weight of every rubric
   * answer row of the judged (topic, question, answer), once per row, in
   * table order. It is empty exactly when there is no such row.
   */
  function AnswerWeights(answers: seq<AnswerRow>, a: ReportAssessment): (r: seq<Weight>)
    ensures |r| == |Filter(answers, MatchingAnswer(a))|
    ensures forall k :: 0 <= k < |r| ==> r[k] == Filter(answers, MatchingAnswer(a))[k].questionScore
    ensures r == [] <==> forall i :: 0 <= i < |answers| ==> !MatchesAnswer(answers[i], a)
    ensures forall w :: w in r ==> exists i :: 0 <= i < |answers| && MatchesAnswer(answers[i], a) && answers[i].questionScore == w
  {
    var matching := Filter(answers, MatchingAnswer(a));
    FilterEmpty(answers, MatchingAnswer(a));
    var r := seq(|matching|, k requires 0 <= k < |matching| => matching[k].questionScore);
    forall w | w in r ensures exists i :: 0 <= i < |answers| && MatchesAnswer(answers[i], a) && answers[i].questionScore == w {
      var k :| 0 <= k < |r| && r[k] == w;
      assert matching[k] in answers && MatchingAnswer(a)(matching[k]);
      var i :| 0 <= i < |answers| && answers[i] == matching[k];
    }
    r
  }

  /** Every rubric answer row of the judged answer contributes its weight. */
  lemma {:induction false} AnswerWeightsCover(answers: seq<AnswerRow>, a: ReportAssessment, i: nat)
    requires i < |answers| && MatchesAnswer(answers[i], a)
    ensures answers[i].questionScore in AnswerWeights(answers, a)
  {
    var matching := Filter(answers, MatchingAnswer(a));
    assert MatchingAnswer(a)(answers[i]);
    var k :| 0 <= k < |matching| && matching[k] == answers[i];
    assert AnswerWeights(answers, a)[k] == answers[i].questionScore;
  }

  /**
   * One judgment, merged with every matching rubric answer row, or why it
   * does not resolve: an unknown label, then no matching rubric answer (each
   * of which pandas would carry on with as a missing value). A resolved
   * judgment becomes one row per matching answer row, each with the label's
   * score and that row's weight.
   */
  function JudgeAnswer(a: ReportAssessment, answers: seq<AnswerRow>): (r: Result<seq<JudgedAnswer>, ReportError>)
    ensures SupportScore(a.annotation).None? ==> r == Failure(UnknownAnnotation(a.topicId, a.runTag, a.annotation))
    ensures r.Success? <==> SupportScore(a.annotation).Some? && exists i :: 0 <= i < |answers| && MatchesAnswer(answers[i], a)
    ensures r.Success? ==>
              && |r.value| == |AnswerWeights(answers, a)|
              && forall k :: 0 <= k < |r.value| ==>
                   r.value[k] == JudgedAnswer(a.topicId, a.runTag, a.questionId, a.answerId,
                                              SupportScore(a.annotation).value, AnswerWeights(answers, a)[k])
  {
    match SupportScore(a.annotation)
    case None => Failure(UnknownAnnotation(a.topicId, a.runTag, a.annotation))
    case Some(score) =>
      var weights := AnswerWeights(answers, a);
      if weights == [] then Failure(MissingRubricAnswer(a.topicId, a.questionId, a.answerId))
      else Success(seq(|weights|, k requires 0 <= k < |weights| =>
                         JudgedAnswer(a.topicId, a.runTag, a.questionId, a.answerId, score, weights[k])))
  }

  /** Each score lies in [-1, 1]. */
  ghost predicate ScoresInRange(rows: seq<JudgedAnswer>)
  {
    forall i :: 0 <= i < |rows| ==> -1.0 <= rows[i].score <= 1.0
  }

  /** The row's weight is that of a rubric answer row for its (topic, question, answer). */
  ghost predicate WeightedAnswer(row: JudgedAnswer, answers: seq<AnswerRow>)
  {
    exists k :: 0 <= k < |answers| && answers[k].topicId == row.topicId && answers[k].questionId == row.questionId
                && answers[k].answerId == row.answerId && answers[k].questionScore == row.questionScore
  }

  ghost predicate WeightedByAnswers(rows: seq<JudgedAnswer>, answers: seq<AnswerRow>)
  {
    forall i :: 0 <= i < |rows| ==> WeightedAnswer(rows[i], answers)
  }

  /** The (topic, run) pairs of the rows, in table order. */
  function Pairs(rows: seq<JudgedAnswer>): seq<Pair>
  {
    seq(|rows|, i requires 0 <= i < |rows| => Pair(rows[i].topicId, rows[i].runTag))
  }

  /** The (topic, run) pairs of the judgments, in table order. */
  function AssessedPairs(assessments: seq<ReportAssessment>): seq<Pair>
  {
    seq(|assessments|, i requires 0 <= i < |assessments| => Pair(assessments[i].topicId, assessments[i].runTag))
  }

  /**
   * The merge over the whole judgment table. It succeeds exactly when every
   * judgment resolves, and then every score lies in [-1, 1], every weight is
   * that of the judged rubric answer, and the (topic, run) pairs of the rows
   * are exactly those of the judgments.
   */
  function JoinReport(assessments: seq<ReportAssessment>, answers: seq<AnswerRow>): (r: Result<seq<JudgedAnswer>, ReportError>)
    ensures r.Success? <==> forall i :: 0 <= i < |assessments| ==> JudgeAnswer(assessments[i], answers).Success?
    ensures r.Success? ==> ScoresInRange(r.value) && WeightedByAnswers(r.value, answers)
    ensures r.Success? ==> forall p :: p in Pairs(r.value) <==> p in AssessedPairs(assessments)
    ensures r.Success? ==> r.value == FlatMap(assessments, AnswerBlock(answers))
  {
    if assessments == [] then Success([])
    else
      var a := assessments[0];
      match JudgeAnswer(a, answers)
      case Failure(e) => Failure(e)
      case Success(here) =>
        match JoinReport(assessments[1..], answers)
        case Failure(e) => Failure(e)
        case Success(rest) =>
          JudgedAnswersValid(a, answers, here);
          ValidAppend(here, rest, answers);
          PairsAppend(assessments, here, rest);
          Success(here + rest)
  }

  /**
   * The rows one judgment contributes to the merged table: its merged rows,
   * or none when it does not resolve (and then the join fails).
   */
  function AnswerBlock(answers: seq<AnswerRow>): ReportAssessment -> seq<JudgedAnswer>
  {
    (a: ReportAssessment) =>
      var judged := JudgeAnswer(a, answers);
      if judged.Success? then judged.value else []
  }

  lemma {:induction false} JudgedAnswersValid(a: ReportAssessment, answers: seq<AnswerRow>, here: seq<JudgedAnswer>)
    requires JudgeAnswer(a, answers) == Success(here)
    ensures here != []
    ensures ScoresInRange(here) && WeightedByAnswers(here, answers)
    ensures forall i :: 0 <= i < |here| ==> here[i].topicId == a.topicId && here[i].runTag == a.runTag
  {
    var weights := AnswerWeights(answers, a);
    forall i | 0 <= i < |here| ensures WeightedAnswer(here[i], answers) {
      assert weights[i] in weights;
    }
  }

  lemma {:induction false} ValidAppend(x: seq<JudgedAnswer>, y: seq<JudgedAnswer>, answers: seq<AnswerRow>)
    requires ScoresInRange(x) && WeightedByAnswers(x, answers)
    requires ScoresInRange(y) && WeightedByAnswers(y, answers)
    ensures ScoresInRange(x + y) && WeightedByAnswers(x + y, answers)
  {
    forall i | |x| <= i < |x + y| ensures (x + y)[i] == y[i - |x|] { }
  }

  lemma {:induction false} PairsAppend(assessments: seq<ReportAssessment>, here: seq<JudgedAnswer>, rest: seq<JudgedAnswer>)
    requires assessments != [] && here != []
    requires forall i :: 0 <= i < |here| ==> here[i].topicId == assessments[0].topicId && here[i].runTag == assessments[0].runTag
    requires forall p :: p in Pairs(rest) <==> p in AssessedPairs(assessments[1..])
    ensures forall p :: p in Pairs(here + rest) <==> p in AssessedPairs(assessments)
  {
    assert Pairs(here + rest) == Pairs(here) + Pairs(rest);
    assert AssessedPairs(assessments) == [AssessedPairs(assessments)[0]] + AssessedPairs(assessments[1..]);
    assert Pairs(here)[0] == AssessedPairs(assessments)[0];
    forall p | p in Pairs(here) ensures p == AssessedPairs(assessments)[0] {
      var i :| 0 <= i < |here| && Pairs(here)[i] == p;
    }
  }

  // ---------------------------------------------------------------------------
  // The denominator: from the rubric alone.

  /** Selects the rubric answer rows of one topic. */
  function AnswerInTopic(topicId: string): AnswerRow -> bool
  {
    (row: AnswerRow) => row.topicId == topicId
  }

  /** The rubric answer rows of one topic, in table order (`rubric_answers[rubric_answers["topic_id"] == topic_id]`). */
  function TopicAnswers(answers: seq<AnswerRow>, topicId: string): (r: seq<AnswerRow>)
    ensures forall row :: row in r <==> row in answers && row.topicId == topicId
    ensures forall row :: Occurrences(r, row) == if row.topicId == topicId then Occurrences(answers, row) else 0
  {
    FilterCounts(answers, AnswerInTopic(topicId));
    Filter(answers, AnswerInTopic(topicId))
  }

  function AnswerQuestionIds(answers: seq<AnswerRow>): seq<string>
  {
    seq(|answers|, i requires 0 <= i < |answers| => answers[i].questionId)
  }

  /**
   * The weight of the first answer row of a question, as kept by
   * `drop_duplicates(subset=["question_id"])`; 0 when there is none.
   */
  function FirstAnswerWeight(answers: seq<AnswerRow>, questionId: string): (r: real)
    ensures 0.0 <= r
    ensures questionId !in AnswerQuestionIds(answers) ==> r == 0.0
    ensures questionId in AnswerQuestionIds(answers) ==>
              exists i :: 0 <= i < |answers| && answers[i].questionId == questionId && r == answers[i].questionScore as real
                          && forall j :: 0 <= j < i ==> answers[j].questionId != questionId
  {
    if answers == [] then 0.0
    else if answers[0].questionId == questionId then
      assert AnswerQuestionIds(answers)[0] == questionId;
      answers[0].questionScore as real
    else
      var r := FirstAnswerWeight(answers[1..], questionId);
      assert forall j :: 1 <= j < |answers| ==> answers[j] == answers[1..][j - 1];
      assert questionId in AnswerQuestionIds(answers) ==> questionId in AnswerQuestionIds(answers[1..]) by {
        if questionId in AnswerQuestionIds(answers) {
          var i :| 0 <= i < |answers| && AnswerQuestionIds(answers)[i] == questionId;
          assert AnswerQuestionIds(answers[1..])[i - 1] == questionId;
        }
      }
      assert questionId in AnswerQuestionIds(answers[1..]) ==> questionId in AnswerQuestionIds(answers) by {
        if questionId in AnswerQuestionIds(answers[1..]) {
          var i :| 0 <= i < |answers[1..]| && AnswerQuestionIds(answers[1..])[i] == questionId;
          assert AnswerQuestionIds(answers)[i + 1] == questionId;
        }
      }
      r
  }

  function AnswerWeight(answers: seq<AnswerRow>): string -> real
  {
    q => FirstAnswerWeight(answers, q)
  }

  /**
   * The topic's denominator: the weights of the topic's rubric questions that
   * have short answers, each counted once. It is computed from the rubric
   * answers alone, so no judgment changes it.
   */
  function ReportMaxScore(answers: seq<AnswerRow>, topicId: string): real
  {
    var topicAnswers := TopicAnswers(answers, topicId);
    SumOver(Distinct(AnswerQuestionIds(topicAnswers)), AnswerWeight(topicAnswers))
  }

  /** A topic with a rubric answer has a denominator of at least 1. */
  lemma {:induction false} ReportMaxScorePositive(answers: seq<AnswerRow>, topicId: string)
    requires TopicAnswers(answers, topicId) != []
    ensures ReportMaxScore(answers, topicId) >= 1.0
  {
    var topicAnswers := TopicAnswers(answers, topicId);
    var ids := Distinct(AnswerQuestionIds(topicAnswers));
    var f := AnswerWeight(topicAnswers);
    assert AnswerQuestionIds(topicAnswers)[0] in ids;
    assert ids != [];
    assert ids[0] in AnswerQuestionIds(topicAnswers);
    forall q | q in ids[1..] ensures f(q) >= 0.0 { }
    SumOverNonNegative(ids[1..], f);
  }

  // ---------------------------------------------------------------------------
  // The numerators: per judged rubric question, the shares of supporting and
  // of contradicting judgments, scaled by the question's weight.

  /** Selects the rows of one run in one topic. */
  function InPart(topicId: string, runTag: string): JudgedAnswer -> bool
  {
    (row: JudgedAnswer) => row.topicId == topicId && row.runTag == runTag
  }

  /** The rows of one run in one topic, in table order (the two-mask selection). */
  function RunPart(rows: seq<JudgedAnswer>, topicId: string, runTag: string): (r: seq<JudgedAnswer>)
    ensures forall row :: row in r <==> row in rows && row.topicId == topicId && row.runTag == runTag
    ensures forall row :: Occurrences(r, row) == if row.topicId == topicId && row.runTag == runTag then Occurrences(rows, row) else 0
  {
    FilterCounts(rows, InPart(topicId, runTag));
    Filter(rows, InPart(topicId, runTag))
  }

  function JudgedQuestionIds(part: seq<JudgedAnswer>): seq<string>
  {
    seq(|part|, i requires 0 <= i < |part| => part[i].questionId)
  }

  /** Selects the rows of one rubric question. */
  function OfQuestion(questionId: string): JudgedAnswer -> bool
  {
    (row: JudgedAnswer) => row.questionId == questionId
  }

  /**
   * The rows of one rubric question, in table order (`part[part["question_id"] == qid]`):
   * each row of the question once, so `n` counts them all and `iloc[0]` is the first.
   */
  function QuestionGroup(part: seq<JudgedAnswer>, questionId: string): (r: seq<JudgedAnswer>)
    ensures forall row :: row in r <==> row in part && row.questionId == questionId
    ensures forall row :: Occurrences(r, row) == if row.questionId == questionId then Occurrences(part, row) else 0
  {
    FilterCounts(part, OfQuestion(questionId));
    Filter(part, OfQuestion(questionId))
  }

  /** The sum of the positive scores. */
  function PositiveSum(group: seq<JudgedAnswer>): real
  {
    if group == [] then 0.0
    else (if group[0].score > 0.0 then group[0].score else 0.0) + PositiveSum(group[1..])
  }

  /** The magnitude of the sum of the negative scores. */
  function NegativeSum(group: seq<JudgedAnswer>): real
  {
    if group == [] then 0.0
    else (if group[0].score < 0.0 then -group[0].score else 0.0) + NegativeSum(group[1..])
  }

  /** The weight of a group: that of its first row (`iloc[0]`). */
  function GroupWeight(group: seq<JudgedAnswer>): real
  {
    if group == [] then 0.0 else group[0].questionScore as real
  }

  /** A sum over a group, divided by the group's size and scaled by its weight. */
  function WeightedShare(sum: real, group: seq<JudgedAnswer>): real
    requires group != []
  {
    sum / |group| as real * GroupWeight(group)
  }

  /** A question's supportive contribution: the mean positive score, scaled by the weight. */
  function Supportive(part: seq<JudgedAnswer>, questionId: string): real
  {
    var group := QuestionGroup(part, questionId);
    if group == [] then 0.0 else WeightedShare(PositiveSum(group), group)
  }

  /** A question's contradictory contribution: the mean magnitude of the negative scores, scaled by the weight. */
  function Contradictory(part: seq<JudgedAnswer>, questionId: string): real
  {
    var group := QuestionGroup(part, questionId);
    if group == [] then 0.0 else WeightedShare(NegativeSum(group), group)
  }

  function SupportiveOf(part: seq<JudgedAnswer>): string -> real
  {
    q => Supportive(part, q)
  }

  function ContradictoryOf(part: seq<JudgedAnswer>): string -> real
  {
    q => Contradictory(part, q)
  }

  /** The supportive numerator of a run in a topic. */
  function SupportiveTotal(part: seq<JudgedAnswer>): real
  {
    SumOver(Distinct(JudgedQuestionIds(part)), SupportiveOf(part))
  }

  /** The contradictory numerator of a run in a topic. */
  function ContradictoryTotal(part: seq<JudgedAnswer>): real
  {
    SumOver(Distinct(JudgedQuestionIds(part)), ContradictoryOf(part))
  }

  /** With scores in [-1, 1], a group's positive and negative parts together are at most its size. */
  lemma {:induction false} GroupSumsBounded(group: seq<JudgedAnswer>)
    requires ScoresInRange(group)
    ensures 0.0 <= PositiveSum(group) && 0.0 <= NegativeSum(group)
    ensures PositiveSum(group) + NegativeSum(group) <= |group| as real
  {
    if group != [] {
      assert forall i :: 1 <= i < |group| ==> group[1..][i - 1] == group[i];
      GroupSumsBounded(group[1..]);
    }
  }

  /**
   * A judged question adds a non-negative amount to each total, and at most
   * its weight to both together.
   */
  lemma {:induction false} ContributionsWithinWeight(part: seq<JudgedAnswer>, questionId: string)
    requires ScoresInRange(part)
    ensures 0.0 <= Supportive(part, questionId) && 0.0 <= Contradictory(part, questionId)
    ensures Supportive(part, questionId) + Contradictory(part, questionId) <= GroupWeight(QuestionGroup(part, questionId))
  {
    var group := QuestionGroup(part, questionId);
    if group != [] {
      QuestionGroupInRange(part, questionId);
      GroupSharesWithin(group);
    }
  }

  lemma {:induction false} QuestionGroupInRange(part: seq<JudgedAnswer>, questionId: string)
    requires ScoresInRange(part)
    ensures ScoresInRange(QuestionGroup(part, questionId))
  {
    SubsetInRange(QuestionGroup(part, questionId), part);
  }

  /** A group with scores in [-1, 1]: both weighted shares are non-negative and together at most its weight. */
  lemma {:induction false} GroupSharesWithin(group: seq<JudgedAnswer>)
    requires group != [] && ScoresInRange(group)
    ensures 0.0 <= WeightedShare(PositiveSum(group), group) && 0.0 <= WeightedShare(NegativeSum(group), group)
    ensures WeightedShare(PositiveSum(group), group) + WeightedShare(NegativeSum(group), group) <= GroupWeight(group)
  {
    GroupSumsBounded(group);
    SharesWithin(PositiveSum(group), NegativeSum(group), |group| as real, GroupWeight(group));
  }

  /** Rows drawn from rows with scores in [-1, 1] have scores in [-1, 1]. */
  lemma {:induction false} SubsetInRange(sub: seq<JudgedAnswer>, rows: seq<JudgedAnswer>)
    requires ScoresInRange(rows)
    requires forall row :: row in sub ==> row in rows
    ensures ScoresInRange(sub)
  {
    forall i | 0 <= i < |sub| ensures -1.0 <= sub[i].score <= 1.0 {
      assert sub[i] in rows;
    }
  }

  /** Within a topic, all answer rows of a rubric question carry the same weight. */
  ghost predicate ConsistentAnswers(answers: seq<AnswerRow>)
  {
    forall i, j :: 0 <= i < |answers| && 0 <= j < |answers|
                   && answers[i].topicId == answers[j].topicId && answers[i].questionId == answers[j].questionId
                   ==> answers[i].questionScore == answers[j].questionScore
  }

  /**
   * Given consistent rubric answers, the two numerators of a run are
   * non-negative and together at most the topic's denominator.
   */
  lemma {:induction false} TotalsWithinMax(rows: seq<JudgedAnswer>, answers: seq<AnswerRow>, topicId: string, runTag: string)
    requires ScoresInRange(rows) && WeightedByAnswers(rows, answers) && ConsistentAnswers(answers)
    ensures 0.0 <= SupportiveTotal(RunPart(rows, topicId, runTag))
    ensures 0.0 <= ContradictoryTotal(RunPart(rows, topicId, runTag))
    ensures SupportiveTotal(RunPart(rows, topicId, runTag)) + ContradictoryTotal(RunPart(rows, topicId, runTag))
            <= ReportMaxScore(answers, topicId)
  {
    var part := RunPart(rows, topicId, runTag);
    var topicAnswers := TopicAnswers(answers, topicId);
    var judged := Distinct(JudgedQuestionIds(part));
    var all := Distinct(AnswerQuestionIds(topicAnswers));
    JudgedWithinDenominator(rows, answers, topicId, runTag);
    SumOverNonNegative(judged, SupportiveOf(part));
    SumOverNonNegative(judged, ContradictoryOf(part));
    SumOverPairBelow(judged, SupportiveOf(part), ContradictoryOf(part), AnswerWeight(topicAnswers));
    SumOverSubset(judged, all, AnswerWeight(topicAnswers));
  }

  /** Every judged question adds at most the weight the denominator counts for it. */
  lemma {:induction false} JudgedWithinDenominator(rows: seq<JudgedAnswer>, answers: seq<AnswerRow>, topicId: string, runTag: string)
    requires ScoresInRange(rows) && WeightedByAnswers(rows, answers) && ConsistentAnswers(answers)
    ensures forall q :: q in Distinct(JudgedQuestionIds(RunPart(rows, topicId, runTag))) ==>
              && 0.0 <= SupportiveOf(RunPart(rows, topicId, runTag))(q)
              && 0.0 <= ContradictoryOf(RunPart(rows, topicId, runTag))(q)
              && SupportiveOf(RunPart(rows, topicId, runTag))(q) + ContradictoryOf(RunPart(rows, topicId, runTag))(q)
                 <= AnswerWeight(TopicAnswers(answers, topicId))(q)
              && q in Distinct(AnswerQuestionIds(TopicAnswers(answers, topicId)))
  {
    var part := RunPart(rows, topicId, runTag);
    SubsetInRange(part, rows);
    forall q | q in Distinct(JudgedQuestionIds(part))
      ensures 0.0 <= SupportiveOf(part)(q) && 0.0 <= ContradictoryOf(part)(q)
      ensures SupportiveOf(part)(q) + ContradictoryOf(part)(q) <= AnswerWeight(TopicAnswers(answers, topicId))(q)
      ensures q in Distinct(AnswerQuestionIds(TopicAnswers(answers, topicId)))
    {
      ContributionWithinDenominator(rows, answers, topicId, runTag, q);
    }
  }

  /** A judged question adds at most the weight the denominator counts for it. */
  lemma {:induction false} ContributionWithinDenominator(rows: seq<JudgedAnswer>, answers: seq<AnswerRow>, topicId: string, runTag: string, q: string)
    requires ScoresInRange(RunPart(rows, topicId, runTag)) && WeightedByAnswers(rows, answers) && ConsistentAnswers(answers)
    requires q in Distinct(JudgedQuestionIds(RunPart(rows, topicId, runTag)))
    ensures 0.0 <= Supportive(RunPart(rows, topicId, runTag), q) && 0.0 <= Contradictory(RunPart(rows, topicId, runTag), q)
    ensures Supportive(RunPart(rows, topicId, runTag), q) + Contradictory(RunPart(rows, topicId, runTag), q)
            <= FirstAnswerWeight(TopicAnswers(answers, topicId), q)
    ensures q in Distinct(AnswerQuestionIds(TopicAnswers(answers, topicId)))
  {
    ContributionsWithinWeight(RunPart(rows, topicId, runTag), q);
    GroupWeightFromRubric(rows, answers, topicId, runTag, q);
  }

  /** A judged question's weight is the weight the denominator counts for it. */
  lemma {:induction false} GroupWeightFromRubric(rows: seq<JudgedAnswer>, answers: seq<AnswerRow>, topicId: string, runTag: string, q: string)
    requires WeightedByAnswers(rows, answers) && ConsistentAnswers(answers)
    requires q in Distinct(JudgedQuestionIds(RunPart(rows, topicId, runTag)))
    ensures GroupWeight(QuestionGroup(RunPart(rows, topicId, runTag), q)) == FirstAnswerWeight(TopicAnswers(answers, topicId), q)
    ensures q in Distinct(AnswerQuestionIds(TopicAnswers(answers, topicId)))
  {
    var part := RunPart(rows, topicId, runTag);
    var group := QuestionGroup(part, q);
    assert q in JudgedQuestionIds(part);
    GroupNotEmpty(part, q);
    var row := group[0];
    assert row in part && row in rows;
    var p :| 0 <= p < |rows| && rows[p] == row;
    assert WeightedAnswer(rows[p], answers);
    var k :| 0 <= k < |answers| && answers[k].topicId == row.topicId && answers[k].questionId == row.questionId
             && answers[k].answerId == row.answerId && answers[k].questionScore == row.questionScore;
    FirstAnswerWeightConsistent(answers, topicId, k);
  }

  /** In a consistent rubric, the weight the denominator counts for a question is that of any of its answer rows. */
  lemma {:induction false} FirstAnswerWeightConsistent(answers: seq<AnswerRow>, topicId: string, k: nat)
    requires ConsistentAnswers(answers)
    requires k < |answers| && answers[k].topicId == topicId
    ensures answers[k].questionId in Distinct(AnswerQuestionIds(TopicAnswers(answers, topicId)))
    ensures FirstAnswerWeight(TopicAnswers(answers, topicId), answers[k].questionId) == answers[k].questionScore as real
  {
    var topicAnswers := TopicAnswers(answers, topicId);
    var q := answers[k].questionId;
    assert answers[k] in topicAnswers;
    var t :| 0 <= t < |topicAnswers| && topicAnswers[t] == answers[k];
    assert AnswerQuestionIds(topicAnswers)[t] == q;
    var f :| 0 <= f < |topicAnswers| && topicAnswers[f].questionId == q
             && FirstAnswerWeight(topicAnswers, q) == topicAnswers[f].questionScore as real;
    assert topicAnswers[f] in answers;
    var g :| 0 <= g < |answers| && answers[g] == topicAnswers[f];
  }

  /**
   * Given consistent rubric answers, a run's supportive and contradictory
   * scores in a topic with a rubric answer lie in [0, 1], and so does their sum.
   */
  lemma {:induction false} TopicReportWithinUnit(rows: seq<JudgedAnswer>, answers: seq<AnswerRow>, topicId: string, runTag: string)
    requires ScoresInRange(rows) && WeightedByAnswers(rows, answers) && ConsistentAnswers(answers)
    requires TopicAnswers(answers, topicId) != []
    ensures ReportMaxScore(answers, topicId) > 0.0
    ensures 0.0 <= SupportiveTotal(RunPart(rows, topicId, runTag)) / ReportMaxScore(answers, topicId)
    ensures 0.0 <= ContradictoryTotal(RunPart(rows, topicId, runTag)) / ReportMaxScore(answers, topicId)
    ensures SupportiveTotal(RunPart(rows, topicId, runTag)) / ReportMaxScore(answers, topicId)
            + ContradictoryTotal(RunPart(rows, topicId, runTag)) / ReportMaxScore(answers, topicId) <= 1.0
  {
    ReportMaxScorePositive(answers, topicId);
    TotalsWithinMax(rows, answers, topicId, runTag);
    var part := RunPart(rows, topicId, runTag);
    RatiosWithinUnit(SupportiveTotal(part), ContradictoryTotal(part), ReportMaxScore(answers, topicId));
  }

  /**
   * The loop over the sorted question ids of a run's rows, adding each
   * question's supportive and contradictory contributions.
   */
  method ReportTotals(part: seq<JudgedAnswer>) returns (supportive: real, contradictory: real)
    ensures supportive == SupportiveTotal(part) && contradictory == ContradictoryTotal(part)
  {
    var questionIds := SortedKeys(JudgedQuestionIds(part));
    supportive, contradictory := 0.0, 0.0;
    for i := 0 to |questionIds|
      invariant supportive == SumOver(questionIds[..i], SupportiveOf(part))
      invariant contradictory == SumOver(questionIds[..i], ContradictoryOf(part))
    {
      GroupNotEmpty(part, questionIds[i]);
      var supportiveShare, contradictoryShare := QuestionShares(part, questionIds[i]);
      AccumulateStep(questionIds, i, SupportiveOf(part), supportive, supportiveShare);
      AccumulateStep(questionIds, i, ContradictoryOf(part), contradictory, contradictoryShare);
      supportive := supportive + supportiveShare;
      contradictory := contradictory + contradictoryShare;
    }
    assert questionIds[..|questionIds|] == questionIds;
    SortedOrderSameTotals(part, questionIds);
  }

  /**
   * One question's two contributions: the positive and the negative scores
   * of its rows, each summed, divided by the number of rows and scaled by the
   * weight of the first row.
   */
  method QuestionShares(part: seq<JudgedAnswer>, questionId: string) returns (supportiveShare: real, contradictoryShare: real)
    requires QuestionGroup(part, questionId) != []
    ensures supportiveShare == Supportive(part, questionId)
    ensures contradictoryShare == Contradictory(part, questionId)
  {
    var group := QuestionGroup(part, questionId);
    ShareOfGroup(part, questionId, group);
    var w := group[0].questionScore as real;
    var n := |group| as real;
    supportiveShare := PositiveSum(group) / n * w;
    contradictoryShare := NegativeSum(group) / n * w;
  }

  /** A question's two contributions, read off its group: `iloc[0]` for the weight and `len` for the count. */
  lemma {:induction false} ShareOfGroup(part: seq<JudgedAnswer>, questionId: string, group: seq<JudgedAnswer>)
    requires group == QuestionGroup(part, questionId) && group != []
    ensures Supportive(part, questionId) == PositiveSum(group) / |group| as real * group[0].questionScore as real
    ensures Contradictory(part, questionId) == NegativeSum(group) / |group| as real * group[0].questionScore as real
  {
  }

  /** Summing over the sorted question ids gives the totals. */
  lemma {:induction false} SortedOrderSameTotals(part: seq<JudgedAnswer>, questionIds: seq<string>)
    requires questionIds == SortedKeys(JudgedQuestionIds(part))
    ensures SumOver(questionIds, SupportiveOf(part)) == SupportiveTotal(part)
    ensures SumOver(questionIds, ContradictoryOf(part)) == ContradictoryTotal(part)
  {
    StrictlySortedDistinct(questionIds);
    SumOverPermutation(questionIds, Distinct(JudgedQuestionIds(part)), SupportiveOf(part));
    SumOverPermutation(questionIds, Distinct(JudgedQuestionIds(part)), ContradictoryOf(part));
  }

  lemma {:induction false} AccumulateStep(ks: seq<string>, i: nat, f: string -> real, total: real, share: real)
    requires i < |ks| && total == SumOver(ks[..i], f) && share == f(ks[i])
    ensures total + share == SumOver(ks[..i + 1], f)
  {
    assert ks[..i + 1] == ks[..i] + [ks[i]];
    SumOverStep(ks[..i], ks[i], f);
  }

  lemma {:induction false} GroupNotEmpty(part: seq<JudgedAnswer>, questionId: string)
    requires questionId in JudgedQuestionIds(part)
    ensures QuestionGroup(part, questionId) != []
  {
    var i :| 0 <= i < |part| && JudgedQuestionIds(part)[i] == questionId;
    assert part[i] in QuestionGroup(part, questionId);
  }

  // ---------------------------------------------------------------------------
  // The per-topic table.

  /** A per-topic row holds its run's two scores in its topic. */
  ghost predicate ReportScored(rows: seq<JudgedAnswer>, answers: seq<AnswerRow>, s: ReportTopicScore)
  {
    var part := RunPart(rows, s.topicId, s.runTag);
    && ReportMaxScore(answers, s.topicId) > 0.0
    && s.value == ReportScore(SupportiveTotal(part) / ReportMaxScore(answers, s.topicId),
                              ContradictoryTotal(part) / ReportMaxScore(answers, s.topicId))
  }

  ghost predicate AllReportScored(rows: seq<JudgedAnswer>, answers: seq<AnswerRow>, table: seq<ReportTopicScore>)
  {
    forall a :: 0 <= a < |table| ==> ReportScored(rows, answers, table[a])
  }

  /**
   * The per-topic table of the merged rows: sorted by topic then run, one row
   * for each (topic, run) pair that has rows and no other, each holding that
   * run's supportive and contradictory scores in that topic.
   */
  ghost predicate ReportTopicTable(rows: seq<JudgedAnswer>, answers: seq<AnswerRow>, table: seq<ReportTopicScore>)
  {
    PairTable(Pairs(rows), table) && AllReportScored(rows, answers, table)
  }

  /**
   * The nested loops over the sorted topics and, within each, the sorted runs
   * of that topic. The rows must each carry the weight of a rubric answer, as
   * the merge guarantees, so every judged topic has a positive denominator.
   */
  method ScoreReportPerTopic(rows: seq<JudgedAnswer>, answers: seq<AnswerRow>) returns (table: seq<ReportTopicScore>)
    requires WeightedByAnswers(rows, answers)
    ensures ReportTopicTable(rows, answers, table)
  {
    var pairs := Pairs(rows);
    var topics := SortedKeys(TopicIds(pairs));
    table := [];
    for i := 0 to |topics|
      invariant PairSorted(table) && FromPairs(pairs, table) && AllReportScored(rows, answers, table)
      invariant Before(table, topics, i, [], 0)
      invariant TopicsListed(pairs, table, topics, i)
    {
      var topicId := topics[i];
      TopicHasAnswers(rows, answers, topicId);
      ReportMaxScorePositive(answers, topicId);
      var maxScore := ReportMaxScore(answers, topicId);
      var runs := SortedKeys(RunTags(pairs, topicId));
      InnerStart(pairs, table, topics, i, runs);
      for j := 0 to |runs|
        invariant PairSorted(table) && FromPairs(pairs, table) && AllReportScored(rows, answers, table)
        invariant Before(table, topics, i, runs, j)
        invariant TopicsListed(pairs, table, topics, i)
        invariant RunsListed(pairs, table, topicId, runs, j)
      {
        var runTag := runs[j];
        var supportive, contradictory := ReportTotals(RunPart(rows, topicId, runTag));
        var s := TopicRow(runTag, topicId, ReportScore(supportive / maxScore, contradictory / maxScore));
        InnerStep(pairs, table, topics, i, runs, j, s);
        ReportScoredAppend(rows, answers, table, s);
        table := table + [s];
      }
      TopicDone(pairs, table, topics, i, runs);
    }
    AllListed(pairs, table, topics);
  }

  lemma {:induction false} TopicHasAnswers(rows: seq<JudgedAnswer>, answers: seq<AnswerRow>, topicId: string)
    requires WeightedByAnswers(rows, answers)
    requires topicId in TopicIds(Pairs(rows))
    ensures TopicAnswers(answers, topicId) != []
  {
    var i :| 0 <= i < |rows| && TopicIds(Pairs(rows))[i] == topicId;
    assert WeightedAnswer(rows[i], answers);
    var k :| 0 <= k < |answers| && answers[k].topicId == rows[i].topicId && answers[k].questionId == rows[i].questionId
             && answers[k].answerId == rows[i].answerId && answers[k].questionScore == rows[i].questionScore;
    assert answers[k] in TopicAnswers(answers, topicId);
  }

  lemma {:induction false} ReportScoredAppend(rows: seq<JudgedAnswer>, answers: seq<AnswerRow>, table: seq<ReportTopicScore>, s: ReportTopicScore)
    requires AllReportScored(rows, answers, table) && ReportScored(rows, answers, s)
    ensures AllReportScored(rows, answers, table + [s])
  {
    var longer := table + [s];
    forall a | 0 <= a < |longer| ensures ReportScored(rows, answers, longer[a]) {
      if a < |table| {
        assert longer[a] == table[a];
      }
    }
  }

  /** Given consistent rubric answers, every per-topic row's two scores lie in [0, 1], and so does their sum. */
  lemma {:induction false} PerTopicReportWithinUnit(rows: seq<JudgedAnswer>, answers: seq<AnswerRow>, table: seq<ReportTopicScore>)
    requires ScoresInRange(rows) && WeightedByAnswers(rows, answers) && ConsistentAnswers(answers)
    requires ReportTopicTable(rows, answers, table)
    ensures forall a :: 0 <= a < |table| ==> ShareWithinUnit(table[a].value)
  {
    forall a | 0 <= a < |table| ensures ShareWithinUnit(table[a].value) {
      RowReportWithinUnit(rows, answers, table[a]);
    }
  }

  lemma {:induction false} RowReportWithinUnit(rows: seq<JudgedAnswer>, answers: seq<AnswerRow>, s: ReportTopicScore)
    requires ScoresInRange(rows) && WeightedByAnswers(rows, answers) && ConsistentAnswers(answers)
    requires PairOf(s) in Pairs(rows) && ReportScored(rows, answers, s)
    ensures ShareWithinUnit(s.value)
  {
    var k :| 0 <= k < |rows| && Pairs(rows)[k] == PairOf(s);
    assert TopicIds(Pairs(rows))[k] == s.topicId;
    TopicHasAnswers(rows, answers, s.topicId);
    TopicReportWithinUnit(rows, answers, s.topicId, s.runTag);
  }

  /** Both scores lie in [0, 1], and so does their sum. */
  predicate ShareWithinUnit(v: ReportScore)
  {
    0.0 <= v.supportive && 0.0 <= v.contradictory && v.supportive + v.contradictory <= 1.0
  }

  // ---------------------------------------------------------------------------
  // The per-run table and the whole scorer.

  function SupportiveColumn(v: ReportScore): real
  {
    v.supportive
  }

  function ContradictoryColumn(v: ReportScore): real
  {
    v.contradictory
  }

  /** The means of one run's two topic scores. */
  function RunMeans(table: seq<ReportTopicScore>, runTag: string): ReportRunScore
    requires runTag in TableRunTags(table)
  {
    ReportRunScore(runTag, Mean(RunColumn(table, runTag, SupportiveColumn)), Mean(RunColumn(table, runTag, ContradictoryColumn)))
  }

  function SupportiveScoreOf(s: ReportRunScore): real
  {
    s.supportiveScore
  }

  /**
   * The per-run table: for each distinct run of the per-topic table, the means
   * of its two topic scores, ordered by non-increasing supportive score.
   */
  function ReportRunTable(table: seq<ReportTopicScore>): (r: seq<ReportRunScore>)
    ensures NonIncreasing(r, SupportiveScoreOf)
    ensures |r| == |SortedKeys(TableRunTags(table))|
    ensures forall i :: 0 <= i < |r| ==> r[i].runTag in TableRunTags(table) && r[i] == RunMeans(table, r[i].runTag)
    ensures forall runTag :: runTag in TableRunTags(table) ==> exists i :: 0 <= i < |r| && r[i].runTag == runTag
  {
    var runs := SortedKeys(TableRunTags(table));
    var means := seq(|runs|, i requires 0 <= i < |runs| => RunMeans(table, runs[i]));
    var r := SortDescending(means, SupportiveScoreOf);
    PermutationMembers(r, means);
    RunMeansCover(table, runs, means, r);
    r
  }

  lemma {:induction false} RunMeansCover(table: seq<ReportTopicScore>, runs: seq<string>, means: seq<ReportRunScore>, r: seq<ReportRunScore>)
    requires forall y :: y in runs <==> y in TableRunTags(table)
    requires |means| == |runs| && forall i :: 0 <= i < |runs| ==> means[i] == RunMeans(table, runs[i])
    requires forall i :: 0 <= i < |r| ==> r[i] in means
    requires forall i :: 0 <= i < |means| ==> means[i] in r
    ensures forall i :: 0 <= i < |r| ==> r[i].runTag in TableRunTags(table) && r[i] == RunMeans(table, r[i].runTag)
    ensures forall runTag :: runTag in TableRunTags(table) ==> exists i :: 0 <= i < |r| && r[i].runTag == runTag
  {
    forall i | 0 <= i < |r| ensures r[i].runTag in TableRunTags(table) && r[i] == RunMeans(table, r[i].runTag) {
      var p :| 0 <= p < |means| && means[p] == r[i];
    }
    forall runTag | runTag in TableRunTags(table) ensures exists i :: 0 <= i < |r| && r[i].runTag == runTag {
      var p :| 0 <= p < |runs| && runs[p] == runTag;
      assert means[p] in r;
      var i :| 0 <= i < |r| && r[i] == means[p];
    }
  }

  /** Each run's two means lie in [0, 1] when every per-topic row's scores do. */
  lemma {:induction false} RunReportMeansWithinUnit(table: seq<ReportTopicScore>)
    requires forall a :: 0 <= a < |table| ==> ShareWithinUnit(table[a].value)
    ensures forall i :: 0 <= i < |ReportRunTable(table)| ==>
              && 0.0 <= ReportRunTable(table)[i].supportiveScore <= 1.0
              && 0.0 <= ReportRunTable(table)[i].contradictoryScore <= 1.0
  {
    var r := ReportRunTable(table);
    forall i | 0 <= i < |r| ensures 0.0 <= r[i].supportiveScore <= 1.0 && 0.0 <= r[i].contradictoryScore <= 1.0 {
      ColumnWithinUnit(table, r[i].runTag, SupportiveColumn);
      ColumnWithinUnit(table, r[i].runTag, ContradictoryColumn);
    }
  }

  lemma {:induction false} ColumnWithinUnit(table: seq<ReportTopicScore>, runTag: string, column: ReportScore -> real)
    requires forall a :: 0 <= a < |table| ==> 0.0 <= column(table[a].value) <= 1.0
    requires runTag in TableRunTags(table)
    ensures 0.0 <= Mean(RunColumn(table, runTag, column)) <= 1.0
  {
    var xs := RunColumn(table, runTag, column);
    forall p | 0 <= p < |xs| ensures 0.0 <= xs[p] <= 1.0 {
      RunValueOfRow(table, runTag, p);
    }
    MeanWithin(xs, 0.0, 1.0);
  }

  /** Every score of both tables lies in [0, 1]; per topic, so does the sum of the two. */
  ghost predicate ReportWithinUnit(scores: ReportScores)
  {
    && (forall a :: 0 <= a < |scores.perTopic| ==> ShareWithinUnit(scores.perTopic[a].value))
    && (forall i :: 0 <= i < |scores.perRun| ==>
          0.0 <= scores.perRun[i].supportiveScore <= 1.0 && 0.0 <= scores.perRun[i].contradictoryScore <= 1.0)
  }

  /**
   * `score_report_generation` without its file output: the merged rows, the
   * per-topic table and the per-run table. A judgment that does not resolve
   * stops scoring with its error; with consistent rubric answers every score
   * lies in [0, 1].
   */
  method ScoreReportGeneration(assessments: seq<ReportAssessment>, answers: seq<AnswerRow>)
    returns (r: Result<ReportScores, ReportError>)
    ensures assessments == [] ==> r == Failure(NoResults)
    ensures JoinReport(assessments, answers).Failure? ==> r == Failure(JoinReport(assessments, answers).error)
    ensures assessments != [] && JoinReport(assessments, answers).Success? ==>
              && r.Success?
              && ReportTopicTable(JoinReport(assessments, answers).value, answers, r.value.perTopic)
              && r.value.perRun == ReportRunTable(r.value.perTopic)
    ensures r.Success? && ConsistentAnswers(answers) ==> ReportWithinUnit(r.value)
  {
    var joined := JoinReport(assessments, answers);
    if joined.Failure? {
      return Failure(joined.error);
    }
    var rows := joined.value;
    var perTopic := ScoreReportPerTopic(rows, answers);
    JoinedEmpty(rows, assessments);
    PairTableEmpty(Pairs(rows), perTopic);
    if perTopic == [] {
      return Failure(NoResults);
    }
    var perRun := ReportRunTable(perTopic);
    if ConsistentAnswers(answers) {
      PerTopicReportWithinUnit(rows, answers, perTopic);
      RunReportMeansWithinUnit(perTopic);
    }
    r := Success(ReportScores(perTopic, perRun));
  }

  /** The merged rows are empty exactly when there is no judgment. */
  lemma {:induction false} JoinedEmpty(rows: seq<JudgedAnswer>, assessments: seq<ReportAssessment>)
    requires forall p :: p in Pairs(rows) <==> p in AssessedPairs(assessments)
    ensures Pairs(rows) == [] <==> assessments == []
  {
    if assessments != [] {
      assert AssessedPairs(assessments)[0] in AssessedPairs(assessments);
    }
    if rows != [] {
      assert Pairs(rows)[0] in Pairs(rows);
    }
  }
}
