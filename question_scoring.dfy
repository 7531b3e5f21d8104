/**
 * Question-generation scoring (`score_question_generation`): each run's
 * submitted questions are judged against the rubric questions of a topic;
 * a run earns, per rubric question, the best weighted similarity among its
 * submissions (compound submissions earn nothing), normalised by the weight
 * of the rubric questions judged in that topic, and averaged over topics.
 */
module QuestionScoring {
  import opened Results
  import opened Rubric
  import opened Order
  import opened Sums
  import opened Tables
  import opened Frames

  /** One judgment: a submitted question of a run against a rubric question. */
  datatype QuestionAssessment = QuestionAssessment(
    topicId: string, runTag: string, runQuestionRank: int, rubricQuestionRank: int, annotation: string)

  /** Whether a submitted question was found to be compound. */
  datatype CompoundCheck = CompoundCheck(topicId: string, runTag: string, runQuestionRank: int, compoundQuestion: bool)

  /** A judgment after both merges: its flag, its rubric weight and its weighted score. */
  datatype JudgedQuestion = JudgedQuestion(
    topicId: string, runTag: string, runQuestionRank: int, rubricQuestionRank: int,
    compoundQuestion: bool, score: real, questionScore: Weight)

  /** Why scoring cannot go on: a judgment that does not resolve. */
  datatype ScoreError =
    | UnknownAnnotation(topicId: string, runTag: string, annotation: string)
    | MissingCompoundCheck(topicId: string, runTag: string, runQuestionRank: int)
    | MissingRubricQuestion(topicId: string, rubricQuestionRank: int)
    | NoResults  // no judgment at all: the per-topic table is empty and grouping it by run fails

  /** A row of the per-topic table: a run's score in a topic. */
  type TopicScore = TopicRow<real>

  /** A row of the per-run table. */
  datatype RunScore = RunScore(runTag: string, score: real)

  /** The two output tables. */
  datatype QuestionScores = QuestionScores(perTopic: seq<TopicScore>, perRun: seq<RunScore>)

  // ---------------------------------------------------------------------------
  // Labels and the two merges.

  /**
   * The similarity label map: full credit, half credit, or none ("different"
   * and "very-different" alike); any other label has no score.
   */
  function SimilarityScore(annotation: string): (r: Option<real>)
    ensures r == Some(1.0) <==> annotation == "very-similar"
    ensures r == Some(0.5) <==> annotation == "similar"
    ensures r == Some(0.0) <==> annotation == "different" || annotation == "very-different"
    ensures r.Some? ==> 0.0 <= r.value <= 1.0
  {
    if annotation == "very-similar" then Some(1.0)
    else if annotation == "similar" then Some(0.5)
    else if annotation == "different" || annotation == "very-different" then Some(0.0)
    else None
  }

  /** The compound checks of the judgment's (topic, run, submitted question). */
  function MatchingCheck(a: QuestionAssessment): CompoundCheck -> bool
  {
    (c: CompoundCheck) => MatchesCheck(c, a)
  }

  predicate MatchesCheck(c: CompoundCheck, a: QuestionAssessment)
  {
    c.topicId == a.topicId && c.runTag == a.runTag && c.runQuestionRank == a.runQuestionRank
  }

  /**
   * What the first left merge pairs the judgment with: the flag of every
   * matching compound check, once per check, in table order. It is empty
   * exactly when no check matches.
   */
  function CompoundFlags(checks: seq<CompoundCheck>, a: QuestionAssessment): (r: seq<bool>)
    ensures |r| == |Filter(checks, MatchingCheck(a))|
    ensures forall k :: 0 <= k < |r| ==> r[k] == Filter(checks, MatchingCheck(a))[k].compoundQuestion
    ensures r == [] <==> forall i :: 0 <= i < |checks| ==> !MatchesCheck(checks[i], a)
    ensures forall f :: f in r ==> exists i :: 0 <= i < |checks| && MatchesCheck(checks[i], a) && checks[i].compoundQuestion == f
  {
    var matching := Filter(checks, MatchingCheck(a));
    FilterEmpty(checks, MatchingCheck(a));
    var r := seq(|matching|, k requires 0 <= k < |matching| => matching[k].compoundQuestion);
    forall f | f in r ensures exists i :: 0 <= i < |checks| && MatchesCheck(checks[i], a) && checks[i].compoundQuestion == f {
      var k :| 0 <= k < |r| && r[k] == f;
      assert matching[k] in checks && MatchingCheck(a)(matching[k]);
      var i :| 0 <= i < |checks| && checks[i] == matching[k];
    }
    r
  }

  /** The rubric rows of a (topic, rubric rank). */
  function RubricRowOf(topicId: string, rank: int): QuestionRow -> bool
  {
    (q: QuestionRow) => q.topicId == topicId && q.rubricQuestionRank == rank
  }

  /**
   * What the second left merge pairs a row with: the weight of every rubric
   * row of the (topic, rank), once per row, in table order. It is empty
   * exactly when the rubric has no such row.
   */
  function RubricWeights(rubric: seq<QuestionRow>, topicId: string, rank: int): (r: seq<Weight>)
    ensures |r| == |Filter(rubric, RubricRowOf(topicId, rank))|
    ensures forall k :: 0 <= k < |r| ==> r[k] == Filter(rubric, RubricRowOf(topicId, rank))[k].questionScore
    ensures r == [] <==> forall i :: 0 <= i < |rubric| ==> !(rubric[i].topicId == topicId && rubric[i].rubricQuestionRank == rank)
    ensures forall w :: w in r ==> exists i :: 0 <= i < |rubric| && rubric[i].topicId == topicId
                                              && rubric[i].rubricQuestionRank == rank && rubric[i].questionScore == w
  {
    var matching := Filter(rubric, RubricRowOf(topicId, rank));
    FilterEmpty(rubric, RubricRowOf(topicId, rank));
    var r := seq(|matching|, k requires 0 <= k < |matching| => matching[k].questionScore);
    forall w | w in r ensures exists i :: 0 <= i < |rubric| && rubric[i].topicId == topicId
                                        && rubric[i].rubricQuestionRank == rank && rubric[i].questionScore == w
    {
      var k :| 0 <= k < |r| && r[k] == w;
      assert matching[k] in rubric && RubricRowOf(topicId, rank)(matching[k]);
      var i :| 0 <= i < |rubric| && rubric[i] == matching[k];
    }
    r
  }

  /** Every matching compound check contributes its flag. */
  lemma {:induction false} CompoundFlagsCover(checks: seq<CompoundCheck>, a: QuestionAssessment, i: nat)
    requires i < |checks| && MatchesCheck(checks[i], a)
    ensures checks[i].compoundQuestion in CompoundFlags(checks, a)
  {
    var matching := Filter(checks, MatchingCheck(a));
    assert MatchingCheck(a)(checks[i]);
    var k :| 0 <= k < |matching| && matching[k] == checks[i];
    assert CompoundFlags(checks, a)[k] == checks[i].compoundQuestion;
  }

  /** Every rubric row of the (topic, rank) contributes its weight. */
  lemma {:induction false} RubricWeightsCover(rubric: seq<QuestionRow>, topicId: string, rank: int, i: nat)
    requires i < |rubric| && rubric[i].topicId == topicId && rubric[i].rubricQuestionRank == rank
    ensures rubric[i].questionScore in RubricWeights(rubric, topicId, rank)
  {
    var matching := Filter(rubric, RubricRowOf(topicId, rank));
    assert RubricRowOf(topicId, rank)(rubric[i]);
    var k :| 0 <= k < |matching| && matching[k] == rubric[i];
    assert RubricWeights(rubric, topicId, rank)[k] == rubric[i].questionScore;
  }

  /**
   * The row a judgment becomes for one compound flag and one rubric weight:
   * the raw score zeroed for a compound question and multiplied by the weight.
   */
  function MergedRow(a: QuestionAssessment, similarity: real, f: bool, w: Weight): JudgedQuestion
  {
    JudgedQuestion(a.topicId, a.runTag, a.runQuestionRank, a.rubricQuestionRank, f,
                   similarity * (if f then 0.0 else 1.0) * w as real, w)
  }

  /**
   * The rows a judgment becomes after both left merges: for each matching
   * compound flag in order, one row per matching rubric weight in order
   * (MergedRowAt places each pair).
   */
  function MergedRows(a: QuestionAssessment, similarity: real, flags: seq<bool>, weights: seq<Weight>): (r: seq<JudgedQuestion>)
    ensures |r| == |flags| * |weights|
    ensures forall row :: row in r ==> MergedFrom(row, a, similarity, flags, weights)
  {
    if flags == [] then
      assert 0 * |weights| == 0;
      []
    else
      var here := FlagRows(a, similarity, flags[0], flags, weights);
      var rest := MergedRows(a, similarity, flags[1..], weights);
      BlockCount(|flags|, |weights|);
      MergedFromTail(a, similarity, flags, weights, here, rest);
      here + rest
  }

  /** Flag `i` and weight `j` give row `i * |weights| + j` of the merge: every pair is there, in order. */
  lemma {:induction false} MergedRowAt(a: QuestionAssessment, similarity: real, flags: seq<bool>, weights: seq<Weight>, i: nat, j: nat)
    requires i < |flags| && j < |weights|
    ensures i * |weights| + j < |MergedRows(a, similarity, flags, weights)|
    ensures MergedRows(a, similarity, flags, weights)[i * |weights| + j] == MergedRow(a, similarity, flags[i], weights[j])
  {
    var w := |weights|;
    var here := FlagRows(a, similarity, flags[0], flags, weights);
    var rest := MergedRows(a, similarity, flags[1..], weights);
    assert MergedRows(a, similarity, flags, weights) == here + rest;
    if i == 0 {
      assert i * w + j == j;
    } else {
      MergedRowAt(a, similarity, flags[1..], weights, i - 1, j);
      Slot(i, w, j, |flags|);
      assert flags[1..][i - 1] == flags[i];
    }
  }

  /** The rows of one compound flag: one per matching rubric weight, in order. */
  function FlagRows(a: QuestionAssessment, similarity: real, f: bool, flags: seq<bool>, weights: seq<Weight>): (r: seq<JudgedQuestion>)
    requires f in flags
    ensures |r| == |weights|
    ensures forall j :: 0 <= j < |weights| ==> r[j] == MergedRow(a, similarity, f, weights[j])
    ensures forall row :: row in r ==> MergedFrom(row, a, similarity, flags, weights)
  {
    var r := seq(|weights|, j requires 0 <= j < |weights| => MergedRow(a, similarity, f, weights[j]));
    assert forall j :: 0 <= j < |r| ==> r[j].questionScore == weights[j];
    r
  }

  /** `n` blocks of `w` rows are one block followed by `n - 1` blocks. */
  lemma {:induction false} BlockCount(n: int, w: int)
    ensures n * w == w + (n - 1) * w
  {
  }

  /** Row `j` of block `i > 0` is row `j` of block `i - 1` after the first block. */
  lemma {:induction false} Slot(i: int, w: int, j: int, n: int)
    requires 0 < i < n && 0 <= j < w
    ensures i * w + j == w + ((i - 1) * w + j)
    ensures 0 <= (i - 1) * w + j < (n - 1) * w
  {
    assert (i - 1) * w + w == i * w;
    assert 0 <= (i - 1) * w;
    assert i * w <= (n - 1) * w;
  }

  /** The first flag's rows and the later flags' rows are all rows of the whole merge. */
  lemma {:induction false} MergedFromTail(a: QuestionAssessment, similarity: real, flags: seq<bool>, weights: seq<Weight>,
                                          here: seq<JudgedQuestion>, rest: seq<JudgedQuestion>)
    requires flags != []
    requires forall row :: row in here ==> MergedFrom(row, a, similarity, flags, weights)
    requires forall row :: row in rest ==> MergedFrom(row, a, similarity, flags[1..], weights)
    ensures forall row :: row in here + rest ==> MergedFrom(row, a, similarity, flags, weights)
  {
    forall row | row in here + rest ensures MergedFrom(row, a, similarity, flags, weights) {
      if row !in here {
        var i :| 0 <= i < |flags[1..]| && flags[1..][i] == row.compoundQuestion;
        assert flags[i + 1] == row.compoundQuestion;
      }
    }
  }

  /**
   * A row the merges of judgment `a` can produce: the judgment's keys, one of
   * the matching compound flags, one of the matching rubric weights, and the
   * score zeroed for a compound question and scaled by the weight.
   */
  predicate MergedFrom(row: JudgedQuestion, a: QuestionAssessment, similarity: real, flags: seq<bool>, weights: seq<Weight>)
  {
    && row.topicId == a.topicId && row.runTag == a.runTag
    && row.runQuestionRank == a.runQuestionRank && row.rubricQuestionRank == a.rubricQuestionRank
    && row.compoundQuestion in flags && row.questionScore in weights
    && row == MergedRow(a, similarity, row.compoundQuestion, row.questionScore)
  }

  /**
   * One judgment, merged, or why it does not resolve: an unknown label, then
   * no matching compound check, then no matching rubric row (each of which
   * pandas would carry on with as a missing value). A resolved judgment
   * becomes one row per matching (check, rubric row) pair.
   */
  function JudgeAssessment(a: QuestionAssessment, checks: seq<CompoundCheck>, rubric: seq<QuestionRow>)
    : (r: Result<seq<JudgedQuestion>, ScoreError>)
    ensures SimilarityScore(a.annotation).None? ==> r == Failure(UnknownAnnotation(a.topicId, a.runTag, a.annotation))
    ensures SimilarityScore(a.annotation).Some? && (forall i :: 0 <= i < |checks| ==> !MatchesCheck(checks[i], a))
            ==> r == Failure(MissingCompoundCheck(a.topicId, a.runTag, a.runQuestionRank))
    ensures r.Success? <==>
              && SimilarityScore(a.annotation).Some?
              && (exists i :: 0 <= i < |checks| && MatchesCheck(checks[i], a))
              && (exists i :: 0 <= i < |rubric| && rubric[i].topicId == a.topicId && rubric[i].rubricQuestionRank == a.rubricQuestionRank)
    ensures r.Success? ==>
              && |r.value| == |CompoundFlags(checks, a)| * |RubricWeights(rubric, a.topicId, a.rubricQuestionRank)|
              && r.value == MergedRows(a, SimilarityScore(a.annotation).value, CompoundFlags(checks, a),
                                       RubricWeights(rubric, a.topicId, a.rubricQuestionRank))
  {
    match SimilarityScore(a.annotation)
    case None => Failure(UnknownAnnotation(a.topicId, a.runTag, a.annotation))
    case Some(similarity) =>
      var flags := CompoundFlags(checks, a);
      var weights := RubricWeights(rubric, a.topicId, a.rubricQuestionRank);
      if flags == [] then Failure(MissingCompoundCheck(a.topicId, a.runTag, a.runQuestionRank))
      else if weights == [] then Failure(MissingRubricQuestion(a.topicId, a.rubricQuestionRank))
      else Success(MergedRows(a, similarity, flags, weights))
  }

  /** Each row's score lies between 0 and its weight. */
  ghost predicate WithinWeight(rows: seq<JudgedQuestion>)
  {
    forall i :: 0 <= i < |rows| ==> 0.0 <= rows[i].score <= rows[i].questionScore as real
  }

  /** Each row flagged compound has score 0. */
  ghost predicate CompoundEarnsNothing(rows: seq<JudgedQuestion>)
  {
    forall i :: 0 <= i < |rows| ==> rows[i].compoundQuestion ==> rows[i].score == 0.0
  }

  /** The row's weight is the weight of a rubric row for its (topic, rank). */
  ghost predicate WeightedRow(row: JudgedQuestion, rubric: seq<QuestionRow>)
  {
    exists k :: 0 <= k < |rubric| && rubric[k].topicId == row.topicId
                && rubric[k].rubricQuestionRank == row.rubricQuestionRank && rubric[k].questionScore == row.questionScore
  }

  /** Each row's weight comes from the rubric. */
  ghost predicate WeightedByRubric(rows: seq<JudgedQuestion>, rubric: seq<QuestionRow>)
  {
    forall i :: 0 <= i < |rows| ==> WeightedRow(rows[i], rubric)
  }

  /** Some row belongs to this (topic, run). */
  ghost predicate HasPair(rows: seq<JudgedQuestion>, topicId: string, runTag: string)
  {
    exists i :: 0 <= i < |rows| && rows[i].topicId == topicId && rows[i].runTag == runTag
  }

  /** Some judgment is of this (topic, run). */
  ghost predicate Assessed(assessments: seq<QuestionAssessment>, topicId: string, runTag: string)
  {
    exists j :: 0 <= j < |assessments| && assessments[j].topicId == topicId && assessments[j].runTag == runTag
  }

  /** Every row's (topic, run) is that of some judgment. */
  ghost predicate PairsFrom(rows: seq<JudgedQuestion>, assessments: seq<QuestionAssessment>)
  {
    forall i :: 0 <= i < |rows| ==> Assessed(assessments, rows[i].topicId, rows[i].runTag)
  }

  /** Every judgment's (topic, run) has a row. */
  ghost predicate PairsCovered(rows: seq<JudgedQuestion>, assessments: seq<QuestionAssessment>)
  {
    forall j :: 0 <= j < |assessments| ==> HasPair(rows, assessments[j].topicId, assessments[j].runTag)
  }

  /**
   * Both merges over the whole judgment table. They succeed exactly when
   * every judgment resolves, and then: every row stays within its weight, a
   * compound row scores 0, every weight comes from the rubric, and the
   * (topic, run) pairs of the rows are exactly those of the judgments.
   */
  function JoinQuestions(assessments: seq<QuestionAssessment>, checks: seq<CompoundCheck>, rubric: seq<QuestionRow>)
    : (r: Result<seq<JudgedQuestion>, ScoreError>)
    ensures r.Success? <==> forall i :: 0 <= i < |assessments| ==> JudgeAssessment(assessments[i], checks, rubric).Success?
    ensures r.Success? ==> WithinWeight(r.value) && CompoundEarnsNothing(r.value) && WeightedByRubric(r.value, rubric)
    ensures r.Success? ==> PairsFrom(r.value, assessments)
    ensures r.Success? ==> PairsCovered(r.value, assessments)
    ensures r.Success? ==> r.value == FlatMap(assessments, JudgedBlock(checks, rubric))
  {
    if assessments == [] then Success([])
    else
      var a := assessments[0];
      match JudgeAssessment(a, checks, rubric)
      case Failure(e) => Failure(e)
      case Success(here) =>
        match JoinQuestions(assessments[1..], checks, rubric)
        case Failure(e) => Failure(e)
        case Success(rest) =>
          JoinStep(a, assessments, checks, rubric, here, rest);
          Success(here + rest)
  }

  /**
   * The rows one judgment contributes to the merged table: its merged rows,
   * or none when it does not resolve (and then the join fails).
   */
  function JudgedBlock(checks: seq<CompoundCheck>, rubric: seq<QuestionRow>): QuestionAssessment -> seq<JudgedQuestion>
  {
    (a: QuestionAssessment) =>
      var judged := JudgeAssessment(a, checks, rubric);
      if judged.Success? then judged.value else []
  }

  lemma {:induction false} JoinStep(a: QuestionAssessment, assessments: seq<QuestionAssessment>, checks: seq<CompoundCheck>, rubric: seq<QuestionRow>,
                 here: seq<JudgedQuestion>, rest: seq<JudgedQuestion>)
    requires assessments != [] && a == assessments[0]
    requires JudgeAssessment(a, checks, rubric) == Success(here)
    requires WithinWeight(rest) && CompoundEarnsNothing(rest) && WeightedByRubric(rest, rubric)
    requires PairsFrom(rest, assessments[1..])
    requires PairsCovered(rest, assessments[1..])
    requires rest == FlatMap(assessments[1..], JudgedBlock(checks, rubric))
    ensures WithinWeight(here + rest) && CompoundEarnsNothing(here + rest) && WeightedByRubric(here + rest, rubric)
    ensures PairsFrom(here + rest, assessments)
    ensures PairsCovered(here + rest, assessments)
    ensures here + rest == FlatMap(assessments, JudgedBlock(checks, rubric))
  {
    JudgedRowsValid(a, checks, rubric, here);
    ValidAppend(here, rest, rubric);
    PairsAppend(assessments, here, rest);
  }

  /** The rows of one resolved judgment are valid and all carry its (topic, run). */
  lemma {:induction false} JudgedRowsValid(a: QuestionAssessment, checks: seq<CompoundCheck>, rubric: seq<QuestionRow>, here: seq<JudgedQuestion>)
    requires JudgeAssessment(a, checks, rubric) == Success(here)
    ensures here != []
    ensures WithinWeight(here) && CompoundEarnsNothing(here) && WeightedByRubric(here, rubric)
    ensures forall i :: 0 <= i < |here| ==> here[i].topicId == a.topicId && here[i].runTag == a.runTag
  {
    var similarity := SimilarityScore(a.annotation).value;
    var flags := CompoundFlags(checks, a);
    var weights := RubricWeights(rubric, a.topicId, a.rubricQuestionRank);
    assert flags != [] && weights != [] && here == MergedRows(a, similarity, flags, weights);
    MergedRowAt(a, similarity, flags, weights, 0, 0);
    MergedRowsValid(a, similarity, flags, weights, rubric, here);
  }

  /** The merged rows of a judgment with a known label are valid and carry its (topic, run). */
  lemma {:induction false} MergedRowsValid(a: QuestionAssessment, similarity: real, flags: seq<bool>, weights: seq<Weight>,
                                           rubric: seq<QuestionRow>, rows: seq<JudgedQuestion>)
    requires 0.0 <= similarity <= 1.0
    requires weights == RubricWeights(rubric, a.topicId, a.rubricQuestionRank)
    requires rows == MergedRows(a, similarity, flags, weights)
    ensures WithinWeight(rows) && CompoundEarnsNothing(rows) && WeightedByRubric(rows, rubric)
    ensures forall i :: 0 <= i < |rows| ==> rows[i].topicId == a.topicId && rows[i].runTag == a.runTag
  {
    forall i | 0 <= i < |rows|
      ensures 0.0 <= rows[i].score <= rows[i].questionScore as real
      ensures rows[i].compoundQuestion ==> rows[i].score == 0.0
      ensures WeightedRow(rows[i], rubric)
      ensures rows[i].topicId == a.topicId && rows[i].runTag == a.runTag
    {
      assert rows[i] in rows;
      var row := rows[i];
      assert MergedFrom(row, a, similarity, flags, weights);
      RubricWeighted(rubric, a.topicId, a.rubricQuestionRank, row);
      MergedRowWithin(a, similarity, row.compoundQuestion, row.questionScore);
    }
  }

  /** A row whose weight is one of the (topic, rank)'s rubric weights is weighted by the rubric. */
  lemma {:induction false} RubricWeighted(rubric: seq<QuestionRow>, topicId: string, rank: int, row: JudgedQuestion)
    requires row.topicId == topicId && row.rubricQuestionRank == rank
    requires row.questionScore in RubricWeights(rubric, topicId, rank)
    ensures WeightedRow(row, rubric)
  {
    var i :| 0 <= i < |rubric| && rubric[i].topicId == topicId && rubric[i].rubricQuestionRank == rank
             && rubric[i].questionScore == row.questionScore;
  }

  /** With a similarity in [0, 1], a merged row scores between 0 and its weight, and 0 when compound. */
  lemma {:induction false} MergedRowWithin(a: QuestionAssessment, similarity: real, f: bool, w: Weight)
    requires 0.0 <= similarity <= 1.0
    ensures 0.0 <= MergedRow(a, similarity, f, w).score <= w as real
    ensures f ==> MergedRow(a, similarity, f, w).score == 0.0
  {
    if !f {
      assert similarity * 1.0 * w as real == similarity * w as real;
      assert similarity * w as real <= 1.0 * w as real;
    }
  }

  lemma {:induction false} ValidAppend(x: seq<JudgedQuestion>, y: seq<JudgedQuestion>, rubric: seq<QuestionRow>)
    requires WithinWeight(x) && CompoundEarnsNothing(x) && WeightedByRubric(x, rubric)
    requires WithinWeight(y) && CompoundEarnsNothing(y) && WeightedByRubric(y, rubric)
    ensures WithinWeight(x + y) && CompoundEarnsNothing(x + y) && WeightedByRubric(x + y, rubric)
  {
    forall i | |x| <= i < |x + y| ensures (x + y)[i] == y[i - |x|] { }
  }

  lemma {:induction false} PairsAppend(assessments: seq<QuestionAssessment>, here: seq<JudgedQuestion>, rest: seq<JudgedQuestion>)
    requires assessments != [] && here != []
    requires forall i :: 0 <= i < |here| ==> here[i].topicId == assessments[0].topicId && here[i].runTag == assessments[0].runTag
    requires PairsFrom(rest, assessments[1..])
    requires PairsCovered(rest, assessments[1..])
    ensures PairsFrom(here + rest, assessments)
    ensures PairsCovered(here + rest, assessments)
  {
    var rows := here + rest;
    forall i | 0 <= i < |rows|
      ensures Assessed(assessments, rows[i].topicId, rows[i].runTag)
    {
      var row := rows[i];
      if i < |here| {
        assert row == here[i];
        assert assessments[0].topicId == row.topicId && assessments[0].runTag == row.runTag;
      } else {
        assert row == rest[i - |here|];
        assert Assessed(assessments[1..], row.topicId, row.runTag);
        var j :| 0 <= j < |assessments[1..]| && assessments[1..][j].topicId == row.topicId && assessments[1..][j].runTag == row.runTag;
        assert assessments[j + 1] == assessments[1..][j];
      }
    }
    forall j | 0 <= j < |assessments|
      ensures HasPair(rows, assessments[j].topicId, assessments[j].runTag)
    {
      if j == 0 {
        assert rows[0] == here[0];
      } else {
        assert assessments[j] == assessments[1..][j - 1];
        var i :| 0 <= i < |rest| && rest[i].topicId == assessments[j].topicId && rest[i].runTag == assessments[j].runTag;
        assert rows[|here| + i] == rest[i];
      }
    }
  }

  /**
   * A compound submission earns nothing, whatever its similarity label: every
   * merged row flagged compound has weighted score 0.
   */
  lemma {:induction false} CompoundQuestionScoresZero(assessments: seq<QuestionAssessment>, checks: seq<CompoundCheck>, rubric: seq<QuestionRow>, i: nat)
    requires JoinQuestions(assessments, checks, rubric).Success?
    requires i < |JoinQuestions(assessments, checks, rubric).value|
    requires JoinQuestions(assessments, checks, rubric).value[i].compoundQuestion
    ensures JoinQuestions(assessments, checks, rubric).value[i].score == 0.0
  {
  }

  // ---------------------------------------------------------------------------
  // Per-topic, per-run scores.

  /** Selects the rows of one topic. */
  function InTopic(topicId: string): JudgedQuestion -> bool
  {
    (row: JudgedQuestion) => row.topicId == topicId
  }

  /** Selects the rows of one run. */
  function ByRun(runTag: string): JudgedQuestion -> bool
  {
    (row: JudgedQuestion) => row.runTag == runTag
  }

  /** The rows of one topic, in table order (`assessments[assessments["topic_id"] == topic_id]`). */
  function TopicRows(rows: seq<JudgedQuestion>, topicId: string): (r: seq<JudgedQuestion>)
    ensures forall row :: row in r <==> row in rows && row.topicId == topicId
    ensures forall row :: Occurrences(r, row) == if row.topicId == topicId then Occurrences(rows, row) else 0
  {
    FilterCounts(rows, InTopic(topicId));
    Filter(rows, InTopic(topicId))
  }

  /** The rows of one run, in table order (`topic[topic["run_tag"] == run_tag]`). */
  function RunRows(rows: seq<JudgedQuestion>, runTag: string): (r: seq<JudgedQuestion>)
    ensures forall row :: row in r <==> row in rows && row.runTag == runTag
    ensures forall row :: Occurrences(r, row) == if row.runTag == runTag then Occurrences(rows, row) else 0
  {
    FilterCounts(rows, ByRun(runTag));
    Filter(rows, ByRun(runTag))
  }

  /** The rubric ranks of the rows, in table order. */
  function Ranks(rows: seq<JudgedQuestion>): seq<int>
  {
    seq(|rows|, i requires 0 <= i < |rows| => rows[i].rubricQuestionRank)
  }

  /**
   * The weight of the first row with this rank, as kept by
   * `drop_duplicates(subset=["rubric_question_rank"])`; 0 when there is none.
   */
  function FirstWeight(rows: seq<JudgedQuestion>, rank: int): (r: real)
    ensures rank !in Ranks(rows) ==> r == 0.0
    ensures rank in Ranks(rows) ==>
              exists i :: 0 <= i < |rows| && rows[i].rubricQuestionRank == rank && r == rows[i].questionScore as real
                          && forall j :: 0 <= j < i ==> rows[j].rubricQuestionRank != rank
  {
    if rows == [] then 0.0
    else if rows[0].rubricQuestionRank == rank then
      assert Ranks(rows)[0] == rank;
      rows[0].questionScore as real
    else
      var r := FirstWeight(rows[1..], rank);
      assert forall j :: 1 <= j < |rows| ==> rows[j] == rows[1..][j - 1];
      assert rank in Ranks(rows) ==> rank in Ranks(rows[1..]) by {
        if rank in Ranks(rows) {
          var i :| 0 <= i < |rows| && Ranks(rows)[i] == rank;
          assert Ranks(rows[1..])[i - 1] == rank;
        }
      }
      assert rank in Ranks(rows[1..]) ==> rank in Ranks(rows) by {
        if rank in Ranks(rows[1..]) {
          var i :| 0 <= i < |rows[1..]| && Ranks(rows[1..])[i] == rank;
          assert Ranks(rows)[i + 1] == rank;
        }
      }
      r
  }

  function RankWeight(rows: seq<JudgedQuestion>): int -> real
  {
    k => FirstWeight(rows, k)
  }

  /**
   * The topic's denominator: the weights of the distinct rubric ranks among
   * the topic's rows, each counted once. It depends on the topic's rows only,
   * so every run of the topic is divided by the same value.
   */
  function MaxScore(topicRows: seq<JudgedQuestion>): real
  {
    SumOver(Distinct(Ranks(topicRows)), RankWeight(topicRows))
  }

  function Max(a: real, b: real): real
  {
    if a < b then b else a
  }

  /**
   * `groupby("rubric_question_rank")["score"].max()` for one rank: the best
   * score among the rows with that rank, which is one of theirs.
   */
  function BestScore(rows: seq<JudgedQuestion>, rank: int): (r: real)
    ensures forall i :: 0 <= i < |rows| && rows[i].rubricQuestionRank == rank ==> rows[i].score <= r
    ensures rank in Ranks(rows) ==> exists i :: 0 <= i < |rows| && rows[i].rubricQuestionRank == rank && rows[i].score == r
  {
    if rows == [] then 0.0
    else
      var rest := BestScore(rows[1..], rank);
      assert forall j :: 1 <= j < |rows| ==> rows[j] == rows[1..][j - 1];
      assert rank in Ranks(rows[1..]) <==> exists j :: 1 <= j < |rows| && rows[j].rubricQuestionRank == rank by {
        if rank in Ranks(rows[1..]) {
          var i :| 0 <= i < |rows[1..]| && Ranks(rows[1..])[i] == rank;
          assert rows[i + 1].rubricQuestionRank == rank;
        }
        if exists j :: 1 <= j < |rows| && rows[j].rubricQuestionRank == rank {
          var j :| 1 <= j < |rows| && rows[j].rubricQuestionRank == rank;
          assert Ranks(rows[1..])[j - 1] == rank;
        }
      }
      if rows[0].rubricQuestionRank != rank then rest
      else if rank in Ranks(rows[1..]) then Max(rows[0].score, rest)
      else rows[0].score
  }

  function BestOf(part: seq<JudgedQuestion>): int -> real
  {
    k => BestScore(part, k)
  }

  /** The numerator of a run in a topic: the best score per judged rubric rank, summed. */
  function RunTotal(topicRows: seq<JudgedQuestion>, runTag: string): real
  {
    var part := RunRows(topicRows, runTag);
    SumOver(Distinct(Ranks(part)), BestOf(part))
  }

  /** The score of a run in a topic. */
  function TopicRunScore(topicRows: seq<JudgedQuestion>, runTag: string): real
    requires MaxScore(topicRows) > 0.0
  {
    RunTotal(topicRows, runTag) / MaxScore(topicRows)
  }

  /** A topic with a row has a denominator of at least 1: no division by zero. */
  lemma {:induction false} MaxScorePositive(topicRows: seq<JudgedQuestion>)
    requires topicRows != []
    ensures MaxScore(topicRows) >= 1.0
  {
    var ranks := Distinct(Ranks(topicRows));
    var f := RankWeight(topicRows);
    assert Ranks(topicRows)[0] in ranks;
    assert ranks != [];
    assert ranks[0] in Ranks(topicRows);
    forall k | k in ranks[1..] ensures f(k) >= 0.0 { }
    SumOverNonNegative(ranks[1..], f);
  }

  /** Rows that agree on rank and weight, row by row, have the same denominator, whatever their scores and runs. */
  lemma {:induction false} MaxScoreOnlyWeights(t: seq<JudgedQuestion>, u: seq<JudgedQuestion>)
    requires |t| == |u|
    requires forall i :: 0 <= i < |t| ==> t[i].rubricQuestionRank == u[i].rubricQuestionRank && t[i].questionScore == u[i].questionScore
    ensures MaxScore(t) == MaxScore(u)
  {
    assert Ranks(t) == Ranks(u);
    forall k | k in Distinct(Ranks(t)) ensures RankWeight(t)(k) == RankWeight(u)(k) {
      FirstWeightSame(t, u, k);
    }
    SumOverSame(Distinct(Ranks(t)), RankWeight(t), RankWeight(u));
  }

  lemma {:induction false} FirstWeightSame(t: seq<JudgedQuestion>, u: seq<JudgedQuestion>, k: int)
    requires |t| == |u|
    requires forall i :: 0 <= i < |t| ==> t[i].rubricQuestionRank == u[i].rubricQuestionRank && t[i].questionScore == u[i].questionScore
    ensures FirstWeight(t, k) == FirstWeight(u, k)
  {
    if t != [] && t[0].rubricQuestionRank != k {
      FirstWeightSame(t[1..], u[1..], k);
    }
  }

  /** The weights agree per rank: every row with the same rubric rank has the same weight. */
  ghost predicate WeightsAgree(rows: seq<JudgedQuestion>)
  {
    forall i, j :: 0 <= i < |rows| && 0 <= j < |rows| && rows[i].rubricQuestionRank == rows[j].rubricQuestionRank
                   ==> rows[i].questionScore == rows[j].questionScore
  }

  /**
   * When every row stays within its weight and the weights agree per rank, a
   * run's topic score lies in [0, 1].
   */
  lemma {:induction false} TopicRunScoreWithinUnit(topicRows: seq<JudgedQuestion>, runTag: string)
    requires topicRows != []
    requires WithinWeight(topicRows) && WeightsAgree(topicRows)
    ensures MaxScore(topicRows) > 0.0
    ensures 0.0 <= TopicRunScore(topicRows, runTag) <= 1.0
  {
    MaxScorePositive(topicRows);
    RunTotalWithinMax(topicRows, runTag);
    RatioWithinUnit(RunTotal(topicRows, runTag), MaxScore(topicRows));
  }

  /** The numerator of a run never exceeds the denominator, and is not negative. */
  lemma {:induction false} RunTotalWithinMax(topicRows: seq<JudgedQuestion>, runTag: string)
    requires WithinWeight(topicRows) && WeightsAgree(topicRows)
    ensures 0.0 <= RunTotal(topicRows, runTag) <= MaxScore(topicRows)
  {
    var part := RunRows(topicRows, runTag);
    var judged := Distinct(Ranks(part));
    var all := Distinct(Ranks(topicRows));
    forall k | k in judged ensures 0.0 <= BestOf(part)(k) <= RankWeight(topicRows)(k) && k in all {
      BestWithinFirstWeight(topicRows, part, k);
    }
    SumOverBelow(judged, BestOf(part), RankWeight(topicRows));
    SumOverNonNegative(judged, BestOf(part));
    SumOverSubset(judged, all, RankWeight(topicRows));
  }

  lemma {:induction false} BestWithinFirstWeight(topicRows: seq<JudgedQuestion>, part: seq<JudgedQuestion>, k: int)
    requires WithinWeight(topicRows) && WeightsAgree(topicRows)
    requires forall row :: row in part ==> row in topicRows
    requires k in Distinct(Ranks(part))
    ensures 0.0 <= BestScore(part, k) <= FirstWeight(topicRows, k)
    ensures k in Distinct(Ranks(topicRows))
  {
    assert k in Ranks(part);
    var i :| 0 <= i < |part| && part[i].rubricQuestionRank == k && part[i].score == BestScore(part, k);
    assert part[i] in topicRows;
    var p :| 0 <= p < |topicRows| && topicRows[p] == part[i];
    assert Ranks(topicRows)[p] == k;
    var q :| 0 <= q < |topicRows| && topicRows[q].rubricQuestionRank == k && FirstWeight(topicRows, k) == topicRows[q].questionScore as real;
    assert topicRows[p].questionScore == topicRows[q].questionScore;
  }

  /**
   * Adding a submission that is no better than the run's best for an already
   * judged rubric rank changes nothing: neither the topic's denominator nor
   * any run's numerator (only the maximum per rubric question counts, not the
   * sum, and the weight of a rank is that of its first row).
   */
  lemma {:induction false} WeakerSubmissionKeepsScores(topicRows: seq<JudgedQuestion>, x: JudgedQuestion)
    requires x.rubricQuestionRank in Ranks(RunRows(topicRows, x.runTag))
    requires x.score <= BestScore(RunRows(topicRows, x.runTag), x.rubricQuestionRank)
    ensures MaxScore(topicRows + [x]) == MaxScore(topicRows)
    ensures forall runTag :: RunTotal(topicRows + [x], runTag) == RunTotal(topicRows, runTag)
  {
    RunRanksInTopic(topicRows, x.runTag, x.rubricQuestionRank);
    MaxScoreIgnoresRepeatedRank(topicRows, x);
    forall runTag ensures RunTotal(topicRows + [x], runTag) == RunTotal(topicRows, runTag) {
      RunTotalAppend(topicRows, x, runTag);
    }
  }

  lemma {:induction false} RunRanksInTopic(topicRows: seq<JudgedQuestion>, runTag: string, k: int)
    requires k in Ranks(RunRows(topicRows, runTag))
    ensures k in Ranks(topicRows)
  {
    var part := RunRows(topicRows, runTag);
    var i :| 0 <= i < |part| && Ranks(part)[i] == k;
    assert part[i] in topicRows;
    var p :| 0 <= p < |topicRows| && topicRows[p] == part[i];
    assert Ranks(topicRows)[p] == k;
  }

  lemma {:induction false} RunTotalAppend(topicRows: seq<JudgedQuestion>, x: JudgedQuestion, runTag: string)
    requires x.rubricQuestionRank in Ranks(RunRows(topicRows, x.runTag))
    requires x.score <= BestScore(RunRows(topicRows, x.runTag), x.rubricQuestionRank)
    ensures RunTotal(topicRows + [x], runTag) == RunTotal(topicRows, runTag)
  {
    RunRowsAppend(topicRows, x, runTag);
    var part := RunRows(topicRows, runTag);
    if runTag == x.runTag {
      RunTotalKeepsBest(part, x);
    } else {
      assert part + [] == part;
    }
  }

  lemma {:induction false} MaxScoreIgnoresRepeatedRank(topicRows: seq<JudgedQuestion>, x: JudgedQuestion)
    requires x.rubricQuestionRank in Ranks(topicRows)
    ensures MaxScore(topicRows + [x]) == MaxScore(topicRows)
  {
    assert Ranks(topicRows + [x]) == Ranks(topicRows) + [x.rubricQuestionRank];
    DistinctOfRepeat(Ranks(topicRows), x.rubricQuestionRank);
    var ranks := Distinct(Ranks(topicRows));
    forall k | k in ranks ensures RankWeight(topicRows + [x])(k) == RankWeight(topicRows)(k) {
      FirstWeightAppend(topicRows, x, k);
    }
    SumOverSame(ranks, RankWeight(topicRows + [x]), RankWeight(topicRows));
  }

  lemma {:induction false} FirstWeightAppend(rows: seq<JudgedQuestion>, x: JudgedQuestion, k: int)
    requires k in Ranks(rows)
    ensures FirstWeight(rows + [x], k) == FirstWeight(rows, k)
  {
    if rows[0].rubricQuestionRank != k {
      assert (rows + [x])[1..] == rows[1..] + [x];
      var i :| 0 <= i < |rows| && Ranks(rows)[i] == k;
      assert Ranks(rows[1..])[i - 1] == k;
      FirstWeightAppend(rows[1..], x, k);
    }
  }

  lemma {:induction false} RunRowsAppend(rows: seq<JudgedQuestion>, x: JudgedQuestion, runTag: string)
    ensures RunRows(rows + [x], runTag) == RunRows(rows, runTag) + (if x.runTag == runTag then [x] else [])
  {
    FilterAppend(rows, [x], ByRun(runTag));
    assert [x][1..] == [];
    assert Filter([x], ByRun(runTag)) == (if ByRun(runTag)(x) then [x] else []) + Filter([], ByRun(runTag));
  }

  lemma {:induction false} RunTotalKeepsBest(part: seq<JudgedQuestion>, x: JudgedQuestion)
    requires x.rubricQuestionRank in Ranks(part)
    requires x.score <= BestScore(part, x.rubricQuestionRank)
    ensures SumOver(Distinct(Ranks(part + [x])), BestOf(part + [x])) == SumOver(Distinct(Ranks(part)), BestOf(part))
  {
    assert Ranks(part + [x]) == Ranks(part) + [x.rubricQuestionRank];
    DistinctOfRepeat(Ranks(part), x.rubricQuestionRank);
    var ranks := Distinct(Ranks(part));
    forall k | k in ranks ensures BestOf(part + [x])(k) == BestOf(part)(k) {
      BestScoreUnchanged(part, x, k);
    }
    SumOverSame(ranks, BestOf(part + [x]), BestOf(part));
  }

  lemma {:induction false} BestScoreUnchanged(part: seq<JudgedQuestion>, x: JudgedQuestion, k: int)
    requires k in Ranks(part)
    requires x.rubricQuestionRank == k ==> x.score <= BestScore(part, k)
    ensures BestScore(part + [x], k) == BestScore(part, k)
  {
    var longer := part + [x];
    var i :| 0 <= i < |part| && part[i].rubricQuestionRank == k && part[i].score == BestScore(part, k);
    assert longer[i] == part[i];
    assert Ranks(longer)[i] == k;
    var j :| 0 <= j < |longer| && longer[j].rubricQuestionRank == k && longer[j].score == BestScore(longer, k);
    if j < |part| {
      assert longer[j] == part[j];
    }
  }

  /** When every submission of a run is compound, the run scores 0 in that topic. */
  lemma {:induction false} AllCompoundRunScoresZero(topicRows: seq<JudgedQuestion>, runTag: string)
    requires CompoundEarnsNothing(topicRows)
    requires forall row :: row in RunRows(topicRows, runTag) ==> row.compoundQuestion
    ensures RunTotal(topicRows, runTag) == 0.0
    ensures MaxScore(topicRows) > 0.0 ==> TopicRunScore(topicRows, runTag) == 0.0
  {
    var part := RunRows(topicRows, runTag);
    assert forall row :: row in part ==> row in topicRows && row.compoundQuestion;
    CompoundPartZero(topicRows, part);
    if MaxScore(topicRows) > 0.0 {
      ZeroShare(RunTotal(topicRows, runTag), MaxScore(topicRows));
    }
  }

  lemma {:induction false} ZeroShare(part: real, whole: real)
    requires part == 0.0 && whole > 0.0
    ensures part / whole == 0.0
  {
  }

  /** Summed over its ranks, a part holding only compound rows scores 0. */
  lemma {:induction false} CompoundPartZero(topicRows: seq<JudgedQuestion>, part: seq<JudgedQuestion>)
    requires CompoundEarnsNothing(topicRows)
    requires forall row :: row in part ==> row in topicRows && row.compoundQuestion
    ensures SumOver(Distinct(Ranks(part)), BestOf(part)) == 0.0
  {
    var ranks := Distinct(Ranks(part));
    forall k | k in ranks ensures BestOf(part)(k) == Zero(k) {
      CompoundBestIsZero(topicRows, part, k);
    }
    SumOverSame(ranks, BestOf(part), Zero);
    SumOverZero(ranks);
  }

  lemma {:induction false} CompoundBestIsZero(topicRows: seq<JudgedQuestion>, part: seq<JudgedQuestion>, k: int)
    requires CompoundEarnsNothing(topicRows)
    requires forall row :: row in part ==> row in topicRows && row.compoundQuestion
    requires k in Distinct(Ranks(part))
    ensures BestScore(part, k) == 0.0
  {
    assert k in Ranks(part);
    var i :| 0 <= i < |part| && part[i].rubricQuestionRank == k && part[i].score == BestScore(part, k);
    assert part[i] in topicRows;
    var p :| 0 <= p < |topicRows| && topicRows[p] == part[i];
  }

  function Zero(k: int): real
  {
    0.0
  }

  lemma {:induction false} SumOverZero(ks: seq<int>)
    ensures SumOver(ks, Zero) == 0.0
  {
    if ks != [] {
      SumOverZero(ks[1..]);
    }
  }

  /** Within a topic, all rows of a rubric rank carry the same weight. */
  ghost predicate ConsistentRubric(rubric: seq<QuestionRow>)
  {
    forall i, j :: 0 <= i < |rubric| && 0 <= j < |rubric|
                   && rubric[i].topicId == rubric[j].topicId && rubric[i].rubricQuestionRank == rubric[j].rubricQuestionRank
                   ==> rubric[i].questionScore == rubric[j].questionScore
  }

  /** Rows weighted by a consistent rubric agree on their weights within each topic, and stay within them. */
  lemma {:induction false} TopicRowsValid(rows: seq<JudgedQuestion>, rubric: seq<QuestionRow>, topicId: string)
    requires ConsistentRubric(rubric) && WeightedByRubric(rows, rubric) && WithinWeight(rows)
    ensures WeightsAgree(TopicRows(rows, topicId)) && WithinWeight(TopicRows(rows, topicId))
  {
    var t := TopicRows(rows, topicId);
    forall i, j | 0 <= i < |t| && 0 <= j < |t| && t[i].rubricQuestionRank == t[j].rubricQuestionRank
      ensures t[i].questionScore == t[j].questionScore
    {
      assert t[i] in rows && t[j] in rows;
      var a :| 0 <= a < |rows| && rows[a] == t[i];
      var b :| 0 <= b < |rows| && rows[b] == t[j];
      assert WeightedRow(rows[a], rubric) && WeightedRow(rows[b], rubric);
    }
    forall i | 0 <= i < |t| ensures 0.0 <= t[i].score <= t[i].questionScore as real {
      assert t[i] in rows;
    }
  }

  // ---------------------------------------------------------------------------
  // The per-topic table.

  /** The (topic, run) pairs of the rows, in table order. */
  function Pairs(rows: seq<JudgedQuestion>): seq<Pair>
  {
    seq(|rows|, i requires 0 <= i < |rows| => Pair(rows[i].topicId, rows[i].runTag))
  }

  /** A per-topic row holds its run's score in its topic. */
  ghost predicate ScoredPair(rows: seq<JudgedQuestion>, s: TopicScore)
  {
    && MaxScore(TopicRows(rows, s.topicId)) > 0.0
    && s.value == TopicRunScore(TopicRows(rows, s.topicId), s.runTag)
  }

  ghost predicate AllScored(rows: seq<JudgedQuestion>, table: seq<TopicScore>)
  {
    forall a :: 0 <= a < |table| ==> ScoredPair(rows, table[a])
  }

  /**
   * The per-topic table of the merged rows: sorted by topic then run, one row
   * for each (topic, run) pair that has rows and no other, each holding that
   * run's score in that topic.
   */
  ghost predicate QuestionTopicTable(rows: seq<JudgedQuestion>, table: seq<TopicScore>)
  {
    PairTable(Pairs(rows), table) && AllScored(rows, table)
  }

  /**
   * The nested loops over the sorted topics and, within each, the sorted runs
   * of that topic, appending one scored row per pair. The denominator is
   * computed once per topic.
   */
  method ScorePerTopic(rows: seq<JudgedQuestion>) returns (table: seq<TopicScore>)
    ensures QuestionTopicTable(rows, table)
  {
    var pairs := Pairs(rows);
    var topics := SortedKeys(TopicIds(pairs));
    table := [];
    for i := 0 to |topics|
      invariant PairSorted(table) && FromPairs(pairs, table) && AllScored(rows, table)
      invariant Before(table, topics, i, [], 0)
      invariant TopicsListed(pairs, table, topics, i)
    {
      var topicId := topics[i];
      var topicRows := TopicRows(rows, topicId);
      TopicHasRows(rows, topicId);
      MaxScorePositive(topicRows);
      var maxScore := MaxScore(topicRows);
      var runs := SortedKeys(RunTags(pairs, topicId));
      InnerStart(pairs, table, topics, i, runs);
      for j := 0 to |runs|
        invariant PairSorted(table) && FromPairs(pairs, table) && AllScored(rows, table)
        invariant Before(table, topics, i, runs, j)
        invariant TopicsListed(pairs, table, topics, i)
        invariant RunsListed(pairs, table, topicId, runs, j)
      {
        var runTag := runs[j];
        var s := TopicRow(runTag, topicId, RunTotal(topicRows, runTag) / maxScore);
        InnerStep(pairs, table, topics, i, runs, j, s);
        ScoredAppend(rows, table, s);
        table := table + [s];
      }
      TopicDone(pairs, table, topics, i, runs);
    }
    AllListed(pairs, table, topics);
  }

  lemma {:induction false} TopicHasRows(rows: seq<JudgedQuestion>, topicId: string)
    requires topicId in TopicIds(Pairs(rows))
    ensures TopicRows(rows, topicId) != []
  {
    var i :| 0 <= i < |rows| && TopicIds(Pairs(rows))[i] == topicId;
    assert rows[i] in TopicRows(rows, topicId);
  }

  lemma {:induction false} ScoredAppend(rows: seq<JudgedQuestion>, table: seq<TopicScore>, s: TopicScore)
    requires AllScored(rows, table) && ScoredPair(rows, s)
    ensures AllScored(rows, table + [s])
  {
    var longer := table + [s];
    forall a | 0 <= a < |longer| ensures ScoredPair(rows, longer[a]) {
      if a < |table| {
        assert longer[a] == table[a];
      }
    }
  }

  // ---------------------------------------------------------------------------
  // The per-run table and the whole scorer.

  /** The mean of one run's topic scores. */
  function RunMean(table: seq<TopicScore>, runTag: string): RunScore
    requires runTag in TableRunTags(table)
  {
    RunScore(runTag, Mean(RunValues(table, runTag)))
  }

  function RunScoreOf(s: RunScore): real
  {
    s.score
  }

  /**
   * The per-run table: for each distinct run of the per-topic table, the mean
   * of its topic scores, ordered by non-increasing score.
   */
  function QuestionRunTable(table: seq<TopicScore>): (r: seq<RunScore>)
    ensures NonIncreasing(r, RunScoreOf)
    ensures |r| == |SortedKeys(TableRunTags(table))|
    ensures forall i :: 0 <= i < |r| ==> r[i].runTag in TableRunTags(table) && r[i] == RunMean(table, r[i].runTag)
    ensures forall runTag :: runTag in TableRunTags(table) ==> exists i :: 0 <= i < |r| && r[i].runTag == runTag
  {
    var runs := SortedKeys(TableRunTags(table));
    var means := seq(|runs|, i requires 0 <= i < |runs| => RunMean(table, runs[i]));
    var r := SortDescending(means, RunScoreOf);
    PermutationMembers(r, means);
    RunMeansCover(table, runs, means, r);
    r
  }

  lemma {:induction false} RunMeansCover(table: seq<TopicScore>, runs: seq<string>, means: seq<RunScore>, r: seq<RunScore>)
    requires forall y :: y in runs <==> y in TableRunTags(table)
    requires |means| == |runs| && forall i :: 0 <= i < |runs| ==> means[i] == RunMean(table, runs[i])
    requires forall i :: 0 <= i < |r| ==> r[i] in means
    requires forall i :: 0 <= i < |means| ==> means[i] in r
    ensures forall i :: 0 <= i < |r| ==> r[i].runTag in TableRunTags(table) && r[i] == RunMean(table, r[i].runTag)
    ensures forall runTag :: runTag in TableRunTags(table) ==> exists i :: 0 <= i < |r| && r[i].runTag == runTag
  {
    forall i | 0 <= i < |r| ensures r[i].runTag in TableRunTags(table) && r[i] == RunMean(table, r[i].runTag) {
      var p :| 0 <= p < |means| && means[p] == r[i];
    }
    forall runTag | runTag in TableRunTags(table) ensures exists i :: 0 <= i < |r| && r[i].runTag == runTag {
      var p :| 0 <= p < |runs| && runs[p] == runTag;
      assert means[p] in r;
      var i :| 0 <= i < |r| && r[i] == means[p];
    }
  }

  /** Every run's mean lies in [0, 1] when every per-topic score does. */
  lemma {:induction false} RunMeansWithinUnit(table: seq<TopicScore>)
    requires forall a :: 0 <= a < |table| ==> 0.0 <= table[a].value <= 1.0
    ensures forall i :: 0 <= i < |QuestionRunTable(table)| ==> 0.0 <= QuestionRunTable(table)[i].score <= 1.0
  {
    var r := QuestionRunTable(table);
    forall i | 0 <= i < |r| ensures 0.0 <= r[i].score <= 1.0 {
      var xs := RunValues(table, r[i].runTag);
      forall p | 0 <= p < |xs| ensures 0.0 <= xs[p] <= 1.0 {
        RunValueOfRow(table, r[i].runTag, p);
      }
      MeanWithin(xs, 0.0, 1.0);
    }
  }

  /** Every score of both tables lies in [0, 1]. */
  ghost predicate ScoresWithinUnit(scores: QuestionScores)
  {
    && (forall a :: 0 <= a < |scores.perTopic| ==> 0.0 <= scores.perTopic[a].value <= 1.0)
    && (forall i :: 0 <= i < |scores.perRun| ==> 0.0 <= scores.perRun[i].score <= 1.0)
  }

  /**
   * `score_question_generation` without its file output: the merged rows, the
   * per-topic table and the per-run table. A judgment that does not resolve
   * stops scoring with its error; with a consistent rubric every score lies in
   * [0, 1].
   */
  method ScoreQuestionGeneration(assessments: seq<QuestionAssessment>, checks: seq<CompoundCheck>, rubric: seq<QuestionRow>)
    returns (r: Result<QuestionScores, ScoreError>)
    ensures assessments == [] ==> r == Failure(NoResults)
    ensures JoinQuestions(assessments, checks, rubric).Failure? ==> r == Failure(JoinQuestions(assessments, checks, rubric).error)
    ensures assessments != [] && JoinQuestions(assessments, checks, rubric).Success? ==>
              && r.Success?
              && QuestionTopicTable(JoinQuestions(assessments, checks, rubric).value, r.value.perTopic)
              && r.value.perRun == QuestionRunTable(r.value.perTopic)
    ensures r.Success? && ConsistentRubric(rubric) ==> ScoresWithinUnit(r.value)
  {
    var joined := JoinQuestions(assessments, checks, rubric);
    if joined.Failure? {
      return Failure(joined.error);
    }
    var rows := joined.value;
    var perTopic := ScorePerTopic(rows);
    JoinedEmpty(rows, assessments);
    PairTableEmpty(Pairs(rows), perTopic);
    if perTopic == [] {
      return Failure(NoResults);
    }
    var perRun := QuestionRunTable(perTopic);
    if ConsistentRubric(rubric) {
      PerTopicWithinUnit(rows, rubric, perTopic);
      RunMeansWithinUnit(perTopic);
    }
    r := Success(QuestionScores(perTopic, perRun));
  }

  /** The merged rows are empty exactly when there is no judgment. */
  lemma {:induction false} JoinedEmpty(rows: seq<JudgedQuestion>, assessments: seq<QuestionAssessment>)
    requires PairsFrom(rows, assessments) && PairsCovered(rows, assessments)
    ensures Pairs(rows) == [] <==> assessments == []
  {
    if assessments != [] {
      assert HasPair(rows, assessments[0].topicId, assessments[0].runTag);
    }
    if rows != [] {
      assert Pairs(rows)[0] == Pair(rows[0].topicId, rows[0].runTag);
    }
  }

  lemma {:induction false} PerTopicWithinUnit(rows: seq<JudgedQuestion>, rubric: seq<QuestionRow>, table: seq<TopicScore>)
    requires ConsistentRubric(rubric) && WeightedByRubric(rows, rubric) && WithinWeight(rows)
    requires QuestionTopicTable(rows, table)
    ensures forall a :: 0 <= a < |table| ==> 0.0 <= table[a].value <= 1.0
  {
    forall a | 0 <= a < |table| ensures 0.0 <= table[a].value <= 1.0 {
      RowWithinUnit(rows, rubric, table[a]);
    }
  }

  lemma {:induction false} RowWithinUnit(rows: seq<JudgedQuestion>, rubric: seq<QuestionRow>, s: TopicScore)
    requires ConsistentRubric(rubric) && WeightedByRubric(rows, rubric) && WithinWeight(rows)
    requires PairOf(s) in Pairs(rows) && ScoredPair(rows, s)
    ensures 0.0 <= s.value <= 1.0
  {
    var k :| 0 <= k < |rows| && Pairs(rows)[k] == PairOf(s);
    assert rows[k] in TopicRows(rows, s.topicId);
    TopicRowsValid(rows, rubric, s.topicId);
    TopicRunScoreWithinUnit(TopicRows(rows, s.topicId), s.runTag);
  }
}
