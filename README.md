# DRAGUN scoring engine, modelled in Dafny

This project models the scoring engine of the DRAGUN evaluation (`utils/score.py`).
The engine turns in-memory judgment tables into calibrated per-topic and per-run scores.
It covers two tasks. Question generation scores the questions a run submits against a topic's rubric questions. Report generation scores a run's report against the rubric's short answers. Every value is an exact rational, so Dafny's `real` models the arithmetic exactly.

The project has eight modules:

- `Results` (`results.dfy`): `Option` and `Result`, used for labels that have no score and rows that do not resolve.
- `Frames` (`frames.dfy`): boolean-mask selection (`Filter`), which keeps the matching rows in table order, each as often as it occurs; and `FlatMap`, the rows a merge yields for each left-hand row, block after block.
- `Order` (`order.dfy`): Python's ordering of `str`, `sorted(set(...))` as `SortedKeys`, and `sort_values(..., ascending=False)` as `SortDescending`.
- `Sums` (`sums.dfy`): sums over keys, `drop_duplicates` order (`Distinct`, which keeps first occurrences), the mean, and the bounds lemmas the scorers share.
- `Tables` (`tables.dfy`): the per-topic result table keyed by (topic, run), and what the scorers' nested topic/run loops keep.
- `Rubric` (`rubric.dfy`): `IMPORTANCE_MAP` and the two rubric loaders. Each loader is a method with nested loops over an in-memory list of rubric documents.
- `QuestionScoring` (`question_scoring.dfy`): `score_question_generation`. It covers the label map, the two left merges, the per-topic loop (best score per rubric question over the topic's weight) and the per-run mean and sort.
- `ReportScoring` (`report_scoring.dfy`): `score_report_generation`. It covers the label map, the merge, the rubric-only denominator, the per-question accumulation loop, the per-topic loop and the per-run means and sort.

Each left merge is modelled as the cross product pandas produces, in table order. A judgment that finds no partner row, or whose label has no score, makes the scorer return an explicit error naming that judgment. pandas would produce NaN there instead (see "## Left out").

Empty tables are errors, as in the code. A loader that collects no row builds a frame with no columns, and selecting `question_importance` from it raises (`utils/score.py:30-31`, `50-51`); here the loader returns `EmptyTable`. A scorer given no judgment builds an empty results list, and grouping it by `run_tag` raises (`utils/score.py:86-87`, `125-127`); here the scorer returns `NoResults`.

The question-scoring denominator is computed as the code computes it. It is the sum of `question_score` over the distinct `rubric_question_rank` values among the topic's merged judgment rows, first occurrence kept (`utils/score.py:79`). It is not taken over the whole rubric of the topic, as the report scorer's denominator is. So a rubric question no run was judged against adds nothing to the denominator. `MaxScoreOnlyWeights` shows that every run of a topic shares it.

The report denominator is taken from the rubric answers alone (`utils/score.py:108-109`).

The [0, 1] bounds rest on one assumption per scorer. For questions it is `ConsistentRubric`: within a topic, all rubric rows with the same rank carry the same weight. The rank is only the integer after the last `-` of the question id (`utils/score.py:27`), so distinct ids can share one ("Q-1" and "Q-01", or "A-3" and "B-3"). The assumption therefore holds whenever each rank occurs once per topic, or questions sharing a rank share an importance; it does not follow from question ids being unique. For answers it is `ConsistentAnswers`: within a topic, all answer rows of one question id carry the same weight. That holds whenever each question id occurs once per topic, because every answer row inherits its question's importance.

## Model

| member | source | states |
|---|---|---|
| Rubric.ImportanceWeight | utils/score.py:12 | exactly the three importance tiers have a weight: "A: Have to Know" 4, "B: Good to Know" 2, "C: Nice to Know" 1; any other text has none |
| Rubric.ParseRank | utils/score.py:27 | the rank is the value of the text after the last '-' when that text is a non-empty digit string; otherwise there is no rank (where `int()` raises) |
| Rubric.LastSegmentAfterDash | utils/score.py:27 | the last '-'-separated segment of `prefix-tail` is `tail` whenever `tail` holds no '-' |
| Rubric.RankOfQuestionId | utils/score.py:27 | a question id ending in '-' and a numeral parses back to that numeral's value |
| Rubric.DecimalRoundTrip | utils/score.py:27 | reading the decimal numeral of n gives back n |
| Rubric.QuestionRowOf | utils/score.py:25-31 | a rubric question yields a row iff its id has a rank and its importance a weight; the row holds its document's topic, that rank and that weight |
| Rubric.AnswerRowOf | utils/score.py:44-51 | a short answer yields a row iff its question's importance has a weight; the row holds topic, question id, answer id and the question's weight |
| Rubric.CollectSpec | utils/score.py:19-31 | building the rows entry by entry succeeds iff every entry has a row, then row k belongs to entry k; a failure is that of the first entry without a row |
| Rubric.TableSpec | utils/score.py:19-31 | the table of some entries is EmptyTable iff there are none; otherwise it loads iff every entry has a row, and then row k belongs to entry k; a failure is that of the first entry without a row |
| Rubric.LoadRubricQuestions | utils/score.py:17-32 | returns the question table of the documents: the nested document/question loops build the rows of all rubric questions, documents in order, questions in document order; they stop at the first bad question; no question at all gives EmptyTable |
| Rubric.QuestionTable | utils/score.py:17-32 | the question table is EmptyTable iff no document lists a question; otherwise it loads iff every listed question has a rank and a weight, and then has exactly one row per entry, row k being entry k's row; a failure is the first bad question's error |
| Rubric.QuestionTableRows | utils/score.py:17-32 | a loaded question table holds the rows of the listed questions and no other rows |
| Rubric.LoadRubricAnswers | utils/score.py:35-52 | returns the answer table of the documents: the nested document/question/answer loops build the rows of all short answers in order; they stop at the first answer whose question has no weight; no short answer at all gives EmptyTable |
| Rubric.AnswerTable | utils/score.py:35-52 | the answer table is EmptyTable iff no document lists a short answer; otherwise it loads iff every listed short answer's question has a weight, and then has exactly one row per entry, row k being entry k's row; a failure is the first bad answer's error |
| Rubric.AnswerTableRows | utils/score.py:35-52 | a loaded answer table holds the rows of the listed short answers, each with its question's weight, and no other rows |
| QuestionScoring.SimilarityScore | utils/score.py:59-61 | very-similar scores 1, similar 0.5, different and very-different 0, each in both directions; any other label has no score; every score lies in [0, 1] |
| QuestionScoring.CompoundFlags | utils/score.py:64-68 | one flag per compound check matching the judgment on (topic, run, rank), in table order: flag k is that of the k-th matching check; empty iff none matches; every flag comes from a matching check |
| QuestionScoring.CompoundFlagsCover | utils/score.py:64-68 | every check matching the judgment contributes its flag |
| QuestionScoring.RubricWeights | utils/score.py:72 | one weight per rubric row matching (topic, rank), in table order: weight k is that of the k-th matching row; empty iff none matches; every weight comes from a matching row |
| QuestionScoring.RubricWeightsCover | utils/score.py:72 | every rubric row matching (topic, rank) contributes its weight |
| QuestionScoring.MergedRows | utils/score.py:65-73 | the two merges give |flags| × |weights| rows; every row keeps the judgment's keys, takes one of the flags and one of the weights, and scores label × (0 if compound else 1) × weight |
| QuestionScoring.MergedRowAt | utils/score.py:65-73 | row i × |weights| + j is the merge of flag i with weight j: the full cross product, flags outermost, in table order |
| QuestionScoring.JudgeAssessment | utils/score.py:59-73 | an unknown label is UnknownAnnotation; a scored label with no matching check is MissingCompoundCheck; the judgment resolves iff its label has a score and both a check and a rubric row match; its rows are then the cross product of its flags and weights, |flags| × |weights| of them |
| QuestionScoring.JoinQuestions | utils/score.py:59-73 | merging succeeds iff every judgment resolves; then the merged table is each judgment's own merged rows, judgment after judgment in table order; every score lies in [0, weight], compound rows score 0, every weight is a rubric weight for the row's (topic, rank), and the merged (topic, run) pairs are exactly those judged |
| QuestionScoring.CompoundQuestionScoresZero | utils/score.py:69-73 | a merged row flagged compound has score 0, whatever its label |
| QuestionScoring.FirstWeight | utils/score.py:79 | the weight kept for a rank is that of its first row (`drop_duplicates`), 0 if the rank has none |
| QuestionScoring.TopicRows | utils/score.py:78 | the rows of a topic are exactly the merged rows carrying that topic, each kept as many times as it occurs |
| QuestionScoring.RunRows | utils/score.py:81 | the rows of a run are exactly the topic's rows carrying that run, each kept as many times as it occurs |
| QuestionScoring.BestScore | utils/score.py:83 | the best score of a rank bounds every row of that rank and is attained by one of them |
| QuestionScoring.MaxScorePositive | utils/score.py:79 | a topic with a merged row has a denominator of at least 1, so no division by zero |
| QuestionScoring.MaxScoreOnlyWeights | utils/score.py:79-80 | the denominator depends only on the ranks and weights of the topic's rows, so it is the same for every run of the topic |
| QuestionScoring.WeakerSubmissionKeepsScores | utils/score.py:83-84 | adding a submission that scores no better than the run's best for that rubric question leaves the denominator and every run's total unchanged |
| QuestionScoring.AllCompoundRunScoresZero | utils/score.py:69-84 | a run all of whose submissions in a topic are compound scores 0 there |
| QuestionScoring.TopicRunScoreWithinUnit | utils/score.py:79-84 | with scores within their weights and one weight per rank, a run's score in a topic lies in [0, 1] |
| QuestionScoring.TopicRowsValid | utils/score.py:78 | with a consistent rubric, a topic's merged rows have one weight per rank and scores within their weights |
| QuestionScoring.ScorePerTopic | utils/score.py:76-84 | the loops over sorted topics and their sorted runs produce one row per judged (topic, run) pair and no other, sorted by topic then run, each holding that run's total over the topic's denominator |
| QuestionScoring.PerTopicWithinUnit | utils/score.py:76-84 | with a consistent rubric, every per-topic score lies in [0, 1] |
| QuestionScoring.QuestionRunTable | utils/score.py:86-87 | one row per run of the per-topic table, each the mean of that run's per-topic scores, ordered by non-increasing score |
| QuestionScoring.RunMeansWithinUnit | utils/score.py:87 | per-topic scores in [0, 1] give per-run scores in [0, 1] |
| QuestionScoring.ScoreQuestionGeneration | utils/score.py:57-87 | no judgment at all gives NoResults; an unresolved judgment is reported as the error; otherwise the per-topic table is that of the merged rows and the per-run table its means; with a consistent rubric every score lies in [0, 1] |
| ReportScoring.SupportScore | utils/score.py:98-100 | supports scores 1, partial 0.5, contradicts -1, none 0, each in both directions; any other label has no score; every score lies in [-1, 1] |
| ReportScoring.AnswerWeights | utils/score.py:103 | one weight per rubric answer row matching (topic, question, answer), in table order: weight k is that of the k-th matching row; empty iff none matches; every weight comes from a matching row |
| ReportScoring.AnswerWeightsCover | utils/score.py:103 | every rubric answer row matching the judgment contributes its weight |
| ReportScoring.JudgeAnswer | utils/score.py:98-103 | an unknown label is UnknownAnnotation; the judgment resolves iff its label has a score and a rubric answer row matches; it then yields one row per matching answer row, row k carrying the judgment's keys, its label's score and weight k |
| ReportScoring.JoinReport | utils/score.py:98-103 | merging succeeds iff every judgment resolves; then the merged table is each judgment's own merged rows, judgment after judgment in table order; scores lie in [-1, 1], every weight is that of a matching rubric answer, and the merged (topic, run) pairs are exactly those judged |
| ReportScoring.FirstAnswerWeight | utils/score.py:109 | the weight kept for a question id is that of its first answer row, 0 if it has none |
| ReportScoring.TopicAnswers | utils/score.py:108 | the rubric answer rows of a topic are exactly those carrying that topic, each kept as many times as it occurs |
| ReportScoring.ReportMaxScorePositive | utils/score.py:108-109 | a topic with a rubric answer has a denominator of at least 1 |
| ReportScoring.RunPart | utils/score.py:111 | the rows of a run in a topic are exactly the rows carrying that topic and run, each kept as many times as it occurs in the merged table |
| ReportScoring.QuestionGroup | utils/score.py:114 | the rows of one question are exactly the part's rows with that question id, each kept as many times as it occurs in the part, so `len` counts every one |
| ReportScoring.GroupSumsBounded | utils/score.py:117-118 | with scores in [-1, 1], the positive and negated negative sums of a group are non-negative and together at most its size |
| ReportScoring.ContributionsWithinWeight | utils/score.py:113-118 | each question's supportive and contradictory contributions are non-negative and together at most the question's weight |
| ReportScoring.QuestionShares | utils/score.py:114-118 | one loop step computes the question's supportive and contradictory contributions |
| ReportScoring.ReportTotals | utils/score.py:112-118 | the accumulation loop over the sorted question ids yields the supportive and contradictory totals |
| ReportScoring.TotalsWithinMax | utils/score.py:108-118 | with consistent rubric answers, both totals are non-negative and together at most the topic's denominator |
| ReportScoring.TopicReportWithinUnit | utils/score.py:119-123 | with consistent rubric answers, a run's supportive and contradictory scores in a topic lie in [0, 1], and so does their sum |
| ReportScoring.ScoreReportPerTopic | utils/score.py:106-123 | the loops over sorted topics and their sorted runs produce one row per judged (topic, run) pair, sorted, each holding both totals over the rubric-only denominator |
| ReportScoring.PerTopicReportWithinUnit | utils/score.py:106-123 | with consistent rubric answers, every per-topic row's two scores and their sum lie in [0, 1] |
| ReportScoring.ReportRunTable | utils/score.py:125-128 | one row per run, holding the means of its supportive and its contradictory per-topic scores, ordered by non-increasing supportive score |
| ReportScoring.RunReportMeansWithinUnit | utils/score.py:126-127 | per-topic scores in [0, 1] give per-run means in [0, 1] |
| ReportScoring.ScoreReportGeneration | utils/score.py:96-128 | no judgment at all gives NoResults; an unresolved judgment is reported as the error; otherwise the per-topic table is that of the merged rows and the per-run table its means; with consistent rubric answers every score lies in [0, 1] |
| Order.SortedKeys | utils/score.py:77-80 | `sorted(...unique())`: strictly increasing in Python's string order, with exactly the given keys |
| Order.SortedKeysUnique | utils/score.py:77-80 | two strictly sorted sequences with the same keys are equal, so the sorted key list is determined by the key set |
| Order.SortDescending | utils/score.py:87 | the sort is a permutation of its input with non-increasing keys |
| Sums.Distinct | utils/score.py:79 | the kept keys are free of duplicates and are exactly the keys of the input |
| Sums.SumOverPermutation | utils/score.py:113-118 | a sum over distinct keys does not depend on their order |
| Sums.SumOverSubset | utils/score.py:107-109 | over non-negative terms, a sum over a subset of the distinct keys is at most the sum over all of them |
| Sums.MeanWithin | utils/score.py:87 | the mean of values within [lo, hi] lies within [lo, hi] |
| Frames.Filter | utils/score.py:108-114 | a boolean-mask selection holds exactly the rows that satisfy the mask, and its first row is the first matching row of the table (`iloc[0]`) |
| Frames.FilterCount | utils/score.py:114-116 | a selected row occurs in the selection as often as in the table, an unselected one not at all |
| Frames.FilterEmpty | utils/score.py:108-114 | a selection is empty iff no row satisfies the mask |
| Frames.FilterAppend | utils/score.py:108-114 | selecting from two tables one after the other is selecting from each and concatenating, so table order is kept |
| Frames.FlatMapMembers | utils/score.py:65-73 | the rows of a merged table are exactly the rows of the left-hand rows' blocks |
| Tables.RunValues | utils/score.py:87 | a run's values are those of its rows, one per row in table order; they are non-empty iff the run is in the table |
| Tables.RunTags | utils/score.py:80 | the runs listed for a topic are exactly those paired with it |
| Tables.RunColumn | utils/score.py:87 | a run's column has one value per row of that run, in table order: value k is the column of the k-th row of the run |

## Left out

- Reading the rubric JSON files, globbing the rubric directory and reading the assessment CSVs: the loaders and scorers take in-memory tables instead. The rubric documents are taken in the order given; the sorted file order of the glob is not modelled.
- Writing the result CSVs and printing the run table.
- The argparse driver and the human/auto column renaming.
- The LLM-based automatic judge: its judgments come from a remote model, so nothing about them can be stated.
- NaN in the question scorer: an unknown label, a judgment with no compound check and a judgment with no rubric row each give a NaN score in pandas, and the per-rank `max` and the numerator's `sum` then skip it. The denominator does not: such a row still carries its weight unless it has no rubric row, and when it is the first row of its rank, `drop_duplicates` keeps it and its weight is counted in `max_score` (`utils/score.py:79`). Here each stops scoring with an explicit error naming the judgment.
- NaN in the report scorer: an unknown label gives a NaN score. The `> 0` and `< 0` selections drop it, but `n = len(q_part)` still counts it, so it dilutes its question's share (`utils/score.py:116-118`). A judgment with no rubric answer row keeps its score and is summed and counted; when it is the first row of its question's group, `iloc[0]` reads a NaN weight, the topic's scores become NaN, and the per-run `mean` leaves that topic out (`utils/score.py:115`, `126-127`). Here both cases stop scoring with an explicit error naming the judgment instead.
- Rubric.ImportanceWeight: an unknown importance maps to NaN in pandas; here it is an error that stops loading.
- Rubric.ParseRank: accepts ASCII digits only. It does not model `int()`'s leniencies: surrounding whitespace, a sign, underscores and non-ASCII digits.
- Float rounding: scores are exact reals, while pandas uses binary floating point.
- Order.SortDescending: the order among runs with equal scores is left open, because pandas' default sort is not stable.
- QuestionScoring.ScoreQuestionGeneration: the [0, 1] bounds are stated only for a rubric with one weight per (topic, rank). With inconsistent duplicate rows, a best score can exceed the first-occurrence weight the denominator counts. Duplicate rubric rows are not rejected; they are merged as pandas merges them.
- ReportScoring.ScoreReportGeneration: the bounds likewise need rubric answers with one weight per (topic, question). The per-run means are bounded separately. That their sum is at most 1 is proved per topic, not per run.
- ReportScoring.ScoreReportPerTopic: requires every merged row to carry a rubric answer's weight, as the merge guarantees. Otherwise a judged topic with no rubric answer would divide by zero.
