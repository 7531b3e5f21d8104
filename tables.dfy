/**
 * The per-topic result tables both scorers build: one row per judged
 * (topic, run) pair, filled by a loop over the sorted topics and, inside it,
 * the sorted runs of each topic; and the columns the per-run means are taken
 * over.
 */
module Tables {
  import opened Order
  import opened Frames

  /** The (topic, run) pair of a judged row. */
  datatype Pair = Pair(topicId: string, runTag: string)

  /** A row of a per-topic table: what run `runTag` scored in topic `topicId`. */
  datatype TopicRow<S> = TopicRow(runTag: string, topicId: string, value: S)

  function PairOf<S>(row: TopicRow<S>): Pair
  {
    Pair(row.topicId, row.runTag)
  }

  function TopicIds(pairs: seq<Pair>): seq<string>
  {
    seq(|pairs|, i requires 0 <= i < |pairs| => pairs[i].topicId)
  }

  /** The runs judged in `topicId`, in order of the pairs. */
  function RunTags(pairs: seq<Pair>, topicId: string): (r: seq<string>)
    ensures forall y :: y in r <==> Pair(topicId, y) in pairs
  {
    if pairs == [] then []
    else
      assert forall p :: p in pairs <==> p == pairs[0] || p in pairs[1..];
      (if pairs[0].topicId == topicId then [pairs[0].runTag] else []) + RunTags(pairs[1..], topicId)
  }

  ghost predicate Listed<S>(table: seq<TopicRow<S>>, p: Pair)
  {
    exists a :: 0 <= a < |table| && PairOf(table[a]) == p
  }

  /** Strictly sorted by topic, then run: so no (topic, run) pair appears twice. */
  ghost predicate PairSorted<S>(table: seq<TopicRow<S>>)
  {
    forall a, b :: 0 <= a < b < |table| ==> PairLess(table[a].topicId, table[a].runTag, table[b].topicId, table[b].runTag)
  }

  /** The rows of `table` are exactly the pairs of `pairs`, once each, sorted by topic then run. */
  ghost predicate PairTable<S>(pairs: seq<Pair>, table: seq<TopicRow<S>>)
  {
    && PairSorted(table)
    && (forall a :: 0 <= a < |table| ==> PairOf(table[a]) in pairs)
    && (forall k :: 0 <= k < |pairs| ==> Listed(table, pairs[k]))
  }

  /** A table of the pairs is empty exactly when there are no pairs. */
  lemma {:induction false} PairTableEmpty<S>(pairs: seq<Pair>, table: seq<TopicRow<S>>)
    requires PairTable(pairs, table)
    ensures table == [] <==> pairs == []
  {
    if pairs != [] {
      assert Listed(table, pairs[0]);
    }
    if table != [] {
      assert PairOf(table[0]) in pairs;
    }
  }

  // ---------------------------------------------------------------------------
  // What the nested loops keep: the table holds only pairs already visited,
  // in order, and every visited pair is listed.

  /** Only topics before `topics[i]`, and runs before `runs[j]` of `topics[i]`. */
  ghost predicate Before<S>(table: seq<TopicRow<S>>, topics: seq<string>, i: nat, runs: seq<string>, j: nat)
    requires i <= |topics| && j <= |runs|
  {
    forall a :: 0 <= a < |table| ==>
      table[a].topicId in topics[..i] || (i < |topics| && table[a].topicId == topics[i] && table[a].runTag in runs[..j])
  }

  /** Every pair of a topic before `topics[i]` is listed. */
  ghost predicate TopicsListed<S>(pairs: seq<Pair>, table: seq<TopicRow<S>>, topics: seq<string>, i: nat)
    requires i <= |topics|
  {
    forall k :: 0 <= k < |pairs| && pairs[k].topicId in topics[..i] ==> Listed(table, pairs[k])
  }

  /** Every pair of `topicId` with a run before `runs[j]` is listed. */
  ghost predicate RunsListed<S>(pairs: seq<Pair>, table: seq<TopicRow<S>>, topicId: string, runs: seq<string>, j: nat)
    requires j <= |runs|
  {
    forall k :: 0 <= k < |pairs| && pairs[k].topicId == topicId && pairs[k].runTag in runs[..j] ==> Listed(table, pairs[k])
  }

  /** Every row comes from `pairs`. */
  ghost predicate FromPairs<S>(pairs: seq<Pair>, table: seq<TopicRow<S>>)
  {
    forall a :: 0 <= a < |table| ==> PairOf(table[a]) in pairs
  }

  lemma {:induction false} InnerStart<S>(pairs: seq<Pair>, table: seq<TopicRow<S>>, topics: seq<string>, i: nat, runs: seq<string>)
    requires i < |topics|
    requires Before(table, topics, i, [], 0)
    ensures Before(table, topics, i, runs, 0)
    ensures RunsListed(pairs, table, topics[i], runs, 0)
  {
  }

  /** Appending the row of `(topics[i], runs[j])` keeps what the inner loop keeps. */
  lemma {:induction false} InnerStep<S>(pairs: seq<Pair>, table: seq<TopicRow<S>>, topics: seq<string>, i: nat, runs: seq<string>, j: nat, s: TopicRow<S>)
    requires StrictlySorted(topics) && i < |topics| && StrictlySorted(runs) && j < |runs|
    requires s.topicId == topics[i] && s.runTag == runs[j] && PairOf(s) in pairs
    requires PairSorted(table) && FromPairs(pairs, table)
    requires Before(table, topics, i, runs, j)
    requires TopicsListed(pairs, table, topics, i)
    requires RunsListed(pairs, table, topics[i], runs, j)
    ensures PairSorted(table + [s]) && FromPairs(pairs, table + [s])
    ensures Before(table + [s], topics, i, runs, j + 1)
    ensures TopicsListed(pairs, table + [s], topics, i)
    ensures RunsListed(pairs, table + [s], topics[i], runs, j + 1)
  {
    AppendKeepsSorted(table, topics, i, runs, j, s);
    FromPairsAppend(pairs, table, s);
    BeforeStep(table, topics, i, runs, j, s);
    ListedStep(pairs, table, topics, i, runs, j, s);
  }

  lemma {:induction false} FromPairsAppend<S>(pairs: seq<Pair>, table: seq<TopicRow<S>>, s: TopicRow<S>)
    requires FromPairs(pairs, table) && PairOf(s) in pairs
    ensures FromPairs(pairs, table + [s])
  {
    var longer := table + [s];
    forall a | 0 <= a < |longer| ensures PairOf(longer[a]) in pairs {
      if a < |table| {
        assert longer[a] == table[a];
      }
    }
  }

  lemma {:induction false} AppendKeepsSorted<S>(table: seq<TopicRow<S>>, topics: seq<string>, i: nat, runs: seq<string>, j: nat, s: TopicRow<S>)
    requires StrictlySorted(topics) && i < |topics| && StrictlySorted(runs) && j < |runs|
    requires s.topicId == topics[i] && s.runTag == runs[j]
    requires PairSorted(table)
    requires Before(table, topics, i, runs, j)
    ensures PairSorted(table + [s])
  {
    var longer := table + [s];
    forall a, b | 0 <= a < b < |longer|
      ensures PairLess(longer[a].topicId, longer[a].runTag, longer[b].topicId, longer[b].runTag)
    {
      if b == |table| {
        assert longer[a] == table[a];
        if table[a].topicId in topics[..i] {
          var p :| 0 <= p < i && topics[p] == table[a].topicId;
        } else {
          var q :| 0 <= q < j && runs[q] == table[a].runTag;
        }
      }
    }
  }

  lemma {:induction false} BeforeStep<S>(table: seq<TopicRow<S>>, topics: seq<string>, i: nat, runs: seq<string>, j: nat, s: TopicRow<S>)
    requires i < |topics| && j < |runs|
    requires s.topicId == topics[i] && s.runTag == runs[j]
    requires Before(table, topics, i, runs, j)
    ensures Before(table + [s], topics, i, runs, j + 1)
  {
    var longer := table + [s];
    assert runs[..j + 1] == runs[..j] + [runs[j]];
    forall a | 0 <= a < |longer|
      ensures longer[a].topicId in topics[..i] || (longer[a].topicId == topics[i] && longer[a].runTag in runs[..j + 1])
    {
      if a < |table| {
        assert longer[a] == table[a];
      }
    }
  }

  lemma {:induction false} ListedAppend<S>(table: seq<TopicRow<S>>, s: TopicRow<S>)
    ensures forall p :: Listed(table, p) ==> Listed(table + [s], p)
    ensures Listed(table + [s], PairOf(s))
  {
    assert (table + [s])[|table|] == s;
    forall p | Listed(table, p) ensures Listed(table + [s], p) {
      var a :| 0 <= a < |table| && PairOf(table[a]) == p;
      assert (table + [s])[a] == table[a];
    }
  }

  lemma {:induction false} ListedStep<S>(pairs: seq<Pair>, table: seq<TopicRow<S>>, topics: seq<string>, i: nat, runs: seq<string>, j: nat, s: TopicRow<S>)
    requires i < |topics| && j < |runs|
    requires s.topicId == topics[i] && s.runTag == runs[j]
    requires TopicsListed(pairs, table, topics, i)
    requires RunsListed(pairs, table, topics[i], runs, j)
    ensures TopicsListed(pairs, table + [s], topics, i)
    ensures RunsListed(pairs, table + [s], topics[i], runs, j + 1)
  {
    ListedAppend(table, s);
    assert runs[..j + 1] == runs[..j] + [runs[j]];
    forall k | 0 <= k < |pairs| && pairs[k].topicId == topics[i] && pairs[k].runTag in runs[..j + 1]
      ensures Listed(table + [s], pairs[k])
    {
      if pairs[k].runTag == runs[j] {
        assert pairs[k] == PairOf(s);
      }
    }
  }

  /** Once all runs of `topics[i]` are visited, every pair of that topic is listed. */
  lemma {:induction false} TopicDone<S>(pairs: seq<Pair>, table: seq<TopicRow<S>>, topics: seq<string>, i: nat, runs: seq<string>)
    requires i < |topics|
    requires forall y :: y in runs <==> y in RunTags(pairs, topics[i])
    requires Before(table, topics, i, runs, |runs|)
    requires TopicsListed(pairs, table, topics, i)
    requires RunsListed(pairs, table, topics[i], runs, |runs|)
    ensures Before(table, topics, i + 1, [], 0)
    ensures TopicsListed(pairs, table, topics, i + 1)
  {
    assert topics[..i + 1] == topics[..i] + [topics[i]];
    assert runs[..|runs|] == runs;
    forall k | 0 <= k < |pairs| && pairs[k].topicId == topics[i] ensures pairs[k].runTag in runs {
      assert Pair(topics[i], pairs[k].runTag) == pairs[k];
    }
  }

  /** After the last topic, the table lists every pair. */
  lemma {:induction false} AllListed<S>(pairs: seq<Pair>, table: seq<TopicRow<S>>, topics: seq<string>)
    requires forall y :: y in topics <==> y in TopicIds(pairs)
    requires TopicsListed(pairs, table, topics, |topics|)
    ensures forall k :: 0 <= k < |pairs| ==> Listed(table, pairs[k])
  {
    assert topics[..|topics|] == topics;
    forall k | 0 <= k < |pairs| ensures pairs[k].topicId in topics {
      assert TopicIds(pairs)[k] == pairs[k].topicId;
    }
  }

  // ---------------------------------------------------------------------------
  // Columns for the per-run means.

  function TableRunTags<S>(table: seq<TopicRow<S>>): seq<string>
  {
    seq(|table|, a requires 0 <= a < |table| => table[a].runTag)
  }

  /** Selects the rows of one run. */
  function OfRun<S>(runTag: string): TopicRow<S> -> bool
  {
    (row: TopicRow<S>) => row.runTag == runTag
  }

  /**
   * What `groupby("run_tag")` gathers for one run: the value of every row of
   * that run, once per row, in table order. It is empty exactly when the run
   * has no row.
   */
  function RunValues<S(!new)>(table: seq<TopicRow<S>>, runTag: string): (r: seq<S>)
    ensures |r| == |Filter(table, OfRun(runTag))|
    ensures forall k :: 0 <= k < |r| ==> r[k] == Filter(table, OfRun(runTag))[k].value
    ensures |r| > 0 <==> runTag in TableRunTags(table)
  {
    var rows := Filter(table, OfRun(runTag));
    RunHasRows(table, runTag);
    seq(|rows|, k requires 0 <= k < |rows| => rows[k].value)
  }

  /** A run has rows exactly when it is one of the table's run tags. */
  lemma {:induction false} RunHasRows<S(!new)>(table: seq<TopicRow<S>>, runTag: string)
    ensures Filter(table, OfRun(runTag)) != [] <==> runTag in TableRunTags(table)
  {
    var rows := Filter(table, OfRun(runTag));
    if runTag in TableRunTags(table) {
      var a :| 0 <= a < |table| && TableRunTags(table)[a] == runTag;
      assert OfRun(runTag)(table[a]);
      assert table[a] in rows;
    }
    if rows != [] {
      assert rows[0] in table && OfRun(runTag)(rows[0]);
      var a :| 0 <= a < |table| && table[a] == rows[0];
      assert TableRunTags(table)[a] == runTag;
    }
  }

  /** Each gathered value is the value of a row of the run. */
  lemma {:induction false} RunValueOfRow<S(!new)>(table: seq<TopicRow<S>>, runTag: string, k: nat)
    requires k < |RunValues(table, runTag)|
    ensures exists a :: 0 <= a < |table| && table[a].runTag == runTag && table[a].value == RunValues(table, runTag)[k]
  {
    var rows := Filter(table, OfRun(runTag));
    assert rows[k] in rows;
    var a :| 0 <= a < |table| && table[a] == rows[k];
  }

  /** One column of one run's values, one entry per row of the run. */
  function RunColumn<S(!new)>(table: seq<TopicRow<S>>, runTag: string, column: S -> real): (r: seq<real>)
    ensures |r| == |RunValues(table, runTag)|
    ensures forall k :: 0 <= k < |r| ==> r[k] == column(RunValues(table, runTag)[k])
  {
    var values := RunValues(table, runTag);
    seq(|values|, k requires 0 <= k < |values| => column(values[k]))
  }
}
