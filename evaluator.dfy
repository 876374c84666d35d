/**
 * The aggregator: an append-only list of per-model records, the leaderboard
 * derived from it (sorted by overall score, ranked 1..n) and the summary
 * (means and the first best model for each score).
 *
 * The result dictionaries of the two batteries are read through `TaskReport`,
 * where a missing key is `None` and falls back to 0 as `dict.get(key, 0)` does.
 * The timestamp is a parameter; the clock it comes from is not modelled.
 */
module Evaluation {
  import opened Wrappers
  import opened Battery

  /** One element of the evaluator's `results` list. */
  datatype Record = Record(
    modelName: string,
    parameters: int,
    mathScore: real,
    mathCorrect: int,
    mathTotal: int,
    logicScore: real,
    logicCorrect: int,
    logicTotal: int,
    timestamp: string,
    overallScore: real)

  /** The score columns the summary aggregates. */
  datatype Metric = Overall | Math | Logic

  function MetricOf(r: Record, m: Metric): real {
    match m
    case Overall => r.overallScore
    case Math => r.mathScore
    case Logic => r.logicScore
  }

  /** The record `add_result` builds: absent keys count as 0, and the overall score is the mean of the two battery scores. */
  function NewRecord(modelName: string, parameters: Option<int>, math: TaskReport, logic: TaskReport, timestamp: string): Record {
    var mathScore := math.score.GetOr(0.0);
    var logicScore := logic.score.GetOr(0.0);
    Record(modelName, parameters.GetOr(0),
           mathScore, math.correctAnswers.GetOr(0), math.totalQuestions.GetOr(0),
           logicScore, logic.correctAnswers.GetOr(0), logic.totalQuestions.GetOr(0),
           timestamp, (mathScore + logicScore) / 2.0)
  }

  /** The overall score of every record is the mean of its two battery scores. */
  ghost predicate OverallIsMean(results: seq<Record>) {
    forall i :: 0 <= i < |results| ==> results[i].overallScore == (results[i].mathScore + results[i].logicScore) / 2.0
  }

  /** Two battery results that each score in [0, 100] give a record whose overall score lies in [0, 100]. */
  lemma OverallInRange(modelName: string, parameters: Option<int>, math: BatteryResult, logic: BatteryResult, timestamp: string)
    requires Consistent(math) && Consistent(logic)
    ensures 0.0 <= NewRecord(modelName, parameters, Report(math), Report(logic), timestamp).overallScore <= 100.0
  {
    ScoreInRange(math);
    ScoreInRange(logic);
  }

  /**
   * The record of two battery runs carries each run's score, correct count and total unchanged,
   * with at most as many correct answers as questions, and its overall score lies between the two scores.
   */
  lemma RecordOfRuns(modelName: string, parameters: Option<int>, math: BatteryResult, logic: BatteryResult, timestamp: string)
    requires Consistent(math) && Consistent(logic)
    ensures var r := NewRecord(modelName, parameters, Report(math), Report(logic), timestamp);
      && r.modelName == modelName && r.timestamp == timestamp
      && r.mathScore == math.score && r.mathCorrect == math.correctAnswers && r.mathTotal == math.totalQuestions
      && r.logicScore == logic.score && r.logicCorrect == logic.correctAnswers && r.logicTotal == logic.totalQuestions
      && 0 <= r.mathCorrect <= r.mathTotal && 0 <= r.logicCorrect <= r.logicTotal
      && (r.mathScore <= r.overallScore <= r.logicScore || r.logicScore <= r.overallScore <= r.mathScore)
  {
    CountCorrectBounds(math.details);
    CountCorrectBounds(logic.details);
  }

  /** A key the result dictionary lacks counts as 0; a missing score pulls the overall score down to half the other one. */
  lemma MissingKeysCountZero(modelName: string, parameters: Option<int>, math: TaskReport, logic: TaskReport, timestamp: string)
    ensures var r := NewRecord(modelName, parameters, math, logic, timestamp);
      && (parameters.None? ==> r.parameters == 0)
      && (math.score.None? ==> r.mathScore == 0.0 && r.overallScore == r.logicScore / 2.0)
      && (logic.score.None? ==> r.logicScore == 0.0 && r.overallScore == r.mathScore / 2.0)
      && (math.correctAnswers.None? ==> r.mathCorrect == 0) && (math.totalQuestions.None? ==> r.mathTotal == 0)
      && (logic.correctAnswers.None? ==> r.logicCorrect == 0) && (logic.totalQuestions.None? ==> r.logicTotal == 0)
  {
  }

  // ---- the leaderboard ----

  /** A record tagged with its position in `results`, which the sorted table keeps as its row label. */
  datatype Entry = Entry(index: nat, record: Record)

  /** One row of the leaderboard: its rank, the row label and the record. */
  datatype Row = Row(rank: nat, index: nat, record: Record)

  function Enumerate(results: seq<Record>): seq<Entry> {
    seq(|results|, i requires 0 <= i < |results| => Entry(i, results[i]))
  }

  /** `a` comes before `b`: a higher overall score, or the same score and an earlier position. */
  predicate Precedes(a: Entry, b: Entry) {
    a.record.overallScore > b.record.overallScore
    || (a.record.overallScore == b.record.overallScore && a.index < b.index)
  }

  ghost predicate Ranked(es: seq<Entry>) {
    forall i, j :: 0 <= i < j < |es| ==> Precedes(es[i], es[j])
  }

  ghost predicate IncreasingIndices(es: seq<Entry>) {
    forall i, j :: 0 <= i < j < |es| ==> es[i].index < es[j].index
  }

  lemma PrecedesTransitive(a: Entry, b: Entry, c: Entry)
    requires Precedes(a, b) && Precedes(b, c)
    ensures Precedes(a, c)
  {
  }

  /** An entry that comes before every entry of a ranked sequence can head it. */
  lemma RankedCons(a: Entry, es: seq<Entry>)
    requires Ranked(es)
    requires forall x :: x in es ==> Precedes(a, x)
    ensures Ranked([a] + es)
  {
    var r := [a] + es;
    forall i, j | 0 <= i < j < |r| ensures Precedes(r[i], r[j]) {
      if i == 0 {
        assert r[j] == es[j - 1];
      } else {
        assert r[i] == es[i - 1] && r[j] == es[j - 1];
      }
    }
  }

  /** Puts `e` into the ranked sequence `es`, whose entries all sit later in `results` than `e`. */
  function Insert(e: Entry, es: seq<Entry>): (r: seq<Entry>)
    requires Ranked(es)
    requires forall x :: x in es ==> e.index < x.index
    ensures Ranked(r)
    ensures multiset(r) == multiset(es) + multiset{e}
  {
    if es == [] || Precedes(e, es[0]) then
      InsertHere(e, es);
      [e] + es
    else
      assert Ranked(es[1..]);
      var rest := Insert(e, es[1..]);
      InsertLater(e, es, rest);
      [es[0]] + rest
  }

  /** The step of `Insert` that puts `e` in front: it precedes the head, hence every entry. */
  lemma InsertHere(e: Entry, es: seq<Entry>)
    requires Ranked(es)
    requires es == [] || Precedes(e, es[0])
    ensures Ranked([e] + es)
  {
    forall x | x in es ensures Precedes(e, x) {
      var j :| 0 <= j < |es| && es[j] == x;
      if j > 0 {
        PrecedesTransitive(e, es[0], x);
      }
    }
    RankedCons(e, es);
  }

  /** The step of `Insert` that keeps the head in front and puts `e` into the tail. */
  lemma InsertLater(e: Entry, es: seq<Entry>, rest: seq<Entry>)
    requires Ranked(es) && es != [] && !Precedes(e, es[0]) && e.index < es[0].index
    requires Ranked(rest) && multiset(rest) == multiset(es[1..]) + multiset{e}
    ensures Ranked([es[0]] + rest)
    ensures multiset([es[0]] + rest) == multiset(es) + multiset{e}
  {
    forall x | x in rest ensures Precedes(es[0], x) {
      assert x in multiset(rest);
      if x != e {
        assert x in es[1..];
        var j :| 0 <= j < |es[1..]| && es[1..][j] == x;
        assert es[j + 1] == x;
      }
    }
    RankedCons(es[0], rest);
    assert es == [es[0]] + es[1..];
  }

  /** Sorts by overall score, highest first; equal scores keep their order in `results`. */
  function Sort(es: seq<Entry>): (r: seq<Entry>)
    requires IncreasingIndices(es)
    ensures Ranked(r)
    ensures multiset(r) == multiset(es)
  {
    if es == [] then []
    else
      LaterThanHead(es);
      var rest := Sort(es[1..]);
      SortStep(es, rest);
      Insert(es[0], rest)
  }

  /** Every later entry of a sequence with increasing indices has a larger index than its head. */
  lemma LaterThanHead(es: seq<Entry>)
    requires es != [] && IncreasingIndices(es)
    ensures IncreasingIndices(es[1..])
    ensures forall x :: x in es[1..] ==> es[0].index < x.index
  {
    forall x | x in es[1..] ensures es[0].index < x.index {
      var j :| 0 <= j < |es[1..]| && es[1..][j] == x;
      assert es[j + 1] == x;
    }
  }

  /** The step of `Sort`: the head can be inserted into the sorted tail, and doing so restores every entry. */
  lemma SortStep(es: seq<Entry>, rest: seq<Entry>)
    requires es != [] && IncreasingIndices(es)
    requires multiset(rest) == multiset(es[1..])
    ensures forall x :: x in rest ==> es[0].index < x.index
    ensures multiset(rest) + multiset{es[0]} == multiset(es)
  {
    LaterThanHead(es);
    SameMembers(rest, es[1..]);
    assert es == [es[0]] + es[1..];
  }

  /** Sequences with the same multiset have the same members. */
  lemma SameMembers<T>(a: seq<T>, b: seq<T>)
    requires multiset(a) == multiset(b)
    ensures forall x :: x in a <==> x in b
  {
    forall x ensures x in a <==> x in b {
      assert x in a <==> x in multiset(a);
      assert x in b <==> x in multiset(b);
    }
  }

  /** A ranked rearrangement of the enumerated results labels each record by its own position, each position once. */
  lemma RankedEntries(results: seq<Record>, sorted: seq<Entry>)
    requires Ranked(sorted) && multiset(sorted) == multiset(Enumerate(results))
    ensures |sorted| == |results|
    ensures forall i :: 0 <= i < |sorted| ==> sorted[i].index < |results| && sorted[i].record == results[sorted[i].index]
    ensures forall i, j :: 0 <= i < j < |sorted| ==> sorted[i].index != sorted[j].index
  {
    var es := Enumerate(results);
    assert |sorted| == |multiset(sorted)| == |multiset(es)| == |es|;
    forall i | 0 <= i < |sorted| ensures sorted[i].index < |results| && sorted[i].record == results[sorted[i].index] {
      assert sorted[i] in multiset(es);
    }
    forall i, j | 0 <= i < j < |sorted| ensures sorted[i].index != sorted[j].index {
      assert Precedes(sorted[i], sorted[j]);
    }
  }

  /** Numbers the sorted entries 1, 2, ... */
  function Rank(es: seq<Entry>): seq<Row> {
    seq(|es|, i requires 0 <= i < |es| => Row(i + 1, es[i].index, es[i].record))
  }

  // ---- the summary ----

  datatype Summary = Summary(
    totalModels: nat,
    avgOverallScore: real,
    avgMathScore: real,
    avgLogicScore: real,
    bestModel: string,
    bestOverallScore: real,
    bestMathModel: string,
    bestMathScore: real,
    bestLogicModel: string,
    bestLogicScore: real)

  function Sum(results: seq<Record>, m: Metric): real {
    if results == [] then 0.0 else Sum(results[..|results| - 1], m) + MetricOf(results[|results| - 1], m)
  }

  /** The arithmetic mean of a score column. */
  function Mean(results: seq<Record>, m: Metric): real
    requires |results| > 0
  {
    Sum(results, m) / |results| as real
  }

  /** `k` is where the column's maximum first occurs (pandas' `idxmax`). */
  ghost predicate IsFirstMax(results: seq<Record>, m: Metric, k: nat) {
    && k < |results|
    && (forall j :: 0 <= j < |results| ==> MetricOf(results[j], m) <= MetricOf(results[k], m))
    && (forall j :: 0 <= j < k ==> MetricOf(results[j], m) < MetricOf(results[k], m))
  }

  /** The position of the first maximum of a score column. */
  function ArgMax(results: seq<Record>, m: Metric): (k: nat)
    requires |results| > 0
    ensures IsFirstMax(results, m, k)
  {
    if |results| == 1 then 0
    else
      var init := results[..|results| - 1];
      var k := ArgMax(init, m);
      assert forall j :: 0 <= j < |init| ==> init[j] == results[j];
      if MetricOf(results[|results| - 1], m) > MetricOf(results[k], m) then |results| - 1 else k
  }

  /** The first maximum is unique: the summary's best models are determined by the results. */
  lemma FirstMaxUnique(results: seq<Record>, m: Metric, k1: nat, k2: nat)
    requires IsFirstMax(results, m, k1) && IsFirstMax(results, m, k2)
    ensures k1 == k2
  {
    assert MetricOf(results[k1], m) == MetricOf(results[k2], m);
  }

  /** A column whose values are all at most `hi` sums to at most `n * hi`. */
  lemma {:induction false} SumAtMost(results: seq<Record>, m: Metric, hi: real)
    requires forall j :: 0 <= j < |results| ==> MetricOf(results[j], m) <= hi
    ensures Sum(results, m) <= |results| as real * hi
  {
    if results != [] {
      var init := results[..|results| - 1];
      assert forall j :: 0 <= j < |init| ==> init[j] == results[j];
      SumAtMost(init, m, hi);
      assert |results| as real * hi == |init| as real * hi + hi;
    }
  }

  /** When every overall score is the mean of its two scores, the overall column sums to the mean of the two column sums. */
  lemma {:induction false} SumOfMeans(results: seq<Record>)
    requires OverallIsMean(results)
    ensures Sum(results, Overall) == (Sum(results, Math) + Sum(results, Logic)) / 2.0
  {
    if results != [] {
      var init := results[..|results| - 1];
      assert forall j :: 0 <= j < |init| ==> init[j] == results[j];
      SumOfMeans(init);
    }
  }

  /** The average overall score is the mean of the average math and logic scores. */
  lemma MeanOfMeans(results: seq<Record>)
    requires |results| > 0
    ensures OverallIsMean(results) ==> Mean(results, Overall) == (Mean(results, Math) + Mean(results, Logic)) / 2.0
  {
    if OverallIsMean(results) {
      SumOfMeans(results);
      var n := |results| as real;
      assert (Sum(results, Math) + Sum(results, Logic)) / 2.0 / n == (Sum(results, Math) / n + Sum(results, Logic) / n) / 2.0;
    }
  }

  /** The mean of a column is at most the column's maximum. */
  lemma MeanAtMost(results: seq<Record>, m: Metric, hi: real)
    requires |results| > 0
    requires forall j :: 0 <= j < |results| ==> MetricOf(results[j], m) <= hi
    ensures Mean(results, m) <= hi
  {
    SumAtMost(results, m, hi);
    var n := |results| as real;
    var s := Sum(results, m);
    assert s / n * n == s;
  }

  /** The summary of a list of records: `None` for an empty list. */
  function Summarize(results: seq<Record>): (s: Option<Summary>)
    ensures s.None? <==> results == []
    ensures s.Some? ==> s.value.totalModels == |results|
  {
    if results == [] then None
    else
      var best, bestMath, bestLogic := ArgMax(results, Overall), ArgMax(results, Math), ArgMax(results, Logic);
      Some(Summary(
        |results|,
        Mean(results, Overall), Mean(results, Math), Mean(results, Logic),
        results[best].modelName, results[best].overallScore,
        results[bestMath].modelName, results[bestMath].mathScore,
        results[bestLogic].modelName, results[bestLogic].logicScore))
  }

  /**
   * Each best model of the summary is the first record attaining the maximum of its score,
   * the paired score is that maximum, and each average lies between the column's extremes.
   */
  lemma SummaryBest(results: seq<Record>)
    requires results != []
    ensures var s := Summarize(results).value;
      && (exists k: nat :: IsFirstMax(results, Overall, k) && s.bestModel == results[k].modelName && s.bestOverallScore == results[k].overallScore)
      && (exists k: nat :: IsFirstMax(results, Math, k) && s.bestMathModel == results[k].modelName && s.bestMathScore == results[k].mathScore)
      && (exists k: nat :: IsFirstMax(results, Logic, k) && s.bestLogicModel == results[k].modelName && s.bestLogicScore == results[k].logicScore)
      && s.avgOverallScore <= s.bestOverallScore
      && s.avgMathScore <= s.bestMathScore
      && s.avgLogicScore <= s.bestLogicScore
  {
    var s := Summarize(results).value;
    var best, bestMath, bestLogic := ArgMax(results, Overall), ArgMax(results, Math), ArgMax(results, Logic);
    assert IsFirstMax(results, Overall, best);
    assert IsFirstMax(results, Math, bestMath);
    assert IsFirstMax(results, Logic, bestLogic);
    MeanAtMost(results, Overall, s.bestOverallScore);
    MeanAtMost(results, Math, s.bestMathScore);
    MeanAtMost(results, Logic, s.bestLogicScore);
  }

  // ---- the evaluator object ----

  class Evaluator {
    /** Every record added so far, in the order added. */
    var results: seq<Record>

    ghost predicate Valid()
      reads this
    {
      OverallIsMean(results)
    }

    constructor()
      ensures results == []
      ensures Valid()
    {
      results := [];
    }

    /** Appends one record; earlier records, including ones with the same model name, are kept as they are. */
    method AddResult(modelName: string, parameters: Option<int>, math: TaskReport, logic: TaskReport, timestamp: string)
      requires Valid()
      modifies this
      ensures results == old(results) + [NewRecord(modelName, parameters, math, logic, timestamp)]
      ensures Valid()
    {
      var mathScore := math.score.GetOr(0.0);
      var logicScore := logic.score.GetOr(0.0);
      var result := Record(modelName, parameters.GetOr(0),
                           mathScore, math.correctAnswers.GetOr(0), math.totalQuestions.GetOr(0),
                           logicScore, logic.correctAnswers.GetOr(0), logic.totalQuestions.GetOr(0),
                           timestamp, 0.0);
      result := result.(overallScore := (result.mathScore + result.logicScore) / 2.0);
      results := results + [result];
    }

    /**
     * The leaderboard: every record exactly once, highest overall score first, ranks 1..n;
     * equal scores keep the order they were added in. No results give an empty table.
     */
    function GenerateLeaderboard(): (board: seq<Row>)
      reads this
      ensures |board| == |results|
      ensures forall i :: 0 <= i < |board| ==> board[i].rank == i + 1
      ensures forall i :: 0 <= i < |board| ==> board[i].index < |results| && board[i].record == results[board[i].index]
      ensures forall i, j :: 0 <= i < j < |board| ==> board[i].index != board[j].index
      ensures forall i, j :: 0 <= i < j < |board| ==> board[i].record.overallScore >= board[j].record.overallScore
      ensures forall i, j :: 0 <= i < j < |board| && board[i].record.overallScore == board[j].record.overallScore ==>
                board[i].index < board[j].index
    {
      var sorted := Sort(Enumerate(results));
      RankedEntries(results, sorted);
      Rank(sorted)
    }

    /** The summary statistics; `None` when nothing has been added. */
    function GetSummary(): (s: Option<Summary>)
      reads this
      ensures s.None? <==> results == []
      ensures s.Some? ==> s.value.totalModels == |results|
      ensures s.Some? ==> s.value.avgOverallScore == Mean(results, Overall)
                          && s.value.avgMathScore == Mean(results, Math)
                          && s.value.avgLogicScore == Mean(results, Logic)
      ensures s.Some? ==> exists k: nat :: IsFirstMax(results, Overall, k)
                            && s.value.bestModel == results[k].modelName && s.value.bestOverallScore == results[k].overallScore
      ensures s.Some? ==> exists k: nat :: IsFirstMax(results, Math, k)
                            && s.value.bestMathModel == results[k].modelName && s.value.bestMathScore == results[k].mathScore
      ensures s.Some? ==> exists k: nat :: IsFirstMax(results, Logic, k)
                            && s.value.bestLogicModel == results[k].modelName && s.value.bestLogicScore == results[k].logicScore
      ensures Valid() && s.Some? ==> s.value.avgOverallScore == (s.value.avgMathScore + s.value.avgLogicScore) / 2.0
    {
      if results == [] then None
      else
        SummaryBest(results);
        MeanOfMeans(results);
        Summarize(results)
    }
  }
}
