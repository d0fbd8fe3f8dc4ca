/**
 * The analytics page: the score history turned into chart rows, and the four
 * summary figures (days tracked, positive days, negative days, lifetime score).
 */
module Analytics {
  import opened Domain

  /** A chart row: the history row's fields plus `score`, a copy of `totalScore`. */
  datatype ChartRow = ChartRow(date: string, totalScore: int, score: int)

  /** `raw.map(r => ({ ...r, score: r.totalScore }))`. */
  function ToChartRows(raw: seq<HistoryRow>): (r: seq<ChartRow>)
    ensures |r| == |raw|
    ensures forall i :: 0 <= i < |r| ==>
              r[i].date == raw[i].date && r[i].totalScore == raw[i].totalScore && r[i].score == raw[i].totalScore
  {
    if raw == [] then []
    else [ChartRow(raw[0].date, raw[0].totalScore, raw[0].totalScore)] + ToChartRows(raw[1..])
  }

  /**
   * The page's data once the history arrives: a missing or empty history
   * leaves the data as it was; otherwise the data becomes the mapped rows.
   */
  function Loaded(data: seq<ChartRow>, raw: Option<seq<HistoryRow>>): (r: seq<ChartRow>)
    ensures raw.None? || raw.value == [] ==> r == data
    ensures raw.Some? && raw.value != [] ==>
              |r| == |raw.value| && forall i :: 0 <= i < |r| ==> r[i].score == raw.value[i].totalScore
    ensures raw.Some? && raw.value != [] ==> r == ToChartRows(raw.value)
  {
    if raw.None? || |raw.value| == 0 then data else ToChartRows(raw.value)
  }

  /** `data.filter(d => d.score > 0).length`: the number of rows whose score is positive. */
  function PositiveDays(data: seq<ChartRow>): (r: nat)
    ensures r <= |data|
    ensures r == |set i | 0 <= i < |data| && data[i].score > 0|
  {
    if data == [] then 0
    else
      var rest := PositiveDays(data[1..]);
      ShiftedCount(data[0].score > 0,
                   set i | 0 <= i < |data[1..]| && data[1..][i].score > 0,
                   set i | 0 <= i < |data| && data[i].score > 0);
      (if data[0].score > 0 then 1 else 0) + rest
  }

  /** `data.filter(d => d.score < 0).length`: the number of rows whose score is negative. */
  function NegativeDays(data: seq<ChartRow>): (r: nat)
    ensures r <= |data|
    ensures r == |set i | 0 <= i < |data| && data[i].score < 0|
  {
    if data == [] then 0
    else
      var rest := NegativeDays(data[1..]);
      ShiftedCount(data[0].score < 0,
                   set i | 0 <= i < |data[1..]| && data[1..][i].score < 0,
                   set i | 0 <= i < |data| && data[i].score < 0);
      (if data[0].score < 0 then 1 else 0) + rest
  }

  /**
   * The positions of a row list that pass a test are the head's position 0
   * when it passes, plus the tail's passing positions moved up by one; so
   * there are as many as the tail has, plus one for a passing head.
   */
  lemma {:induction false} ShiftedCount(head: bool, rest: set<int>, all: set<int>)
    requires forall i :: i in rest ==> i >= 0
    requires forall i :: i in all <==> (i == 0 && head) || (i >= 1 && i - 1 in rest)
    ensures |all| == (if head then 1 else 0) + |rest|
    decreases |rest|
  {
    if rest == {} {
      if head {
        assert 0 in all;
        assert forall i :: i in all ==> i == 0;
        assert all == {0};
      } else {
        assert forall i :: i !in all;
        assert all == {};
      }
    } else {
      var y := SomeElement(rest);
      var rest' := rest - {y};
      var all' := all - {y + 1};
      assert y + 1 in all;
      forall i ensures i in all' <==> (i == 0 && head) || (i >= 1 && i - 1 in rest') {
      }
      ShiftedCount(head, rest', all');
    }
  }

  /** `data.reduce((acc, curr) => acc + curr.score, 0)`: the scores added up from 0, first row first. */
  function LifetimeScore(data: seq<ChartRow>): (r: int)
    ensures (forall i :: 0 <= i < |data| ==> data[i].score >= 0) ==> r >= 0
    ensures (forall i :: 0 <= i < |data| ==> data[i].score <= 0) ==> r <= 0
  {
    if data == [] then 0 else LifetimeScore(data[..|data| - 1]) + data[|data| - 1].score
  }

  /**
   * A day with score 0 is neither positive nor negative, so the two counts
   * add up to the days tracked exactly when no day scored 0.
   */
  lemma {:induction false} PositiveNegativeCover(data: seq<ChartRow>)
    ensures PositiveDays(data) + NegativeDays(data) <= |data|
    ensures PositiveDays(data) + NegativeDays(data) == |data| <==> forall i :: 0 <= i < |data| ==> data[i].score != 0
  {
    if data != [] {
      PositiveNegativeCover(data[1..]);
      assert forall i :: 1 <= i < |data| ==> data[i] == data[1..][i - 1];
    }
  }

  /** The lifetime score of two runs of rows is the sum of theirs. */
  lemma {:induction false} LifetimeConcat(a: seq<ChartRow>, b: seq<ChartRow>)
    ensures LifetimeScore(a + b) == LifetimeScore(a) + LifetimeScore(b)
  {
    if b != [] {
      var n := |b| - 1;
      assert (a + b)[..|a + b| - 1] == a + b[..n];
      assert (a + b)[|a + b| - 1] == b[n];
      LifetimeConcat(a, b[..n]);
    } else {
      assert a + b == a;
    }
  }

  /** A positive lifetime score needs a positive day, and a negative one a negative day. */
  lemma {:induction false} LifetimeSign(data: seq<ChartRow>)
    ensures LifetimeScore(data) > 0 ==> PositiveDays(data) > 0
    ensures LifetimeScore(data) < 0 ==> NegativeDays(data) > 0
  {
    if data != [] {
      LifetimeConcat([data[0]], data[1..]);
      assert [data[0]] + data[1..] == data;
      assert LifetimeScore([data[0]]) == LifetimeScore([]) + data[0].score;
      LifetimeSign(data[1..]);
    }
  }

  /** The lifetime score of the loaded rows is the sum of the history's day scores. */
  lemma {:induction false} LifetimeOfHistory(raw: seq<HistoryRow>)
    ensures LifetimeScore(ToChartRows(raw)) == HistoryTotal(raw)
  {
    if raw != [] {
      var rows := ToChartRows(raw);
      var n := |raw| - 1;
      assert ToChartRows(raw[..n]) == rows[..n] by {
        var lhs := ToChartRows(raw[..n]);
        assert forall i :: 0 <= i < n ==> lhs[i] == rows[i];
      }
      LifetimeOfHistory(raw[..n]);
    }
  }

  /** The history's day scores added up. */
  function HistoryTotal(raw: seq<HistoryRow>): int {
    if raw == [] then 0 else HistoryTotal(raw[..|raw| - 1]) + raw[|raw| - 1].totalScore
  }
}
