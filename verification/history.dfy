/**
 * The history page: a month calendar whose cells are shaded by the day's
 * score, found in the score history by the day's `yyyy-MM-dd` text.
 */
module History {
  import opened Domain

  /** `getScore`: the score of the first history row whose date text starts with the day's text, else null. */
  function ScoreFor(history: seq<HistoryRow>, dayText: string): (r: Option<int>)
    ensures r.None? <==> forall j :: 0 <= j < |history| ==> !(dayText <= history[j].date)
    ensures r.Some? ==> exists i :: 0 <= i < |history| && dayText <= history[i].date &&
                          r.value == history[i].totalScore &&
                          forall j :: 0 <= j < i ==> !(dayText <= history[j].date)
  {
    if history == [] then None
    else if dayText <= history[0].date then Some(history[0].totalScore)
    else
      var r := ScoreFor(history[1..], dayText);
      assert r.Some? ==> exists i :: 1 <= i < |history| && dayText <= history[i].date &&
                          r.value == history[i].totalScore &&
                          forall j :: 0 <= j < i ==> !(dayText <= history[j].date) by {
        if r.Some? {
          var k :| 0 <= k < |history[1..]| && dayText <= history[1..][k].date &&
                   r.value == history[1..][k].totalScore &&
                   forall j :: 0 <= j < k ==> !(dayText <= history[1..][j].date);
          assert history[k + 1] == history[1..][k];
          forall j | 0 <= j < k + 1 ensures !(dayText <= history[j].date) {
            if j > 0 {
              assert history[j] == history[1..][j - 1];
            }
          }
        }
      }
      r
  }

  /** How a day cell is shaded. */
  datatype Shade = NoData | PositiveDay | NegativeDay | NeutralDay

  /** The cell's shade: no data first, then positive, negative, and a score of 0 last. */
  function Classify(score: Option<int>): (r: Shade)
    ensures r == NoData <==> score.None?
    ensures r == PositiveDay <==> score.Some? && score.value > 0
    ensures r == NegativeDay <==> score.Some? && score.value < 0
    ensures r == NeutralDay <==> score == Some(0)
  {
    if score.None? then NoData
    else if score.value > 0 then PositiveDay
    else if score.value < 0 then NegativeDay
    else NeutralDay
  }

  /** The "Score:" tooltip is drawn exactly for the cells that have data, a score of 0 included. */
  function ShowsTooltip(score: Option<int>): (r: bool)
    ensures r <==> Classify(score) != NoData
  {
    score != None
  }

  /** `getDay`: 0 for Sunday to 6 for Saturday; 1970-01-01 (day 0) was a Thursday. */
  function Weekday(d: Day): (r: int)
    ensures 0 <= r < 7
  {
    (d + 4) % 7
  }

  /** Day 0 is a Thursday, and each next day is the next weekday, Saturday wrapping round to Sunday. */
  lemma WeekdaySuccessor(d: Day)
    ensures Weekday(Epoch) == 4
    ensures Weekday(d + 1) == (Weekday(d) + 1) % 7
  {
  }

  /** A calendar grid cell: a blank before the first day, or a day with its score. */
  datatype Cell = Blank | DayCell(day: Day, score: Option<int>)

  /**
   * The month grid, seven columns from Sunday: one blank per weekday before
   * the month's first day (`Array(getDay(monthStart))`), then one cell per
   * day with that day's score. `format` turns a day into its `yyyy-MM-dd` text.
   */
  function MonthCells(monthStart: Day, monthLength: nat, history: seq<HistoryRow>, format: Day -> string): (r: seq<Cell>)
    ensures |r| == Weekday(monthStart) + monthLength
    ensures forall i :: 0 <= i < Weekday(monthStart) ==> r[i] == Blank
    ensures forall i :: Weekday(monthStart) <= i < |r| ==>
              var day := monthStart + (i - Weekday(monthStart));
              r[i] == DayCell(day, ScoreFor(history, format(day)))
  {
    seq(Weekday(monthStart), _ => Blank) +
    seq(monthLength, k => DayCell(monthStart + k, ScoreFor(history, format(monthStart + k))))
  }

  /** Every day of the month lands in the column of its own weekday. */
  lemma DayInItsColumn(monthStart: Day, monthLength: nat, history: seq<HistoryRow>, format: Day -> string, i: nat)
    requires Weekday(monthStart) <= i < Weekday(monthStart) + monthLength
    ensures var cells := MonthCells(monthStart, monthLength, history, format);
            cells[i].DayCell? && i % 7 == Weekday(cells[i].day)
  {
  }
}
