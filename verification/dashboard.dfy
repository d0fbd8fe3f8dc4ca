/**
 * The dashboard page's state for the selected day and its handlers: a habit
 * status change updates the day's entries and the local score and sends the
 * whole day to `POST /api/days`; a streak status change updates the day's
 * streak rows and sends one log to `POST /api/streaks/log`; the streak the
 * server answers with replaces the page's copy.
 */
module DashboardPage {
  import opened Domain
  import opened Scoring
  import opened ClientLists

  /** The day log as the page holds it. */
  datatype DayView = DayView(id: string, date: string, totalScore: int, entries: seq<HabitEntry>)

  class Dashboard {
    /** The selected day, already formatted as `yyyy-MM-dd`. */
    var selectedDate: string
    var habits: seq<Habit>
    var streaks: seq<Streak>
    var dayLog: Option<DayView>
    var streakLogs: seq<LogRow>

    /** The page before its first load: nothing fetched yet. */
    constructor (selectedDate: string)
      ensures this.selectedDate == selectedDate
      ensures habits == [] && streaks == [] && dayLog == None && streakLogs == []
    {
      this.selectedDate := selectedDate;
      habits := [];
      streaks := [];
      dayLog := None;
      streakLogs := [];
    }

    /** `fetchData`: keeps only the active habits and streaks, and the day's log and streak rows as fetched. */
    method Load(allHabits: seq<Habit>, allStreaks: seq<Streak>, day: Option<DayView>, rows: seq<LogRow>)
      modifies this`habits, this`streaks, this`dayLog, this`streakLogs
      ensures habits == ActiveHabits(allHabits) && streaks == ActiveStreaks(allStreaks)
      ensures dayLog == day && streakLogs == rows
      ensures forall h :: h in habits ==> h.isActive
    {
      habits := ActiveHabits(allHabits);
      streaks := ActiveStreaks(allStreaks);
      dayLog := day;
      streakLogs := rows;
    }

    /** `getHabitStatus`: the habit's status in the day's entries, UNTRACKED when it has none. */
    function HabitStatusOf(habitId: Id): (r: HabitStatus)
      reads this
      ensures dayLog.None? ==> r == UntrackedHabit
      ensures dayLog.Some? && KeyIndex(dayLog.value.entries, habitId) == -1 ==> r == UntrackedHabit
      ensures dayLog.Some? && KeyIndex(dayLog.value.entries, habitId) >= 0 ==>
                r == dayLog.value.entries[KeyIndex(dayLog.value.entries, habitId)].status
    {
      match dayLog
      case None => UntrackedHabit
      case Some(d) => StatusOf(d.entries, habitId, UntrackedHabit)
    }

    /** `getStreakStatus`: the streak's status in the day's rows, UNTRACKED when it has none. */
    function StreakStatusOf(streakId: Id): (r: StreakStatus)
      reads this
      ensures KeyIndex(streakLogs, streakId) == -1 ==> r == Untracked
      ensures KeyIndex(streakLogs, streakId) >= 0 ==> r == streakLogs[KeyIndex(streakLogs, streakId)].status
    {
      StatusOf(streakLogs, streakId, Untracked)
    }

    /**
     * `handleStatusChange`: the habit's entry gets the new status (or is
     * appended), the score is recomputed over the page's active habits, the
     * log keeps its id (or takes "temp" when it had none) and the whole day is
     * sent to the server.
     */
    method HandleStatusChange(habitId: Id, status: HabitStatus) returns (req: DayRequest)
      modifies this`dayLog
      ensures var entries := WithStatus(if old(dayLog).Some? then old(dayLog).value.entries else [], habitId, status);
              && req == DayBody(selectedDate, entries)
              && dayLog == Some(DayView(
                   if old(dayLog).Some? && old(dayLog).value.id != "" then old(dayLog).value.id else "temp",
                   selectedDate, Score(habits, entries), entries))
    {
      var currentEntries := if dayLog.Some? then dayLog.value.entries else [];
      var newEntries := ReplaceOrAppend(currentEntries, habitId, status);
      var newScore := ScoreEntries(habits, newEntries);
      var id := if dayLog.Some? && dayLog.value.id != "" then dayLog.value.id else "temp";
      dayLog := Some(DayView(id, selectedDate, newScore, newEntries));
      req := DayBody(selectedDate, newEntries);
    }

    /** `handleStreakUpdate`: the streak's row gets the new status (or is appended) and one log is sent. */
    method HandleStreakUpdate(streakId: Id, status: StreakStatus) returns (req: LogRequest)
      modifies this`streakLogs
      ensures streakLogs == WithStatus(old(streakLogs), streakId, status)
      ensures req == LogBody(Some(streakId), Some(selectedDate), Some(StatusText(status)))
    {
      streakLogs := ReplaceOrAppend(streakLogs, streakId, status);
      req := LogBody(Some(streakId), Some(selectedDate), Some(StatusText(status)));
    }

    /** The server's answer: a body with a streak replaces the page's streak with that id; an error changes nothing. */
    method ReceiveStreak(resp: Response<LogResult>)
      modifies this`streaks
      ensures resp.Ok? ==> streaks == ReplaceStreak(old(streaks), resp.body.streak)
      ensures !resp.Ok? ==> streaks == old(streaks)
    {
      if resp.Ok? {
        streaks := ReplaceStreak(streaks, resp.body.streak);
      }
    }
  }

  /**
   * After a status change the page shows the new status for that habit, and
   * the local score is the server's score for the same entries whenever every
   * habit they name is active or unknown.
   */
  lemma StatusChangeAgreesWithServer(allHabits: seq<Habit>, entries: seq<HabitEntry>, habitId: Id, status: HabitStatus)
    requires var entries' := WithStatus(entries, habitId, status);
             forall e :: e in entries' ==> (FindHabit(allHabits, e.id).Some? ==> FindHabit(allHabits, e.id).value.isActive)
    ensures StatusOf(WithStatus(entries, habitId, status), habitId, UntrackedHabit) == status
    ensures Score(ActiveHabits(allHabits), WithStatus(entries, habitId, status)) == Score(allHabits, WithStatus(entries, habitId, status))
  {
    LookupAfterWithStatus(entries, habitId, status, UntrackedHabit);
    ScoreActiveAgrees(allHabits, WithStatus(entries, habitId, status));
  }
}
