/**
 * The API routes over one store: the habit, streak, streak-log and day-log
 * tables, with the routes that create and list streaks, write and read
 * streak logs, and save and read day logs.
 */
module Server {
  import opened Domain
  import opened Scoring
  import opened StreakMetrics

  /**
   * The outcome of checking a streak-log body before anything is written:
   * accepted, rejected with a 400 message, or Thrown when reading the body's
   * fields throws and the route's outer `catch` answers.
   */
  datatype LogCheck =
    | Accepted(streakId: Id, day: Day, status: StreakStatus)
    | Rejected(message: string)
    | Thrown

  /**
   * The checks of `POST /api/streaks/log`, in order: a body that is JSON,
   * then one whose fields can be read (not `null`), then `streakId`, `date` and `status` all present and non-empty, then a
   * status among FOLLOWED, BROKEN and SKIP.
   */
  function CheckLogRequest(req: LogRequest, dayOf: string -> Day): (r: LogCheck)
    ensures req.MalformedLogBody? ==> r == Rejected("Invalid JSON")
    ensures r == Thrown <==> req.NullLogBody?
    ensures req.LogBody? && !(Present(req.streakId) && Present(req.date) && Present(req.status)) ==>
              r == Rejected("Missing required fields")
    ensures req.LogBody? && Present(req.streakId) && Present(req.date) && Present(req.status) ==>
              (r == Rejected("Invalid status") <==> req.status.value !in {"FOLLOWED", "BROKEN", "SKIP"})
    ensures r.Accepted? ==>
              req.LogBody? && r.streakId == req.streakId.value && r.streakId != "" &&
              r.day == dayOf(req.date.value) && r.status != Untracked && StatusText(r.status) == req.status.value
  {
    match req
    case MalformedLogBody => Rejected("Invalid JSON")
    case NullLogBody => Thrown
    case LogBody(streakId, date, status) =>
      if !Present(streakId) || !Present(date) || !Present(status) then Rejected("Missing required fields")
      else
        match ParseLoggableStatus(status.value)
        case None => Rejected("Invalid status")
        case Some(s) => Accepted(streakId.value, dayOf(date.value), s)
  }

  /** A page's status write for a day is accepted exactly when it is not UNTRACKED and names a streak and a day. */
  lemma PageRequestAccepted(streakId: Id, dateText: string, status: StreakStatus, dayOf: string -> Day)
    requires streakId != "" && dateText != ""
    ensures var r := CheckLogRequest(LogBody(Some(streakId), Some(dateText), Some(StatusText(status))), dayOf);
      if status == Untracked then r == Rejected("Invalid status")
      else r == Accepted(streakId, dayOf(dateText), status)
  {
  }

  /** The record `POST /api/streaks` creates: the body's fields, metrics 0/0, no break, `isActive ?? true`. */
  function NewStreak(req: StreakRequest, id: Id, now: int): (s: Streak)
    requires req.StreakBody?
    ensures s.id == id && s.name == req.name && s.description == req.description && s.kind == req.kind
    ensures s.currentStreak == 0 && s.highestStreak == 0 && s.lastBrokenDate.None?
    ensures s.isActive <==> req.isActive != Some(false)
    ensures s.startDate == now && s.createdAt == now
  {
    Streak(id, req.name, req.description, req.kind, req.isActive.GetOr(true), 0, 0, None, now, now)
  }

  /** The day-log table after `POST /api/days` for `day`: the day's log replaced by one holding exactly `entries`. */
  function SaveDay(dayLogs: map<Day, DayLog>, habits: seq<Habit>, day: Day, entries: seq<HabitEntry>): (r: map<Day, DayLog>)
    ensures r.Keys == dayLogs.Keys + {day}
    ensures r[day].date == day && r[day].entries == entries && r[day].totalScore == Score(habits, entries)
    ensures forall d :: d in dayLogs && d != day ==> r[d] == dayLogs[d]
  {
    dayLogs[day := DayLog(day, Score(habits, entries), entries)]
  }

  /** Saving the same day twice leaves the table as saving it once. */
  lemma SaveDayIdempotent(dayLogs: map<Day, DayLog>, habits: seq<Habit>, day: Day, entries: seq<HabitEntry>)
    ensures SaveDay(SaveDay(dayLogs, habits, day, entries), habits, day, entries) == SaveDay(dayLogs, habits, day, entries)
  {
  }

  /** `GET /api/days`: 400 without a date, otherwise the log of the normalised day or null. */
  function LookupDay(dayLogs: map<Day, DayLog>, dateQ: Option<string>, dayOf: string -> Day): (r: Response<Option<DayLog>>)
    ensures !Present(dateQ) ==> r == BadRequest("Date is required")
    ensures Present(dateQ) ==> r.Ok? && (r.body.Some? <==> dayOf(dateQ.value) in dayLogs)
    ensures r.Ok? && r.body.Some? ==> r.body.value == dayLogs[dayOf(dateQ.value)]
  {
    if !Present(dateQ) then BadRequest("Date is required")
    else
      var day := dayOf(dateQ.value);
      if day in dayLogs then Ok(Some(dayLogs[day])) else Ok(None)
  }

  /** A day saved under a date text is read back under that text with its score and exactly its entries. */
  lemma SaveThenLookup(dayLogs: map<Day, DayLog>, habits: seq<Habit>, text: string, entries: seq<HabitEntry>, dayOf: string -> Day)
    requires text != ""
    ensures LookupDay(SaveDay(dayLogs, habits, dayOf(text), entries), Some(text), dayOf)
         == Ok(Some(DayLog(dayOf(text), Score(habits, entries), entries)))
  {
  }

  /** The table key of a log row. */
  function KeyOf(row: StreakLog): LogKey {
    (row.streakId, row.date)
  }

  /** `rows` lists the logs with keys in `sel`, each exactly once and with its stored status. */
  ghost predicate Lists(rows: seq<StreakLog>, logs: LogTable, sel: set<LogKey>) {
    && (forall i :: 0 <= i < |rows| ==> KeyOf(rows[i]) in sel && KeyOf(rows[i]) in logs && logs[KeyOf(rows[i])] == rows[i].status)
    && (forall k :: k in sel ==> exists i :: 0 <= i < |rows| && KeyOf(rows[i]) == k)
    && (forall i, j :: 0 <= i < j < |rows| ==> KeyOf(rows[i]) != KeyOf(rows[j]))
  }

  /**
   * Halfway through `GET /api/streaks/log`: `rows` holds each log of `sel`
   * not in `remaining`, once and with its stored status.
   */
  ghost predicate Gathered(rows: seq<StreakLog>, logs: LogTable, sel: set<LogKey>, remaining: set<LogKey>) {
    && remaining <= sel
    && (forall i :: 0 <= i < |rows| ==>
          KeyOf(rows[i]) in sel && KeyOf(rows[i]) !in remaining && KeyOf(rows[i]) in logs && rows[i].status == logs[KeyOf(rows[i])])
    && (forall k :: k in sel && k !in remaining ==> exists i :: 0 <= i < |rows| && KeyOf(rows[i]) == k)
    && (forall i, j :: 0 <= i < j < |rows| ==> KeyOf(rows[i]) != KeyOf(rows[j]))
  }

  /** `rows` is by date ascending and none is dated after a key still remaining. */
  ghost predicate ByDate(rows: seq<StreakLog>, remaining: set<LogKey>) {
    && (forall i, j :: 0 <= i < j < |rows| ==> rows[i].date <= rows[j].date)
    && (forall i, k :: 0 <= i < |rows| && k in remaining ==> rows[i].date <= k.1)
  }

  /** Appending any remaining log keeps the rows gathered. */
  lemma GatheredStep(rows: seq<StreakLog>, logs: LogTable, sel: set<LogKey>, remaining: set<LogKey>, next: LogKey)
    requires sel <= logs.Keys && Gathered(rows, logs, sel, remaining) && next in remaining
    ensures Gathered(rows + [StreakLog(next.0, next.1, logs[next])], logs, sel, remaining - {next})
  {
    var rows' := rows + [StreakLog(next.0, next.1, logs[next])];
    assert KeyOf(rows'[|rows|]) == next;
    forall i | 0 <= i < |rows|
      ensures rows'[i] == rows[i]
    {
    }
    forall k | k in sel && k !in remaining - {next}
      ensures exists i :: 0 <= i < |rows'| && KeyOf(rows'[i]) == k
    {
      if k != next {
        var i :| 0 <= i < |rows| && KeyOf(rows[i]) == k;
        assert rows'[i] == rows[i];
      }
    }
  }

  /** Appending the earliest remaining key keeps the rows by date. */
  lemma ByDateStep(rows: seq<StreakLog>, remaining: set<LogKey>, next: LogKey, status: StreakStatus)
    requires ByDate(rows, remaining)
    requires next in remaining && forall k :: k in remaining ==> next.1 <= k.1
    ensures ByDate(rows + [StreakLog(next.0, next.1, status)], remaining - {next})
  {
  }

  /** Every streak is stored under its own id. */
  ghost predicate StoredUnderId(streaks: map<Id, Streak>) {
    forall id :: id in streaks ==> streaks[id].id == id
  }

  /** Every stored streak's metrics agree with the logs. */
  ghost predicate AllConsistent(streaks: map<Id, Streak>, logs: LogTable) {
    forall id :: id in streaks ==> Consistent(streaks[id], logs)
  }

  /**
   * Writing a log and recomputing only its own streak (when it exists) keeps
   * every streak consistent and stored under its own id.
   */
  lemma LogWriteKeepsStore(streaks: map<Id, Streak>, logs: LogTable, id: Id, day: Day, status: StreakStatus)
    requires StoredUnderId(streaks) && AllConsistent(streaks, logs) && status != Untracked
    ensures var logs' := logs[(id, day) := status];
      && (id !in streaks ==> AllConsistent(streaks, logs'))
      && (id in streaks ==>
            var streaks' := streaks[id := Recompute(streaks[id], logs', status, day)];
            StoredUnderId(streaks') && AllConsistent(streaks', logs'))
  {
    var logs' := logs[(id, day) := status];
    forall other | other in streaks && other != id
      ensures Consistent(streaks[other], logs')
    {
      WriteKeepsOthersConsistent(streaks[other], logs, id, day, status);
    }
    if id in streaks {
      WritePreservesConsistent(streaks[id], logs, status, day);
    }
  }

  /**
   * Halfway through `GET /api/streaks`: `r` holds each streak not in
   * `remaining`, once.
   */
  ghost predicate Listed(r: seq<Streak>, streaks: map<Id, Streak>, remaining: set<Id>) {
    && remaining <= streaks.Keys
    && |r| + |remaining| == |streaks|
    && (forall i :: 0 <= i < |r| ==> r[i].id in streaks && r[i].id !in remaining && streaks[r[i].id] == r[i])
    && (forall id :: id in streaks && id !in remaining ==> exists i :: 0 <= i < |r| && r[i].id == id)
    && (forall i, j :: 0 <= i < j < |r| ==> r[i].id != r[j].id)
  }

  /** `r` is by creation time and none was created after a streak still remaining. */
  ghost predicate ByCreation(r: seq<Streak>, streaks: map<Id, Streak>, remaining: set<Id>)
    requires remaining <= streaks.Keys
  {
    && (forall i, j :: 0 <= i < j < |r| ==> r[i].createdAt <= r[j].createdAt)
    && (forall i, id :: 0 <= i < |r| && id in remaining ==> r[i].createdAt <= streaks[id].createdAt)
  }

  /** Appending any remaining streak keeps the list complete so far. */
  lemma ListedStep(r: seq<Streak>, streaks: map<Id, Streak>, remaining: set<Id>, next: Id)
    requires StoredUnderId(streaks) && Listed(r, streaks, remaining) && next in remaining
    ensures Listed(r + [streaks[next]], streaks, remaining - {next})
  {
    var r' := r + [streaks[next]];
    assert r'[|r|].id == next;
    forall i | 0 <= i < |r|
      ensures r'[i] == r[i]
    {
    }
    forall id | id in streaks && id !in remaining - {next}
      ensures exists i :: 0 <= i < |r'| && r'[i].id == id
    {
      if id != next {
        var i :| 0 <= i < |r| && r[i].id == id;
        assert r'[i] == r[i];
      }
    }
  }

  /** Appending the earliest-created remaining streak keeps the list by creation time. */
  lemma ByCreationStep(r: seq<Streak>, streaks: map<Id, Streak>, remaining: set<Id>, next: Id)
    requires remaining <= streaks.Keys && ByCreation(r, streaks, remaining)
    requires next in remaining && forall id :: id in remaining ==> streaks[next].createdAt <= streaks[id].createdAt
    ensures ByCreation(r + [streaks[next]], streaks, remaining - {next})
  {
  }

  class Store {
    var habits: seq<Habit>
    var streaks: map<Id, Streak>
    var streakLogs: LogTable
    var dayLogs: map<Day, DayLog>

    /**
     * Every streak is stored under its own id and is consistent with the logs;
     * every day log is stored under its own day and holds the score of its entries.
     * The day-log clause relies on `habits` never changing here: the habit
     * update route, which would rescore nothing, is not part of this model.
     */
    ghost predicate Valid()
      reads this
    {
      && StoredUnderId(streaks)
      && AllConsistent(streaks, streakLogs)
      && (forall d :: d in dayLogs ==> dayLogs[d].date == d && dayLogs[d].totalScore == Score(habits, dayLogs[d].entries))
    }

    /** A store over the given habit table, with no streaks and no logs. */
    constructor (habits: seq<Habit>)
      ensures Valid()
      ensures this.habits == habits && streaks == map[] && streakLogs == map[] && dayLogs == map[]
    {
      this.habits := habits;
      streaks := map[];
      streakLogs := map[];
      dayLogs := map[];
    }

    /**
     * `POST /api/streaks`. The database hands out `id` and the clock gives
     * `now`; a fresh id is one no streak and no log uses yet.
     */
    method CreateStreak(req: StreakRequest, id: Id, now: int) returns (resp: Response<Streak>)
      requires Valid()
      requires id !in streaks && forall k :: k in streakLogs ==> k.0 != id
      modifies this`streaks
      ensures Valid()
      ensures req.MalformedStreakBody? ==> resp == ServerError("Failed to create streak") && streaks == old(streaks)
      ensures req.StreakBody? ==>
                resp == Ok(NewStreak(req, id, now)) && streaks == old(streaks)[id := NewStreak(req, id, now)]
    {
      if req.MalformedStreakBody? {
        resp := ServerError("Failed to create streak");
        return;
      }
      var streak := NewStreak(req, id, now);
      InitialConsistent(streak, streakLogs);
      streaks := streaks[id := streak];
      resp := Ok(streak);
    }

    /** `GET /api/streaks`: every streak once, ordered by `createdAt` ascending. */
    method ListStreaks() returns (r: seq<Streak>)
      requires Valid()
      ensures |r| == |streaks|
      ensures forall i :: 0 <= i < |r| ==> r[i].id in streaks && streaks[r[i].id] == r[i]
      ensures forall id :: id in streaks ==> exists i :: 0 <= i < |r| && r[i].id == id
      ensures forall i, j :: 0 <= i < j < |r| ==> r[i].id != r[j].id
      ensures forall i, j :: 0 <= i < j < |r| ==> r[i].createdAt <= r[j].createdAt
    {
      var remaining := streaks.Keys;
      r := [];
      while remaining != {}
        invariant Listed(r, streaks, remaining) && ByCreation(r, streaks, remaining)
        decreases remaining
      {
        var next := EarliestCreated(remaining);
        ListedStep(r, streaks, remaining, next);
        ByCreationStep(r, streaks, remaining, next);
        r := r + [streaks[next]];
        remaining := remaining - {next};
      }
    }

    /** A streak among `ids` created no later than any other among them. */
    method EarliestCreated(ids: set<Id>) returns (next: Id)
      requires ids != {} && ids <= streaks.Keys
      ensures next in ids && forall id :: id in ids ==> streaks[next].createdAt <= streaks[id].createdAt
    {
      var times := set id | id in ids :: streaks[id].createdAt;
      var some := SomeElement(ids);
      assert streaks[some].createdAt in times;
      LeastExists(times);
      var earliest: int :| earliest in times && forall t :: t in times ==> earliest <= t;
      next :| next in ids && streaks[next].createdAt == earliest;
      forall id | id in ids ensures earliest <= streaks[id].createdAt {
        assert streaks[id].createdAt in times;
      }
    }

    /**
     * `POST /api/streaks/log`: check the body, upsert the log for
     * (streakId, day), then recompute the streak's metrics and write back
     * only `currentStreak`, `highestStreak` and `lastBrokenDate`. The log is
     * written before the streak is looked up, so an unknown streak id leaves
     * the log in place and answers 500.
     */
    method PostStreakLog(req: LogRequest, dayOf: string -> Day) returns (resp: Response<LogResult>)
      requires Valid()
      modifies this`streakLogs, this`streaks
      ensures Valid()
      ensures CheckLogRequest(req, dayOf).Rejected? ==>
                resp == BadRequest(CheckLogRequest(req, dayOf).message) &&
                streakLogs == old(streakLogs) && streaks == old(streaks)
      ensures CheckLogRequest(req, dayOf).Thrown? ==>
                resp == ServerError("Failed to log streak") &&
                streakLogs == old(streakLogs) && streaks == old(streaks)
      ensures CheckLogRequest(req, dayOf).Accepted? ==>
                var Accepted(id, day, status) := CheckLogRequest(req, dayOf);
                streakLogs == old(streakLogs)[(id, day) := status] &&
                if id in old(streaks) then
                  var updated := Recompute(old(streaks)[id], streakLogs, status, day);
                  streaks == old(streaks)[id := updated] && resp == Ok(LogResult(StreakLog(id, day, status), updated))
                else
                  streaks == old(streaks) && resp == ServerError("Failed to log streak")
    {
      var check := CheckLogRequest(req, dayOf);
      if check.Rejected? {
        resp := BadRequest(check.message);
        return;
      } else if check.Thrown? {
        resp := ServerError("Failed to log streak");
        return;
      }
      var streakId, day, status := check.streakId, check.day, check.status;
      LogWriteKeepsStore(streaks, streakLogs, streakId, day, status);

      // 1. Log the entry
      streakLogs := streakLogs[(streakId, day) := status];
      var log := StreakLog(streakId, day, status);

      // 2. Recalculate the streak's metrics
      if streakId !in streaks {
        resp := ServerError("Failed to log streak");
        return;
      }
      var streak := streaks[streakId];
      var newCurrentStreak := streak.currentStreak;
      var newHighestStreak := streak.highestStreak;
      var newLastBroken := streak.lastBrokenDate;
      if status == Broken {
        newCurrentStreak := 0;
        if streak.lastBrokenDate.None? || day > streak.lastBrokenDate.value {
          newLastBroken := Some(day);
        }
      } else if status == Followed {
        var count := FollowedCount(streakLogs, streakId, streak.lastBrokenDate);
        newCurrentStreak := count;
        if newCurrentStreak > newHighestStreak {
          newHighestStreak := newCurrentStreak;
        }
      } else if status == Skip {
        var count := FollowedCount(streakLogs, streakId, streak.lastBrokenDate);
        newCurrentStreak := count;
      }
      var updated := streak.(currentStreak := newCurrentStreak, highestStreak := newHighestStreak,
                             lastBrokenDate := newLastBroken);
      assert updated == Recompute(streak, streakLogs, status, day);
      streaks := streaks[streakId := updated];
      resp := Ok(LogResult(log, updated));
    }

    /**
     * `GET /api/streaks/log`: with a date, that day's logs of every streak;
     * otherwise with a streak id, that streak's logs by date ascending;
     * otherwise nothing.
     */
    method GetStreakLogs(dateQ: Option<string>, streakIdQ: Option<string>, dayOf: string -> Day)
      returns (rows: seq<StreakLog>)
      ensures Present(dateQ) ==> Lists(rows, streakLogs, set k | k in streakLogs && k.1 == dayOf(dateQ.value))
      ensures !Present(dateQ) && Present(streakIdQ) ==>
                Lists(rows, streakLogs, set k | k in streakLogs && k.0 == streakIdQ.value) &&
                forall i, j :: 0 <= i < j < |rows| ==> rows[i].date < rows[j].date
      ensures !Present(dateQ) && !Present(streakIdQ) ==> rows == []
    {
      if Present(dateQ) {
        var day := dayOf(dateQ.value);
        rows := Collect(set k | k in streakLogs && k.1 == day);
      } else if Present(streakIdQ) {
        var streakId := streakIdQ.value;
        rows := Collect(set k | k in streakLogs && k.0 == streakId);
        forall i, j | 0 <= i < j < |rows|
          ensures rows[i].date < rows[j].date
        {
          assert KeyOf(rows[i]) != KeyOf(rows[j]);
        }
      } else {
        rows := [];
      }
    }

    /** The logs with keys in `sel`, each once, by date ascending. */
    method Collect(sel: set<LogKey>) returns (rows: seq<StreakLog>)
      requires sel <= streakLogs.Keys
      ensures Lists(rows, streakLogs, sel)
      ensures forall i, j :: 0 <= i < j < |rows| ==> rows[i].date <= rows[j].date
    {
      var remaining := sel;
      rows := [];
      while remaining != {}
        invariant Gathered(rows, streakLogs, sel, remaining) && ByDate(rows, remaining)
        decreases remaining
      {
        var next := EarliestKey(remaining);
        GatheredStep(rows, streakLogs, sel, remaining, next);
        ByDateStep(rows, remaining, next, streakLogs[next]);
        rows := rows + [StreakLog(next.0, next.1, streakLogs[next])];
        remaining := remaining - {next};
      }
    }

    /** A key among `keys` dated no later than any other among them. */
    static method EarliestKey(keys: set<LogKey>) returns (next: LogKey)
      requires keys != {}
      ensures next in keys && forall k :: k in keys ==> next.1 <= k.1
    {
      var days := set k | k in keys :: k.1;
      var some := SomeElement(keys);
      assert some.1 in days;
      LeastExists(days);
      var earliest: int :| earliest in days && forall d :: d in days ==> earliest <= d;
      next :| next in keys && next.1 == earliest;
      forall k | k in keys ensures earliest <= k.1 {
        assert k.1 in days;
      }
    }

    /**
     * `POST /api/days`: the score summed over ALL habits, inactive ones
     * included, then the day's log created or its entries replaced wholesale.
     */
    method PostDay(req: DayRequest, dayOf: string -> Day) returns (resp: Response<DayLog>)
      requires Valid()
      modifies this`dayLogs
      ensures Valid()
      ensures req.MalformedDayBody? ==> resp == ServerError("Failed to save daily log") && dayLogs == old(dayLogs)
      ensures req.DayBody? ==>
                dayLogs == SaveDay(old(dayLogs), habits, dayOf(req.date), req.entries) &&
                resp == Ok(dayLogs[dayOf(req.date)])
    {
      if req.MalformedDayBody? {
        resp := ServerError("Failed to save daily log");
        return;
      }
      var day := dayOf(req.date);
      var totalScore := ScoreEntries(habits, req.entries);
      if day in dayLogs {
        dayLogs := dayLogs[day := dayLogs[day].(totalScore := totalScore, entries := req.entries)];
      } else {
        dayLogs := dayLogs[day := DayLog(day, totalScore, req.entries)];
      }
      resp := Ok(dayLogs[day]);
    }
  }
}
