/**
 * The entities shared by the habit tracker's API routes and pages:
 * habits and their daily entries, streaks and their daily logs, the
 * request bodies the pages send and the responses the routes send back.
 */
module Domain {

  datatype Option<T> = None | Some(value: T) {
    function GetOr(default: T): T {
      match this
      case Some(v) => v
      case None => default
    }
  }

  type Id = string

  /** A calendar day, counted in days from 1970-01-01 (day 0). */
  type Day = int

  /** The day `new Date('1970-01-01')` stands for. */
  const Epoch: Day := 0

  /** JavaScript truthiness of an optional string field: absent and "" are both falsy. */
  predicate Present(s: Option<string>) {
    s.Some? && s.value != ""
  }

  datatype HabitCategory = Good | Bad
  datatype HabitStatus = Completed | Missed | Skipped | UntrackedHabit

  datatype Habit = Habit(
    id: Id,
    name: string,
    category: HabitCategory,
    points: int,
    missedPoints: int,
    isActive: bool)

  /**
   * A status keyed by the id of what it is about: `{ habitId, status }` for a
   * habit entry, `{ streakId, status }` for a streak log row held by a page.
   */
  datatype Keyed<S> = Keyed(id: Id, status: S)

  type HabitEntry = Keyed<HabitStatus>

  /** A stored day log: one per normalised day, holding that day's entries. */
  datatype DayLog = DayLog(date: Day, totalScore: int, entries: seq<HabitEntry>)

  datatype StreakType = Avoid | Maintain
  datatype StreakStatus = Followed | Broken | Skip | Untracked

  /** The text a page sends for a streak status. */
  function StatusText(s: StreakStatus): string {
    match s
    case Followed => "FOLLOWED"
    case Broken => "BROKEN"
    case Skip => "SKIP"
    case Untracked => "UNTRACKED"
  }

  /** The status texts a streak log may be written with; anything else, UNTRACKED included, is refused. */
  function ParseLoggableStatus(s: string): (r: Option<StreakStatus>)
    ensures r.Some? <==> s in {"FOLLOWED", "BROKEN", "SKIP"}
    ensures r.Some? ==> r.value != Untracked && StatusText(r.value) == s
  {
    if s == "FOLLOWED" then Some(Followed)
    else if s == "BROKEN" then Some(Broken)
    else if s == "SKIP" then Some(Skip)
    else None
  }

  /** Sending a status and parsing it back gives the status, except UNTRACKED, which is refused. */
  lemma StatusTextRoundTrip(s: StreakStatus)
    ensures ParseLoggableStatus(StatusText(s)) == if s == Untracked then None else Some(s)
  {
  }

  datatype Streak = Streak(
    id: Id,
    name: string,
    description: Option<string>,
    kind: StreakType,
    isActive: bool,
    currentStreak: int,
    highestStreak: int,
    lastBrokenDate: Option<Day>,
    startDate: int,
    createdAt: int)

  /** A stored streak log row. */
  datatype StreakLog = StreakLog(streakId: Id, date: Day, status: StreakStatus)

  /**
   * The body of `POST /api/streaks/log`. MalformedLogBody is a body that is
   * not JSON (an empty body included); NullLogBody is the JSON `null`, which
   * parses but cannot be destructured.
   */
  datatype LogRequest =
    | MalformedLogBody
    | NullLogBody
    | LogBody(streakId: Option<string>, date: Option<string>, status: Option<string>)

  /** The body of a successful `POST /api/streaks/log`. */
  datatype LogResult = LogResult(log: StreakLog, streak: Streak)

  /** The body of `POST /api/days`: the whole day's entries. */
  datatype DayRequest =
    | MalformedDayBody
    | DayBody(date: string, entries: seq<HabitEntry>)

  /** The body of `POST /api/streaks`; a missing or null `isActive` is None. */
  datatype StreakRequest =
    | MalformedStreakBody
    | StreakBody(name: string, description: Option<string>, kind: StreakType, isActive: Option<bool>)

  /** A row of `GET /api/history`: the day log's ISO date text and its score. */
  datatype HistoryRow = HistoryRow(date: string, totalScore: int)

  /** What a route answers: a JSON body, or an error with its HTTP status. */
  datatype Response<T> =
    | Ok(body: T)
    | BadRequest(message: string)    // HTTP 400
    | ServerError(message: string)   // HTTP 500

  /** Picks an element of a non-empty set. */
  lemma SomeElement<T>(s: set<T>) returns (y: T)
    requires s != {}
    ensures y in s
  {
    y :| y in s;
  }

  /** Every non-empty finite set of integers has a least element. */
  lemma {:induction false} LeastExists(s: set<int>)
    requires s != {}
    ensures exists m :: m in s && forall x :: x in s ==> m <= x
  {
    var y := SomeElement(s);
    var rest := s - {y};
    if rest == {} {
      assert s == {y};
      assert forall x :: x in s ==> y <= x;
    } else {
      LeastExists(rest);
      var m: int :| m in rest && forall x :: x in rest ==> m <= x;
      if y < m {
        assert forall x :: x in s ==> x == y || x in rest;
      } else {
        assert m in s && forall x :: x in s ==> x == y || x in rest;
      }
    }
  }
}
