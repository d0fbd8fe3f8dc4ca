/**
 * The streaks page: every streak, and today's streak log rows. A status
 * change always targets today's date, updates the row for that streak and
 * replaces the page's copy of the streak with the one the server answers with.
 */
module StreaksPage {
  import opened Domain
  import opened ClientLists

  class StreaksView {
    var streaks: seq<Streak>
    var logs: seq<LogRow>

    /** `fetchData`: all streaks, unfiltered, and today's rows. */
    constructor (streaks: seq<Streak>, logs: seq<LogRow>)
      ensures this.streaks == streaks && this.logs == logs
    {
      this.streaks := streaks;
      this.logs := logs;
    }

    /** `getStatus`: the first row's status for the streak, UNTRACKED when it has none. */
    function Status(streakId: Id): (r: StreakStatus)
      reads this
      ensures KeyIndex(logs, streakId) == -1 ==> r == Untracked
      ensures KeyIndex(logs, streakId) >= 0 ==> r == logs[KeyIndex(logs, streakId)].status
    {
      StatusOf(logs, streakId, Untracked)
    }

    /**
     * `handleUpdateStatus`: the streak's row gets the new status (or is
     * appended) and one log for `today`, the clock's day as `yyyy-MM-dd`, is sent.
     */
    method UpdateStatus(streakId: Id, status: StreakStatus, today: string) returns (req: LogRequest)
      modifies this`logs
      ensures logs == WithStatus(old(logs), streakId, status)
      ensures req == LogBody(Some(streakId), Some(today), Some(StatusText(status)))
    {
      logs := ReplaceOrAppend(logs, streakId, status);
      req := LogBody(Some(streakId), Some(today), Some(StatusText(status)));
    }

    /** The server's answer: a body with a streak replaces the page's streak with that id; an error changes nothing. */
    method ReceiveStreak(resp: Response<LogResult>)
      modifies this`streaks
      ensures resp.Ok? ==> streaks == ReplaceStreak(old(streaks), resp.body.streak)
      ensures !resp.Ok? ==> streaks == old(streaks)
    {
      if resp.Ok? {
        streaks := ReplaceStreak(streaks, resp.body.streak);
      }
    }
  }
}
