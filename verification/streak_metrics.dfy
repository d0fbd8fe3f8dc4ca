/**
 * How a streak's metrics follow from its logs. The current streak is the
 * number of FOLLOWED days strictly after the last break (or after
 * 1970-01-01 when there has been none); BROKEN zeroes it and moves the last
 * break forward, never back; the highest streak is only ever raised.
 */
module StreakMetrics {
  import opened Domain

  /** The table of streak logs, keyed by (streakId, day): one status per streak and day. */
  type LogKey = (Id, Day)
  type LogTable = map<LogKey, StreakStatus>

  /** The lower bound the route counts from when there is no break: `lastBreak || new Date('1970-01-01')`. */
  function CountAfterAsWritten(lastBrokenDate: Option<Day>): Day {
    lastBrokenDate.GetOr(Epoch)
  }

  /**
   * The days on which `streakId` has a FOLLOWED log dated strictly after
   * `after`, or on any day when `after` is None.
   */
  function FollowedDays(logs: LogTable, streakId: Id, after: Option<Day>): (r: set<Day>)
    ensures forall d :: d in r <==>
      (streakId, d) in logs && logs[(streakId, d)] == Followed && (after.None? || d > after.value)
  {
    set k | k in logs && k.0 == streakId && logs[k] == Followed && (after.None? || k.1 > after.value) :: k.1
  }

  /** The count query: how many FOLLOWED logs `streakId` has after `after`. */
  function FollowedCount(logs: LogTable, streakId: Id, after: Option<Day>): (r: nat)
    ensures r == 0 <==> forall d :: (streakId, d) in logs && logs[(streakId, d)] == Followed ==>
                          !(after.None? || d > after.value)
  {
    |FollowedDays(logs, streakId, after)|
  }

  /** `b` is a bound no earlier than `a`: absent may become present, present never moves back. */
  predicate NotEarlier(a: Option<Day>, b: Option<Day>) {
    a.Some? ==> b.Some? && b.value >= a.value
  }

  lemma SubsetCount(a: set<Day>, b: set<Day>)
    requires a <= b
    ensures |a| <= |b|
  {
    assert b == a + (b - a);
  }

  /** A later lower bound counts no more days. */
  lemma CountAntitone(logs: LogTable, streakId: Id, after1: Option<Day>, after2: Option<Day>)
    requires NotEarlier(after1, after2)
    ensures FollowedCount(logs, streakId, after2) <= FollowedCount(logs, streakId, after1)
  {
    SubsetCount(FollowedDays(logs, streakId, after2), FollowedDays(logs, streakId, after1));
  }

  /** Overwriting one of a streak's logs with anything but FOLLOWED never raises its count. */
  lemma CountAfterOverwrite(logs: LogTable, streakId: Id, day: Day, status: StreakStatus, after: Option<Day>)
    requires status != Followed
    ensures FollowedCount(logs[(streakId, day) := status], streakId, after) <= FollowedCount(logs, streakId, after)
  {
    SubsetCount(FollowedDays(logs[(streakId, day) := status], streakId, after), FollowedDays(logs, streakId, after));
  }

  /** Writing FOLLOWED on a counted day that was not FOLLOWED raises the count by exactly one. */
  lemma CountAfterFollow(logs: LogTable, streakId: Id, day: Day, after: Option<Day>)
    requires after.None? || day > after.value
    requires (streakId, day) !in logs || logs[(streakId, day)] != Followed
    ensures FollowedCount(logs[(streakId, day) := Followed], streakId, after) == FollowedCount(logs, streakId, after) + 1
  {
    var logs' := logs[(streakId, day) := Followed];
    var before := FollowedDays(logs, streakId, after);
    var now := FollowedDays(logs', streakId, after);
    assert day !in before;
    forall d ensures d in now <==> d in before || d == day {
      if d != day {
        assert (streakId, d) in logs' <==> (streakId, d) in logs;
      }
    }
    assert now == before + {day};
  }

  /** A write on the break day itself does not change the count after that break. */
  lemma CountIgnoresBreakDay(logs: LogTable, streakId: Id, breakDay: Day, status: StreakStatus)
    ensures FollowedCount(logs[(streakId, breakDay) := status], streakId, Some(breakDay))
         == FollowedCount(logs, streakId, Some(breakDay))
  {
    var now := FollowedDays(logs[(streakId, breakDay) := status], streakId, Some(breakDay));
    var before := FollowedDays(logs, streakId, Some(breakDay));
    forall d ensures d in now <==> d in before {
    }
    assert now == before;
  }

  /** A write for one streak does not change another streak's count. */
  lemma CountOtherStreak(logs: LogTable, streakId: Id, day: Day, status: StreakStatus, other: Id, after: Option<Day>)
    requires other != streakId
    ensures FollowedCount(logs[(streakId, day) := status], other, after) == FollowedCount(logs, other, after)
  {
    var now := FollowedDays(logs[(streakId, day) := status], other, after);
    var before := FollowedDays(logs, other, after);
    forall d ensures d in now <==> d in before {
    }
    assert now == before;
  }

  /** `!streak.lastBrokenDate || date > streak.lastBrokenDate`: the break date after a BROKEN log for `day`. */
  function LaterBreak(lastBrokenDate: Option<Day>, day: Day): (r: Option<Day>)
    ensures r.Some? && r.value >= day
    ensures NotEarlier(lastBrokenDate, r)
    ensures r == lastBrokenDate || r == Some(day)
    ensures r == Some(day) <==> lastBrokenDate.None? || lastBrokenDate.value <= day
  {
    if lastBrokenDate.None? || day > lastBrokenDate.value then Some(day) else lastBrokenDate
  }

  /**
   * The if/else chain on the status, with the FOLLOWED count taken after
   * `after`: the streak record after a log for `day` with `status` has been
   * upserted into `logs` (which already holds it).
   */
  function RecomputeFrom(s: Streak, logs: LogTable, status: StreakStatus, day: Day, after: Option<Day>): (r: Streak)
    ensures r == s.(currentStreak := r.currentStreak, highestStreak := r.highestStreak, lastBrokenDate := r.lastBrokenDate)
    ensures status == Broken ==> r.currentStreak == 0 && r.lastBrokenDate == LaterBreak(s.lastBrokenDate, day)
    ensures NotEarlier(s.lastBrokenDate, r.lastBrokenDate)
    ensures status != Broken ==> r.lastBrokenDate == s.lastBrokenDate
    ensures r.highestStreak >= s.highestStreak
    ensures status != Followed ==> r.highestStreak == s.highestStreak
    ensures status == Followed || status == Skip ==> r.currentStreak == FollowedCount(logs, s.id, after)
    ensures status == Followed ==> r.highestStreak >= r.currentStreak
    ensures status == Followed ==>
              r.highestStreak == if r.currentStreak > s.highestStreak then r.currentStreak else s.highestStreak
    ensures r.highestStreak > s.highestStreak ==> status == Followed && r.highestStreak == r.currentStreak
    ensures status == Untracked ==> r == s
  {
    match status
    case Broken =>
      s.(currentStreak := 0, lastBrokenDate := LaterBreak(s.lastBrokenDate, day))
    case Followed =>
      var count := FollowedCount(logs, s.id, after);
      s.(currentStreak := count, highestStreak := if count > s.highestStreak then count else s.highestStreak)
    case Skip =>
      s.(currentStreak := FollowedCount(logs, s.id, after))
    case Untracked =>
      s
  }

  /** The route's recount as written: after the last break, or after 1970-01-01 when there is none. */
  function RecomputeAsWritten(s: Streak, logs: LogTable, status: StreakStatus, day: Day): (r: Streak)
    ensures status == Followed || status == Skip ==>
              r.currentStreak == FollowedCount(logs, s.id, Some(s.lastBrokenDate.GetOr(Epoch)))
    ensures status == Broken ==> r.currentStreak == 0 && r.lastBrokenDate.Some? && r.lastBrokenDate.value >= day
  {
    RecomputeFrom(s, logs, status, day, Some(CountAfterAsWritten(s.lastBrokenDate)))
  }

  /** The recount as intended: after the last break, or from the start of time when there is none. */
  function Recompute(s: Streak, logs: LogTable, status: StreakStatus, day: Day): (r: Streak)
    ensures status == Followed || status == Skip ==> r.currentStreak == FollowedCount(logs, s.id, s.lastBrokenDate)
    ensures status == Broken ==> r.currentStreak == 0 && r.lastBrokenDate.Some? && r.lastBrokenDate.value >= day
  {
    RecomputeFrom(s, logs, status, day, s.lastBrokenDate)
  }

  /** The two recounts differ only for a streak with no break and a FOLLOWED log on or before 1970-01-01. */
  lemma AsWrittenAgrees(s: Streak, logs: LogTable, status: StreakStatus, day: Day)
    requires s.lastBrokenDate.Some? || forall d :: (s.id, d) in logs && logs[(s.id, d)] == Followed ==> d > Epoch
    ensures RecomputeAsWritten(s, logs, status, day) == Recompute(s, logs, status, day)
  {
    if s.lastBrokenDate.None? {
      var a := FollowedDays(logs, s.id, None);
      var b := FollowedDays(logs, s.id, Some(Epoch));
      forall d ensures d in a <==> d in b {
      }
      assert a == b;
    }
  }

  /** One write: upsert the log for (streak, day), then recompute the streak from the new table. */
  function Write(s: Streak, logs: LogTable, status: StreakStatus, day: Day): (r: (Streak, LogTable))
    ensures r.1.Keys == logs.Keys + {(s.id, day)} && r.1[(s.id, day)] == status
    ensures forall k :: k in logs && k != (s.id, day) ==> r.1[k] == logs[k]
    ensures r.0.id == s.id && r.0.name == s.name && r.0.createdAt == s.createdAt
  {
    var logs' := logs[(s.id, day) := status];
    (Recompute(s, logs', status, day), logs')
  }

  /** One write as the route performs it. */
  function WriteAsWritten(s: Streak, logs: LogTable, status: StreakStatus, day: Day): (r: (Streak, LogTable))
    ensures r.1 == Write(s, logs, status, day).1
    ensures r.0.lastBrokenDate == Write(s, logs, status, day).0.lastBrokenDate
    ensures r.0 == Write(s, logs, status, day).0.(currentStreak := r.0.currentStreak, highestStreak := r.0.highestStreak)
    ensures status != Followed ==> r.0.highestStreak == Write(s, logs, status, day).0.highestStreak
  {
    var logs' := logs[(s.id, day) := status];
    (RecomputeAsWritten(s, logs', status, day), logs')
  }

  /**
   * The invariant every stored streak keeps: its current streak never exceeds
   * the FOLLOWED days since its last break, which never exceed its highest streak.
   */
  predicate Consistent(s: Streak, logs: LogTable) {
    0 <= s.currentStreak <= FollowedCount(logs, s.id, s.lastBrokenDate) <= s.highestStreak
  }

  /** A new streak (0/0, no break) with no logs yet is consistent. */
  lemma InitialConsistent(s: Streak, logs: LogTable)
    requires s.currentStreak == 0 && s.highestStreak == 0 && s.lastBrokenDate.None?
    requires forall k :: k in logs ==> k.0 != s.id
    ensures Consistent(s, logs)
  {
  }

  /** Every FOLLOWED, BROKEN or SKIP write keeps the streak consistent. */
  lemma {:induction false} WritePreservesConsistent(s: Streak, logs: LogTable, status: StreakStatus, day: Day)
    requires Consistent(s, logs) && status != Untracked
    ensures Consistent(Write(s, logs, status, day).0, Write(s, logs, status, day).1)
  {
    var logs' := logs[(s.id, day) := status];
    var r := Recompute(s, logs', status, day);
    if status == Broken {
      CountAfterOverwrite(logs, s.id, day, status, s.lastBrokenDate);
      CountAntitone(logs', s.id, s.lastBrokenDate, r.lastBrokenDate);
    } else if status == Skip {
      CountAfterOverwrite(logs, s.id, day, status, s.lastBrokenDate);
    }
  }

  /** A write for one streak keeps every other streak consistent. */
  lemma WriteKeepsOthersConsistent(t: Streak, logs: LogTable, streakId: Id, day: Day, status: StreakStatus)
    requires Consistent(t, logs) && t.id != streakId
    ensures Consistent(t, logs[(streakId, day) := status])
  {
    CountOtherStreak(logs, streakId, day, status, t.id, t.lastBrokenDate);
  }

  /** Repeating a write changes nothing: each write is idempotent. */
  lemma WriteIdempotent(s: Streak, logs: LogTable, status: StreakStatus, day: Day)
    ensures var (s1, logs1) := Write(s, logs, status, day); Write(s1, logs1, status, day) == (s1, logs1)
  {
    var (s1, logs1) := Write(s, logs, status, day);
    assert logs1[(s.id, day) := status] == logs1;
  }

  /** Many writes to one streak, applied in order. */
  function WriteAll(s: Streak, logs: LogTable, writes: seq<(StreakStatus, Day)>): (r: (Streak, LogTable))
    ensures r.0.id == s.id && logs.Keys <= r.1.Keys
    ensures forall i :: 0 <= i < |writes| ==> (s.id, writes[i].1) in r.1
    ensures writes != [] ==> r.1[(s.id, writes[|writes| - 1].1)] == writes[|writes| - 1].0
    ensures forall i :: 0 <= i < |writes| && LastOfDay(writes, i) ==> r.1[(s.id, writes[i].1)] == writes[i].0
    ensures forall k :: k in logs && Unwritten(s.id, writes, k) ==> r.1[k] == logs[k]
    decreases |writes|
  {
    if writes == [] then (s, logs)
    else
      var (s1, logs1) := Write(s, logs, writes[0].0, writes[0].1);
      var r := WriteAll(s1, logs1, writes[1..]);
      LastWriteWins(s.id, logs1, writes, r.1);
      UnwrittenKept(s.id, logs, logs1, writes, r.1);
      r
  }

  /** No write after the `i`-th names the `i`-th write's day. */
  predicate LastOfDay(writes: seq<(StreakStatus, Day)>, i: int)
    requires 0 <= i < |writes|
  {
    forall j :: i < j < |writes| ==> writes[j].1 != writes[i].1
  }

  /** No write of the sequence names the log key `k` of streak `id`. */
  predicate Unwritten(id: Id, writes: seq<(StreakStatus, Day)>, k: LogKey) {
    k.0 != id || forall j :: 0 <= j < |writes| ==> writes[j].1 != k.1
  }

  /** Every write that is the last of its day left its status in `t`. */
  predicate LastWritesHeld(id: Id, writes: seq<(StreakStatus, Day)>, t: LogTable) {
    forall i :: 0 <= i < |writes| && LastOfDay(writes, i) ==> (id, writes[i].1) in t && t[(id, writes[i].1)] == writes[i].0
  }

  /** Every log of `logs` that no write names is in `t` with the same status. */
  predicate KeptFrom(id: Id, writes: seq<(StreakStatus, Day)>, logs: LogTable, t: LogTable) {
    forall k :: k in logs && Unwritten(id, writes, k) ==> k in t && t[k] == logs[k]
  }

  /**
   * The step behind `WriteAll`'s last-write clause: the first write, when no
   * later one names its day, survives the rest of the sequence; a later write
   * is the last of its day in the rest exactly when it is in the whole.
   */
  lemma {:induction false} LastWriteWins(id: Id, logs1: LogTable, writes: seq<(StreakStatus, Day)>, final: LogTable)
    requires writes != [] && logs1.Keys <= final.Keys
    requires (id, writes[0].1) in logs1 && logs1[(id, writes[0].1)] == writes[0].0
    requires LastWritesHeld(id, writes[1..], final) && KeptFrom(id, writes[1..], logs1, final)
    ensures LastWritesHeld(id, writes, final)
  {
    var rest := writes[1..];
    forall i | 0 <= i < |writes| && LastOfDay(writes, i)
      ensures (id, writes[i].1) in final && final[(id, writes[i].1)] == writes[i].0
    {
      if i == 0 {
        forall j | 0 <= j < |rest| ensures rest[j].1 != writes[0].1 {
          assert rest[j] == writes[j + 1];
        }
        assert Unwritten(id, rest, (id, writes[0].1));
      } else {
        assert rest[i - 1] == writes[i];
        forall j | i - 1 < j < |rest| ensures rest[j].1 != rest[i - 1].1 {
          assert rest[j] == writes[j + 1];
        }
        assert LastOfDay(rest, i - 1);
      }
    }
  }

  /** The step behind `WriteAll`'s unwritten-logs clause: a log no write names survives the first write and the rest. */
  lemma {:induction false} UnwrittenKept(id: Id, logs: LogTable, logs1: LogTable, writes: seq<(StreakStatus, Day)>, final: LogTable)
    requires writes != []
    requires forall k :: k in logs && k != (id, writes[0].1) ==> k in logs1 && logs1[k] == logs[k]
    requires KeptFrom(id, writes[1..], logs1, final)
    ensures KeptFrom(id, writes, logs, final)
  {
  }

  /**
   * Across any sequence of valid writes, starting from a consistent streak:
   * the streak stays consistent (so `currentStreak <= highestStreak`), the
   * highest streak never decreases, and the last break never moves back.
   */
  lemma {:induction false} WriteAllInvariant(s: Streak, logs: LogTable, writes: seq<(StreakStatus, Day)>)
    requires Consistent(s, logs)
    requires forall i :: 0 <= i < |writes| ==> writes[i].0 != Untracked
    ensures var (r, logs') := WriteAll(s, logs, writes);
      Consistent(r, logs') && r.currentStreak <= r.highestStreak && r.id == s.id &&
      r.highestStreak >= s.highestStreak && NotEarlier(s.lastBrokenDate, r.lastBrokenDate)
    decreases |writes|
  {
    if writes != [] {
      var (s1, logs1) := Write(s, logs, writes[0].0, writes[0].1);
      WritePreservesConsistent(s, logs, writes[0].0, writes[0].1);
      WriteAllInvariant(s1, logs1, writes[1..]);
    }
  }

  /**
   * As written, a new streak can end with `currentStreak > highestStreak`:
   * FOLLOWED on 1969-12-30 is not counted (not after 1970-01-01), BROKEN on
   * 1969-12-25 then becomes the last break, and a SKIP recounts the
   * FOLLOWED day, which now lies after it.
   */
  lemma AsWrittenExceedsHighest()
    ensures var s0 := Streak("s", "walk", None, Maintain, true, 0, 0, None, 0, 0);
      var (s1, l1) := WriteAsWritten(s0, map[], Followed, -2);
      var (s2, l2) := WriteAsWritten(s1, l1, Broken, -7);
      var (s3, l3) := WriteAsWritten(s2, l2, Skip, 5);
      s1.currentStreak == 0 && s1.highestStreak == 0 &&
      s3.currentStreak == 1 && s3.highestStreak == 0
  {
    var s0 := Streak("s", "walk", None, Maintain, true, 0, 0, None, 0, 0);
    var l1: LogTable := map[("s", -2) := Followed];
    assert FollowedDays(l1, "s", Some(Epoch)) == {};
    var s1 := s0;
    var l2 := l1[("s", -7) := Broken];
    var s2 := s1.(lastBrokenDate := Some(-7));
    var l3 := l2[("s", 5) := Skip];
    assert FollowedDays(l3, "s", Some(-7)) == {-2};
  }
}
