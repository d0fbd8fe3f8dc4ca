/**
 * The keyed lists the pages hold in memory: a day's habit entries
 * `{ habitId, status }` and a day's streak log rows `{ streakId, status }`.
 * The pages look a status up with `find`, default to UNTRACKED, and change
 * one with a replace-or-append on the first entry with the same id.
 */
module ClientLists {
  import opened Domain

  /** A streak log row as a page holds it: only `streakId` and `status` are read. */
  type LogRow = Keyed<StreakStatus>

  /** No id occurs twice. */
  predicate UniqueIds<S>(xs: seq<Keyed<S>>) {
    forall i, j :: 0 <= i < j < |xs| ==> xs[i].id != xs[j].id
  }

  /** `findIndex(x => x.id === id)`: the first position holding `id`, or -1. */
  function KeyIndex<S>(xs: seq<Keyed<S>>, id: Id): (r: int)
    ensures -1 <= r < |xs|
    ensures r == -1 <==> forall j :: 0 <= j < |xs| ==> xs[j].id != id
    ensures r >= 0 ==> xs[r].id == id && forall j :: 0 <= j < r ==> xs[j].id != id
  {
    if xs == [] then -1
    else if xs[0].id == id then 0
    else
      var k := KeyIndex(xs[1..], id);
      if k == -1 then -1 else k + 1
  }

  /**
   * `find(x => x.id === id)?.status || absent`: the status of the first entry
   * with that id, or `absent` when there is none.
   */
  function StatusOf<S>(xs: seq<Keyed<S>>, id: Id, absent: S): (r: S)
    ensures KeyIndex(xs, id) == -1 ==> r == absent
    ensures KeyIndex(xs, id) >= 0 ==> r == xs[KeyIndex(xs, id)].status
  {
    if xs == [] then absent
    else if xs[0].id == id then xs[0].status
    else StatusOf(xs[1..], id, absent)
  }

  /**
   * The list after giving `id` the status `s`: the first entry with that id
   * gets the new status in place, and when there is none one entry is
   * appended at the end. Every other entry keeps its place and its status.
   */
  function WithStatus<S>(xs: seq<Keyed<S>>, id: Id, s: S): (r: seq<Keyed<S>>)
    ensures KeyIndex(xs, id) >= 0 ==> |r| == |xs| && r[KeyIndex(xs, id)] == Keyed(id, s)
    ensures KeyIndex(xs, id) == -1 ==> |r| == |xs| + 1 && r[|xs|] == Keyed(id, s)
    ensures forall j :: 0 <= j < |xs| && j != KeyIndex(xs, id) ==> r[j] == xs[j]
  {
    if xs == [] then [Keyed(id, s)]
    else if xs[0].id == id then [Keyed(id, s)] + xs[1..]
    else [xs[0]] + WithStatus(xs[1..], id, s)
  }

  /**
   * The pages' copy-then-assign-or-push: `[...xs]`, then
   * `ys[index] = { ...ys[index], status }` or `ys.push({ id, status })`.
   */
  method ReplaceOrAppend<S>(xs: seq<Keyed<S>>, id: Id, s: S) returns (ys: seq<Keyed<S>>)
    ensures ys == WithStatus(xs, id, s)
  {
    ys := xs;
    var index := KeyIndex(ys, id);
    if index >= 0 {
      ys := ys[index := ys[index].(status := s)];
    } else {
      ys := ys + [Keyed(id, s)];
    }
  }

  /** After the update, looking `id` up gives the new status. */
  lemma LookupAfterWithStatus<S>(xs: seq<Keyed<S>>, id: Id, s: S, absent: S)
    ensures StatusOf(WithStatus(xs, id, s), id, absent) == s
  {
  }

  /** The update leaves every other id's lookup as it was. */
  lemma {:induction false} LookupOtherAfterWithStatus<S>(xs: seq<Keyed<S>>, id: Id, s: S, other: Id, absent: S)
    requires other != id
    ensures StatusOf(WithStatus(xs, id, s), other, absent) == StatusOf(xs, other, absent)
  {
    if xs != [] && xs[0].id != id {
      var rest := WithStatus(xs[1..], id, s);
      assert WithStatus(xs, id, s) == [xs[0]] + rest;
      assert ([xs[0]] + rest)[1..] == rest;
      LookupOtherAfterWithStatus(xs[1..], id, s, other, absent);
    } else if xs != [] {
      assert WithStatus(xs, id, s)[1..] == xs[1..];
    }
  }

  /** Giving an id the same status twice is the same as once. */
  lemma WithStatusIdempotent<S>(xs: seq<Keyed<S>>, id: Id, s: S)
    ensures WithStatus(WithStatus(xs, id, s), id, s) == WithStatus(xs, id, s)
  {
  }

  /** Of two updates to the same id only the second one shows. */
  lemma WithStatusLastWins<S>(xs: seq<Keyed<S>>, id: Id, s1: S, s2: S)
    ensures WithStatus(WithStatus(xs, id, s1), id, s2) == WithStatus(xs, id, s2)
  {
  }

  /** An update keeps ids unique: the list grows only when the id was absent. */
  lemma WithStatusKeepsUnique<S>(xs: seq<Keyed<S>>, id: Id, s: S)
    requires UniqueIds(xs)
    ensures UniqueIds(WithStatus(xs, id, s))
  {
  }

  /**
   * `streaks.map(s => s.id === updated.id ? updated : s)`: the streak with
   * the updated one's id becomes the updated streak; every other one stays.
   */
  function ReplaceStreak(streaks: seq<Streak>, updated: Streak): (r: seq<Streak>)
    ensures |r| == |streaks|
    ensures forall i :: 0 <= i < |r| && streaks[i].id == updated.id ==> r[i] == updated
    ensures forall i :: 0 <= i < |r| && streaks[i].id != updated.id ==> r[i] == streaks[i]
  {
    if streaks == [] then []
    else [if streaks[0].id == updated.id then updated else streaks[0]] + ReplaceStreak(streaks[1..], updated)
  }

  /** A response about a streak the page does not list changes nothing. */
  lemma ReplaceAbsentStreak(streaks: seq<Streak>, updated: Streak)
    requires forall i :: 0 <= i < |streaks| ==> streaks[i].id != updated.id
    ensures ReplaceStreak(streaks, updated) == streaks
  {
  }

  /** `streaks.filter(s => s.isActive)`. */
  function ActiveStreaks(streaks: seq<Streak>): (r: seq<Streak>)
    ensures |r| <= |streaks|
    ensures forall s :: s in r <==> s in streaks && s.isActive
  {
    if streaks == [] then []
    else (if streaks[0].isActive then [streaks[0]] else []) + ActiveStreaks(streaks[1..])
  }
}
