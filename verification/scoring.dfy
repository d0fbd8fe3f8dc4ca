/**
 * The daily score: every entry adds the points of its habit when COMPLETED,
 * the habit's missed points when MISSED, and nothing otherwise or when no
 * habit has the entry's id. The server sums over all habits; the dashboard
 * sums the same way over the active habits it shows.
 */
module Scoring {
  import opened Domain

  /** `habits.find(h => h.id === id)`: the first habit with that id, if any. */
  function FindHabit(habits: seq<Habit>, id: Id): (r: Option<Habit>)
    ensures r.None? <==> forall j :: 0 <= j < |habits| ==> habits[j].id != id
    ensures r.Some? ==> exists i :: 0 <= i < |habits| && habits[i] == r.value && r.value.id == id &&
                          forall j :: 0 <= j < i ==> habits[j].id != id
  {
    if habits == [] then None
    else if habits[0].id == id then Some(habits[0])
    else
      var r := FindHabit(habits[1..], id);
      assert r.Some? ==> exists i :: 1 <= i < |habits| && habits[i] == r.value && r.value.id == id &&
                          forall j :: 0 <= j < i ==> habits[j].id != id by {
        if r.Some? {
          var k :| 0 <= k < |habits[1..]| && habits[1..][k] == r.value && r.value.id == id &&
                   forall j :: 0 <= j < k ==> habits[1..][j].id != id;
          assert habits[k + 1] == r.value;
        }
      }
      r
  }

  /** What one entry adds to the day's score. */
  function EntryPoints(habits: seq<Habit>, e: HabitEntry): (r: int)
    ensures r != 0 ==> (e.status == Completed || e.status == Missed) &&
                       exists i :: 0 <= i < |habits| && habits[i].id == e.id
    ensures e.status == Completed && FindHabit(habits, e.id).Some? ==> r == FindHabit(habits, e.id).value.points
    ensures e.status == Missed && FindHabit(habits, e.id).Some? ==> r == FindHabit(habits, e.id).value.missedPoints
  {
    match FindHabit(habits, e.id)
    case None => 0
    case Some(h) =>
      if e.status == Completed then h.points
      else if e.status == Missed then h.missedPoints
      else 0
  }

  /** The day's score: the entries' points added up from 0, first entry first. */
  function Score(habits: seq<Habit>, entries: seq<HabitEntry>): (r: int)
    ensures (forall i :: 0 <= i < |entries| ==> entries[i].status != Completed && entries[i].status != Missed) ==> r == 0
    ensures (forall i :: 0 <= i < |entries| ==> EntryPoints(habits, entries[i]) >= 0) ==> r >= 0
  {
    if entries == [] then 0
    else Score(habits, entries[..|entries| - 1]) + EntryPoints(habits, entries[|entries| - 1])
  }

  /** The `for` loop that accumulates `totalScore +=` over the entries. */
  method ScoreEntries(habits: seq<Habit>, entries: seq<HabitEntry>) returns (total: int)
    ensures total == Score(habits, entries)
  {
    total := 0;
    for i := 0 to |entries|
      invariant total == Score(habits, entries[..i])
    {
      var entry := entries[i];
      var habit := FindHabit(habits, entry.id);
      if habit.Some? {
        if entry.status == Completed {
          total := total + habit.value.points;
        } else if entry.status == Missed {
          total := total + habit.value.missedPoints;
        }
      }
      assert entries[..i + 1][..i] == entries[..i];
    }
    assert entries[..|entries|] == entries;
  }

  /** The score of two lists of entries is the sum of their scores. */
  lemma {:induction false} ScoreConcat(habits: seq<Habit>, a: seq<HabitEntry>, b: seq<HabitEntry>)
    ensures Score(habits, a + b) == Score(habits, a) + Score(habits, b)
  {
    if b == [] {
      assert a + b == a;
    } else {
      var n := |b| - 1;
      assert (a + b)[..|a + b| - 1] == a + b[..n];
      assert (a + b)[|a + b| - 1] == b[n];
      ScoreConcat(habits, a, b[..n]);
    }
  }

  /** Taking one entry out of a list takes exactly its points out of the score. */
  lemma ScoreRemoveAt(habits: seq<Habit>, b: seq<HabitEntry>, j: nat)
    requires j < |b|
    ensures Score(habits, b) == Score(habits, b[..j] + b[j + 1..]) + EntryPoints(habits, b[j])
  {
    assert b == b[..j] + [b[j]] + b[j + 1..];
    ScoreConcat(habits, b[..j] + [b[j]], b[j + 1..]);
    ScoreConcat(habits, b[..j], b[j + 1..]);
    assert (b[..j] + [b[j]])[..j] == b[..j];
  }

  /** Removing the same element from two lists with equal multisets leaves equal multisets. */
  lemma MultisetRemove(a: seq<HabitEntry>, b: seq<HabitEntry>, j: nat)
    requires multiset(a) == multiset(b) && a != [] && j < |b| && b[j] == a[|a| - 1]
    ensures multiset(a[..|a| - 1]) == multiset(b[..j] + b[j + 1..])
  {
    var n := |a| - 1;
    assert a == a[..n] + [a[n]];
    assert b == b[..j] + [b[j]] + b[j + 1..];
    assert multiset(a) == multiset(a[..n]) + multiset{a[n]};
    assert multiset(b) == multiset(b[..j]) + multiset{b[j]} + multiset(b[j + 1..]);
    assert multiset(b[..j] + b[j + 1..]) == multiset(b[..j]) + multiset(b[j + 1..]);
    var x, y := multiset(a[..n]), multiset(b[..j] + b[j + 1..]);
    assert x + multiset{a[n]} == y + multiset{a[n]};
    forall z ensures x[z] == y[z] {
      assert (x + multiset{a[n]})[z] == (y + multiset{a[n]})[z];
    }
    assert x == y;
  }

  /** The score does not depend on the order of the entries. */
  lemma {:induction false} ScorePermutation(habits: seq<Habit>, a: seq<HabitEntry>, b: seq<HabitEntry>)
    requires multiset(a) == multiset(b)
    ensures Score(habits, a) == Score(habits, b)
    decreases |a|
  {
    if a == [] {
      assert |b| == |multiset(b)| == 0;
    } else {
      var n := |a| - 1;
      assert a[n] in multiset(b);
      var j :| 0 <= j < |b| && b[j] == a[n];
      MultisetRemove(a, b, j);
      ScorePermutation(habits, a[..n], b[..j] + b[j + 1..]);
      ScoreRemoveAt(habits, b, j);
    }
  }

  /**
   * An entry that scores nothing (SKIPPED, UNTRACKED, or for a habit that
   * does not exist) can be added anywhere without changing the score.
   */
  lemma ScoreIgnoresNeutralEntry(habits: seq<Habit>, a: seq<HabitEntry>, e: HabitEntry, b: seq<HabitEntry>)
    requires (e.status != Completed && e.status != Missed) || FindHabit(habits, e.id).None?
    ensures Score(habits, a + [e] + b) == Score(habits, a + b)
  {
    ScoreConcat(habits, a + [e], b);
    ScoreConcat(habits, a, b);
    assert (a + [e])[..|a|] == a;
  }

  /** `habits.filter(h => h.isActive)`. */
  function ActiveHabits(habits: seq<Habit>): (r: seq<Habit>)
    ensures |r| <= |habits|
    ensures forall h :: h in r <==> h in habits && h.isActive
  {
    if habits == [] then []
    else (if habits[0].isActive then [habits[0]] else []) + ActiveHabits(habits[1..])
  }

  /** Filtering out inactive habits does not change the lookup of a habit whose first match is active. */
  lemma {:induction false} FindActiveHabit(habits: seq<Habit>, id: Id)
    requires FindHabit(habits, id).Some? ==> FindHabit(habits, id).value.isActive
    ensures FindHabit(ActiveHabits(habits), id) == FindHabit(habits, id)
  {
    if habits != [] {
      var rest := ActiveHabits(habits[1..]);
      if habits[0].id != id {
        FindActiveHabit(habits[1..], id);
        if habits[0].isActive {
          assert ActiveHabits(habits) == [habits[0]] + rest;
          assert ([habits[0]] + rest)[1..] == rest;
        } else {
          assert ActiveHabits(habits) == rest;
        }
      } else {
        assert ActiveHabits(habits) == [habits[0]] + rest;
      }
    }
  }

  /**
   * The dashboard's local score (over active habits) equals the server's
   * score (over all habits) when every entry's habit, if it exists, is active.
   */
  lemma {:induction false} ScoreActiveAgrees(habits: seq<Habit>, entries: seq<HabitEntry>)
    requires forall e :: e in entries ==> (FindHabit(habits, e.id).Some? ==> FindHabit(habits, e.id).value.isActive)
    ensures Score(ActiveHabits(habits), entries) == Score(habits, entries)
  {
    if entries != [] {
      var n := |entries| - 1;
      assert forall e :: e in entries[..n] ==> e in entries;
      ScoreActiveAgrees(habits, entries[..n]);
      FindActiveHabit(habits, entries[n].id);
      assert EntryPoints(ActiveHabits(habits), entries[n]) == EntryPoints(habits, entries[n]);
    }
  }
}
