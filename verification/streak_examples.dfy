/**
  The streak pass on small fixed patterns of Run days, for every choice of
  activities with those days and every date reader (`Load` uses `LocalDay`).
*/
module StreakExamples {
  import opened Wrappers
  import opened Streak
  import Dates

  /** Helper: a Run at the head of the list is emitted with the streak its step gives. */
  lemma RunStep(read: DateReader, acts: seq<Activity>, t: Tally, s: int, out: seq<Annotated>)
    requires |acts| > 0 && IsRun(acts[0])
    requires Advance(read, t, acts[0]) == Success(Tally(read(acts[0]), s))
    requires LoadFrom(read, acts[1..], Tally(read(acts[0]), s)) == Success(out)
    ensures LoadFrom(read, acts, t) == Success([Annotated(acts[0], s)] + out)
  {
  }

  /** Runs on days d, d+1, d+1 and d+3: a same-day repeat holds, a gap resets. */
  lemma SameDayHoldsGapResets(read: DateReader, a1: Activity, a2: Activity, a3: Activity, a4: Activity, d: int)
    requires IsRun(a1) && IsRun(a2) && IsRun(a3) && IsRun(a4)
    requires read(a1) == Some(d) && read(a2) == Some(d + 1)
    requires read(a3) == Some(d + 1) && read(a4) == Some(d + 3)
    requires 1 <= d && d + 3 <= Dates.MaxOrdinal
    ensures LoadFrom(read, [a1, a2, a3, a4], Start)
              == Success([Annotated(a1, 1), Annotated(a2, 2), Annotated(a3, 2), Annotated(a4, 1)])
  {
    var acts := [a1, a2, a3, a4];
    var x1, x2, x3, x4 := Annotated(a1, 1), Annotated(a2, 2), Annotated(a3, 2), Annotated(a4, 1);
    assert LoadFrom(read, acts[4..], Tally(Some(d + 3), 1)) == Success([]);
    RunStep(read, acts[3..], Tally(Some(d + 1), 2), 1, []);
    assert [x4] + [] == [x4];
    RunStep(read, acts[2..], Tally(Some(d + 1), 2), 2, [x4]);
    assert [x3] + [x4] == [x3, x4];
    RunStep(read, acts[1..], Tally(Some(d), 1), 2, [x3, x4]);
    assert [x2] + [x3, x4] == [x2, x3, x4];
    RunStep(read, acts, Start, 1, [x2, x3, x4]);
    assert [x1] + [x2, x3, x4] == [x1, x2, x3, x4];
  }

  /** A non-Run between Runs on consecutive days is dropped and does not break the streak. */
  lemma OtherTypeDoesNotBreakStreak(read: DateReader, a1: Activity, ride: Activity, a2: Activity, d: int)
    requires IsRun(a1) && !IsRun(ride) && IsRun(a2)
    requires read(a1) == Some(d) && read(a2) == Some(d + 1)
    requires 1 <= d && d + 1 <= Dates.MaxOrdinal
    ensures LoadFrom(read, [a1, ride, a2], Start) == Success([Annotated(a1, 1), Annotated(a2, 2)])
  {
    var acts := [a1, ride, a2];
    var x1, x2 := Annotated(a1, 1), Annotated(a2, 2);
    assert LoadFrom(read, acts[3..], Tally(Some(d + 1), 2)) == Success([]);
    RunStep(read, acts[2..], Tally(Some(d), 1), 2, []);
    assert [x2] + [] == [x2];
    assert LoadFrom(read, acts[1..], Tally(Some(d), 1)) == Success([x2]);
    RunStep(read, acts, Start, 1, [x2]);
    assert [x1] + [x2] == [x1, x2];
  }

  /**
    A Run dated before the previous one makes the pass raise on that Run: the
    assertion fails, unless the previous Run is on 9999-12-31, where adding a
    day overflows first.
  */
  lemma BackwardsDateRaises(read: DateReader, a1: Activity, a2: Activity, d: int, e: int)
    requires IsRun(a1) && IsRun(a2)
    requires read(a1) == Some(d) && read(a2) == Some(e) && e < d
    ensures LoadFrom(read, [a1, a2], Start)
              == Failure(if d == Dates.MaxOrdinal then DateOverflow(a2.id) else OutOfOrder(a2.id))
  {
  }
}
