/**
  The running-streak pass of `Generator.load`.

  Stored activities arrive ordered by their local start time.  The pass keeps
  only those of type `Run` and annotates each with the number of consecutive
  calendar days, ending on its own date, on which a Run happened.  It is a
  left fold whose state is the previous Run's date and the current streak.
*/
module Streak {
  import opened Wrappers
  import opened Dates
  import LocalStart

  /** The one activity type the pass annotates. */
  const RunType := "Run"

  /**
    A stored activity: its type and local start time, the two columns the pass
    reads, and an `id` the model uses to say which activity an error is about.
  */
  datatype Activity = Activity(id: int, kind: string, startDateLocal: string)

  /** An emitted record: the activity with its derived streak. */
  datatype Annotated = Annotated(activity: Activity, streak: int)

  /**
    Why the pass raises.  Python's exceptions carry no activity; the `id` is a
    tag of the model naming the Run the pass was looking at.
  */
  datatype LoadError =
    | MalformedDate(id: int)  // strptime raises ValueError
    | DateOverflow(id: int)   // last_date + 1 day raises OverflowError
    | OutOfOrder(id: int)     // `assert date > last_date` fails

  /** The fold state: the previous Run's day (`last_date`) and `streak`. */
  datatype Tally = Tally(last: Option<int>, streak: int)

  /** The state before the first activity. */
  const Start := Tally(None, 0)

  predicate IsRun(a: Activity) {
    a.kind == RunType
  }

  /** The local date of an activity as a day ordinal, or `None` where parsing raises. */
  function LocalDay(a: Activity): (r: Option<int>)
    ensures r.Some? ==> 1 <= r.value <= MaxOrdinal
  {
    match LocalStart.ParseDate(a.startDateLocal)
    case None => None
    case Some(d) =>
      OrdinalRange(d);
      Some(ToOrdinal(d))
  }

  /**
    How the fold reads an activity's local date as a day ordinal.  `Load`
    uses `LocalDay`; the fold and its lemmas take the reader as a parameter so
    that they hold for any reader whose days are valid ordinals.
  */
  type DateReader = Activity -> Option<int>

  ghost predicate ReadsValidDays(read: DateReader) {
    forall a :: read(a).Some? ==> read(a).value <= MaxOrdinal
  }

  lemma LocalDayReadsValidDays()
    ensures ReadsValidDays(LocalDay)
  {
  }

  /**
    One Run activity's step of the fold.  It raises exactly when the date does
    not parse or goes back before the previous Run's date.
  */
  function Advance(read: DateReader, t: Tally, a: Activity): (r: Result<Tally, LoadError>)
    ensures r.Success? ==> read(a).Some? && (t.last.Some? ==> t.last.value <= read(a).value)
    ensures (read(a).Some? && read(a).value <= MaxOrdinal && (t.last.Some? ==> t.last.value <= read(a).value))
              ==> r.Success?
    ensures r.Success? ==> r.value.last == read(a)
    ensures r.Success? ==> r.value.streak in {1, t.streak, t.streak + 1}
    ensures r.Success? && t.last.None? ==> r.value.streak == 1
    ensures r.Failure? ==> r.error.id == a.id
    ensures read(a).None? ==> r == Failure(MalformedDate(a.id))
    ensures r.Failure? && read(a).Some? ==>
              && t.last.Some?
              && r.error == (if t.last.value == MaxOrdinal then DateOverflow(a.id) else OutOfOrder(a.id))
  {
    match read(a)
    case None => Failure(MalformedDate(a.id))
    case Some(day) =>
      match t.last
      case None => Success(Tally(Some(day), 1))
      case Some(last) =>
        if day == last then Success(Tally(Some(day), t.streak))
        else if last == MaxOrdinal then Failure(DateOverflow(a.id))
        else if day == last + 1 then Success(Tally(Some(day), t.streak + 1))
        else if day > last then Success(Tally(Some(day), 1))
        else Failure(OutOfOrder(a.id))
  }

  /**
    The fold over the remaining activities from state `t`.  It emits only Run
    activities of the input, each with a positive streak when the state has
    one, and an error names a Run of the input.
  */
  function LoadFrom(read: DateReader, acts: seq<Activity>, t: Tally): (r: Result<seq<Annotated>, LoadError>)
    ensures r.Success? ==> |r.value| <= |acts|
    ensures r.Success? ==> forall i :: 0 <= i < |r.value| ==> r.value[i].activity in acts && IsRun(r.value[i].activity)
    ensures r.Success? && (t.last.Some? ==> t.streak >= 1) ==>
              forall i :: 0 <= i < |r.value| ==> r.value[i].streak >= 1
    ensures r.Failure? ==> exists a :: a in acts && IsRun(a) && a.id == r.error.id
    decreases |acts|
  {
    if |acts| == 0 then Success([])
    else if !IsRun(acts[0]) then LoadFrom(read, acts[1..], t)
    else
      match Advance(read, t, acts[0])
      case Failure(e) => Failure(e)
      case Success(t') =>
        match LoadFrom(read, acts[1..], t')
        case Failure(e) => Failure(e)
        case Success(rest) => Success([Annotated(acts[0], t'.streak)] + rest)
  }

  /** `Generator.load`: the annotated Run activities, or the error the pass raises. */
  function Load(acts: seq<Activity>): (r: Result<seq<Annotated>, LoadError>)
    ensures r.Success? ==> forall i :: 0 <= i < |r.value| ==>
              r.value[i].activity in acts && IsRun(r.value[i].activity) && r.value[i].streak >= 1
    ensures r.Failure? ==> exists a :: a in acts && IsRun(a) && a.id == r.error.id
  {
    LoadFrom(LocalDay, acts, Start)
  }

  // ---------------------------------------------------------------------------
  // Views of sequences

  /** The Run activities, in order. */
  function Runs(acts: seq<Activity>): (rs: seq<Activity>)
    ensures |rs| <= |acts|
    ensures forall a :: a in rs ==> a in acts && IsRun(a)
  {
    if |acts| == 0 then []
    else if IsRun(acts[0]) then [acts[0]] + Runs(acts[1..])
    else Runs(acts[1..])
  }

  function ActivitiesOf(out: seq<Annotated>): (acts: seq<Activity>)
    ensures |acts| == |out| && forall i :: 0 <= i < |out| ==> acts[i] == out[i].activity
  {
    if |out| == 0 then [] else [out[0].activity] + ActivitiesOf(out[1..])
  }

  function StreaksOf(out: seq<Annotated>): (ss: seq<int>)
    ensures |ss| == |out| && forall i :: 0 <= i < |out| ==> ss[i] == out[i].streak
  {
    if |out| == 0 then [] else [out[0].streak] + StreaksOf(out[1..])
  }

  predicate DatesParse(read: DateReader, acts: seq<Activity>) {
    forall i :: 0 <= i < |acts| ==> read(acts[i]).Some?
  }

  /** The day ordinals of activities whose dates all parse. */
  function Days(read: DateReader, acts: seq<Activity>): (ds: seq<int>)
    requires DatesParse(read, acts)
    ensures |ds| == |acts| && forall i :: 0 <= i < |acts| ==> ds[i] == read(acts[i]).value
  {
    if |acts| == 0 then [] else [read(acts[0]).value] + Days(read, acts[1..])
  }

  predicate NonDecreasing(ds: seq<int>) {
    forall i :: 0 < i < |ds| ==> ds[i - 1] <= ds[i]
  }

  /**
    The step rules of the pass, read off a list of Run days `ds` and the
    streaks `ss` given to them: the first Run gets 1; a Run on the same day as
    the previous one keeps its streak; a Run on the next day adds one; a Run
    after a gap starts again at 1; and days never go backwards.
  */
  predicate StreakSteps(ds: seq<int>, ss: seq<int>) {
    && |ds| == |ss|
    && (|ss| > 0 ==> ss[0] == 1)
    && NonDecreasing(ds)
    && (forall i :: 0 < i < |ds| && ds[i] == ds[i - 1] ==> ss[i] == ss[i - 1])
    && (forall i :: 0 < i < |ds| && ds[i] == ds[i - 1] + 1 ==> ss[i] == ss[i - 1] + 1)
    && (forall i :: 0 < i < |ds| && ds[i] > ds[i - 1] + 1 ==> ss[i] == 1)
  }

  /**
    The reference meaning of a streak: the days `d - k + 1 .. d` all occur in
    `days` and the day before them does not, so `k` counts the consecutive
    days ending on `d`.
  */
  ghost predicate ConsecutiveRunEndingAt(days: seq<int>, d: int, k: int) {
    && k >= 1
    && (forall j :: d - k < j <= d ==> j in days)
    && d - k !in days
  }

  // ---------------------------------------------------------------------------
  // Non-Run activities do not matter

  lemma {:induction false} RunsAppend(a: seq<Activity>, b: seq<Activity>)
    ensures Runs(a + b) == Runs(a) + Runs(b)
    decreases |a|
  {
    if |a| > 0 {
      assert (a + b)[1..] == a[1..] + b;
      RunsAppend(a[1..], b);
    } else {
      assert a + b == b;
    }
  }

  /** Dropping every non-Run activity changes nothing, errors included. */
  lemma {:induction false} LoadIgnoresNonRuns(read: DateReader, acts: seq<Activity>, t: Tally)
    ensures LoadFrom(read, acts, t) == LoadFrom(read, Runs(acts), t)
    decreases |acts|
  {
    if |acts| > 0 {
      if IsRun(acts[0]) {
        var rs := Runs(acts);
        assert rs[0] == acts[0] && rs[1..] == Runs(acts[1..]);
        match Advance(read, t, acts[0])
        case Failure(_) =>
        case Success(t') =>
          LoadIgnoresNonRuns(read, acts[1..], t');
      } else {
        LoadIgnoresNonRuns(read, acts[1..], t);
      }
    }
  }

  lemma RunsSkipNonRun(pre: seq<Activity>, x: Activity, post: seq<Activity>)
    requires !IsRun(x)
    ensures Runs(pre + [x] + post) == Runs(pre + post)
  {
    RunsAppend(pre + [x], post);
    RunsAppend(pre, [x]);
    RunsAppend(pre, post);
    assert Runs([x]) == [];
  }

  /**
    Inserting a non-Run activity anywhere leaves the result unchanged: it is
    not emitted and it does not touch `last_date` or `streak`.
  */
  lemma NonRunInsertion(pre: seq<Activity>, x: Activity, post: seq<Activity>)
    requires !IsRun(x)
    ensures Load(pre + [x] + post) == Load(pre + post)
  {
    LoadIgnoresNonRuns(LocalDay, pre + [x] + post, Start);
    LoadIgnoresNonRuns(LocalDay, pre + post, Start);
    RunsSkipNonRun(pre, x, post);
  }

  // ---------------------------------------------------------------------------
  // What a successful pass emits

  /** The state after emitting `x`. */
  function After(read: DateReader, x: Annotated): Tally {
    Tally(read(x.activity), x.streak)
  }

  /** Each emitted record is the fold step from the record before it. */
  lemma {:induction false} LoadFromChain(read: DateReader, acts: seq<Activity>, t: Tally, out: seq<Annotated>)
    requires LoadFrom(read, acts, t) == Success(out)
    ensures ActivitiesOf(out) == Runs(acts)
    ensures |out| > 0 ==> Advance(read, t, out[0].activity) == Success(After(read, out[0]))
    ensures forall i :: 0 < i < |out| ==>
              Advance(read, After(read, out[i - 1]), out[i].activity) == Success(After(read, out[i]))
    decreases |acts|
  {
    if |acts| > 0 {
      if IsRun(acts[0]) {
        var t' := Advance(read, t, acts[0]).value;
        var rest := LoadFrom(read, acts[1..], t').value;
        assert out == [Annotated(acts[0], t'.streak)] + rest;
        LoadFromChain(read, acts[1..], t', rest);
        assert After(read, out[0]) == t';
        assert ActivitiesOf(out) == [acts[0]] + ActivitiesOf(rest);
        forall i | 0 < i < |out|
          ensures Advance(read, After(read, out[i - 1]), out[i].activity) == Success(After(read, out[i]))
        {
          assert out[i] == rest[i - 1];
          if i > 1 {
            assert out[i - 1] == rest[i - 2];
          }
        }
      } else {
        LoadFromChain(read, acts[1..], t, out);
      }
    }
  }

  /** One fold step from a Run on day `p` with streak `s` obeys the step rules. */
  lemma AdvanceFollowsRules(read: DateReader, p: int, s: int, a: Activity, s': int)
    requires Advance(read, Tally(Some(p), s), a) == Success(Tally(read(a), s'))
    ensures read(a).Some?
    ensures p <= read(a).value
    ensures read(a).value == p ==> s' == s
    ensures read(a).value == p + 1 ==> s' == s + 1
    ensures read(a).value > p + 1 ==> s' == 1
  {
  }

  /**
    `Advance` on day ordinals is the step `Generator.load` takes on calendar
    dates, with its tests in their order: the same date, then `last_date + 1
    day` (which overflows past 9999-12-31), then the next date, then the
    assertion `date > last_date`.
  */
  lemma AdvanceIsDateStep(read: DateReader, s: int, a: Activity, last: Date, d: Date)
    requires Valid(last) && Valid(d)
    requires read(a) == Some(ToOrdinal(d))
    ensures Advance(read, Tally(Some(ToOrdinal(last)), s), a) ==
              if d == last then Success(Tally(Some(ToOrdinal(d)), s))
              else if NextDay(last).None? then Failure(DateOverflow(a.id))
              else if d == NextDay(last).value then Success(Tally(Some(ToOrdinal(d)), s + 1))
              else if Before(last, d) then Success(Tally(Some(ToOrdinal(d)), 1))
              else Failure(OutOfOrder(a.id))
  {
    OrdinalOrder(last, d);
    OrdinalRange(last);
    NextDayIsNextOrdinal(last);
    if NextDay(last).Some? {
      OrdinalOrder(d, NextDay(last).value);
    }
  }

  /** Every Run in a chain of successful steps has a day. */
  lemma ChainParses(read: DateReader, out: seq<Annotated>)
    requires |out| > 0 ==> Advance(read, Start, out[0].activity).Success?
    requires forall i :: 0 < i < |out| ==>
               Advance(read, After(read, out[i - 1]), out[i].activity) == Success(After(read, out[i]))
    ensures forall i :: 0 <= i < |out| ==> read(out[i].activity).Some?
  {
    forall i | 0 <= i < |out|
      ensures read(out[i].activity).Some?
    {
      if i > 0 {
        assert Advance(read, After(read, out[i - 1]), out[i].activity).Success?;
      }
    }
  }

  /** A chain of successful steps from the initial state obeys the step rules. */
  lemma ChainFollowsRules(read: DateReader, out: seq<Annotated>, ds: seq<int>)
    requires |out| > 0 ==> Advance(read, Start, out[0].activity) == Success(After(read, out[0]))
    requires forall i :: 0 < i < |out| ==>
               Advance(read, After(read, out[i - 1]), out[i].activity) == Success(After(read, out[i]))
    requires |ds| == |out| && forall i :: 0 <= i < |out| ==> read(out[i].activity) == Some(ds[i])
    ensures StreakSteps(ds, StreaksOf(out))
  {
    var ss := StreaksOf(out);
    forall i | 0 < i < |ds|
      ensures ds[i - 1] <= ds[i]
      ensures ds[i] == ds[i - 1] ==> ss[i] == ss[i - 1]
      ensures ds[i] == ds[i - 1] + 1 ==> ss[i] == ss[i - 1] + 1
      ensures ds[i] > ds[i - 1] + 1 ==> ss[i] == 1
    {
      assert After(read, out[i - 1]) == Tally(Some(ds[i - 1]), ss[i - 1]);
      AdvanceFollowsRules(read, ds[i - 1], ss[i - 1], out[i].activity, ss[i]);
    }
  }

  /** The step rules hold of every successful fold from the initial state. */
  lemma LoadFromFollowsRules(read: DateReader, acts: seq<Activity>, out: seq<Annotated>)
    requires LoadFrom(read, acts, Start) == Success(out)
    ensures ActivitiesOf(out) == Runs(acts)
    ensures DatesParse(read, Runs(acts))
    ensures StreakSteps(Days(read, Runs(acts)), StreaksOf(out))
  {
    LoadFromChain(read, acts, Start, out);
    var rs := Runs(acts);
    assert forall i :: 0 <= i < |rs| ==> rs[i] == out[i].activity;
    ChainParses(read, out);
    ChainFollowsRules(read, out, Days(read, rs));
  }

  /**
    The step rules of `Generator.load`: on a successful pass, the Run days in
    input order never go backwards; the first Run gets streak 1; a Run on the
    previous Run's day keeps its streak; one on the next day adds one; one
    after a gap restarts at 1.
  */
  lemma LoadFollowsRules(acts: seq<Activity>, out: seq<Annotated>)
    requires Load(acts) == Success(out)
    ensures DatesParse(LocalDay, Runs(acts))
    ensures StreakSteps(Days(LocalDay, Runs(acts)), StreaksOf(out))
  {
    LoadFromFollowsRules(LocalDay, acts, out);
  }

  /**
    What the pass emits: exactly the Run activities, in input order, each with
    a streak between 1 and the number of Runs seen so far.
  */
  lemma LoadEmitsRuns(acts: seq<Activity>, out: seq<Annotated>)
    requires Load(acts) == Success(out)
    ensures |out| == |Runs(acts)|
    ensures forall i :: 0 <= i < |out| ==> out[i].activity == Runs(acts)[i]
    ensures forall i :: 0 <= i < |out| ==> 1 <= out[i].streak <= i + 1
  {
    LoadFromFollowsRules(LocalDay, acts, out);
    StepsBounded(Days(LocalDay, Runs(acts)), StreaksOf(out));
  }

  lemma {:induction false} StepsBounded(ds: seq<int>, ss: seq<int>)
    requires StreakSteps(ds, ss)
    ensures forall i :: 0 <= i < |ss| ==> 1 <= ss[i] <= i + 1
    decreases |ss|
  {
    if |ss| > 1 {
      var n := |ss| - 1;
      StepsBounded(ds[..n], ss[..n]);
      assert ss[n - 1] == ss[..n][n - 1];
    }
  }

  // ---------------------------------------------------------------------------
  // The streak counts consecutive days

  lemma {:induction false} NonDecreasingAllPairs(ds: seq<int>, i: int, j: int)
    requires NonDecreasing(ds) && 0 <= i <= j < |ds|
    ensures ds[i] <= ds[j]
    decreases j - i
  {
    if i < j {
      NonDecreasingAllPairs(ds, i, j - 1);
    }
  }

  /** The streak of the `n`-th Run counts consecutive days among the Runs up to it. */
  lemma {:induction false} StepsCountPrefix(ds: seq<int>, ss: seq<int>, n: int)
    requires StreakSteps(ds, ss) && 0 <= n < |ds|
    ensures ConsecutiveRunEndingAt(ds[..n + 1], ds[n], ss[n])
    decreases n
  {
    var d, cur := ds[n], ds[..n + 1];
    if n > 0 {
      StepsCountPrefix(ds, ss, n - 1);
      var p, s, pre := ds[n - 1], ss[n - 1], ds[..n];
      assert cur == pre + [d];
      forall j | d - ss[n] < j <= d
        ensures j in cur
      {
        if j != d {
          assert j in pre;
        }
      }
      if d > p + 1 {
        forall x | x in pre
          ensures x <= p
        {
          var m :| 0 <= m < n && pre[m] == x;
          NonDecreasingAllPairs(ds, m, n - 1);
        }
      }
    } else {
      assert cur == [d];
    }
  }

  /**
    Under the step rules, every streak is the number of consecutive days,
    ending on its own day, that occur among all the days.
  */
  lemma StepsCountConsecutiveDays(ds: seq<int>, ss: seq<int>)
    requires StreakSteps(ds, ss)
    ensures forall i :: 0 <= i < |ds| ==> ConsecutiveRunEndingAt(ds, ds[i], ss[i])
  {
    forall i | 0 <= i < |ds|
      ensures ConsecutiveRunEndingAt(ds, ds[i], ss[i])
    {
      StepsCountPrefix(ds, ss, i);
      assert ds == ds[..i + 1] + ds[i + 1..];
      forall m | i < m < |ds|
        ensures ds[m] != ds[i] - ss[i]
      {
        NonDecreasingAllPairs(ds, i, m);
      }
    }
  }

  /**
    Reference meaning of the streak: on a successful pass, the streak of every
    emitted Run is the number of consecutive calendar days ending on its date
    on which some Run happened.
  */
  lemma LoadCountsConsecutiveDays(acts: seq<Activity>, out: seq<Annotated>)
    requires Load(acts) == Success(out)
    ensures DatesParse(LocalDay, Runs(acts)) && |out| == |Runs(acts)|
    ensures forall i :: 0 <= i < |out| ==>
              ConsecutiveRunEndingAt(Days(LocalDay, Runs(acts)), Days(LocalDay, Runs(acts))[i], out[i].streak)
  {
    LoadFromFollowsRules(LocalDay, acts, out);
    StepsCountConsecutiveDays(Days(LocalDay, Runs(acts)), StreaksOf(out));
  }

  /** The reference meaning determines the streak. */
  lemma ConsecutiveRunUnique(days: seq<int>, d: int, k1: int, k2: int)
    requires ConsecutiveRunEndingAt(days, d, k1) && ConsecutiveRunEndingAt(days, d, k2)
    ensures k1 == k2
  {
  }

  // ---------------------------------------------------------------------------
  // When the pass raises

  lemma NonDecreasingUncons(ds: seq<int>)
    requires |ds| > 0
    ensures NonDecreasing(ds) <==> NonDecreasing(ds[1..]) && (|ds| > 1 ==> ds[0] <= ds[1])
  {
    var tail := ds[1..];
    if NonDecreasing(tail) && (|ds| > 1 ==> ds[0] <= ds[1]) {
      forall i | 0 < i < |ds|
        ensures ds[i - 1] <= ds[i]
      {
        if i > 1 {
          assert ds[i - 1] == tail[i - 2] && ds[i] == tail[i - 1];
        }
      }
    }
    if NonDecreasing(ds) {
      forall i | 0 < i < |tail|
        ensures tail[i - 1] <= tail[i]
      {
        assert ds[i] == tail[i - 1] && ds[i + 1] == tail[i];
      }
    }
  }

  lemma DatesParseUncons(read: DateReader, rs: seq<Activity>)
    requires |rs| > 0
    ensures DatesParse(read, rs) <==> read(rs[0]).Some? && DatesParse(read, rs[1..])
    ensures DatesParse(read, rs) ==> Days(read, rs)[1..] == Days(read, rs[1..])
  {
    assert forall i :: 0 < i < |rs| ==> rs[1..][i - 1] == rs[i];
  }

  /**
    From any state, the fold over Run activities succeeds exactly when every
    date parses and the days, starting from the state's day, never go
    backwards.
  */
  lemma {:induction false} RunsSucceedIff(read: DateReader, rs: seq<Activity>, t: Tally)
    requires ReadsValidDays(read)
    requires forall a :: a in rs ==> IsRun(a)
    ensures LoadFrom(read, rs, t).Success? <==>
              && DatesParse(read, rs)
              && NonDecreasing(Days(read, rs))
              && (|rs| > 0 && t.last.Some? ==> t.last.value <= Days(read, rs)[0])
    decreases |rs|
  {
    if |rs| > 0 {
      var a := rs[0];
      assert IsRun(a);
      DatesParseUncons(read, rs);
      if DatesParse(read, rs) {
        NonDecreasingUncons(Days(read, rs));
      }
      match Advance(read, t, a)
      case Failure(_) =>
        assert LoadFrom(read, rs, t).Failure?;
      case Success(t') =>
        assert forall x :: x in rs[1..] ==> x in rs;
        RunsSucceedIff(read, rs[1..], t');
        assert LoadFrom(read, rs, t).Success? <==> LoadFrom(read, rs[1..], t').Success?;
    }
  }

  /**
    From any state, when every Run's date parses the fold never fails on a
    malformed date: a failure is the overflow or the assertion.
  */
  lemma {:induction false} ParsedRunsFailOnOrder(read: DateReader, acts: seq<Activity>, t: Tally)
    requires forall a :: a in acts && IsRun(a) ==> read(a).Some?
    ensures LoadFrom(read, acts, t).Failure? ==>
              LoadFrom(read, acts, t).error.DateOverflow? || LoadFrom(read, acts, t).error.OutOfOrder?
    decreases |acts|
  {
    if |acts| > 0 {
      assert forall a :: a in acts[1..] ==> a in acts;
      if !IsRun(acts[0]) {
        ParsedRunsFailOnOrder(read, acts[1..], t);
      } else if Advance(read, t, acts[0]).Success? {
        ParsedRunsFailOnOrder(read, acts[1..], Advance(read, t, acts[0]).value);
      }
    }
  }

  /**
    The exception `load` raises: when every Run's local start time parses, a
    failing pass raises the overflow or the assertion, never the parse error.
  */
  lemma ParsedLoadFailsOnOrder(acts: seq<Activity>)
    requires DatesParse(LocalDay, Runs(acts))
    ensures Load(acts).Failure? ==> Load(acts).error.DateOverflow? || Load(acts).error.OutOfOrder?
  {
    var rs := Runs(acts);
    forall a | a in rs
      ensures LocalDay(a).Some?
    {
      var i :| 0 <= i < |rs| && rs[i] == a;
    }
    LoadIgnoresNonRuns(LocalDay, acts, Start);
    ParsedRunsFailOnOrder(LocalDay, rs, Start);
  }

  /**
    `Generator.load` raises exactly when some Run's local start time does not
    parse or the Run dates, in input order, go backwards.
  */
  lemma LoadSucceedsIff(acts: seq<Activity>)
    ensures Load(acts).Success? <==>
              DatesParse(LocalDay, Runs(acts)) && NonDecreasing(Days(LocalDay, Runs(acts)))
  {
    LoadIgnoresNonRuns(LocalDay, acts, Start);
    LocalDayReadsValidDays();
    RunsSucceedIff(LocalDay, Runs(acts), Start);
  }

  /** Activities listed in ascending order of their stored local start time. */
  predicate OrderedByLocalStart(acts: seq<Activity>) {
    forall i :: 0 < i < |acts| ==>
      LocalStart.LexLe(acts[i - 1].startDateLocal, acts[i].startDateLocal)
  }

  /** Every earlier activity's start string is ordered before every later one's. */
  predicate PairwiseByLocalStart(acts: seq<Activity>) {
    forall i, j :: 0 <= i < j < |acts| ==>
      LocalStart.LexLe(acts[i].startDateLocal, acts[j].startDateLocal)
  }

  lemma {:induction false} OrderedChain(acts: seq<Activity>, i: int, j: int)
    requires OrderedByLocalStart(acts) && 0 <= i < j < |acts|
    ensures LocalStart.LexLe(acts[i].startDateLocal, acts[j].startDateLocal)
    decreases j - i
  {
    if i + 1 < j {
      OrderedChain(acts, i, j - 1);
      LocalStart.LexLeTransitive(acts[i].startDateLocal, acts[j - 1].startDateLocal, acts[j].startDateLocal);
    }
  }

  /** By transitivity of the string order, a sorted list is ordered pairwise. */
  lemma OrderedIsPairwise(acts: seq<Activity>)
    requires OrderedByLocalStart(acts)
    ensures PairwiseByLocalStart(acts)
  {
    forall i, j | 0 <= i < j < |acts|
      ensures LocalStart.LexLe(acts[i].startDateLocal, acts[j].startDateLocal)
    {
      OrderedChain(acts, i, j);
    }
  }

  lemma {:induction false} RunsKeepOrder(acts: seq<Activity>)
    requires PairwiseByLocalStart(acts)
    ensures PairwiseByLocalStart(Runs(acts))
    decreases |acts|
  {
    if |acts| > 0 {
      RunsKeepOrder(acts[1..]);
      if IsRun(acts[0]) {
        var rs, tail := Runs(acts), Runs(acts[1..]);
        assert rs == [acts[0]] + tail;
        forall i, j | 0 <= i < j < |rs|
          ensures LocalStart.LexLe(rs[i].startDateLocal, rs[j].startDateLocal)
        {
          if i == 0 {
            assert rs[j] in acts[1..];
            var m :| 0 <= m < |acts[1..]| && acts[1..][m] == rs[j];
            assert acts[m + 1] == rs[j];
          } else {
            assert rs[i] == tail[i - 1] && rs[j] == tail[j - 1];
          }
        }
      }
    }
  }

  /**
    On input ordered by the stored local start time, as the store's query
    returns it, the assertion never fires: the pass succeeds whenever every
    Run's date parses.
  */
  lemma OrderedLoadSucceeds(acts: seq<Activity>)
    requires OrderedByLocalStart(acts)
    requires DatesParse(LocalDay, Runs(acts))
    ensures Load(acts).Success?
  {
    var rs := Runs(acts);
    OrderedIsPairwise(acts);
    RunsKeepOrder(acts);
    forall i | 0 < i < |rs|
      ensures Days(LocalDay, rs)[i - 1] <= Days(LocalDay, rs)[i]
    {
      LocalStart.OrderedStringsHaveOrderedDates(rs[i - 1].startDateLocal, rs[i].startDateLocal);
    }
    LoadSucceedsIff(acts);
  }
}
