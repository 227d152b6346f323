# Workouts page generator: running streaks and sync decisions

This project is a Dafny model of the decision logic in the workouts page
`Generator` (`scripts/generator/__init__.py`). It covers three parts.

- **The running-streak pass of `Generator.load`.** Stored activities are read
  in ascending order of their local start time. The pass keeps only activities
  of type `Run` and gives each one a `streak`: the number of consecutive
  calendar days, ending on its own date, on which a Run happened. The pass is a
  left fold (`Streak.LoadFrom`) whose state is the previous Run's date and the
  current streak. It raises in three cases:
  - the local start time does not parse;
  - adding one day to 9999-12-31 overflows;
  - `assert date > last_date` fails.
- **The fetch-window choice of `Generator.sync`.** With `force`, or with an
  empty store, `sync` asks for everything before now. Otherwise it asks for
  everything after the newest stored start, less seven days.
- **The store operations of `sync` and `sync_from_gpx`.** Both passes upsert
  each record and then commit once. An exception in the loop ends the pass
  before the commit. It may come from the remote iterator, the track
  conversion or the upsert. `sync_from_gpx` returns early, writing and
  committing nothing, when the track loader finds no tracks.

The modules are:

- `Wrappers`: the `Option` and `Result` types.
- `Dates`: Python's proleptic Gregorian calendar and date ordinal. It proves
  three facts about the ordinal:
  - it preserves and reflects date order and equality;
  - every valid date lies in `1 .. 3652059`;
  - "the next day" is "ordinal plus one", and it exists exactly below the
    last representable date.

  These facts let the streak pass work on integer day numbers.
- `LocalStart`: the fixed `YYYY-MM-DD HH:MM:SS` local start string. It covers
  the date that `strptime(..., "%Y-%m-%d %H:%M:%S").date()` reads from the
  string, a format/parse round trip, and the proof that string order implies
  date order.
- `Streak`: the fold itself and its properties.
- `StreakExamples`: the fold on small fixed patterns of days, for every choice
  of activities with those days and every date reader, `Load`'s among them.
- `Sync`: the fetch window and the store-operation traces of both sync passes.

How the outside world is represented:

- The remote service is a parameter `fetch` of `Sync.Sync`. It maps a filter
  to the steps of the upsert loop. A step is either a record that arrives and
  is upserted, or an exception (`Raised`), which the remote iterator or the
  upsert may throw.
- The credential refresh is the boolean `accessGranted`.
- The clock is the integer `now`.
- The store's newest start is `latestStart`.
- The track loader's result is the sequence `tracks` of loop steps, one per
  track. A `Raised` step is a track whose conversion or upsert throws.
- The store itself is described by the sequence of operations a pass issues
  (`Upsert(record)` and `Commit`).

## Model

| member | source | states |
|---|---|---|
| Dates.OrdinalOrder | scripts/generator/__init__.py:92-97 | Comparing ordinals is comparing dates: `date == last_date` and `date > last_date` hold exactly when the ordinals are equal or greater. |
| Dates.NextDayIsNextOrdinal | scripts/generator/__init__.py:94 | `last_date + 1 day` is the date whose ordinal is one more. It exists exactly when the ordinal is below that of 9999-12-31, which is why the addition overflows only there. |
| Dates.OrdinalRange | scripts/generator/__init__.py:89 | Every date `strptime` can produce has an ordinal between 1 and that of 9999-12-31, and only 9999-12-31 has the maximum. |
| LocalStart.ParseDate | scripts/generator/__init__.py:89 | The date read from a stored local start time is always a valid calendar date. `None` stands for the `ValueError` raised on a malformed string or an impossible date or time. |
| LocalStart.ParseFormat | scripts/generator/__init__.py:89 | Every valid date and time of day, written in the `%Y-%m-%d %H:%M:%S` layout, parses back to the same date and time. |
| LocalStart.FormatParse | scripts/generator/__init__.py:89 | Every string the parse accepts is exactly the layout of its own date and time, so the parse accepts nothing else. |
| LocalStart.OrderedStringsHaveOrderedDates | scripts/generator/__init__.py:81 | For well-formed local start times, string order (the order the query sorts by) implies date order. |
| LocalStart.LexLe | scripts/generator/__init__.py:81 | The order the query sorts `start_date_local` by: code-point order on strings, compared from the first character. |
| LocalStart.LexLeTotal | scripts/generator/__init__.py:81 | Any two local start strings are ordered one way or the other, so sorting by them is defined. |
| LocalStart.LexLeAntisymmetric | scripts/generator/__init__.py:81 | Two strings ordered both ways are equal. |
| LocalStart.LexLeTransitive | scripts/generator/__init__.py:81 | The string order is transitive. `Streak.OrderedIsPairwise` uses this to turn the adjacent-pair sort order into a pairwise one. |
| Streak.LocalDay | scripts/generator/__init__.py:89 | A Run's date as a day ordinal. When it exists, it is a valid ordinal between 1 and that of 9999-12-31. |
| Streak.Advance | scripts/generator/__init__.py:88-100 | One Run's step. It succeeds exactly when the date parses, does not go back before `last_date`, and no overflow occurs. A success sets `last_date` to that day and the streak to 1, the same value or one more. A failure names the Run and the exception. It is the parse error when the date does not parse. Otherwise there must be a previous Run: the overflow when that Run is on 9999-12-31, and the assertion failure in every other case. |
| Streak.AdvanceIsDateStep | scripts/generator/__init__.py:90-98 | The step on day ordinals equals the step on calendar dates, with the tests in the source's order: the same date keeps the streak; `last_date + 1 day` overflows past 9999-12-31; the next date adds one; a later date resets to 1; otherwise the assertion fails. |
| Streak.LoadFrom | scripts/generator/__init__.py:84-101 | The fold from any state. A successful result emits only Run activities of the input, at most one per input, each with a streak of at least 1 when the state's streak is. An error names a Run of the input. Its full meaning is given by `LoadFollowsRules`, `LoadCountsConsecutiveDays` and `RunsSucceedIff`. |
| Streak.Load | scripts/generator/__init__.py:80-103 | `Generator.load`: the fold from no previous Run. Every emitted record is a Run of the input with streak at least 1, and an error names a Run of the input. Its full meaning is given by `LoadFollowsRules`, `LoadEmitsRuns`, `LoadCountsConsecutiveDays`, `LoadSucceedsIff` and `OrderedLoadSucceeds`. |
| Streak.AdvanceFollowsRules | scripts/generator/__init__.py:90-98 | After a previous Run, a successful step never goes back in days. The same day keeps the streak, the next day adds one, and a gap resets it to 1. |
| Streak.LoadFollowsRules | scripts/generator/__init__.py:80-103 | On a successful pass, every Run's date parses and the Run days never decrease. The first Run gets 1, a same-day Run keeps the previous streak, a next-day Run adds one, and a Run after a gap gets 1. |
| Streak.LoadEmitsRuns | scripts/generator/__init__.py:84-101 | The output is exactly the Run activities, in input order, so its length is the number of Runs. The `i`-th emitted streak lies between 1 and `i + 1`, the number of Runs seen so far. |
| Streak.LoadIgnoresNonRuns | scripts/generator/__init__.py:86-88 | From any state, dropping every non-Run activity leaves the fold's result unchanged, errors included. Non-Runs do not touch `last_date` or `streak`. |
| Streak.NonRunInsertion | scripts/generator/__init__.py:88 | Inserting a non-Run activity anywhere in the input changes neither the output nor the error. |
| Streak.LoadCountsConsecutiveDays | scripts/generator/__init__.py:84-100 | On a successful pass, each Run's streak equals the number of consecutive calendar days, ending on its own date, on which some Run happened. This is an independent reference definition of the streak. |
| Streak.ConsecutiveRunUnique | scripts/generator/__init__.py:84-100 | The reference definition fixes the streak: a day has at most one count of consecutive Run days ending on it. |
| Streak.RunsSucceedIff | scripts/generator/__init__.py:86-98 | From any state, the fold over Runs succeeds exactly when every date parses, the days never decrease, and the first day is not before the state's `last_date`. |
| Streak.ParsedRunsFailOnOrder | scripts/generator/__init__.py:89-97 | From any state, when every Run's date parses, a failing fold fails with the overflow or the assertion, never with the parse error. |
| Streak.ParsedLoadFailsOnOrder | scripts/generator/__init__.py:89-97 | When every Run's local start time parses, a failing `load` raises the overflow or the assertion, never the parse error. |
| Streak.LoadSucceedsIff | scripts/generator/__init__.py:89-97 | `load` raises exactly when some Run's local start time fails to parse or the Run dates go backwards in input order. |
| Streak.OrderedByLocalStart | scripts/generator/__init__.py:81 | The input order `load` receives: each stored local start string is ordered no later than the next. `OrderedLoadSucceeds` shows that this order is enough to keep the assertion from firing. |
| Streak.OrderedIsPairwise | scripts/generator/__init__.py:81 | A list sorted by local start string on adjacent pairs is ordered on every pair of positions. |
| Streak.OrderedLoadSucceeds | scripts/generator/__init__.py:81-98 | On input sorted by the stored local start time, as the query returns it, the assertion never fires: the pass succeeds whenever every Run's date parses. |
| StreakExamples.SameDayHoldsGapResets | scripts/generator/__init__.py:90-98 | For any date reader, Runs on valid days d, d+1, d+1 and d+3 get streaks 1, 2, 2 and 1. |
| StreakExamples.OtherTypeDoesNotBreakStreak | scripts/generator/__init__.py:88-101 | For any date reader, a non-Run between Runs on consecutive valid days is not emitted and does not break the streak (1, then 2). |
| StreakExamples.BackwardsDateRaises | scripts/generator/__init__.py:94-97 | For any date reader, a Run dated before the previous Run makes the pass raise on that Run. It is an assertion failure, or an overflow when the previous Run is on 9999-12-31. |
| Sync.FetchWindow | scripts/generator/__init__.py:42-51 | With `force` or an empty store, the filter admits exactly the starts before `now`. Otherwise it admits exactly the starts after the newest stored start less seven days. |
| Sync.IncrementalWindowOverlaps | scripts/generator/__init__.py:45-49 | An incremental window admits everything at or after the newest stored start, and reaches back exactly seven days before it. |
| Sync.Delivered | scripts/generator/__init__.py:53-54 | The records a pass upserts are those of the steps before the first that raises, or of all steps when none raises. |
| Sync.Consume | scripts/generator/__init__.py:53-61 | The upsert-then-commit loop of both passes. It issues at most one operation per step plus the commit. A commit can only come last. Every upsert is of a record some step delivered. It issues nothing only when the first step raises. |
| Sync.ConsumeOps | scripts/generator/__init__.py:53-61 | The loop upserts each delivered record in order. It commits once, last, and exactly when no step raises. |
| Sync.Sync | scripts/generator/__init__.py:38-61 | A refused credential ends `sync` before any fetch or write. Otherwise the pass sends the chosen window and upserts what it receives. It commits exactly when it completes, that is, when access is granted and no step raises, whether in the remote iterator or in an upsert. |
| Sync.SyncFromGpx | scripts/generator/__init__.py:63-77 | With no tracks, `sync_from_gpx` performs no upsert and no commit. Otherwise it upserts the tracks in order up to the first that raises in conversion or upsert. It commits exactly when none raises. |
| Sync.GpxStoresEveryTrack | scripts/generator/__init__.py:69-77 | When no track raises, `sync_from_gpx` upserts every track in order and then commits. |
| Sync.GpxAgreesWithRemoteLoop | scripts/generator/__init__.py:53-77 | Given the same non-empty steps, `sync` with access granted and `sync_from_gpx` issue the same store operations and end the same way. On no steps, `sync` still commits an empty transaction while `sync_from_gpx` does not touch the store. |

## Left out

- The credential refresh (`check_access`) and the remote client (`get_activities`) are network calls through a library. They appear only as the boolean `accessGranted` and the function `fetch`.
- The store is not modelled: the session, the `func.max` and `order_by` queries, and the upsert `update_or_create_activity`.
  - The upsert's body is not part of this model, so whether it creates or updates a row, and whether it is idempotent, is not stated.
  - The max query is the parameter `latestStart`.
  - The sort order of `load`'s query is the precondition `OrderedByLocalStart`.
- The track loader and `to_namedtuple` are file parsing in a foreign library. Their result is the parameter `tracks`, where a conversion that throws is a `Raised` step.
- The model covers one pass at a time. The source never rolls the session back after a failure. If a caller catches the exception and uses the same `Generator` again, the next pass's commit also commits the failed pass's pending writes, and `load` sees them. A failed flush leaves the session unusable until it is rolled back. None of this carry-over between passes is modelled.
- The store's response to an upsert is not modelled beyond whether it raises. An upsert that raises is a `Raised` step and is not listed among the store operations. Whatever the failed pass left in the session is not committed by this pass.
- Progress characters on standard output, the `print` messages and `to_dict` are output plumbing only. The emitted record is the activity paired with its streak.
- `arrow` and time zones are left out. `utcnow()` is the parameter `now`, and instants are integer seconds. `Sync.Overlap` is seven days of 86400 seconds, so daylight-saving shifts that `arrow.shift(days=-7)` would honour in a zone-aware value are not modelled.
- Sync.Admits: the remote service's treatment of an activity starting exactly on the `before` or `after` instant is not part of this model. Both bounds are read as strict.
- LocalStart.ParseDate: only the zero-padded 19-character layout with one space between date and time is modelled. The store writes that layout. `strptime` also accepts several other forms, which the model rejects:
  - unpadded fields, such as `2020-1-5 7:3:9`;
  - space-padded fields, such as `2020-01- 5 07:03:09`, which is still 19 characters;
  - any run of whitespace between date and time, such as a tab or several spaces, because the format's space matches `\s+`;
  - non-ASCII decimal digits.
- Streak.Load: assertions are taken to be enabled. Under `python -O` the `assert date > last_date` is skipped and a backwards date resets the streak to 1 instead of raising.
- The `force` parameter of `sync_from_gpx` is unused by the source and does not appear in the model.
- Only the two activity columns the pass reads, the type and the local start time, are modelled. The `id` on an activity and in `LoadError` is a tag of the model naming the Run an error is about. Python's `ValueError`, `OverflowError` and `AssertionError` carry no activity.
