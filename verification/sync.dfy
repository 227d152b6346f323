/**
  The decisions of `Generator.sync` and `Generator.sync_from_gpx`: which
  window of remote activities to ask for, and which store operations a pass
  performs.  The remote service, the track loader and the store are outside
  the model; a pass is described by the sequence of store operations it
  issues, so "nothing is committed" and "nothing is written" are statements
  about that sequence.
*/
module Sync {
  import opened Wrappers

  const SecondsPerDay := 86400

  /** How far before the newest stored activity an incremental sync reaches back. */
  const OverlapDays := 7
  const Overlap := OverlapDays * SecondsPerDay

  /** The activity-list filter sent to the remote service; instants are seconds in UTC. */
  datatype Filter = Before(instant: int) | After(instant: int)

  /**
    Whether the remote service lists an activity starting at `start` under
    filter `f`.  The service's handling of the boundary instant is not
    modelled; both bounds are read as strict.
  */
  predicate Admits(f: Filter, start: int) {
    match f
    case Before(t) => start < t
    case After(t) => start > t
  }

  /**
    The filter `sync` asks for.  With `force`, or when the store holds no
    activity (`latestStart` is the store's maximum start date), everything
    before `now`; otherwise everything after the newest stored start less the
    overlap.
  */
  function FetchWindow(force: bool, latestStart: Option<int>, now: int): (f: Filter)
    ensures force || latestStart.None? ==> forall s :: Admits(f, s) <==> s < now
    ensures !force && latestStart.Some? ==>
              forall s :: Admits(f, s) <==> s > latestStart.value - Overlap
  {
    if force then Before(now)
    else
      match latestStart
      case Some(latest) => After(latest - Overlap)
      case None => Before(now)
  }

  /**
    An incremental window misses nothing newer than the store and re-fetches
    the last week before the newest stored activity, the newest one included.
  */
  lemma IncrementalWindowOverlaps(latest: int, now: int)
    ensures forall s :: s >= latest ==> Admits(FetchWindow(false, Some(latest), now), s)
    ensures Admits(FetchWindow(false, Some(latest), now), latest - Overlap + 1)
    ensures !Admits(FetchWindow(false, Some(latest), now), latest - Overlap)
  {
  }

  // ---------------------------------------------------------------------------
  // Store operations of a pass

  /**
    One step of an upsert loop.  `Item(record)`: the record arrives and its
    upsert returns.  `Raised`: the step raises, whether the remote iterator,
    the track conversion or the upsert itself throws; the loop ends there.
  */
  datatype Fetched<R> = Item(record: R) | Raised

  /** What a pass asks of the store, in order; an upsert that raised is not listed. */
  datatype StoreOp<R> = Upsert(record: R) | Commit

  datatype Outcome = Completed | CredentialError | StepError | NoTracks

  /** A finished pass: the filter it sent (if any), its store operations and how it ended. */
  datatype Pass<R> = Pass(filter: Option<Filter>, ops: seq<StoreOp<R>>, outcome: Outcome)

  function Upserts<R>(rs: seq<R>): (ops: seq<StoreOp<R>>)
    ensures |ops| == |rs| && forall i :: 0 <= i < |rs| ==> ops[i] == Upsert(rs[i])
  {
    if |rs| == 0 then [] else [Upsert(rs[0])] + Upserts(rs[1..])
  }

  predicate Raises<R>(steps: seq<Fetched<R>>) {
    exists i :: 0 <= i < |steps| && steps[i].Raised?
  }

  predicate Commits<R>(ops: seq<StoreOp<R>>) {
    exists i :: 0 <= i < |ops| && ops[i].Commit?
  }

  /** The records upserted before the first step that raises (all of them if none does). */
  function Delivered<R>(steps: seq<Fetched<R>>): (rs: seq<R>)
    ensures |rs| <= |steps|
    ensures forall i :: 0 <= i < |rs| ==> steps[i] == Item(rs[i])
    ensures !Raises(steps) ==> |rs| == |steps|
    ensures Raises(steps) ==> |rs| < |steps| && steps[|rs|].Raised?
  {
    if |steps| == 0 then []
    else
      match steps[0]
      case Raised => []
      case Item(r) => [r] + Delivered(steps[1..])
  }

  /**
    The loop shared by both passes: upsert each record as it arrives, then
    commit once.  A step that raises ends the pass before the commit.
  */
  function Consume<R>(steps: seq<Fetched<R>>): (ops: seq<StoreOp<R>>)
    ensures |ops| <= |steps| + 1
    ensures |ops| == 0 ==> |steps| > 0 && steps[0].Raised?
    ensures forall i :: 0 <= i < |ops| && ops[i].Commit? ==> i == |ops| - 1
    ensures forall i :: 0 <= i < |ops| && ops[i].Upsert? ==> Item(ops[i].record) in steps
    decreases |steps|
  {
    if |steps| == 0 then [Commit]
    else
      match steps[0]
      case Raised => []
      case Item(r) =>
        var rest := Consume(steps[1..]);
        assert forall x :: x in steps[1..] ==> x in steps;
        [Upsert(r)] + rest
  }

  /**
    What `Consume` does: the delivered records are upserted in order, and the
    one commit comes last and happens exactly when no step raises.
  */
  lemma {:induction false} ConsumeOps<R>(steps: seq<Fetched<R>>)
    ensures !Raises(steps) ==> Consume(steps) == Upserts(Delivered(steps)) + [Commit]
    ensures Raises(steps) ==> Consume(steps) == Upserts(Delivered(steps))
    ensures Commits(Consume(steps)) <==> !Raises(steps)
    decreases |steps|
  {
    if |steps| > 0 {
      ConsumeOps(steps[1..]);
      assert Raises(steps) <==> steps[0].Raised? || Raises(steps[1..]) by {
        if Raises(steps[1..]) {
          var i :| 0 <= i < |steps[1..]| && steps[1..][i].Raised?;
          assert steps[i + 1].Raised?;
        }
        if Raises(steps) && !steps[0].Raised? {
          var i :| 0 <= i < |steps| && steps[i].Raised?;
          assert steps[1..][i - 1].Raised?;
        }
      }
      if steps[0].Item? {
        var rest := Delivered(steps[1..]);
        assert Upserts([steps[0].record] + rest) == [Upsert(steps[0].record)] + Upserts(rest);
      }
    }
    var done := Upserts(Delivered(steps)) + [Commit];
    assert done[|done| - 1].Commit?;
  }

  /**
    `Generator.sync`: refresh access, choose the window, fetch, upsert each
    record, commit.  A refused credential ends the pass before any fetch; a
    step that raises (the remote iterator or an upsert) ends it before the
    commit.
  */
  function Sync<R>(accessGranted: bool, force: bool, latestStart: Option<int>, now: int,
                   fetch: Filter -> seq<Fetched<R>>): (p: Pass<R>)
    ensures !accessGranted ==> p.filter.None? && p.ops == [] && p.outcome == CredentialError
    ensures accessGranted ==> p.filter == Some(FetchWindow(force, latestStart, now))
    ensures Commits(p.ops) <==> p.outcome == Completed
    ensures p.outcome == Completed <==>
              accessGranted && !Raises(fetch(FetchWindow(force, latestStart, now)))
    ensures accessGranted ==>
              p.ops == Upserts(Delivered(fetch(FetchWindow(force, latestStart, now))))
                         + (if p.outcome == Completed then [Commit] else [])
  {
    if !accessGranted then Pass(None, [], CredentialError)
    else
      var f := FetchWindow(force, latestStart, now);
      var steps := fetch(f);
      ConsumeOps(steps);
      Pass(Some(f), Consume(steps), if Raises(steps) then StepError else Completed)
  }

  /**
    `Generator.sync_from_gpx` over the loader's tracks, one step per track: a
    `Raised` step is a track whose conversion or upsert throws.  With no tracks
    it returns early, writing and committing nothing; otherwise it runs the
    same upsert-then-commit loop as `sync`.
  */
  function SyncFromGpx<R>(tracks: seq<Fetched<R>>): (p: Pass<R>)
    ensures p.filter.None?
    ensures |tracks| == 0 ==> p.ops == [] && p.outcome == NoTracks
    ensures |tracks| > 0 ==> (p.outcome == Completed <==> !Raises(tracks))
    ensures |tracks| > 0 ==>
              p.ops == Upserts(Delivered(tracks)) + (if p.outcome == Completed then [Commit] else [])
    ensures Commits(p.ops) <==> p.outcome == Completed
  {
    if |tracks| == 0 then Pass(None, [], NoTracks)
    else
      ConsumeOps(tracks);
      Pass(None, Consume(tracks), if Raises(tracks) then StepError else Completed)
  }

  /** Every track as a step that converts and upserts without raising. */
  function AsSteps<R>(tracks: seq<R>): (s: seq<Fetched<R>>)
    ensures |s| == |tracks| && forall i :: 0 <= i < |tracks| ==> s[i] == Item(tracks[i])
  {
    if |tracks| == 0 then [] else [Item(tracks[0])] + AsSteps(tracks[1..])
  }

  /** When no track raises, `sync_from_gpx` upserts every track in order and then commits. */
  lemma GpxStoresEveryTrack<R>(tracks: seq<R>)
    requires |tracks| > 0
    ensures SyncFromGpx(AsSteps(tracks)).ops == Upserts(tracks) + [Commit]
    ensures SyncFromGpx(AsSteps(tracks)).outcome == Completed
  {
    var steps := AsSteps(tracks);
    assert !Raises(steps);
    assert Delivered(steps) == tracks;
  }

  /**
    Given the same steps, the two passes issue the same store operations and
    end the same way, except on an empty list: `sync` still commits (an empty
    transaction) while `sync_from_gpx` returns without touching the store.
  */
  lemma GpxAgreesWithRemoteLoop<R>(force: bool, latestStart: Option<int>, now: int,
                                   fetch: Filter -> seq<Fetched<R>>, tracks: seq<Fetched<R>>)
    requires fetch(FetchWindow(force, latestStart, now)) == tracks
    ensures |tracks| > 0 ==>
              && Sync(true, force, latestStart, now, fetch).ops == SyncFromGpx(tracks).ops
              && Sync(true, force, latestStart, now, fetch).outcome == SyncFromGpx(tracks).outcome
    ensures |tracks| == 0 ==>
              && Sync(true, force, latestStart, now, fetch).ops == [Commit]
              && Sync(true, force, latestStart, now, fetch).outcome == Completed
              && SyncFromGpx(tracks).ops == []
              && SyncFromGpx(tracks).outcome == NoTracks
  {
  }
}
