/** The services and workflows as code over the stored state: every handler is a sequence of the
    protocol's steps, and an undisturbed sync brings the sheet to the destination. */
module SyncWorkflows {
  import opened Wrappers
  import opened Cells
  import opened RowText
  import opened Compare
  import opened Getter
  import opened Loader
  import opened Patch
  import opened SyncProtocol
  import opened SyncControl
  import opened SyncData
  import opened SyncSafety

  /** `s'` comes from `s` by steps of the protocol. */
  ghost predicate Reaches(s: State, s': State, h: Hashes) {
    exists states :: IsPath(states, s, s', h)
  }

  ghost predicate IsPath(states: seq<State>, s: State, s': State, h: Hashes) {
    && states != [] && states[0] == s && states[|states| - 1] == s'
    && forall i :: 0 <= i < |states| - 1 ==> Step(states[i], states[i + 1], h)
  }

  lemma Stays(s: State, h: Hashes)
    ensures Reaches(s, s, h)
  {
    assert IsPath([s], s, s, h);
  }

  lemma OneMore(s: State, m: State, act: Action, h: Hashes)
    requires Reaches(s, m, h) && Enabled(m, act, h) && Assumed(m, act)
    ensures Reaches(s, Next(m, act, h), h)
  {
    hide Enabled, Assumed, Next;
    var states :| IsPath(states, s, m, h);
    var s' := Next(m, act, h);
    assert Step(m, s', h);
    hide Step;
    assert IsPath(states + [s'], s, s', h);
  }

  lemma {:induction false} PathIsSafe(states: seq<State>, s: State, s': State, h: Hashes)
    requires IsPath(states, s, s', h) && Safe(s, h)
    ensures Safe(s', h)
  {
    hide Safe, Step;
    var n := |states| - 1;
    if n > 0 {
      assert Step(states[n - 1], states[n], h);
      PathIsSafe(states[..n], s, states[n - 1], h);
      AnyStepKeepsSafe(states[n - 1], s', h);
    }
  }

  datatype ErrorType = External | Internal | Other

  /** The activity of a sync that throws, if any. */
  datatype Fault = NoFault | InIngest(e: ErrorType) | InCompare(e: ErrorType) | InLoad(e: ErrorType)

  datatype Ending = Succeeded | EndedInError(e: ErrorType)

  class Services {
    var status: Status
    var version: nat
    var prevVersion: nat
    var checked: nat
    var marked: nat
    var starts: set<StartEvent>
    var successes: seq<SuccessEvent>
    var runs: map<RunId, Run>
    var snaps: map<nat, Snapshot>
    var diffs: map<nat, ResultFiles>
    var db: Database
    var rowsNumber: int
    var handled: set<nat>
    var handledTwice: bool

    function Current(): State
      reads this
    {
      State(status, version, prevVersion, checked, marked, starts, successes, runs, snaps, diffs, db,
        rowsNumber, handled, handledTwice)
    }

    constructor ()
      ensures Init(Current())
    {
      status, version, prevVersion, checked, marked := Idling, 1, 0, 0, 0;
      starts, successes, runs, snaps, diffs := {}, [], map[], map[], map[];
      db := Database(map[], map[], false, map[]);
      rowsNumber, handled, handledTwice := 0, {}, false;
    }

    // ---- Controller ----

    /** Schedules the syncflow when it is idle, and tells so with the version and previous version stored
        then. It does nothing when the trigger, the data source or an active connection is missing. */
    method HandleWorkflowTriggered(accepted: bool, ghost h: Hashes)
      modifies this`status, this`starts
      ensures Reaches(old(Current()), Current(), h)
      ensures old(status) != Idling || !accepted ==> Current() == old(Current())
      ensures old(status) == Idling && accepted ==>
        Current() == old(Current()).(status := Scheduled,
          starts := old(starts) + {StartEvent(RunId(Full, old(version)), old(prevVersion))})
    {
      Stays(Current(), h);
      if status != Idling || !accepted { return; }
      ghost var s := Current();
      OneMore(s, s, TriggerCheck, h);
      ghost var s1 := Next(s, TriggerCheck, h);
      OneMore(s, s1, TriggerMark, h);
      ghost var s2 := Next(s1, TriggerMark, h);
      OneMore(s, s2, TriggerEmit, h);
      hide *;
      status := Scheduled;
      starts := starts + {StartEvent(RunId(Full, version), prevVersion)};
    }

    // ---- Broker ----

    /** Starts the run an event asks for, unless the id is taken by a run that has not failed. */
    method ExecuteWorkflow(e: StartEvent, ghost h: Hashes)
      requires e in starts && (e.id in runs ==> e.id.version == version)
      modifies this`runs
      ensures Reaches(old(Current()), Current(), h)
      ensures Current() == (if Startable(old(Current()), e.id)
        then old(Current()).(runs := old(runs)[e.id := Run(e.prev, Active(Started))]) else old(Current()))
    {
      Stays(Current(), h);
      if e.id !in runs || runs[e.id].state.Failed? {
        OneMore(Current(), Current(), Deliver(e), h);
        hide Reaches;
        runs := runs[e.id := Run(e.prev, Active(Started))];
      }
    }

    // ---- Activities: one step each ----

    method SetRunState(id: RunId, state: RunState)
      requires id in runs
      modifies this`runs
      ensures runs == old(runs)[id := old(runs)[id].(state := state)]
    {
      runs := runs[id := runs[id].(state := state)];
    }

    /** An EXTERNAL or INTERNAL error ends the version: the next one is ready to be scheduled. */
    method FullSyncErrorHandler(id: RunId, e: ErrorType, ghost s: State, ghost h: Hashes)
      requires Reaches(s, Current(), h) && CanFail(Current(), id) && (!e.Other? ==> id.version !in db.marks)
      modifies this`runs, this`status, this`version
      ensures Reaches(s, Current(), h)
      ensures runs == old(runs)[id := old(runs)[id].(state := RunState.Failed)]
      ensures if e.Other? then status == old(status) && version == old(version)
              else status == Idling && version == id.version + 1
    {
      hide ComparesTo, Loads, GoodSnapshot, Reaches;
      OneMore(s, Current(), if e.Other? then OtherFailure(id) else HandledFailure(id), h);
      if !e.Other? {
        version := id.version + 1;
        status := Idling;
      }
      SetRunState(id, RunState.Failed);
    }

    method CheckAndUpdateStatusBeforeStart(id: RunId, ghost s: State, ghost h: Hashes)
      requires Reaches(s, Current(), h) && AtStage(Current(), id, Full, Started)
      modifies this`runs, this`status
      ensures Reaches(s, Current(), h) && status == Running
      ensures runs == old(runs)[id := old(runs)[id].(state := Active(Entered))]
    {
      hide ComparesTo, Loads, GoodSnapshot, Reaches;
      OneMore(s, Current(), EnterRunning(id), h);
      status := Running;
      SetRunState(id, Active(Entered));
    }

    method EmitDownloadEvent(id: RunId, ghost s: State, ghost h: Hashes)
      requires Reaches(s, Current(), h) && AtStage(Current(), id, Full, Entered)
      modifies this`runs, this`starts
      ensures Reaches(s, Current(), h)
      ensures runs == old(runs)[id := old(runs)[id].(state := Completed)]
      ensures starts == old(starts) + {StartEvent(RunId(Download, id.version), old(runs)[id].prev)}
    {
      hide ComparesTo, Loads, GoodSnapshot, Reaches;
      OneMore(s, Current(), EmitDownload(id), h);
      starts := starts + {StartEvent(RunId(Download, id.version), runs[id].prev)};
      SetRunState(id, Completed);
    }

    method EmitProceedEvent(id: RunId, ghost s: State, ghost h: Hashes)
      requires Reaches(s, Current(), h) && AtStage(Current(), id, Download, Started)
      modifies this`runs, this`starts
      ensures Reaches(s, Current(), h)
      ensures runs == old(runs)[id := old(runs)[id].(state := Completed)]
      ensures starts == old(starts) + {StartEvent(RunId(Proceed, id.version), old(runs)[id].prev)}
    {
      hide ComparesTo, Loads, GoodSnapshot, Reaches;
      OneMore(s, Current(), EmitProceed(id), h);
      starts := starts + {StartEvent(RunId(Proceed, id.version), runs[id].prev)};
      SetRunState(id, Completed);
    }

    method ReadSheet(id: RunId, snap: Snapshot)
      requires id in runs
      modifies this`runs, this`snaps
      ensures runs == old(runs)[id := old(runs)[id].(state := Active(Ingested))]
      ensures snaps == old(snaps)[id.version := snap]
    {
      snaps := snaps[id.version := snap];
      SetRunState(id, Active(Ingested));
    }

    method IngestSheet(id: RunId, snap: Snapshot, ghost s: State, ghost h: Hashes)
      requires Reaches(s, Current(), h) && AtStage(Current(), id, Proceed, Started)
      requires GoodSnapshot(snap) && (id.version in db.marks ==> ReadsSame(Current(), id.version, snap))
      modifies this`runs, this`snaps
      ensures Reaches(s, Current(), h)
      ensures runs == old(runs)[id := old(runs)[id].(state := Active(Ingested))]
      ensures snaps == old(snaps)[id.version := snap]
    {
      hide ComparesTo, Loads, GoodSnapshot, Reaches, ReadsSame;
      OneMore(s, Current(), Ingest(id, snap), h);
      ReadSheet(id, snap);
    }

    method CompareSheets(id: RunId, files: ResultFiles, ghost s: State, ghost h: Hashes)
      requires Reaches(s, Current(), h) && AtStage(Current(), id, Proceed, Ingested)
      requires id.version in snaps && (runs[id].prev != 0 ==> runs[id].prev in snaps)
      requires ComparesTo(h, PrevSnap(Current(), runs[id].prev), snaps[id.version], files)
      modifies this`runs, this`diffs
      ensures Reaches(s, Current(), h)
      ensures runs == old(runs)[id := old(runs)[id].(state := Active(Compared))]
      ensures diffs == old(diffs)[id.version := files]
    {
      hide ComparesTo, Loads, GoodSnapshot, Reaches;
      OneMore(s, Current(), CompareWith(id, files), h);
      diffs := diffs[id.version := files];
      SetRunState(id, Active(Compared));
    }

    /** The load activity. The loader's handler fails on an empty result without a type of error, so the
        activity is retried, and the second call finds the mark. */
    method LoadSheet(id: RunId, trouble: Trouble, ghost s: State, ghost h: Hashes) returns (r: Outcome)
      requires Reaches(s, Current(), h) && AtStage(Current(), id, Proceed, Compared)
      requires id.version in diffs && runs[id].prev != id.version
      requires LoadData(runs[id].prev, diffs[id.version]).Some?
      requires WellFormedData(LoadData(runs[id].prev, diffs[id.version]).value)
      modifies this`db
      ensures Reaches(s, Current(), h)
      ensures if id.version in old(db).marks then db == old(db) && r == AlreadyLoaded(db.marks[id.version])
        else if LoadDatabase(runs[id].prev, old(db), LoadData(runs[id].prev, diffs[id.version]).value).None? then
          db == old(db) && r.Failed?
        else (r.Loaded? || r.AlreadyLoaded?) && id.version in db.marks && db.marks[id.version] == r.result
    {
      hide ComparesTo, LoadDatabase, LoadData, WellFormedData, Reaches, GoodSnapshot, LoadedResultOf;
      var loader := new PostgresLoader(runs[id].prev, id.version, db);
      r := loader.Load(diffs[id.version], trouble);
      if id.version !in db.marks && !r.Failed? {
        LoadStep(s, Current(), id, loader.Db(), h);
      }
      db := loader.Db();
      if r.Nothing? {
        loader := new PostgresLoader(runs[id].prev, id.version, db);
        r := loader.Load(diffs[id.version], NoTrouble);
        db := loader.Db();
      }
    }

    /** Keeps the result the loader returned, now or the first time. */
    method KeepResult(id: RunId, ghost s: State, ghost h: Hashes)
      requires Reaches(s, Current(), h) && AtStage(Current(), id, Proceed, Compared) && id.version in db.marks
      modifies this`runs
      ensures Reaches(s, Current(), h)
      ensures runs == old(runs)[id := old(runs)[id].(state := Active(HasResult(db.marks[id.version])))]
    {
      hide ComparesTo, Loads, GoodSnapshot, Reaches;
      OneMore(s, Current(), LoadReturn(id), h);
      SetRunState(id, Active(HasResult(db.marks[id.version])));
    }

    method EmitSucceed(id: RunId, result: LoadedResult, ghost s: State, ghost h: Hashes)
      requires Reaches(s, Current(), h) && AtStage(Current(), id, Proceed, HasResult(result))
      modifies this`runs, this`successes
      ensures Reaches(s, Current(), h)
      ensures runs == old(runs)[id := old(runs)[id].(state := Active(Announced))]
      ensures successes == old(successes) + [SuccessEvent(id.version, old(runs)[id].prev, result)]
    {
      hide ComparesTo, Loads, GoodSnapshot, Reaches;
      OneMore(s, Current(), EmitSuccess(id), h);
      successes := successes + [SuccessEvent(id.version, runs[id].prev, result)];
      SetRunState(id, Active(Announced));
    }

    method UpdateAfterSuccess(id: RunId, ghost s: State, ghost h: Hashes)
      requires Reaches(s, Current(), h) && AtStage(Current(), id, Proceed, Announced)
      modifies this`runs, this`status, this`version, this`prevVersion
      ensures Reaches(s, Current(), h) && status == Idling && version == id.version + 1 && prevVersion == id.version
      ensures runs == old(runs)[id := old(runs)[id].(state := Completed)]
    {
      hide ComparesTo, Loads, GoodSnapshot, Reaches;
      OneMore(s, Current(), Finish(id), h);
      version := id.version + 1;
      prevVersion := id.version;
      status := Idling;
      SetRunState(id, Completed);
    }

    // ---- Workflows ----

    method GoogleSheetsFullSync(id: RunId, fault: Option<ErrorType>, ghost h: Hashes)
      requires AtStage(Current(), id, Full, Started)
      requires fault.Some? && !fault.value.Other? ==> id.version !in db.marks
      modifies this`status, this`version, this`runs, this`starts
      ensures Reaches(old(Current()), Current(), h)
      ensures fault.None? ==> Current() == old(Current()).(status := Running,
        runs := old(runs)[id := Run(old(runs)[id].prev, Completed)],
        starts := old(starts) + {StartEvent(RunId(Download, id.version), old(runs)[id].prev)})
    {
      ghost var s := Current();
      Stays(s, h);
      hide Reaches;
      CheckAndUpdateStatusBeforeStart(id, s, h);
      if fault.Some? {
        FullSyncErrorHandler(id, fault.value, s, h);
      } else {
        EmitDownloadEvent(id, s, h);
      }
    }

    method GoogleSheetsDownload(id: RunId, fault: Option<ErrorType>, ghost h: Hashes)
      requires AtStage(Current(), id, Download, Started)
      requires fault.Some? && !fault.value.Other? ==> id.version !in db.marks
      modifies this`status, this`version, this`runs, this`starts
      ensures Reaches(old(Current()), Current(), h)
      ensures fault.None? ==> Current() == old(Current()).(
        runs := old(runs)[id := Run(old(runs)[id].prev, Completed)],
        starts := old(starts) + {StartEvent(RunId(Proceed, id.version), old(runs)[id].prev)})
    {
      ghost var s := Current();
      Stays(s, h);
      hide Reaches;
      if fault.Some? {
        FullSyncErrorHandler(id, fault.value, s, h);
      } else {
        EmitProceedEvent(id, s, h);
      }
    }

    /** Reads the sheet and compares it with the previous snapshot. */
    method PrepareSync(id: RunId, snap: Snapshot, files: ResultFiles, fault: Fault, ghost s: State, ghost h: Hashes)
      returns (error: Option<ErrorType>)
      requires Reaches(s, Current(), h) && AtStage(Current(), id, Proceed, Started)
      requires GoodSnapshot(snap) && (id.version in db.marks ==> ReadsSame(Current(), id.version, snap))
      requires runs[id].prev != id.version && (runs[id].prev != 0 ==> runs[id].prev in snaps)
      requires ComparesTo(h, PrevSnap(Current(), runs[id].prev), snap, files)
      modifies this`runs, this`snaps, this`diffs
      ensures Reaches(s, Current(), h)
      ensures error == if fault.InIngest? || fault.InCompare? then Some(fault.e) else None
      ensures CanFail(Current(), id) && runs[id].prev == old(runs)[id].prev
      ensures error.None? ==> AtStage(Current(), id, Proceed, Compared)
      ensures error.None? ==> snaps == old(snaps)[id.version := snap] && diffs == old(diffs)[id.version := files]
    {
      hide Reaches, GoodSnapshot, ComparesTo, ReadsSame;
      if fault.InIngest? { return Some(fault.e); }
      IngestSheet(id, snap, s, h);
      if fault.InCompare? { return Some(fault.e); }
      assert PrevSnap(Current(), runs[id].prev) == PrevSnap(old(Current()), old(runs)[id].prev);
      CompareSheets(id, files, s, h);
      error := None;
    }

    /** Loads the diff, tells the success and moves the syncflow to the next version. */
    method LoadAndSucceed(id: RunId, trouble: Trouble, ghost s: State, ghost h: Hashes) returns (ok: bool)
      requires Reaches(s, Current(), h) && AtStage(Current(), id, Proceed, Compared)
      requires id.version in diffs && runs[id].prev != id.version
      requires LoadData(runs[id].prev, diffs[id.version]).Some?
      requires WellFormedData(LoadData(runs[id].prev, diffs[id.version]).value)
      modifies this`db, this`runs, this`successes, this`status, this`version, this`prevVersion
      ensures Reaches(s, Current(), h)
      ensures ok ==> status == Idling && version == id.version + 1 && prevVersion == id.version
      ensures ok ==> |successes| == |old(successes)| + 1
      ensures !ok ==> Current() == old(Current()) && id.version !in db.marks
      ensures id.version in old(db).marks ==> ok
      ensures var data := LoadData(old(runs)[id].prev, diffs[id.version]).value;
        LoadDatabase(old(runs)[id].prev, old(db), data).Some? ==> ok
    {
      hide Reaches, LoadDatabase, LoadData, WellFormedData;
      var r := LoadSheet(id, trouble, s, h);
      if r.Failed? { return false; }
      KeepResult(id, s, h);
      EmitSucceed(id, db.marks[id.version], s, h);
      UpdateAfterSuccess(id, s, h);
      ok := true;
    }

    method EndInError(id: RunId, e: ErrorType, ghost s: State, ghost h: Hashes)
      requires Safe(s, h) && Reaches(s, Current(), h) && CanFail(Current(), id)
      requires !e.Other? ==> id.version !in db.marks
      modifies this`runs, this`status, this`version
      ensures Reaches(s, Current(), h) && Safe(Current(), h)
      ensures !e.Other? ==> status == Idling && version == id.version + 1
    {
      hide Reaches, Safe;
      FullSyncErrorHandler(id, e, s, h);
      StaysSafe(s, Current(), h);
    }

    /** Loads what is stored; when that works the sheet is in the destination. */
    method FinishSync(id: RunId, snap: Snapshot, trouble: Trouble, ghost s: State, ghost h: Hashes) returns (ok: bool)
      requires Safe(s, h) && Reaches(s, Current(), h) && AtStage(Current(), id, Proceed, Compared)
      requires id.version in diffs && runs[id].prev < id.version && id.version in snaps && snaps[id.version] == snap
      requires LoadData(runs[id].prev, diffs[id.version]).Some?
      requires WellFormedData(LoadData(runs[id].prev, diffs[id.version]).value)
      modifies this`db, this`runs, this`successes, this`status, this`version, this`prevVersion
      ensures Reaches(s, Current(), h)
      ensures ok ==> Safe(Current(), h) && status == Idling && version == id.version + 1 && prevVersion == id.version
      ensures ok ==> |successes| == |old(successes)| + 1 && snap.Valid() && Holds(db.table, snap)
      ensures !ok ==> CanFail(Current(), id) && db == old(db) && prevVersion == old(prevVersion)
      ensures !ok ==> id.version !in db.marks
      ensures var data := LoadData(old(runs)[id].prev, diffs[id.version]).value;
        LoadDatabase(old(runs)[id].prev, old(db), data).Some? ==> ok
    {
      hide Reaches, Safe, LoadData, WellFormedData, Holds, Snapshot.Valid, LoadDatabase;
      ok := LoadAndSucceed(id, trouble, s, h);
      if ok {
        StaysSafe(s, Current(), h);
        IdleHolds(Current(), h);
      }
    }

    /** Ingest, compare, load, tell the success and move on; any error goes to the handler. A sync that
        succeeds leaves the sheet it read in the destination, under the new previous version; one that
        ends in an EXTERNAL or INTERNAL error leaves the destination alone and is ready for the next. */
    method GoogleSheetsProceedSync(id: RunId, snap: Snapshot, files: ResultFiles, fault: Fault, trouble: Trouble,
        ghost h: Hashes)
      returns (ending: Ending)
      requires Safe(Current(), h) && AtStage(Current(), id, Proceed, Started)
      requires GoodSnapshot(snap) && (id.version in db.marks ==> ReadsSame(Current(), id.version, snap))
      requires ComparesTo(h, PrevSnap(Current(), runs[id].prev), snap, files)
      requires !fault.NoFault? && !fault.e.Other? ==> id.version !in db.marks
      modifies this
      ensures Reaches(old(Current()), Current(), h) && Safe(Current(), h)
      ensures ending.Succeeded? ==>
        && status == Idling && version == old(version) + 1 && prevVersion == old(version)
        && |successes| == |old(successes)| + 1
        && snap.Valid() && Holds(db.table, snap)
      ensures ending.EndedInError? && !ending.e.Other? ==>
        status == Idling && version == old(version) + 1 && prevVersion == old(prevVersion) && db == old(db)
      ensures LoadData(old(prevVersion), files).Some? && WellFormedData(LoadData(old(prevVersion), files).value)
      ensures fault.NoFault? && ending.EndedInError? ==> ending.e == Internal
      ensures var data := LoadData(old(prevVersion), files).value;
        fault.NoFault? && LoadDatabase(old(prevVersion), old(db), data).Some? ==> ending.Succeeded?
    {
      hide Reaches, Safe, Holds, GoodSnapshot, ComparesTo, LoadDatabase, LoadData, WellFormedData, CanFail,
           Snapshot.Valid, ReadsSame;
      ghost var s := Current();
      Stays(s, h);
      ReadyToProceed(s, id, h);
      DiffCanBeLoaded(h, runs[id].prev, PrevSnap(s, runs[id].prev), snap, files);
      var error := PrepareSync(id, snap, files, fault, s, h);
      if error.None? && !fault.InLoad? {
        var ok := FinishSync(id, snap, trouble, s, h);
        if ok { return Succeeded; }
        error := Some(Internal);
      } else if fault.InLoad? {
        error := Some(fault.e);
      }
      EndInError(id, error.value, s, h);
      ending := EndedInError(error.value);
    }

    /** An undisturbed sync of a fresh version, from the trigger to the state update: it fails only when
        the load does, and then the destination is as before. */
    method SyncOnce(snap: Snapshot, files: ResultFiles, trouble: Trouble, ghost h: Hashes) returns (ending: Ending)
      requires Safe(Current(), h) && status == Idling && IsFresh(Current())
      requires GoodSnapshot(snap) && ComparesTo(h, PrevSnap(Current(), prevVersion), snap, files)
      modifies this
      ensures Reaches(old(Current()), Current(), h) && Safe(Current(), h)
      ensures status == Idling && version == old(version) + 1
      ensures ending.Succeeded? ==> prevVersion == old(version) && snap.Valid() && Holds(db.table, snap)
      ensures !ending.Succeeded? ==> prevVersion == old(prevVersion) && db == old(db)
      ensures LoadData(old(prevVersion), files).Some? && WellFormedData(LoadData(old(prevVersion), files).value)
      ensures var data := LoadData(old(prevVersion), files).value;
        LoadDatabase(old(prevVersion), old(db), data).Some? ==> ending.Succeeded?
    {
      hide Reaches, Safe, Holds, GoodSnapshot, ComparesTo, LoadDatabase, LoadData, WellFormedData, Snapshot.Valid;
      ghost var s := Current();
      FreshUnmarked(s, h);
      FetchSheet(h);
      StaysSafe(s, Current(), h);
      ghost var s1 := Current();
      ending := GoogleSheetsProceedSync(RunId(Proceed, version), snap, files, NoFault, trouble, h);
      ReachesJoin(s, s1, Current(), h);
    }

    /** The trigger and the first run. */
    method StartSync(ghost h: Hashes)
      requires status == Idling && IsFresh(Current())
      modifies this`status, this`version, this`runs, this`starts
      ensures Reaches(old(Current()), Current(), h) && version == old(version)
      ensures StartEvent(RunId(Download, version), prevVersion) in starts
      ensures RunId(Download, version) !in runs && RunId(Proceed, version) !in runs
    {
      hide Reaches, ComparesTo, Loads, GoodSnapshot;
      ghost var s := Current();
      HandleWorkflowTriggered(true, h);
      ghost var s1 := Current();
      ExecuteWorkflow(StartEvent(RunId(Full, version), prevVersion), h);
      ReachesJoin(s, s1, Current(), h);
      ghost var s2 := Current();
      GoogleSheetsFullSync(RunId(Full, version), None, h);
      ReachesJoin(s, s2, Current(), h);
    }

    /** The trigger and the first two runs. */
    method FetchSheet(ghost h: Hashes)
      requires status == Idling && IsFresh(Current())
      modifies this`status, this`version, this`runs, this`starts
      ensures Reaches(old(Current()), Current(), h) && version == old(version)
      ensures AtStage(Current(), RunId(Proceed, version), Proceed, Started)
      ensures runs[RunId(Proceed, version)].prev == prevVersion
    {
      hide Reaches, ComparesTo, Loads, GoodSnapshot;
      ghost var s := Current();
      StartSync(h);
      ghost var s3 := Current();
      ExecuteWorkflow(StartEvent(RunId(Download, version), prevVersion), h);
      ReachesJoin(s, s3, Current(), h);
      ghost var s4 := Current();
      GoogleSheetsDownload(RunId(Download, version), None, h);
      ReachesJoin(s, s4, Current(), h);
      ghost var s5 := Current();
      ExecuteWorkflow(StartEvent(RunId(Proceed, version), prevVersion), h);
      ReachesJoin(s, s5, Current(), h);
    }

    // ---- Post-processor ----

    method CleanDiffData(v: nat)
      modifies this`snaps, this`diffs
      ensures snaps == old(snaps) - {v} && diffs == old(diffs) - {v}
    {
      snaps := snaps - {v};
      diffs := diffs - {v};
    }

    /** Deletes the previous version's objects and moves the row count by what the load added and deleted. */
    method HandleSyncflowSucceed(i: nat, ghost h: Hashes)
      requires i < |successes|
      modifies this
      ensures Reaches(old(Current()), Current(), h)
      ensures Current() == old(Current()).(
        snaps := old(snaps) - {old(successes)[i].prev}, diffs := old(diffs) - {old(successes)[i].prev},
        rowsNumber := old(rowsNumber)
          + (old(successes)[i].result.addedRowsCount - old(successes)[i].result.deletedRowsCount),
        handled := old(handled) + {i}, handledTwice := old(handledTwice) || i in old(handled))
    {
      hide Reaches, ComparesTo, Loads, GoodSnapshot;
      Stays(Current(), h);
      OneMore(Current(), Current(), HandleSuccess(i), h);
      var data := successes[i];
      CleanDiffData(data.prev);
      rowsNumber := rowsNumber + (data.result.addedRowsCount - data.result.deletedRowsCount);
      handledTwice := handledTwice || i in handled;
      handled := handled + {i};
    }
  }

  /** No run of the current version has started. */
  predicate IsFresh(s: State) {
    forall id <- s.runs :: id.version < s.version
  }

  lemma FreshUnmarked(s: State, h: Hashes)
    requires Safe(s, h) && s.status == Idling
    ensures s.version !in s.db.marks
  {
  }

  lemma ReachesJoin(a: State, b: State, c: State, h: Hashes)
    requires Reaches(a, b, h) && Reaches(b, c, h)
    ensures Reaches(a, c, h)
  {
    hide Step;
    var first :| IsPath(first, a, b, h);
    var second :| IsPath(second, b, c, h);
    var both := first + second[1..];
    forall i | 0 <= i < |both| - 1 ensures Step(both[i], both[i + 1], h) {
      if i < |first| - 1 {
        assert Step(first[i], first[i + 1], h);
      } else {
        assert Step(second[i - |first| + 1], second[i - |first| + 2], h);
      }
    }
    assert IsPath(both, a, c, h);
  }

  lemma StaysSafe(s: State, s': State, h: Hashes)
    requires Reaches(s, s', h) && Safe(s, h)
    ensures Safe(s', h)
  {
    hide Safe, IsPath;
    var states :| IsPath(states, s, s', h);
    PathIsSafe(states, s, s', h);
  }

  lemma LoadStep(s: State, m: State, id: RunId, db: Database, h: Hashes)
    requires Reaches(s, m, h) && AtStage(m, id, Proceed, Compared) && id.version in m.diffs && id.version !in m.db.marks
    requires Loads(m.db, m.runs[id].prev, id.version, m.diffs[id.version], db)
    ensures Reaches(s, m.(db := db), h)
  {
    hide ComparesTo, Loads, GoodSnapshot, Reaches;
    OneMore(s, m, LoadCommit(id, db), h);
  }

  lemma ReadyToProceed(s: State, id: RunId, h: Hashes)
    requires Safe(s, h) && AtStage(s, id, Proceed, Started)
    ensures id.version == s.version && s.runs[id].prev == s.prev < s.version && 0 !in s.snaps
    ensures s.prev != 0 ==> s.prev in s.snaps
  {
  }

  lemma IdleHolds(s: State, h: Hashes)
    requires Safe(s, h) && s.status == Idling && s.prev != 0
    ensures s.prev in s.snaps && s.snaps[s.prev].Valid() && Holds(s.db.table, s.snaps[s.prev])
  {
  }
}
