/** Runs of the services that break one assumption, and where they end. */
module SyncExamples {
  import opened Wrappers
  import opened Cells
  import opened SchemaDiff
  import opened RowText
  import opened Compare
  import opened Getter
  import opened Loader
  import opened Patch
  import opened PatchCases
  import opened SyncProtocol
  import opened SyncControl
  import opened SyncData
  import opened SyncSafety
  import opened SyncWorkflows

  // ---- Steps without the assumptions ----

  ghost predicate FreeStep(s: State, s': State, h: Hashes) {
    exists act :: Enabled(s, act, h) && s' == Next(s, act, h)
  }

  ghost predicate IsFreePath(states: seq<State>, s: State, s': State, h: Hashes) {
    && states != [] && states[0] == s && states[|states| - 1] == s'
    && forall i :: 0 <= i < |states| - 1 ==> FreeStep(states[i], states[i + 1], h)
  }

  /** `s'` comes from `s` by steps of the services, whatever the surroundings do. */
  ghost predicate FreelyReaches(s: State, s': State, h: Hashes) {
    exists states :: IsFreePath(states, s, s', h)
  }

  lemma FreeOne(s: State, m: State, act: Action, h: Hashes)
    requires FreelyReaches(s, m, h) && Enabled(m, act, h)
    ensures FreelyReaches(s, Next(m, act, h), h)
  {
    hide Enabled, Next;
    var states :| IsFreePath(states, s, m, h);
    var s' := Next(m, act, h);
    assert FreeStep(m, s', h);
    hide FreeStep;
    assert IsFreePath(states + [s'], s, s', h);
  }

  lemma StepIsFree(s: State, s': State, h: Hashes)
    requires Step(s, s', h)
    ensures FreeStep(s, s', h)
  {
    hide Enabled, Next, Assumed;
  }

  lemma LawfulIsFree(s: State, m: State, s': State, h: Hashes)
    requires FreelyReaches(s, m, h) && Reaches(m, s', h)
    ensures FreelyReaches(s, s', h)
  {
    hide Step, FreeStep;
    var first :| IsFreePath(first, s, m, h);
    var second :| IsPath(second, m, s', h);
    var both := first + second[1..];
    forall i | 0 <= i < |both| - 1 ensures FreeStep(both[i], both[i + 1], h) {
      if i < |first| - 1 {
        assert FreeStep(first[i], first[i + 1], h);
      } else {
        assert Step(second[i - |first| + 1], second[i - |first| + 2], h);
        StepIsFree(both[i], both[i + 1], h);
      }
    }
    assert IsFreePath(both, s, s', h);
  }

  lemma FreeStart(s: State, s': State, h: Hashes)
    requires Reaches(s, s', h)
    ensures FreelyReaches(s, s', h)
  {
    hide Step, FreeStep, Reaches;
    assert IsFreePath([s], s, s, h);
    LawfulIsFree(s, s, s', h);
  }

  // ---- A load is committed and its run fails ----

  /** Version 1 of sheet `a` up to the committed load, by lawful steps. */
  method CommitFirst(a: Snapshot, files: ResultFiles, ghost h: Hashes) returns (s: Services, ghost start: State)
    requires GoodSnapshot(a) && ComparesTo(h, None, a, files)
    ensures fresh(s) && Init(start) && Reaches(start, s.Current(), h) && Safe(s.Current(), h)
    ensures AtStage(s.Current(), RunId(Proceed, 1), Proceed, Compared) && s.runs[RunId(Proceed, 1)].prev == 0
    ensures s.version == 1 && s.prevVersion == 0 && 1 in s.db.marks && 1 in s.snaps && s.snaps[1] == a
    ensures a.Valid() && Holds(s.db.table, a)
  {
    hide Reaches, Safe, Holds, GoodSnapshot, ComparesTo, LoadDatabase, LoadData, WellFormedData, Snapshot.Valid;
    s := new Services();
    start := s.Current();
    InitSafe(start, h);
    s.FetchSheet(h);
    StaysSafe(start, s.Current(), h);
    var id := RunId(Proceed, 1);
    ReadyToProceed(s.Current(), id, h);
    DiffCanBeLoaded(h, 0, None, a, files);
    FirstLoadCommits(h, a, files, s.db);
    var error := s.PrepareSync(id, a, files, NoFault, start, h);
    var r := s.LoadSheet(id, NoTrouble, start, h);
    StaysSafe(start, s.Current(), h);
    MarkedHolds(s.Current(), h);
  }

  lemma FirstLoadCommits(h: Hashes, a: Snapshot, files: ResultFiles, db: Database)
    requires ComparesTo(h, None, a, files) && db.table == map[]
    ensures LoadData(0, files).Some? && WellFormedData(LoadData(0, files).value)
    ensures LoadDatabase(0, db, LoadData(0, files).value).Some?
  {
    hide LoadTable, LoadData, WellFormedData, FirstCompare;
    var fields, ids :| FirstCompares(a, files, fields, ids);
    FirstLoadHolds(a, fields, ids);
  }

  lemma MarkedHolds(s: State, h: Hashes)
    requires Safe(s, h) && s.version in s.db.marks
    ensures s.version in s.snaps && s.snaps[s.version].Valid() && Holds(s.db.table, s.snaps[s.version])
    ensures s.db.marks.Keys == {s.version} && StartEvent(RunId(Proceed, s.version), s.prev) in s.starts
  {
    hide Holds, Snapshot.Valid, ControlOk;
  }

  // ---- Another sheet is read for a version that is already loaded ----

  /** The load of sheet `a` is committed, its run fails and is started again, all by lawful steps. */
  method CommitAndRestart(a: Snapshot, files: ResultFiles, ghost h: Hashes) returns (s: Services, ghost start: State)
    requires GoodSnapshot(a) && ComparesTo(h, None, a, files)
    ensures fresh(s) && Init(start) && Reaches(start, s.Current(), h)
    ensures AtStage(s.Current(), RunId(Proceed, 1), Proceed, Started) && s.runs[RunId(Proceed, 1)].prev == 0
    ensures 0 !in s.snaps && 1 in s.db.marks && a.Valid() && Holds(s.db.table, a)
  {
    hide Reaches, Safe, Holds, GoodSnapshot, ComparesTo, Loads, Snapshot.Valid;
    s, start := CommitFirst(a, files, h);
    var id := RunId(Proceed, 1);
    MarkedHolds(s.Current(), h);
    s.FullSyncErrorHandler(id, Other, start, h);
    ghost var failed := s.Current();
    s.ExecuteWorkflow(StartEvent(id, 0), h);
    ReachesJoin(start, failed, s.Current(), h);
    InitSafe(start, h);
    StaysSafe(start, s.Current(), h);
    ReadyToProceed(s.Current(), id, h);
  }

  /** The load of sheet `a` is committed, its run fails, the event comes again and sheet `b` is read. The
      load finds its mark, and the run ends as if `b` had been loaded: the destination holds `a`, the
      stored snapshot is `b`. With unchanged types it is right if and only if the two readings agree. */
  method AnotherSheetRead(a: Snapshot, filesA: ResultFiles, b: Snapshot, filesB: ResultFiles, ghost h: Hashes)
    returns (s: Services, ghost start: State)
    requires GoodSnapshot(a) && ComparesTo(h, None, a, filesA) && GoodSnapshot(b) && ComparesTo(h, None, b, filesB)
    ensures Init(start) && FreelyReaches(start, s.Current(), h)
    ensures s.status == Idling && s.prevVersion == 1 && 1 in s.snaps && s.snaps[1] == b
    ensures a.Valid() && b.Valid() && Holds(s.db.table, a)
    ensures SameTypes(a, b) ==> (Holds(s.db.table, b) <==> SameSheet(a, b))
  {
    hide Reaches, FreelyReaches, Safe, Holds, GoodSnapshot, ComparesTo, Loads, SameSheet, SameTypes, Snapshot.Valid;
    s, start := CommitAndRestart(a, filesA, h);
    var id := RunId(Proceed, 1);
    FreeStart(start, s.Current(), h);
    FreeOne(start, s.Current(), Ingest(id, b), h);
    ghost var read := Next(s.Current(), Ingest(id, b), h);
    s.ReadSheet(id, b);
    assert s.Current() == read;
    Stays(read, h);
    s.CompareSheets(id, filesB, read, h);
    s.KeepResult(id, read, h);
    s.EmitSucceed(id, s.db.marks[1], read, h);
    s.UpdateAfterSuccess(id, read, h);
    LawfulIsFree(start, read, s.Current(), h);
    GoodIsValid(b);
    if SameTypes(a, b) { HeldSheet(s.db.table, a, b); }
  }

  /** The first version's files of a sheet with one row and the columns a and b. */
  function FirstFiles(cur: Snapshot): ResultFiles
    requires cur.Valid() && cur.schema.Keys == {"a", "b", PRIMARY} && "r" in cur.rows
  {
    ResultFiles(cur.schema, SchemaChanges([], map[], map[], map[], map[]), ["a", "b", PRIMARY],
      AddedRowsFile(["a", "b", PRIMARY], cur, ["r"]), [], [], [], [])
  }

  lemma OneRowPrintable(cell: string)
    ensures PrintableSnapshot(TwoColumns("a", "b", Str(cell), Str("y")))
  {
    assert WordName("a") && WordName("b") && WordName(PRIMARY);
    hide WordName;
  }

  lemma OneRowSheet(cell: string, h: Hashes)
    ensures var cur := TwoColumns("a", "b", Str(cell), Str("y"));
      && cur.Valid() && cur.schema.Keys == {"a", "b", PRIMARY} && cur.rows.Keys == {"r"} && GoodSnapshot(cur)
      && ComparesTo(h, None, cur, FirstFiles(cur))
  {
    hide PrintableSnapshot;
    assert PRIMARY != "a" && PRIMARY != "b" by { assert |PRIMARY| != |"a"| && |PRIMARY| != |"b"|; }
    TwoColumnsValid("a", "b", Str(cell), Str("y"));
    OneRowPrintable(cell);
    var cur := TwoColumns("a", "b", Str(cell), Str("y"));
    assert Enumerates(["a", "b", PRIMARY], cur.schema.Keys) && Enumerates(["r"], cur.rows.Keys);
    assert FirstCompares(cur, FirstFiles(cur), ["a", "b", PRIMARY], ["r"]);
  }

  /** For one: the cell x becomes z between the two readings. The syncflow is IDLING with previous version
      1, and the destination does not hold its snapshot. */
  method ChangedCellRead(ghost h: Hashes) returns (s: Services, ghost start: State)
    ensures Init(start) && FreelyReaches(start, s.Current(), h)
    ensures s.status == Idling && s.prevVersion == 1 && 1 in s.snaps && s.snaps[1].Valid()
    ensures !Holds(s.db.table, s.snaps[1])
  {
    hide FreelyReaches, Holds, GoodSnapshot, ComparesTo, Snapshot.Valid, FirstFiles;
    OneRowSheet("x", h);
    OneRowSheet("z", h);
    var a, b := TwoColumns("a", "b", Str("x"), Str("y")), TwoColumns("a", "b", Str("z"), Str("y"));
    assert "a" in b.schema && !SameCell(a.rows["r"]["a"], b.rows["r"]["a"], b.schema["a"].dataType);
    assert !SameSheet(a, b);
    s, start := AnotherSheetRead(a, FirstFiles(a), b, FirstFiles(b), h);
  }

  // ---- An error is reported after the load was committed ----

  /** The load of sheet `a` is committed and the activity still reports an EXTERNAL error: the syncflow is
      IDLING without a previous version, and the destination is not empty. */
  method ErrorAfterCommit(a: Snapshot, files: ResultFiles, ghost h: Hashes) returns (s: Services, ghost start: State)
    requires GoodSnapshot(a) && ComparesTo(h, None, a, files)
    ensures Init(start) && FreelyReaches(start, s.Current(), h)
    ensures s.status == Idling && s.version == 2 && s.prevVersion == 0
    ensures s.db.marks != map[] && a.Valid() && Holds(s.db.table, a) && !IdleOk(s.Current())
  {
    hide Reaches, FreelyReaches, Safe, Holds, GoodSnapshot, ComparesTo, Loads, Snapshot.Valid;
    s, start := CommitFirst(a, files, h);
    var id := RunId(Proceed, 1);
    FreeStart(start, s.Current(), h);
    FreeOne(start, s.Current(), HandledFailure(id), h);
    ghost var after := Next(s.Current(), HandledFailure(id), h);
    s.status, s.version := Idling, 2;
    s.SetRunState(id, RunState.Failed);
    assert s.Current() == after;
  }

  // ---- An event of an ended version comes again ----

  /** A version ends in an EXTERNAL error in its first run. */
  method FailVersion(s: Services, ghost h: Hashes)
    requires s.status == Idling && IsFresh(s.Current()) && s.version !in s.db.marks
    modifies s
    ensures Reaches(old(s.Current()), s.Current(), h)
    ensures s.status == Idling && s.version == old(s.version) + 1
    ensures s.prevVersion == old(s.prevVersion) && s.db == old(s.db)
    ensures s.runs == old(s.runs)[RunId(Full, old(s.version)) := Run(old(s.prevVersion), RunState.Failed)]
    ensures old(s.starts) <= s.starts && StartEvent(RunId(Full, old(s.version)), old(s.prevVersion)) in s.starts
  {
    hide Reaches, ComparesTo, Loads, GoodSnapshot;
    ghost var start := s.Current();
    var id := RunId(Full, s.version);
    s.HandleWorkflowTriggered(true, h);
    ghost var scheduled := s.Current();
    s.ExecuteWorkflow(StartEvent(id, s.prevVersion), h);
    ReachesJoin(start, scheduled, s.Current(), h);
    s.FullSyncErrorHandler(id, External, start, h);
  }

  /** Version 1 ends in an EXTERNAL error, its event comes again and its run waits; version 2 ends in the
      same way, and then the waiting run: the version goes back from 3 to 2. */
  method VersionGoesBack(ghost h: Hashes) returns (s: Services, ghost start: State, ghost high: State)
    ensures Init(start) && FreelyReaches(start, high, h) && Reaches(high, s.Current(), h)
    ensures high.version == 3 && s.version == 2
  {
    hide Reaches, FreelyReaches, Safe, ComparesTo, Loads, GoodSnapshot;
    var first := RunId(Full, 1);
    s := new Services();
    start := s.Current();
    FailVersion(s, h);
    FreeStart(start, s.Current(), h);
    FreeOne(start, s.Current(), Deliver(StartEvent(first, 0)), h);
    ghost var again := Next(s.Current(), Deliver(StartEvent(first, 0)), h);
    s.runs := s.runs[first := Run(0, Active(Started))];
    assert s.Current() == again;
    FailVersion(s, h);
    LawfulIsFree(start, again, s.Current(), h);
    high := s.Current();
    Stays(high, h);
    s.FullSyncErrorHandler(first, External, high, h);
  }
}
