/** The syncflow protocol: triggers, the three workflow runs of a version, the stored snapshots and
    diffs, the destination, and the handling of success events, as interleaved steps. */
module SyncProtocol {
  import opened Wrappers
  import opened Cells
  import opened SchemaDiff
  import opened RowText
  import opened Compare
  import opened Getter
  import opened Loader
  import opened Patch

  datatype Status = Idling | Scheduled | Running

  datatype Kind = Full | Download | Proceed

  /** A workflow id is the syncflow's version and the kind of run. */
  datatype RunId = RunId(kind: Kind, version: nat)

  datatype Stage = Started | Entered | Ingested | Compared | HasResult(result: LoadedResult) | Announced

  datatype RunState = Active(stage: Stage) | Completed | Failed

  /** A run keeps the previous version its event came with. */
  datatype Run = Run(prev: nat, state: RunState)

  /** An event that starts a run. Any event that was sent can be delivered at any later time, any number of times. */
  datatype StartEvent = StartEvent(id: RunId, prev: nat)

  datatype SuccessEvent = SuccessEvent(version: nat, prev: nat, result: LoadedResult)

  datatype Hashes = Hashes(cells: CellHash, fields: FieldHash)

  /** Stored syncflow state, triggers on their way, events sent, runs by workflow id, the stored
      snapshots and diffs, the destination, and the data source's row count. */
  datatype State = State(
    status: Status, version: nat, prev: nat,
    checked: nat, marked: nat,
    starts: set<StartEvent>, successes: seq<SuccessEvent>,
    runs: map<RunId, Run>,
    snaps: map<nat, Snapshot>, diffs: map<nat, ResultFiles>,
    db: Database,
    rowsNumber: int, handled: set<nat>, handledTwice: bool)

  ghost predicate Init(s: State) {
    && s.status == Idling && s.version == 1 && s.prev == 0 && s.checked == 0 && s.marked == 0
    && s.starts == {} && s.successes == [] && s.runs == map[] && s.snaps == map[] && s.diffs == map[]
    && s.db.table == map[] && s.db.marks == map[] && s.rowsNumber == 0 && s.handled == {} && !s.handledTwice
  }

  // ---- What the processors do ----

  /** The hypotheses on a comparison: the exact condition under which its patch is faithful. */
  ghost predicate Faithful(q: Comparison) {
    q.Valid() && KeepsTypes(q) && TellsCells(q) && AllArrive(q)
  }

  ghost predicate FirstCompares(cur: Snapshot, files: ResultFiles, fields: seq<Field>, ids: seq<RowId>) {
    && cur.Valid() && Enumerates(fields, cur.schema.Keys) && Enumerates(ids, cur.rows.Keys)
    && files == FirstCompare(cur, fields, ids)
  }

  ghost predicate FullCompares(h: Hashes, prev: Snapshot, cur: Snapshot, files: ResultFiles,
      q: Comparison, changes: SchemaChanges, l: Listing) {
    && q.hash == h.cells && q.prev == prev && q.cur == cur && Faithful(q) && ListingOf(l, q)
    && IsDiff(changes, prev.schema, cur.schema, h.fields)
    && files == FullCompare(q, changes, l)
  }

  /** What the comparer writes for `cur`, given the previous snapshot if there is one. */
  ghost predicate ComparesTo(h: Hashes, prev: Option<Snapshot>, cur: Snapshot, files: ResultFiles) {
    match prev
    case None => exists fields, ids :: FirstCompares(cur, files, fields, ids)
    case Some(p) => exists q, changes, l :: FullCompares(h, p, cur, files, q, changes, l)
  }

  ghost predicate GoodSnapshot(snap: Snapshot) {
    snap.Valid() && PrintableSnapshot(snap)
  }

  function PrevSnap(s: State, prev: nat): Option<Snapshot> {
    if prev in s.snaps then Some(s.snaps[prev]) else None
  }

  /** One committed load of a version's stored diff. */
  ghost predicate Loads(db: Database, prev: nat, version: nat, files: ResultFiles, db': Database) {
    var data := LoadData(prev, files);
    && data.Some? && WellFormedData(data.value)
    && var loaded := LoadDatabase(prev, db, data.value);
    && loaded.Some? && db' == Marked(loaded.value, prev, version, LoadedResultOf(data.value))
  }

  function Delta(r: LoadedResult): int {
    r.addedRowsCount - r.deletedRowsCount
  }

  // ---- Steps ----

  datatype Action =
    | TriggerCheck | TriggerMark | TriggerEmit
    | Deliver(e: StartEvent)
    | EnterRunning(id: RunId) | EmitDownload(id: RunId) | EmitProceed(id: RunId)
    | Ingest(id: RunId, snap: Snapshot) | CompareWith(id: RunId, files: ResultFiles)
    | LoadCommit(id: RunId, db: Database) | LoadReturn(id: RunId)
    | EmitSuccess(id: RunId) | Finish(id: RunId)
    | HandledFailure(id: RunId) | OtherFailure(id: RunId) | Drop(id: RunId)
    | HandleSuccess(i: nat)

  predicate AtStage(s: State, id: RunId, kind: Kind, stage: Stage) {
    id in s.runs && id.kind == kind && s.runs[id].state == Active(stage)
  }

  predicate AtResult(s: State, id: RunId) {
    id in s.runs && id.kind == Proceed && s.runs[id].state.Active? && s.runs[id].state.stage.HasResult?
  }

  /** Active, and its next event is still to be emitted. */
  predicate CanFail(s: State, id: RunId) {
    id in s.runs && s.runs[id].state.Active? && s.runs[id].state.stage != Announced
  }

  /** The id reuse policy: a workflow id can be started again only after its run failed. */
  predicate Startable(s: State, id: RunId) {
    id in s.runs ==> s.runs[id].state.Failed?
  }

  ghost predicate Enabled(s: State, act: Action, h: Hashes) {
    match act
    case TriggerCheck => s.status == Idling
    case TriggerMark => s.checked > 0
    case TriggerEmit => s.marked > 0
    case Deliver(e) => e in s.starts && Startable(s, e.id)
    case EnterRunning(id) => AtStage(s, id, Full, Started)
    case EmitDownload(id) => AtStage(s, id, Full, Entered)
    case EmitProceed(id) => AtStage(s, id, Download, Started)
    case Ingest(id, snap) => AtStage(s, id, Proceed, Started) && GoodSnapshot(snap)
    case CompareWith(id, files) =>
      && AtStage(s, id, Proceed, Ingested)
      && id.version in s.snaps && (s.runs[id].prev != 0 ==> s.runs[id].prev in s.snaps)
      && ComparesTo(h, PrevSnap(s, s.runs[id].prev), s.snaps[id.version], files)
    case LoadCommit(id, db) =>
      && AtStage(s, id, Proceed, Compared)
      && id.version in s.diffs && id.version !in s.db.marks
      && Loads(s.db, s.runs[id].prev, id.version, s.diffs[id.version], db)
    case LoadReturn(id) => AtStage(s, id, Proceed, Compared) && id.version in s.db.marks
    case EmitSuccess(id) => AtResult(s, id)
    case Finish(id) => AtStage(s, id, Proceed, Announced)
    case HandledFailure(id) => CanFail(s, id)
    case OtherFailure(id) => CanFail(s, id)
    case Drop(id) => id in s.runs && s.runs[id].state == Active(Started)
    case HandleSuccess(i) => i < |s.successes|
  }

  /** The sheet is read again as it was read for this version before. */
  ghost predicate ReadsSame(s: State, version: nat, snap: Snapshot) {
    && version in s.snaps && s.snaps[version].Valid() && snap.Valid()
    && SameTypes(s.snaps[version], snap) && SameSheet(s.snaps[version], snap)
  }

  /** What the environment must not do: redeliver an event to a failed run of a version that has
      ended, read another sheet into a version that is already loaded, or report an EXTERNAL or
      INTERNAL error after the load was committed. */
  ghost predicate Assumed(s: State, act: Action) {
    match act
    case Deliver(e) => e.id in s.runs ==> e.id.version == s.version
    case Ingest(id, snap) => id.version in s.db.marks ==> ReadsSame(s, id.version, snap)
    case HandledFailure(id) => id.version !in s.db.marks
    case _ => true
  }

  function SetRun(s: State, id: RunId, state: RunState): State
    requires id in s.runs
  {
    s.(runs := s.runs[id := s.runs[id].(state := state)])
  }

  ghost function Next(s: State, act: Action, h: Hashes): State
    requires Enabled(s, act, h)
  {
    match act
    case TriggerCheck => s.(checked := s.checked + 1)
    case TriggerMark => s.(checked := s.checked - 1, marked := s.marked + 1, status := Scheduled)
    case TriggerEmit => s.(marked := s.marked - 1, starts := s.starts + {StartEvent(RunId(Full, s.version), s.prev)})
    case Deliver(e) => s.(runs := s.runs[e.id := Run(e.prev, Active(Started))])
    case EnterRunning(id) => SetRun(s, id, Active(Entered)).(status := Running)
    case EmitDownload(id) =>
      SetRun(s, id, Completed).(starts := s.starts + {StartEvent(RunId(Download, id.version), s.runs[id].prev)})
    case EmitProceed(id) =>
      SetRun(s, id, Completed).(starts := s.starts + {StartEvent(RunId(Proceed, id.version), s.runs[id].prev)})
    case Ingest(id, snap) => SetRun(s, id, Active(Ingested)).(snaps := s.snaps[id.version := snap])
    case CompareWith(id, files) => SetRun(s, id, Active(Compared)).(diffs := s.diffs[id.version := files])
    case LoadCommit(id, db) => s.(db := db)
    case LoadReturn(id) => SetRun(s, id, Active(HasResult(s.db.marks[id.version])))
    case EmitSuccess(id) =>
      SetRun(s, id, Active(Announced)).(
        successes := s.successes + [SuccessEvent(id.version, s.runs[id].prev, s.runs[id].state.stage.result)])
    case Finish(id) => SetRun(s, id, Completed).(status := Idling, version := id.version + 1, prev := id.version)
    case HandledFailure(id) => SetRun(s, id, RunState.Failed).(status := Idling, version := id.version + 1)
    case OtherFailure(id) => SetRun(s, id, RunState.Failed)
    case Drop(id) => SetRun(s, id, Completed)
    case HandleSuccess(i) => s.(
      snaps := s.snaps - {s.successes[i].prev}, diffs := s.diffs - {s.successes[i].prev},
      rowsNumber := s.rowsNumber + Delta(s.successes[i].result),
      handled := s.handled + {i}, handledTwice := s.handledTwice || i in s.handled)
  }

  ghost predicate Step(s: State, s': State, h: Hashes) {
    exists act :: Enabled(s, act, h) && Assumed(s, act) && s' == Next(s, act, h)
  }

  ghost predicate IsRun(states: seq<State>, h: Hashes) {
    && states != [] && Init(states[0])
    && forall i :: 0 <= i < |states| - 1 ==> Step(states[i], states[i + 1], h)
  }

  // ---- The invariant ----

  predicate Done(s: State, id: RunId) {
    id in s.runs && s.runs[id].state.Completed?
  }

  predicate Ended(s: State, id: RunId) {
    id in s.runs && !s.runs[id].state.Active?
  }

  /** The current version's success event is out, its state update is not. */
  predicate IsAnnounced(s: State) {
    AtStage(s, RunId(Proceed, s.version), Proceed, Announced)
  }

  predicate StartOk(s: State, e: StartEvent) {
    && e.id.version <= s.version && e.prev < e.id.version
    && (if e.id.version < s.version then Ended(s, e.id) else
        && e.prev == s.prev
        && (e.id.kind.Download? ==> Done(s, RunId(Full, s.version)))
        && (e.id.kind.Proceed? ==> Done(s, RunId(Download, s.version))))
  }

  predicate StageFits(kind: Kind, stage: Stage) {
    match kind
    case Full => stage.Started? || stage.Entered?
    case Download => stage.Started?
    case Proceed => !stage.Entered?
  }

  predicate RunOk(s: State, id: RunId) {
    id in s.runs
    && StartEvent(id, s.runs[id].prev) in s.starts
    && (s.runs[id].state.Active? ==> StageFits(id.kind, s.runs[id].state.stage))
  }

  predicate SuccessOk(s: State, e: SuccessEvent) {
    && e.prev < e.version <= s.version
    && (if e.version < s.version then e.prev < s.prev else e.prev == s.prev && IsAnnounced(s))
  }

  /** Status IDLING: nothing beyond the first run of the version has been asked for. */
  predicate StatusOk(s: State) {
    && (AtStage(s, RunId(Full, s.version), Full, Entered) ==> s.status != Idling)
    && (s.status == Idling ==> forall e <- s.starts | e.id.version == s.version :: e.id.kind.Full?)
  }

  ghost predicate ControlOk(s: State) {
    && s.prev < s.version
    && (forall e <- s.starts :: StartOk(s, e))
    && (forall id <- s.runs :: RunOk(s, id))
    && StatusOk(s)
  }

  ghost predicate SuccessesOk(s: State) {
    && (forall e <- s.successes :: SuccessOk(s, e))
    && (forall i, j :: 0 <= i < j < |s.successes| ==> s.successes[i].version < s.successes[j].version)
  }

  ghost predicate TableHolds(s: State, v: nat) {
    v in s.snaps && GoodSnapshot(s.snaps[v]) && Holds(s.db.table, s.snaps[v])
  }

  /** The destination holds the loaded version, and its mark is the only one. */
  ghost predicate TableOk(s: State) {
    if s.version in s.db.marks then
      && s.db.marks.Keys == {s.version} && TableHolds(s, s.version)
      && StartEvent(RunId(Proceed, s.version), s.prev) in s.starts
    else IdleOk(s)
  }

  ghost predicate IdleOk(s: State) {
    if s.prev == 0 then s.db.marks == map[] && s.db.table == map[]
    else s.db.marks.Keys == {s.prev} && TableHolds(s, s.prev)
  }

  /** What a run that proceeds has found or stored so far. */
  ghost predicate ProceedOk(s: State, h: Hashes) {
    var id := RunId(Proceed, s.version);
    id in s.runs && s.runs[id].state.Active? ==>
      match s.runs[id].state.stage
      case Started => true
      case Ingested => s.version in s.snaps
      case Compared =>
        s.version in s.snaps && s.version in s.diffs
        && ComparesTo(h, PrevSnap(s, s.prev), s.snaps[s.version], s.diffs[s.version])
      case HasResult(r) => s.version in s.db.marks && r == s.db.marks[s.version]
      case Announced => s.version in s.db.marks
      case Entered => false
  }

  ghost predicate StoreOk(s: State) {
    && 0 !in s.snaps
    && (forall v <- s.snaps :: GoodSnapshot(s.snaps[v]))
    && (s.prev != 0 && !IsAnnounced(s) ==> s.prev in s.snaps)
  }

  function RowsAt(s: State, v: nat): nat {
    if v in s.snaps then |s.snaps[v].rows| else 0
  }

  /** The row changes of the success events not handled yet. */
  function Owed(successes: seq<SuccessEvent>, handled: set<nat>): int {
    if successes == [] then 0 else
      var n := |successes| - 1;
      Owed(successes[..n], handled) + if n in handled then 0 else Delta(successes[n].result)
  }

  ghost predicate RowsOk(s: State) {
    && (forall i <- s.handled :: i < |s.successes|)
    && (s.version in s.db.marks && !IsAnnounced(s) ==>
          Delta(s.db.marks[s.version]) == RowsAt(s, s.version) - RowsAt(s, s.prev))
    && (!s.handledTwice ==>
          s.rowsNumber + Owed(s.successes, s.handled) == RowsAt(s, if IsAnnounced(s) then s.version else s.prev))
  }
}
