/** The data half of the syncflow protocol: the destination, the stored snapshots and the row count. */
module SyncData {
  import opened Wrappers
  import opened Cells
  import opened FieldOrder
  import opened SchemaDiff
  import opened RowText
  import opened Compare
  import opened Getter
  import opened Loader
  import opened ReadBack
  import opened Patch
  import opened PatchCases
  import opened SyncProtocol
  import opened SyncControl

  // ---- One load ----

  lemma {:induction false} EnumerationLength<T(!new)>(s: seq<T>, elements: set<T>)
    requires Enumerates(s, elements)
    ensures |s| == |elements|
    decreases |s|
  {
    if s == [] {
      assert elements == {};
    } else {
      var n := |s| - 1;
      assert s[n] in elements;
      forall x ensures x in s[..n] <==> x in elements - {s[n]} {
        if x in s[..n] { var i :| 0 <= i < n && s[i] == x; assert x in s; }
        if x in elements - {s[n]} { var i :| 0 <= i < |s| && s[i] == x; }
      }
      EnumerationLength(s[..n], elements - {s[n]});
    }
  }

  /** Added minus deleted rows is the difference of the two sizes. */
  lemma SizeDifference<T>(cur: set<T>, prev: set<T>)
    ensures |cur - prev| - |prev - cur| == |cur| - |prev|
  {
  }

  lemma MapSize<K, V>(m: map<K, V>)
    ensures |m| == |m.Keys|
  {
  }

  /** A committed load of stored files is `LoadTable` on the data they give. */
  lemma LoadsTable(db: Database, prev: nat, version: nat, files: ResultFiles, db': Database, data: LoaderData)
    requires Loads(db, prev, version, files, db') && LoadData(prev, files) == Some(data) && version != prev
    ensures WellFormedData(data) && LoadTable(prev, db.table, data) == Some(db'.table)
    ensures version in db'.marks && db'.marks[version] == LoadedResultOf(data)
    ensures db'.marks.Keys == db.marks.Keys + {version} - {prev}
  {
  }

  lemma FirstLoad(cur: Snapshot, files: ResultFiles, db: Database, version: nat, db': Database, h: Hashes)
    requires ComparesTo(h, None, cur, files) && db.table == map[] && version != 0
    requires Loads(db, 0, version, files, db')
    ensures cur.Valid() && Holds(db'.table, cur)
    ensures version in db'.marks && Delta(db'.marks[version]) == |cur.rows|
    ensures db'.marks.Keys == db.marks.Keys + {version} - {0}
  {
    var fields, ids :| FirstCompares(cur, files, fields, ids);
    FirstLoadHolds(cur, fields, ids);
    FirstCounts(cur, fields, ids);
    hide Holds, LoadTable, Enumerates, AddedRowsFile, WellFormedData, Snapshot.Valid, Loads, FirstCompare, LoadData;
    LoadsTable(db, 0, version, files, db', LoadData(0, files).value);
  }

  lemma FirstCounts(cur: Snapshot, fields: seq<Field>, ids: seq<RowId>)
    requires cur.Valid() && Enumerates(fields, cur.schema.Keys) && Enumerates(ids, cur.rows.Keys)
    ensures var data := LoadData(0, FirstCompare(cur, fields, ids));
      data.Some? && LoadedResultOf(data.value) == LoadedResult(|cur.rows|, 0, false)
  {
    EnumerationLength(ids, cur.rows.Keys);
    MapSize(cur.rows);
  }

  lemma NextLoad(prevSnap: Snapshot, cur: Snapshot, files: ResultFiles, db: Database, prev: nat, version: nat,
      db': Database, h: Hashes)
    requires ComparesTo(h, Some(prevSnap), cur, files) && GoodSnapshot(cur)
    requires prevSnap.Valid() && Holds(db.table, prevSnap)
    requires prev != 0 && version != prev && Loads(db, prev, version, files, db')
    ensures Holds(db'.table, cur)
    ensures version in db'.marks && Delta(db'.marks[version]) == |cur.rows| - |prevSnap.rows|
    ensures db'.marks.Keys == db.marks.Keys + {version} - {prev}
  {
    var q, changes, l :| FullCompares(h, prevSnap, cur, files, q, changes, l);
    GetterReads(q, changes, l, prev);
    PatchExact(q, changes, l, db.table, h.fields, prev);
    CountsOf(q, changes, l);
    hide Holds, LoadTable, Expected, FullCompare, LoadData, WellFormedData, Snapshot.Valid, ListingOf, AllArrive,
         KeepsTypes, TellsCells, IsDiff, IsDiffOn, PrintableSnapshot, Comparison.Valid, Loads, Delta;
    LoadsTable(db, prev, version, files, db', Expected(q, changes, l));
  }

  lemma CountsOf(q: Comparison, changes: SchemaChanges, l: Listing)
    requires q.Valid() && ListingOf(l, q)
    ensures var result := LoadedResultOf(Expected(q, changes, l));
      && result.addedRowsCount == |q.cur.rows.Keys - q.prev.rows.Keys|
      && result.deletedRowsCount == |q.prev.rows.Keys - q.cur.rows.Keys|
      && result.isSchemaChanged == IsSchemaChanged(changes)
      && Delta(result) == |q.cur.rows| - |q.prev.rows|
  {
    EnumerationLength(l.added, q.cur.rows.Keys - q.prev.rows.Keys);
    EnumerationLength(l.deleted, q.prev.rows.Keys - q.cur.rows.Keys);
    SizeDifference(q.cur.rows.Keys, q.prev.rows.Keys);
    MapSize(q.cur.rows);
    MapSize(q.prev.rows);
    hide UpdatedCells, AddedCells, Snapshot.Valid, ColumnsOf, Comparison.Passes, Comparison.HasUpdate,
         Comparison.NulledFields;
  }

  // ---- Steps keep the data invariant ----

  ghost predicate DataOk(s: State, h: Hashes) {
    SuccessesOk(s) && TableOk(s) && ProceedOk(s, h) && StoreOk(s) && RowsOk(s)
  }

  predicate SameData(s: State, s': State) {
    && s'.version == s.version && s'.prev == s.prev && s.starts <= s'.starts && s'.successes == s.successes
    && s'.snaps == s.snaps && s'.db == s.db
    && s'.rowsNumber == s.rowsNumber && s'.handled == s.handled && s'.handledTwice == s.handledTwice
    && IsAnnounced(s') == IsAnnounced(s)
  }

  lemma DataUntouched(s: State, s': State, h: Hashes)
    requires DataOk(s, h) && SameData(s, s') && ProceedOk(s', h)
    ensures DataOk(s', h)
  {
  }

  predicate IsQuiet(act: Action) {
    act.TriggerCheck? || act.TriggerMark? || act.TriggerEmit? || act.Deliver? || act.EnterRunning?
    || act.EmitDownload? || act.EmitProceed? || act.CompareWith? || act.LoadReturn? || act.OtherFailure? || act.Drop?
  }

  lemma QuietData(s: State, act: Action, h: Hashes)
    requires IsQuiet(act) && Enabled(s, act, h)
    ensures var s' := Next(s, act, h);
      && s'.version == s.version && s'.prev == s.prev && s.starts <= s'.starts && s'.successes == s.successes
      && s'.snaps == s.snaps && s'.db == s.db
      && s'.rowsNumber == s.rowsNumber && s'.handled == s.handled && s'.handledTwice == s.handledTwice
  {
  }

  /** These steps touch no run that has announced its success, and announce none. */
  lemma QuietRuns(s: State, act: Action, h: Hashes, id: RunId)
    requires IsQuiet(act) && Enabled(s, act, h)
    ensures var s' := Next(s, act, h);
      AtStage(s', id, Proceed, Announced) == AtStage(s, id, Proceed, Announced)
  {
    hide Loads, ComparesTo, GoodSnapshot;
  }

  /** The steps that leave snapshots, destination and row count alone. */
  lemma QuietStep(s: State, act: Action, h: Hashes)
    requires ControlOk(s) && DataOk(s, h) && IsQuiet(act) && Enabled(s, act, h)
    ensures DataOk(Next(s, act, h), h)
  {
    var s' := Next(s, act, h);
    assert ProceedOk(s, h);
    if act.CompareWith? {
      ComparedKept(s, act, h);
    } else if act.LoadReturn? {
      ReturnedKept(s, act, h);
    } else {
      ProceedKept(s, act, h);
    }
    QuietData(s, act, h);
    QuietRuns(s, act, h, RunId(Proceed, s.version));
    hide DataOk, ComparesTo, ProceedOk, ControlOk, Loads, GoodSnapshot, Holds, Next, Enabled, AtStage;
    assert SameData(s, s');
    DataUntouched(s, s', h);
  }

  lemma ComparedKept(s: State, act: Action, h: Hashes)
    requires ControlOk(s) && act.CompareWith? && Enabled(s, act, h)
    ensures ProceedOk(Next(s, act, h), h)
  {
    ActiveIsCurrent(s, act.id);
    hide ComparesTo, ControlOk, Loads, GoodSnapshot, Holds;
  }

  lemma ReturnedKept(s: State, act: Action, h: Hashes)
    requires ControlOk(s) && act.LoadReturn? && Enabled(s, act, h)
    ensures ProceedOk(Next(s, act, h), h)
  {
  }

  lemma ProceedKept(s: State, act: Action, h: Hashes)
    requires ProceedOk(s, h) && IsQuiet(act) && !act.CompareWith? && !act.LoadReturn? && Enabled(s, act, h)
    ensures ProceedOk(Next(s, act, h), h)
  {
    hide ComparesTo, Loads, GoodSnapshot, Holds;
  }

  // ---- Row counts ----

  lemma {:induction false} OwedBeyond(successes: seq<SuccessEvent>, handled: set<nat>, i: nat)
    requires |successes| <= i
    ensures Owed(successes, handled + {i}) == Owed(successes, handled)
  {
    if successes != [] {
      OwedBeyond(successes[..|successes| - 1], handled, i);
    }
  }

  lemma {:induction false} OwedHandled(successes: seq<SuccessEvent>, handled: set<nat>, i: nat)
    requires i < |successes| && i !in handled
    ensures Owed(successes, handled + {i}) == Owed(successes, handled) - Delta(successes[i].result)
  {
    var n := |successes| - 1;
    if i == n {
      OwedBeyond(successes[..n], handled, i);
    } else {
      OwedHandled(successes[..n], handled, i);
    }
  }

  // ---- The steps that change data ----

  lemma NotAnnounced(s: State, id: RunId)
    requires ControlOk(s) && CanFail(s, id)
    ensures !IsAnnounced(s)
  {
  }

  /** The parts of the data invariant that only look back. */
  lemma SuccessesKept(s: State, s': State)
    requires SuccessesOk(s) && s'.successes == s.successes && s'.version == s.version && s'.prev == s.prev
    requires IsAnnounced(s') == IsAnnounced(s)
    ensures SuccessesOk(s')
  {
  }

  lemma SameLive(t: Table, a: Snapshot, b: Snapshot)
    requires a.Valid() && b.Valid() && Holds(t, a) && Holds(t, b)
    ensures |a.rows| == |b.rows|
  {
  }

  function IngestEnd(s: State, id: RunId, snap: Snapshot): State
    requires id in s.runs
  {
    SetRun(s, id, Active(Ingested)).(snaps := s.snaps[id.version := snap])
  }

  lemma IngestStore(s: State, id: RunId, snap: Snapshot, h: Hashes)
    requires DataOk(s, h) && s.prev < s.version && id == RunId(Proceed, s.version) && AtStage(s, id, Proceed, Started)
    requires GoodSnapshot(snap) && (s.version in s.db.marks ==> Holds(s.db.table, snap))
    ensures var s' := IngestEnd(s, id, snap); TableOk(s') && ProceedOk(s', h) && StoreOk(s')
  {
  }

  lemma IngestRows(s: State, id: RunId, snap: Snapshot, h: Hashes)
    requires DataOk(s, h) && s.prev < s.version && id == RunId(Proceed, s.version) && AtStage(s, id, Proceed, Started)
    requires GoodSnapshot(snap) && (s.version in s.db.marks ==> Holds(s.db.table, snap))
    ensures RowsOk(IngestEnd(s, id, snap)) && SuccessesOk(IngestEnd(s, id, snap))
  {
    hide Holds, Owed, SuccessesOk, ProceedOk, StoreOk, Snapshot.Valid, PrintableSnapshot;
    SuccessesKept(s, IngestEnd(s, id, snap));
    if s.version in s.db.marks {
      SameLive(s.db.table, s.snaps[s.version], snap);
    }
  }

  lemma RereadHolds(s: State, snap: Snapshot, h: Hashes)
    requires DataOk(s, h) && s.version in s.db.marks && ReadsSame(s, s.version, snap)
    ensures Holds(s.db.table, snap)
  {
    hide Holds, SameSheet, SameTypes;
    HeldSheet(s.db.table, s.snaps[s.version], snap);
  }

  lemma IngestKept(s: State, id: RunId, snap: Snapshot, h: Hashes)
    requires ControlOk(s) && DataOk(s, h) && Enabled(s, Ingest(id, snap), h) && Assumed(s, Ingest(id, snap))
    ensures DataOk(Next(s, Ingest(id, snap), h), h)
  {
    hide ControlOk, Holds, DataOk, GoodSnapshot, ReadsSame;
    ActiveIsCurrent(s, id);
    PrevBelow(s);
    if s.version in s.db.marks { RereadHolds(s, snap, h); }
    IngestStore(s, id, snap, h);
    IngestRows(s, id, snap, h);
    DataParts(IngestEnd(s, id, snap), h);
  }

  lemma DataParts(s: State, h: Hashes)
    requires SuccessesOk(s) && TableOk(s) && ProceedOk(s, h) && StoreOk(s) && RowsOk(s)
    ensures DataOk(s, h)
  {
  }

  /** A committed load takes the destination from the previous snapshot to the current one. */
  lemma LoadReaches(s: State, id: RunId, db: Database, h: Hashes)
    requires DataOk(s, h) && s.prev < s.version && id == RunId(Proceed, s.version) && AtStage(s, id, Proceed, Compared)
    requires s.version !in s.db.marks && Loads(s.db, s.prev, s.version, s.diffs[s.version], db)
    ensures s.version in s.snaps && GoodSnapshot(s.snaps[s.version]) && Holds(db.table, s.snaps[s.version])
    ensures db.marks.Keys == {s.version}
    ensures Delta(db.marks[s.version]) == RowsAt(s, s.version) - RowsAt(s, s.prev)
  {
    hide Holds, Owed, SuccessesOk, RowsOk, GoodSnapshot, ComparesTo, Loads, Delta;
    var cur, files := s.snaps[s.version], s.diffs[s.version];
    assert GoodSnapshot(cur);
    if s.prev == 0 {
      FirstLoad(cur, files, s.db, s.version, db, h);
    } else {
      assert GoodSnapshot(s.snaps[s.prev]);
      GoodIsValid(s.snaps[s.prev]);
      NextLoad(s.snaps[s.prev], cur, files, s.db, s.prev, s.version, db, h);
    }
  }

  lemma GoodIsValid(snap: Snapshot)
    requires GoodSnapshot(snap)
    ensures snap.Valid()
  {
  }

  lemma LoadCommitKept(s: State, id: RunId, db: Database, h: Hashes)
    requires ControlOk(s) && DataOk(s, h) && Enabled(s, LoadCommit(id, db), h)
    ensures DataOk(Next(s, LoadCommit(id, db), h), h)
  {
    ActiveIsCurrent(s, id);
    PrevBelow(s);
    LoadReaches(s, id, db, h);
    hide ControlOk, Holds, DataOk, GoodSnapshot, Loads, Enabled, Next, ComparesTo;
    CommitStored(s, id, db, h);
  }

  lemma CommitStored(s: State, id: RunId, db: Database, h: Hashes)
    requires DataOk(s, h) && id == RunId(Proceed, s.version) && AtStage(s, id, Proceed, Compared)
    requires StartEvent(id, s.prev) in s.starts && s.version in s.snaps && GoodSnapshot(s.snaps[s.version])
    requires Holds(db.table, s.snaps[s.version]) && db.marks.Keys == {s.version}
    requires Delta(db.marks[s.version]) == RowsAt(s, s.version) - RowsAt(s, s.prev)
    ensures DataOk(s.(db := db), h)
  {
    var s' := s.(db := db);
    SuccessesKept(s, s');
    CommitRows(s, db);
    CommitTable(s, db);
    hide Holds, SuccessesOk, GoodSnapshot, ComparesTo, RowsOk, TableOk;
  }

  lemma CommitTable(s: State, db: Database)
    requires StartEvent(RunId(Proceed, s.version), s.prev) in s.starts
    requires s.version in s.snaps && GoodSnapshot(s.snaps[s.version])
    requires Holds(db.table, s.snaps[s.version]) && db.marks.Keys == {s.version}
    ensures TableOk(s.(db := db))
  {
  }

  lemma CommitRows(s: State, db: Database)
    requires RowsOk(s) && db.marks.Keys == {s.version}
    requires Delta(db.marks[s.version]) == RowsAt(s, s.version) - RowsAt(s, s.prev)
    ensures RowsOk(s.(db := db))
  {
  }

  lemma EmitSuccessKept(s: State, id: RunId, h: Hashes)
    requires ControlOk(s) && DataOk(s, h) && Enabled(s, EmitSuccess(id), h)
    ensures DataOk(Next(s, EmitSuccess(id), h), h)
  {
    ActiveIsCurrent(s, id);
    PrevBelow(s);
    hide ControlOk, DataOk, Holds, GoodSnapshot;
    Announcing(s, id, s.runs[id].state.stage.result, h);
  }

  function AnnounceEnd(s: State, id: RunId, result: LoadedResult): State
    requires id in s.runs
  {
    SetRun(s, id, Active(Announced)).(successes := s.successes + [SuccessEvent(id.version, s.runs[id].prev, result)])
  }

  lemma Announcing(s: State, id: RunId, result: LoadedResult, h: Hashes)
    requires DataOk(s, h) && s.prev < s.version && id == RunId(Proceed, s.version)
    requires AtStage(s, id, Proceed, HasResult(result)) && s.runs[id].prev == s.prev
    ensures DataOk(AnnounceEnd(s, id, result), h)
  {
    var s' := AnnounceEnd(s, id, result);
    var e := SuccessEvent(s.version, s.prev, result);
    AnnouncedSuccesses(s, s', e);
    AnnouncedRows(s, id, result);
    hide Holds, SuccessesOk, RowsOk, GoodSnapshot, ComparesTo, Owed, Delta;
    assert StoreOk(s');
    hide StoreOk;
  }

  lemma AnnouncedRows(s: State, id: RunId, result: LoadedResult)
    requires RowsOk(s) && id == RunId(Proceed, s.version) && s.version in s.db.marks && result == s.db.marks[s.version]
    requires AtStage(s, id, Proceed, HasResult(result)) && s.runs[id].prev == s.prev
    ensures RowsOk(AnnounceEnd(s, id, result))
  {
  }

  lemma AnnouncedSuccesses(s: State, s': State, e: SuccessEvent)
    requires SuccessesOk(s) && !IsAnnounced(s) && IsAnnounced(s') && s'.version == s.version && s'.prev == s.prev
    requires e.version == s.version && e.prev == s.prev < s.version && s'.successes == s.successes + [e]
    ensures SuccessesOk(s')
  {
    hide IsAnnounced;
    forall x <- s.successes ensures x.version < e.version && SuccessOk(s', x) { assert SuccessOk(s, x); }
  }

  /** The state update of a finished version. */
  lemma FinishKept(s: State, id: RunId, h: Hashes)
    requires ControlOk(s) && DataOk(s, h) && Enabled(s, Finish(id), h)
    ensures DataOk(Next(s, Finish(id), h), h)
  {
    var s' := Next(s, Finish(id), h);
    ActiveIsCurrent(s, id);
    PrevBelow(s);
    VersionEnds(s, s', id);
    hide ControlOk, DataOk, Holds, GoodSnapshot, Enabled, Next;
    NewVersion(s, s', h);
  }

  lemma FailureKept(s: State, id: RunId, h: Hashes)
    requires ControlOk(s) && DataOk(s, h) && Enabled(s, HandledFailure(id), h) && Assumed(s, HandledFailure(id))
    ensures DataOk(Next(s, HandledFailure(id), h), h)
  {
    var s' := Next(s, HandledFailure(id), h);
    ActiveIsCurrent(s, id);
    PrevBelow(s);
    NotAnnounced(s, id);
    VersionEnds(s, s', id);
    hide ControlOk, DataOk, Holds, GoodSnapshot, Enabled, Next;
    NewVersion(s, s', h);
  }

  /** A version ends announced and becomes the previous one, or ends unmarked and leaves it. */
  lemma NewVersion(s: State, s': State, h: Hashes)
    requires DataOk(s, h) && s.prev < s.version && s'.version == s.version + 1
    requires s'.successes == s.successes && s'.snaps == s.snaps && s'.db == s.db
    requires s'.rowsNumber == s.rowsNumber && s'.handled == s.handled && s'.handledTwice == s.handledTwice
    requires forall x <- s'.runs :: x.version < s'.version
    requires if IsAnnounced(s) then s'.prev == s.version else s'.prev == s.prev && s.version !in s.db.marks
    ensures DataOk(s', h)
  {
    hide Holds, Owed, GoodSnapshot, ComparesTo, Delta;
  }

  /** Cleaning deletes only a version below the current one and, until its success is out, below the previous one. */
  lemma CleansBelow(s: State, i: nat)
    requires SuccessesOk(s) && i < |s.successes| && s.prev < s.version
    ensures s.successes[i].prev < s.version
    ensures !IsAnnounced(s) ==> s.successes[i].prev < s.prev
    ensures s.successes[i].prev <= s.prev
  {
    assert SuccessOk(s, s.successes[i]);
  }

  lemma HandleSuccessKept(s: State, i: nat, h: Hashes)
    requires ControlOk(s) && DataOk(s, h) && Enabled(s, HandleSuccess(i), h)
    ensures DataOk(Next(s, HandleSuccess(i), h), h)
  {
    PrevBelow(s);
    CleansTo(s, i, h);
    hide *;
    Cleaning(s, i, h);
  }

  lemma CleansTo(s: State, i: nat, h: Hashes)
    requires Enabled(s, HandleSuccess(i), h)
    ensures i < |s.successes| && Next(s, HandleSuccess(i), h) == CleanEnd(s, i)
  {
  }

  function CleanEnd(s: State, i: nat): State
    requires i < |s.successes|
  {
    s.(snaps := s.snaps - {s.successes[i].prev}, diffs := s.diffs - {s.successes[i].prev},
       rowsNumber := s.rowsNumber + Delta(s.successes[i].result),
       handled := s.handled + {i}, handledTwice := s.handledTwice || i in s.handled)
  }

  lemma Cleaning(s: State, i: nat, h: Hashes)
    requires DataOk(s, h) && s.prev < s.version && i < |s.successes|
    ensures DataOk(CleanEnd(s, i), h)
  {
    var s' := CleanEnd(s, i);
    CleansBelow(s, i);
    SuccessesKept(s, s');
    CleanedRows(s, i);
    CleanedStore(s, i, h);
    hide SuccessesOk, RowsOk, TableOk, ProceedOk, StoreOk, CleanEnd;
  }

  lemma CleanedStore(s: State, i: nat, h: Hashes)
    requires i < |s.successes| && s.successes[i].prev < s.version && (!IsAnnounced(s) ==> s.successes[i].prev < s.prev)
    requires TableOk(s) && ProceedOk(s, h) && StoreOk(s)
    ensures TableOk(CleanEnd(s, i)) && ProceedOk(CleanEnd(s, i), h) && StoreOk(CleanEnd(s, i))
  {
  }

  lemma CleanedRows(s: State, i: nat)
    requires i < |s.successes| && s.successes[i].prev < s.version && (!IsAnnounced(s) ==> s.successes[i].prev < s.prev)
    requires RowsOk(s)
    ensures RowsOk(CleanEnd(s, i))
  {
    if i !in s.handled {
      OwedHandled(s.successes, s.handled, i);
    }
    hide Owed, Delta;
  }
}
