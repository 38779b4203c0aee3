/** The schema half of a load: what the stored fields are after it, when it fails, what it reports, and
    what every run keeps of the stored schema. */
module SyncSchema {
  import opened Wrappers
  import opened Cells
  import opened FieldOrder
  import opened SchemaDiff
  import opened RowText
  import opened Compare
  import opened Getter
  import opened Loader
  import opened ReadBack
  import opened Patch
  import opened PatchCases
  import opened SyncProtocol
  import opened SyncControl
  import opened SyncData
  import opened SyncSafety

  // ---- The stored fields after one load ----

  /** The load records the whole schema: without a previous one when no enum holds a quote, else when every
      added or changed field is recorded. */
  predicate KeepsSchema(prev: Option<Snapshot>, cur: Snapshot, hash: FieldHash) {
    match prev
    case None => forall f <- cur.schema :: !HasQuote(cur.schema[f])
    case Some(p) => forall f <- cur.schema :: Recorded(p.schema, cur.schema, hash, f)
  }

  /** The stored fields before a load are those of the previous snapshot, or none. */
  ghost predicate StoresPrev(fields: FieldTable, prev: Option<Snapshot>) {
    match prev
    case None => fields == map[]
    case Some(p) => Stores(fields, p.schema)
  }

  /** What the getter finds of the schemas in the comparer's files. */
  lemma SchemaRead(h: Hashes, prevSnap: Option<Snapshot>, cur: Snapshot, files: ResultFiles, prev: nat)
    requires ComparesTo(h, prevSnap, cur, files) && GoodSnapshot(cur) && (prevSnap.None? <==> prev == 0)
    ensures var data := LoadData(prev, files);
      && data.Some? && data.value.schema == cur.schema
      && (prevSnap.Some? ==> IsDiff(data.value.changes, prevSnap.value.schema, cur.schema, h.fields))
  {
    if prev != 0 {
      var q, changes, l :| FullCompares(h, prevSnap.value, cur, files, q, changes, l);
      GetterReads(q, changes, l, prev);
    }
    hide *;
  }

  /** After a committed load of the comparer's files the stored fields are the current schema, in all seven
      attributes, if and only if the load records it. */
  lemma LoadStoresSchema(h: Hashes, prevSnap: Option<Snapshot>, cur: Snapshot, files: ResultFiles,
      db: Database, prev: nat, version: nat, db': Database)
    requires ComparesTo(h, prevSnap, cur, files) && GoodSnapshot(cur) && (prevSnap.None? <==> prev == 0)
    requires Loads(db, prev, version, files, db') && StoresPrev(db.fields, prevSnap)
    ensures db'.schemaCreated
    ensures Stores(db'.fields, cur.schema) <==> KeepsSchema(prevSnap, cur, h.fields)
  {
    SchemaRead(h, prevSnap, cur, files, prev);
    hide ComparesTo, GoodSnapshot, LoadData, LoadTable, WellFormedData, CopyFields, ApplyChanges, Recorded, HasQuote,
         Stores, IsDiff;
    var data := LoadData(prev, files).value;
    match prevSnap {
      case None => FirstFields(cur.schema);
      case Some(p) => SchemaRoundTrip(db.fields, data.changes, p.schema, cur.schema, h.fields);
    }
  }

  // ---- When a load fails ----

  /** Some id that the load inserts is in the table, soft-deleted or not. */
  predicate Returns(prevSnap: Option<Snapshot>, cur: Snapshot, t: Table) {
    exists id <- cur.rows :: id in t && (prevSnap.Some? ==> id !in prevSnap.value.rows)
  }

  lemma LoadsAt(db: Database, prev: nat, version: nat, files: ResultFiles)
    requires LoadData(prev, files).Some? && WellFormedData(LoadData(prev, files).value)
    ensures (exists db' :: Loads(db, prev, version, files, db')) <==>
      (prev == 0 || db.schemaCreated) && LoadTable(prev, db.table, LoadData(prev, files).value).Some?
  {
    hide LoadTable, LoadData, WellFormedData, CopyFields, ApplyChanges;
    var data := LoadData(prev, files).value;
    var loaded := LoadDatabase(prev, db, data);
    if loaded.Some? {
      assert Loads(db, prev, version, files, Marked(loaded.value, prev, version, LoadedResultOf(data)));
    }
  }

  lemma FirstInserts(cur: Snapshot, fields: seq<Field>, ids: seq<RowId>, t: Table)
    requires cur.Valid() && Enumerates(fields, cur.schema.Keys) && Enumerates(ids, cur.rows.Keys)
    ensures var data := LoadData(0, FirstCompare(cur, fields, ids));
      && data.Some? && WellFormedData(data.value)
      && (LoadTable(0, t, data.value).Some? <==> !Returns(None, cur, t))
  {
    hide InsertRows, WellFormedRows, RowErrors, FlagErrors, AddedRowsFile, Snapshot.Valid;
    AddedRowsWellFormed(fields, cur, ids);
    InsertExact(t, fields, cur, ids);
  }

  /** The comparer's files can be loaded into a table that holds the previous snapshot if and only if the
      schema row is there, but for the first version, and no inserted id is in the table. */
  lemma LoadsExactly(h: Hashes, prevSnap: Option<Snapshot>, cur: Snapshot, files: ResultFiles,
      db: Database, prev: nat, version: nat)
    requires ComparesTo(h, prevSnap, cur, files) && GoodSnapshot(cur) && (prevSnap.None? <==> prev == 0)
    requires prevSnap.Some? ==> prevSnap.value.Valid() && Holds(db.table, prevSnap.value)
    ensures (exists db' :: Loads(db, prev, version, files, db')) <==>
      (prev == 0 || db.schemaCreated) && !Returns(prevSnap, cur, db.table)
  {
    hide Holds, LoadTable, LoadData, Loads, WellFormedData, GoodSnapshot, Expected, FullCompare, FirstCompare, IsDiff,
         ListingOf, Comparison.Valid, Snapshot.Valid, KeepsTypes, TellsCells, AllArrive, HasShape, Enumerates;
    DiffCanBeLoaded(h, prev, prevSnap, cur, files);
    LoadsAt(db, prev, version, files);
    if prev == 0 {
      var fields, ids :| FirstCompares(cur, files, fields, ids);
      FirstInserts(cur, fields, ids, db.table);
    } else {
      var q, changes, l :| FullCompares(h, prevSnap.value, cur, files, q, changes, l);
      GoodIsPrintable(cur);
      GetterReads(q, changes, l, prev);
      LoadShape(q, changes, l, db.table, h.fields, prev);
    }
  }

  lemma GoodIsPrintable(snap: Snapshot)
    requires GoodSnapshot(snap)
    ensures PrintableSnapshot(snap)
  {
  }

  // ---- What a load reports ----

  /** Some field was added, deleted, or changed as the hash tells. */
  predicate SchemaDiffers(prev: Schema, cur: Schema, hash: FieldHash) {
    exists f <- prev.Keys + cur.Keys :: f !in prev || f !in cur || hash(prev[f]) != hash(cur[f])
  }

  lemma ChangesReported(d: SchemaChanges, prev: Schema, cur: Schema, hash: FieldHash)
    requires IsDiff(d, prev, cur, hash)
    ensures IsSchemaChanged(d) <==> SchemaDiffers(prev, cur, hash)
  {
    if IsSchemaChanged(d) {
      var f :| f in d.deleted || f in d.added || f in d.updated || f in d.updatedTypes by {
        assert d.deleted != [] ==> d.deleted[0] in d.deleted;
      }
      assert f in prev.Keys + cur.Keys;
    }
  }

  /** A load reports how many rows it inserted, how many it deleted, and whether the schema changed; the
      first load reports its rows alone. */
  lemma LoadReports(h: Hashes, prevSnap: Option<Snapshot>, cur: Snapshot, files: ResultFiles, prev: nat)
    requires ComparesTo(h, prevSnap, cur, files) && GoodSnapshot(cur) && (prevSnap.None? <==> prev == 0)
    ensures LoadData(prev, files).Some?
    ensures LoadedResultOf(LoadData(prev, files).value) ==
      match prevSnap
      case None => LoadedResult(|cur.rows|, 0, false)
      case Some(p) => LoadedResult(|cur.rows.Keys - p.rows.Keys|, |p.rows.Keys - cur.rows.Keys|,
        SchemaDiffers(p.schema, cur.schema, h.fields))
  {
    hide IsDiff, IsSchemaChanged, SchemaDiffers, Snapshot.Valid, LoadData, Expected, FullCompare, FirstCompare,
         LoadedResultOf, ListingOf, Comparison.Valid, Enumerates, KeepsTypes, TellsCells, AllArrive, PrintableSnapshot;
    if prev == 0 {
      var fields, ids :| FirstCompares(cur, files, fields, ids);
      FirstCounts(cur, fields, ids);
    } else {
      var q, changes, l :| FullCompares(h, prevSnap.value, cur, files, q, changes, l);
      GetterReads(q, changes, l, prev);
      CountsOf(q, changes, l);
      ChangesReported(changes, prevSnap.value.schema, cur.schema, h.fields);
    }
  }

  // ---- Runs ----

  /** The stored fields are the schema of the version the destination holds. */
  ghost predicate SchemaOk(s: State) {
    if s.version in s.db.marks then
      s.db.schemaCreated && s.version in s.snaps && Stores(s.db.fields, s.snaps[s.version].schema)
    else if s.prev == 0 then s.db.fields == map[]
    else s.db.schemaCreated && s.prev in s.snaps && Stores(s.db.fields, s.snaps[s.prev].schema)
  }

  /** What the steps need: a committed load records the schema, and a version that is loaded is read again
      with the schema it had. */
  ghost predicate SchemaKept(s: State, act: Action, h: Hashes) {
    match act
    case LoadCommit(id, db) =>
      id.version in s.snaps && KeepsSchema(PrevSnap(s, s.prev), s.snaps[id.version], h.fields)
    case Ingest(id, snap) =>
      id.version in s.db.marks ==> id.version in s.snaps && snap.schema == s.snaps[id.version].schema
    case _ => true
  }

  lemma {:induction false} StoresOne(t: FieldTable, a: Schema, b: Schema)
    requires Stores(t, a)
    ensures Stores(t, b) <==> a == b
  {
    if Stores(t, b) {
      assert a.Keys == t.Keys == b.Keys;
      forall f <- a ensures a[f] == b[f] { assert t[f] == [a[f]] && t[f] == [b[f]]; }
    }
  }

  lemma ActiveNow(s: State, id: RunId, h: Hashes)
    requires Safe(s, h) && IsActive(s, id)
    ensures id.version == s.version && s.runs[id].prev == s.prev < s.version
  {
    ActiveIsCurrent(s, id);
    PrevBelow(s);
    hide ControlOk;
  }

  lemma OtherSchema(s: State, act: Action, h: Hashes)
    requires SchemaOk(s) && Enabled(s, act, h)
    requires !act.LoadCommit? && !act.Ingest? && !act.Finish? && !act.HandledFailure? && !act.HandleSuccess?
    ensures SchemaOk(Next(s, act, h))
  {
    hide Stores, ComparesTo;
  }

  lemma CommitSchema(s: State, id: RunId, db: Database, h: Hashes)
    requires Safe(s, h) && SchemaOk(s) && Enabled(s, LoadCommit(id, db), h)
    ensures SchemaOk(Next(s, LoadCommit(id, db), h)) <==> SchemaKept(s, LoadCommit(id, db), h)
  {
    hide ControlOk, Holds, GoodSnapshot, Loads, ComparesTo, KeepsSchema, Stores, SuccessesOk, RowsOk, TableOk;
    ActiveIsCurrent(s, id);
    PrevBelow(s);
    CommitMarks(s, id, db, h);
    assert ProceedOk(s, h) && StoreOk(s);
    LoadStoresSchema(h, PrevSnap(s, s.prev), s.snaps[s.version], s.diffs[s.version], s.db, s.prev, s.version, db);
  }

  lemma CommitMarks(s: State, id: RunId, db: Database, h: Hashes)
    requires Safe(s, h) && Enabled(s, LoadCommit(id, db), h)
    ensures id.version in db.marks
  {
    hide Safe, LoadDatabase, LoadData, WellFormedData, ComparesTo, GoodSnapshot;
    ActiveNow(s, id, h);
  }

  lemma IngestSchema(s: State, id: RunId, snap: Snapshot, h: Hashes)
    requires Safe(s, h) && SchemaOk(s) && Enabled(s, Ingest(id, snap), h)
    ensures SchemaOk(Next(s, Ingest(id, snap), h)) <==> SchemaKept(s, Ingest(id, snap), h)
  {
    hide ControlOk, Holds, GoodSnapshot, Stores, SuccessesOk, RowsOk, TableOk, StoreOk, ProceedOk;
    ActiveIsCurrent(s, id);
    PrevBelow(s);
    if s.version in s.db.marks { StoresOne(s.db.fields, s.snaps[s.version].schema, snap.schema); }
  }

  lemma CleaningSchema(s: State, i: nat, h: Hashes)
    requires Safe(s, h) && SchemaOk(s) && i < |s.successes|
    ensures SchemaOk(CleanEnd(s, i))
  {
    hide ControlOk, Holds, GoodSnapshot, Stores, RowsOk, TableOk, StoreOk, SuccessesOk;
    PrevBelow(s);
    CleansBelow(s, i);
    assert IsAnnounced(s) ==> s.version in s.db.marks by { assert ProceedOk(s, h); }
  }

  /** A version that ends announced has its mark; no later version has one. */
  lemma MarksAtEnd(s: State, id: RunId, h: Hashes)
    requires Safe(s, h) && IsActive(s, id)
    ensures s.version + 1 !in s.db.marks
    ensures AtStage(s, id, Proceed, Announced) ==> s.version in s.db.marks
  {
    hide ControlOk, Holds, GoodSnapshot, RowsOk, StoreOk, SuccessesOk;
    ActiveIsCurrent(s, id);
    PrevBelow(s);
    assert ProceedOk(s, h) && TableOk(s);
  }

  lemma EndSchema(s: State, act: Action, h: Hashes)
    requires Safe(s, h) && SchemaOk(s) && Enabled(s, act, h) && Assumed(s, act) && (act.Finish? || act.HandledFailure?)
    ensures SchemaOk(Next(s, act, h))
  {
    hide ControlOk, Safe, Holds, GoodSnapshot, Stores;
    ActiveNow(s, act.id, h);
    MarksAtEnd(s, act.id, h);
  }

  /** A step of the protocol keeps the stored schema right if and only if a load it commits records the
      schema, or a loaded version it reads again has the schema it had. */
  lemma SchemaStepExact(s: State, act: Action, h: Hashes)
    requires Safe(s, h) && SchemaOk(s) && Enabled(s, act, h) && Assumed(s, act)
    ensures SchemaOk(Next(s, act, h)) <==> SchemaKept(s, act, h)
  {
    hide Safe, SchemaOk, Next, Enabled, Assumed;
    match act {
      case LoadCommit(id, db) => CommitSchema(s, id, db, h);
      case Ingest(id, snap) => IngestSchema(s, id, snap, h);
      case HandleSuccess(i) =>
        CleansTo(s, i, h);
        CleaningSchema(s, i, h);
      case Finish(id) => EndSchema(s, act, h);
      case HandledFailure(id) => EndSchema(s, act, h);
      case _ => OtherSchema(s, act, h);
    }
  }

  ghost predicate SchemaStep(s: State, s': State, h: Hashes) {
    exists act :: Enabled(s, act, h) && Assumed(s, act) && SchemaKept(s, act, h) && s' == Next(s, act, h)
  }

  /** A run that starts without stored fields and whose loads record the schema. */
  ghost predicate IsSchemaRun(states: seq<State>, h: Hashes) {
    && states != [] && Init(states[0]) && states[0].db.fields == map[]
    && forall i :: 0 <= i < |states| - 1 ==> SchemaStep(states[i], states[i + 1], h)
  }

  lemma AnySchemaStep(s: State, s': State, h: Hashes)
    requires Safe(s, h) && SchemaOk(s) && SchemaStep(s, s', h)
    ensures Safe(s', h) && SchemaOk(s')
  {
    hide Safe, SchemaOk, Next, Enabled, Assumed, SchemaKept;
    var act :| Enabled(s, act, h) && Assumed(s, act) && SchemaKept(s, act, h) && s' == Next(s, act, h);
    StepKeepsSafe(s, act, h);
    SchemaStepExact(s, act, h);
  }

  lemma {:induction false} SchemaRunOk(states: seq<State>, h: Hashes)
    requires IsSchemaRun(states, h)
    ensures Safe(states[|states| - 1], h) && SchemaOk(states[|states| - 1])
  {
    hide Safe, SchemaStep;
    var n := |states| - 1;
    if n == 0 {
      InitSafe(states[0], h);
    } else {
      assert SchemaStep(states[n - 1], states[n], h);
      SchemaRunOk(states[..n], h);
      hide SchemaOk;
      AnySchemaStep(states[n - 1], states[n], h);
    }
  }

  /** Whenever such a run is IDLING, the stored fields are the schema of the snapshot of `prevVersion`, in all
      seven attributes, and before the first success there are none. */
  lemma IdleStoresSchema(states: seq<State>, h: Hashes)
    requires IsSchemaRun(states, h) && states[|states| - 1].status == Idling
    ensures var s := states[|states| - 1];
      if s.prev == 0 then s.db.fields == map[]
      else s.db.schemaCreated && s.prev in s.snaps && Stores(s.db.fields, s.snaps[s.prev].schema)
  {
    SchemaRunOk(states, h);
    IdleUnmarked(states[|states| - 1]);
    hide ControlOk, TableOk, Stores;
  }
}
