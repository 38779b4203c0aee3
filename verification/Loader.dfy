/** The Postgres loader: each step as a method over the table it changes, proved against the table
    function it computes. */
module Loader {
  import opened Wrappers
  import opened Cells
  import opened SchemaDiff
  import opened RowText
  import opened Compare
  import opened Getter

  // ---- The destination ----

  /** One row of a destination table: the jsonb data, the error flag of its metadata, the soft-delete mark. */
  datatype Record = Record(data: Row, hasError: bool, deleted: bool)

  type Table = map<RowId, Record>

  datatype LoadedResult = LoadedResult(addedRowsCount: nat, deletedRowsCount: nat, isSchemaChanged: bool)

  /** What a transaction sees: the data table, the schema fields, whether the schema row exists, and
      the idempotency marks with their saved results. */
  datatype Database = Database(
    table: Table, fields: FieldTable, schemaCreated: bool, marks: map<nat, LoadedResult>)

  /** What a load returns. Nothing is no result and no error. */
  datatype Outcome = Loaded(result: LoadedResult) | AlreadyLoaded(result: LoadedResult) | Nothing | Failed

  /** What can go wrong beside a failing statement: the saved result cannot be read, or the
      acknowledgement of the commit is lost. */
  datatype Trouble = NoTrouble | SavedUnreadable | Unacknowledged

  // ---- What each step does to the table ----

  predicate HasErrorCell(data: Row) {
    exists f <- data :: data[f] == ERROR_VALUE
  }

  function DataOf(meta: seq<Field>, row: seq<Value>): (r: Row)
    requires |meta| == |row|
    ensures r.Keys == Elements(meta)
  {
    if meta == [] then map[] else
      var n := |meta| - 1;
      assert meta == meta[..n] + [meta[n]];
      DataOf(meta[..n], row[..n])[meta[n] := row[n]]
  }

  /** Added rows as the comparer writes them: as wide as their header, each with its id. */
  ghost predicate WellFormedRows(meta: seq<Field>, rows: seq<seq<Value>>) {
    && PRIMARY in meta
    && (forall i, j :: 0 <= i < j < |meta| ==> meta[i] != meta[j])
    && (forall row <- rows :: |row| == |meta| && DataOf(meta, row)[PRIMARY].Str?)
  }

  ghost predicate WellFormedData(data: LoaderData) {
    && WellFormedRows(data.addedMeta, data.addedRows)
    && (forall id <- data.updatedFields :: data.updatedFields[id] != map[])
    && (forall id <- data.addedFields :: data.addedFields[id] != map[])
    && (forall id <- data.nulledFields :: data.nulledFields[id] != [])
  }

  ghost function IdOf(meta: seq<Field>, row: seq<Value>): RowId
    requires PRIMARY in meta && |row| == |meta| && DataOf(meta, row)[PRIMARY].Str?
  {
    DataOf(meta, row)[PRIMARY].s
  }

  /** COPY into the table: None when an id is already there, soft-deleted or not. */
  ghost function InsertRows(t: Table, meta: seq<Field>, rows: seq<seq<Value>>): Option<Table>
    requires WellFormedRows(meta, rows)
  {
    if rows == [] then Some(t) else
      var n := |rows| - 1;
      match InsertRows(t, meta, rows[..n])
      case None => None
      case Some(m) =>
        var id := IdOf(meta, rows[n]);
        if id in m then None else Some(m[id := Record(DataOf(meta, rows[n]), false, false)])
  }

  ghost function RowErrors(meta: seq<Field>, rows: seq<seq<Value>>): set<RowId>
    requires WellFormedRows(meta, rows)
  {
    set row <- rows | HasErrorCell(DataOf(meta, row)) :: IdOf(meta, row)
  }

  function CellErrors(cells: map<RowId, Row>): set<RowId> {
    set id <- cells | HasErrorCell(cells[id])
  }

  function MarkRemoved(t: Table, ids: seq<RowId>): Table {
    map id <- t :: if id in ids then t[id].(deleted := true) else t[id]
  }

  function MergeCells(t: Table, cells: map<RowId, Row>): Table {
    map id <- t :: if id in cells then t[id].(data := t[id].data + cells[id]) else t[id]
  }

  function Nulls(fields: seq<Field>): Row {
    map f <- fields :: Null
  }

  function NullCells(t: Table, nulled: map<RowId, seq<Field>>): Table {
    map id <- t :: if id in nulled then t[id].(data := t[id].data + Nulls(nulled[id])) else t[id]
  }

  function DropColumns(t: Table, fields: seq<Field>): Table {
    map id <- t :: t[id].(data := t[id].data - Elements(fields))
  }

  function FlagErrors(t: Table, ids: set<RowId>): Table {
    map id <- t :: if id in ids then t[id].(hasError := true) else t[id]
  }

  function ClearFlags(t: Table): Table {
    map id <- t :: t[id].(hasError := t[id].hasError && HasErrorCell(t[id].data))
  }

  predicate IsSchemaChanged(changes: SchemaChanges) {
    changes.deleted != [] || changes.added != map[] || changes.updated != map[] || changes.updatedTypes != map[]
  }

  predicate IsDataChanged(data: LoaderData) {
    data.addedRows != [] || data.deletedRows != [] || data.addedFields != map[]
    || data.updatedFields != map[] || data.nulledFields != map[]
  }

  function LoadedResultOf(data: LoaderData): LoadedResult {
    LoadedResult(|data.addedRows|, |data.deletedRows|, IsSchemaChanged(data.changes))
  }

  // ---- The whole load, as a function of the database ----

  /** The rows the loader notes as holding an error value while it patches. */
  ghost function NotedErrors(data: LoaderData): set<RowId>
    requires WellFormedData(data)
  {
    RowErrors(data.addedMeta, data.addedRows) + CellErrors(data.updatedFields) + CellErrors(data.addedFields)
  }

  ghost function PatchRows(t: Table, data: LoaderData): Option<Table>
    requires WellFormedData(data)
  {
    match InsertRows(MarkRemoved(t, data.deletedRows), data.addedMeta, data.addedRows)
    case None => None
    case Some(inserted) =>
      Some(NullCells(MergeCells(MergeCells(inserted, data.updatedFields), data.addedFields), data.nulledFields))
  }

  /** The table after a load: None when the transaction fails. */
  ghost function LoadTable(prevVersion: nat, t: Table, data: LoaderData): Option<Table>
    requires WellFormedData(data)
  {
    if prevVersion == 0 then
      match InsertRows(t, data.addedMeta, data.addedRows)
      case None => None
      case Some(inserted) => Some(FlagErrors(inserted, RowErrors(data.addedMeta, data.addedRows)))
    else
      var trimmed := DropColumns(t, data.changes.deleted);
      if !IsDataChanged(data) then Some(trimmed) else
        match PatchRows(trimmed, data)
        case None => None
        case Some(patched) => Some(ClearFlags(FlagErrors(patched, NotedErrors(data))))
  }

  ghost function LoadDatabase(prevVersion: nat, db: Database, data: LoaderData): Option<Database>
    requires WellFormedData(data)
  {
    if prevVersion != 0 && !db.schemaCreated then None else
      match LoadTable(prevVersion, db.table, data)
      case None => None
      case Some(t) =>
        var fields :=
          if prevVersion == 0 then CopyFields(db.fields, data.schema) else ApplyChanges(db.fields, data.changes);
        Some(db.(table := t, fields := fields, schemaCreated := true))
  }

  function Marked(db: Database, prevVersion: nat, syncVersion: nat, result: LoadedResult): Database {
    db.(marks := db.marks[syncVersion := result] - {prevVersion})
  }

  // ---- The loader ----

  class PostgresLoader {
    const prevVersion: nat
    const syncVersion: nat
    var table: Table
    var fields: FieldTable
    var schemaCreated: bool
    var marks: map<nat, LoadedResult>
    var rowErrorMap: set<RowId>
    var result: LoadedResult

    constructor (prev: nat, version: nat, db: Database)
      ensures prevVersion == prev && syncVersion == version && Db() == db && rowErrorMap == {}
    {
      prevVersion, syncVersion := prev, version;
      table, fields, schemaCreated, marks := db.table, db.fields, db.schemaCreated, db.marks;
      rowErrorMap, result := {}, LoadedResult(0, 0, false);
    }

    function Db(): Database
      reads this
    {
      Database(table, fields, schemaCreated, marks)
    }

    /** COPY of fields, one row a field, in whatever order the map gives them. */
    method CopySchemaFields(schema: Schema)
      modifies this`fields
      ensures fields == CopyFields(old(fields), schema)
    {
      hide CopyFields, Copied;
      CopyNone(fields);
      ghost var done: Schema := map[];
      var todo := schema.Keys;
      while todo != {}
        invariant todo <= schema.Keys && done == schema - todo
        invariant fields == CopyFields(old(fields), done)
        modifies this`fields
      {
        var f :| f in todo;
        CopyOne(old(fields), done, f, schema[f]);
        var stored := if f in fields then fields[f] else [];
        fields := fields[f := stored + [Copied(schema[f])]];
        done, todo := done[f := schema[f]], todo - {f};
      }
      assert done == schema;
    }

    /** The first version's schema row and fields: into an empty table they are stored as they are if and
        only if no enum holds a quote. */
    method LoadSchema(schema: Schema)
      modifies this`fields, this`schemaCreated
      ensures fields == CopyFields(old(fields), schema) && schemaCreated
      ensures old(fields) == map[] ==> (Stores(fields, schema) <==> forall f <- schema :: !HasQuote(schema[f]))
    {
      if !schemaCreated { schemaCreated := true; }
      FirstFields(schema);
      hide Copied, HasQuote, CopyFields, Stores;
      CopySchemaFields(schema);
    }

    /** One UPDATE a changed field. */
    method LoadChangedFields(updated: Schema)
      modifies this`fields
      ensures fields == UpdateFields(old(fields), updated)
      ensures forall f <- fields :: f in old(fields) && |fields[f]| == |old(fields)[f]|
    {
      var todo := updated.Keys;
      while todo != {}
        invariant todo <= updated.Keys && fields.Keys == old(fields).Keys
        invariant forall f <- fields ::
          fields[f] == if f in updated && f !in todo then UpdateFields(old(fields), updated)[f] else old(fields)[f]
        modifies this`fields
      {
        var f :| f in todo;
        if f in fields {
          fields := fields[f := seq(|fields[f]|, _ => updated[f])];
        }
        todo := todo - {f};
      }
    }

    method LoadSchemaChange(changes: SchemaChanges) returns (ok: bool)
      modifies this`table, this`fields
      ensures ok == schemaCreated
      ensures ok ==> table == DropColumns(old(table), changes.deleted) && fields == ApplyChanges(old(fields), changes)
    {
      hide DropColumns, DeleteFields, CopyFields, UpdateFields, ApplyChanges;
      if !schemaCreated { return false; }
      SplitChanges(fields, changes);
      NothingToChange(table, fields, changes);
      if |changes.deleted| > 0 {
        fields := DeleteFields(fields, changes.deleted);
        table := DropColumns(table, changes.deleted);
      }
      if |changes.added| > 0 {
        CopySchemaFields(changes.added);
      }
      LoadChangedFields(changes.updated);
      ok := true;
    }

    method LoadAddedRows(meta: seq<Field>, rows: seq<seq<Value>>) returns (ok: bool)
      requires WellFormedRows(meta, rows)
      modifies this`table, this`rowErrorMap
      ensures ok == InsertRows(old(table), meta, rows).Some?
      ensures ok ==> table == InsertRows(old(table), meta, rows).value
      ensures ok ==> rowErrorMap == old(rowErrorMap) + RowErrors(meta, rows)
    {
      hide InsertRows, RowErrors, HasErrorCell, WellFormedRows, DataOf;
      HeaderOfFile(meta, rows);
      NoRows(table, meta);
      for i := 0 to |rows|
        invariant WellFormedRows(meta, rows[..i])
        invariant InsertRows(old(table), meta, rows[..i]) == Some(table)
        invariant rowErrorMap == old(rowErrorMap) + RowErrors(meta, rows[..i])
      {
        RowOfFile(meta, rows, i);
        OneMoreRow(old(table), meta, rows, i);
        var data, hasError := MarshalRow(meta, rows[i]);
        var id := data[PRIMARY].s;
        if id in table {
          InsertFails(old(table), meta, rows, i + 1);
          return false;
        }
        if hasError { rowErrorMap := rowErrorMap + {id}; }
        table := table[id := Record(data, false, false)];
      }
      assert rows[..|rows|] == rows;
      ok := true;
    }

    method LoadRemovedRows(ids: seq<RowId>)
      modifies this`table
      ensures table == MarkRemoved(old(table), ids)
    {
      assert MarkRemoved(table, []) == table;
      for i := 0 to |ids|
        invariant table == MarkRemoved(old(table), ids[..i])
      {
        if ids[i] in table {
          table := table[ids[i] := table[ids[i]].(deleted := true)];
        }
        assert ids[..i + 1] == ids[..i] + [ids[i]];
      }
      assert ids[..|ids|] == ids;
    }

    /** The updates of one kind: one statement a row, each with its nested jsonb_set calls. */
    method LoadCells(cells: map<RowId, Row>)
      modifies this`table, this`rowErrorMap
      ensures table == MergeCells(old(table), cells)
      ensures rowErrorMap == old(rowErrorMap) + CellErrors(cells)
    {
      hide MergeCells, CellErrors, HasErrorCell;
      MergeNone(table);
      ghost var done: map<RowId, Row> := map[];
      var todo := cells.Keys;
      while todo != {}
        invariant todo <= cells.Keys && done == cells - todo
        invariant table == MergeCells(old(table), done)
        invariant rowErrorMap == old(rowErrorMap) + CellErrors(done)
        modifies this`table, this`rowErrorMap
      {
        var id :| id in todo;
        MergeOne(old(table), done, id, cells[id]);
        if HasErrorCell(cells[id]) { rowErrorMap := rowErrorMap + {id}; }
        if id in table {
          var data := SetFields(table[id].data, cells[id]);
          table := table[id := table[id].(data := data)];
        }
        done, todo := done[id := cells[id]], todo - {id};
      }
      assert done == cells;
    }

    method LoadUpdateFields(data: LoaderData)
      modifies this`table, this`rowErrorMap
      ensures table == MergeCells(old(table), data.updatedFields)
      ensures rowErrorMap == old(rowErrorMap) + CellErrors(data.updatedFields)
    {
      LoadCells(data.updatedFields);
    }

    method LoadAddedFields(data: LoaderData)
      modifies this`table, this`rowErrorMap
      ensures table == MergeCells(old(table), data.addedFields)
      ensures rowErrorMap == old(rowErrorMap) + CellErrors(data.addedFields)
    {
      LoadCells(data.addedFields);
    }

    method LoadDeletedFields(nulled: map<RowId, seq<Field>>)
      modifies this`table
      ensures table == NullCells(old(table), nulled)
    {
      var todo := nulled.Keys;
      while todo != {}
        invariant todo <= nulled.Keys && table.Keys == old(table).Keys
        invariant forall id <- table ::
          table[id] == if id in nulled && id !in todo then NullCells(old(table), nulled)[id] else old(table)[id]
        modifies this`table
      {
        var id :| id in todo;
        if id in table {
          var data := SetNulls(table[id].data, nulled[id]);
          table := table[id := table[id].(data := data)];
        }
        todo := todo - {id};
      }
    }

    method LoadRowErrorMetadata()
      modifies this`table
      ensures table == if prevVersion == 0 then FlagErrors(old(table), rowErrorMap)
                       else ClearFlags(FlagErrors(old(table), rowErrorMap))
    {
      var todo := rowErrorMap;
      while todo != {}
        invariant todo <= rowErrorMap
        invariant table == FlagErrors(old(table), rowErrorMap - todo)
        modifies this`table
      {
        var id :| id in todo;
        if id in table {
          table := table[id := table[id].(hasError := true)];
        }
        todo := todo - {id};
      }
      assert rowErrorMap - {} == rowErrorMap;
      if prevVersion != 0 {
        table := ClearFlags(table);
      }
    }

    /** The statements of one load. The caller rolls back when it fails. */
    method ApplyStatements(data: LoaderData) returns (ok: bool)
      requires WellFormedData(data) && rowErrorMap == {}
      modifies this`table, this`fields, this`schemaCreated, this`rowErrorMap
      ensures ok == LoadDatabase(prevVersion, old(Db()), data).Some?
      ensures ok ==> Db() == LoadDatabase(prevVersion, old(Db()), data).value
    {
      hide InsertRows, MarkRemoved, MergeCells, NullCells, DropColumns, FlagErrors, ClearFlags,
           CopyFields, ApplyChanges, RowErrors, CellErrors;
      if prevVersion == 0 {
        LoadSchema(data.schema);
        ok := LoadAddedRows(data.addedMeta, data.addedRows);
        if ok {
          assert rowErrorMap == RowErrors(data.addedMeta, data.addedRows);
          LoadRowErrorMetadata();
        }
      } else {
        ok := LoadSchemaChange(data.changes);
        if ok && IsDataChanged(data) {
          LoadRemovedRows(data.deletedRows);
          ok := LoadAddedRows(data.addedMeta, data.addedRows);
          if ok {
            LoadUpdateFields(data);
            LoadAddedFields(data);
            LoadDeletedFields(data.nulledFields);
            assert rowErrorMap == NotedErrors(data);
            LoadRowErrorMetadata();
          }
        }
      }
    }

    /** After an error: the error is dropped when the version is marked by now. */
    method CheckAndMapError() returns (r: Outcome)
      ensures r == if syncVersion in marks then Nothing else Failed
    {
      r := if syncVersion in marks then Nothing else Failed;
    }

    /** One transaction: a mark of this version gives back its saved result and changes nothing; a
        failure leaves the database as it was; a commit patches it and replaces the previous mark. A saved
        result that cannot be read and a commit whose acknowledgement is lost give nothing back. */
    method Load(files: ResultFiles, trouble: Trouble) returns (r: Outcome)
      requires prevVersion != syncVersion && rowErrorMap == {}
      requires LoadData(prevVersion, files).Some? ==> WellFormedData(LoadData(prevVersion, files).value)
      modifies this
      ensures syncVersion in old(marks) ==> Db() == old(Db())
      ensures syncVersion in old(marks) ==>
        r == if trouble.SavedUnreadable? then Nothing else AlreadyLoaded(old(marks)[syncVersion])
      ensures syncVersion !in old(marks) ==>
        match LoadData(prevVersion, files)
        case None => r == Failed && Db() == old(Db())
        case Some(data) =>
          (match LoadDatabase(prevVersion, old(Db()), data)
           case None => r == Failed && Db() == old(Db())
           case Some(db) =>
             && Db() == Marked(db, prevVersion, syncVersion, LoadedResultOf(data))
             && r == if trouble.Unacknowledged? then Nothing else Loaded(LoadedResultOf(data)))
    {
      var atBegin := Db();
      if syncVersion in marks {
        if trouble.SavedUnreadable? { return Nothing; }
        result := marks[syncVersion];
        return AlreadyLoaded(result);
      }
      var loaded := GetLoadData(prevVersion, files);
      if loaded.None? { return Failed; }
      var ok := ApplyStatements(loaded.value);
      if !ok {
        table, fields, schemaCreated, marks := atBegin.table, atBegin.fields, atBegin.schemaCreated, atBegin.marks;
        r := CheckAndMapError();
        return;
      }
      result := LoadedResultOf(loaded.value);
      marks := marks[syncVersion := result] - {prevVersion};
      if trouble.Unacknowledged? {
        r := CheckAndMapError();
      } else {
        r := Loaded(result);
      }
    }
  }

  // ---- Row-level loops ----

  /** One added row as a JSON object, and whether a cell holds the error value. */
  method MarshalRow(meta: seq<Field>, row: seq<Value>) returns (data: Row, hasError: bool)
    requires |meta| == |row| && forall i, j :: 0 <= i < j < |meta| ==> meta[i] != meta[j]
    ensures data == DataOf(meta, row) && hasError == HasErrorCell(data)
  {
    data, hasError := map[], false;
    for i := 0 to |meta|
      invariant data == DataOf(meta[..i], row[..i]) && data.Keys == Elements(meta[..i])
      invariant hasError == HasErrorCell(data)
    {
      assert meta[..i + 1][..i] == meta[..i] && row[..i + 1][..i] == row[..i];
      assert meta[i] !in data;
      if row[i] == ERROR_VALUE { hasError := true; }
      ghost var before := data;
      data := data[meta[i] := row[i]];
      assert HasErrorCell(data) <==> HasErrorCell(before) || row[i] == ERROR_VALUE by {
        assert data[meta[i]] == row[i];
        assert forall f <- before :: data[f] == before[f];
      }
    }
    assert meta[..|meta|] == meta && row[..|row|] == row;
  }

  /** Nested jsonb_set calls, one a field, in whatever order the keys come. */
  method SetFields(data: Row, cells: Row) returns (r: Row)
    ensures r == data + cells
  {
    r := data;
    var todo := cells.Keys;
    while todo != {}
      invariant todo <= cells.Keys && r == data + (cells - todo)
    {
      var f :| f in todo;
      r := r[f := cells[f]];
      todo := todo - {f};
    }
    assert cells - {} == cells;
  }

  method SetNulls(data: Row, fields: seq<Field>) returns (r: Row)
    ensures r == data + Nulls(fields)
  {
    r := data;
    for i := 0 to |fields|
      invariant r == data + Nulls(fields[..i])
    {
      r := r[fields[i] := Null];
      assert fields[..i + 1] == fields[..i] + [fields[i]];
    }
    assert fields[..|fields|] == fields;
  }

  lemma CopyNone(t: FieldTable)
    ensures CopyFields(t, map[]) == t
  {
    assert forall f <- t :: t[f] + [] == t[f];
  }

  lemma CopyOne(t: FieldTable, done: Schema, f: Field, field: FieldSchema)
    requires f !in done
    ensures var copied := CopyFields(t, done);
      CopyFields(t, done[f := field]) == copied[f := (if f in copied then copied[f] else []) + [Copied(field)]]
  {
    hide Copied;
    assert f in t ==> t[f] + [] == t[f];
  }

  lemma MergeNone(t: Table)
    ensures MergeCells(t, map[]) == t && CellErrors(map[]) == {}
  {
  }

  lemma MergeOne(t: Table, done: map<RowId, Row>, id: RowId, cells: Row)
    requires id !in done
    ensures var merged := MergeCells(t, done); var more := MergeCells(t, done[id := cells]);
      more == if id in merged then merged[id := merged[id].(data := merged[id].data + cells)] else merged
    ensures CellErrors(done[id := cells]) == CellErrors(done) + if HasErrorCell(cells) then {id} else {}
  {
    hide HasErrorCell;
  }

  lemma {:induction false} InsertFails(t: Table, meta: seq<Field>, rows: seq<seq<Value>>, n: nat)
    requires n <= |rows| && WellFormedRows(meta, rows) && InsertRows(t, meta, rows[..n]).None?
    ensures InsertRows(t, meta, rows).None?
    decreases |rows|
  {
    if n < |rows| {
      assert rows[..|rows| - 1][..n] == rows[..n];
      InsertFails(t, meta, rows[..|rows| - 1], n);
    } else {
      assert rows[..n] == rows;
    }
  }

  lemma HeaderOfFile(meta: seq<Field>, rows: seq<seq<Value>>)
    requires WellFormedRows(meta, rows)
    ensures PRIMARY in meta && forall i, j :: 0 <= i < j < |meta| ==> meta[i] != meta[j]
  {
  }

  lemma RowOfFile(meta: seq<Field>, rows: seq<seq<Value>>, i: nat)
    requires WellFormedRows(meta, rows) && i < |rows|
    ensures |rows[i]| == |meta| && PRIMARY in meta && DataOf(meta, rows[i])[PRIMARY].Str?
  {
    assert rows[i] in rows;
  }

  lemma NoRows(t: Table, meta: seq<Field>)
    requires PRIMARY in meta && forall i, j :: 0 <= i < j < |meta| ==> meta[i] != meta[j]
    ensures WellFormedRows(meta, []) && InsertRows(t, meta, []) == Some(t) && RowErrors(meta, []) == {}
  {
  }

  lemma OneMoreRow(t: Table, meta: seq<Field>, rows: seq<seq<Value>>, i: nat)
    requires i < |rows| && WellFormedRows(meta, rows)
    ensures rows[i] in rows
    ensures WellFormedRows(meta, rows[..i]) && WellFormedRows(meta, rows[..i + 1])
    ensures var data := DataOf(meta, rows[i]);
      && RowErrors(meta, rows[..i + 1]) ==
        RowErrors(meta, rows[..i]) + (if HasErrorCell(data) then {data[PRIMARY].s} else {})
      && (InsertRows(t, meta, rows[..i]).Some? ==>
        var m := InsertRows(t, meta, rows[..i]).value;
        InsertRows(t, meta, rows[..i + 1]) ==
          if data[PRIMARY].s in m then None else Some(m[data[PRIMARY].s := Record(data, false, false)]))
  {
    hide HasErrorCell, DataOf;
    assert rows[..i + 1] == rows[..i] + [rows[i]];
    assert rows[..i + 1][..i] == rows[..i];
  }

  lemma SplitChanges(fields: FieldTable, changes: SchemaChanges)
    ensures ApplyChanges(fields, changes) ==
      UpdateFields(CopyFields(DeleteFields(fields, changes.deleted), changes.added), changes.updated)
  {
  }

  lemma NothingToChange(t: Table, fields: FieldTable, changes: SchemaChanges)
    ensures changes.deleted == [] ==>
      DropColumns(t, changes.deleted) == t && DeleteFields(fields, changes.deleted) == fields
    ensures changes.added == map[] ==>
      CopyFields(DeleteFields(fields, changes.deleted), changes.added) == DeleteFields(fields, changes.deleted)
  {
    assert changes.deleted == [] ==> forall id <- t :: t[id].data - Elements(changes.deleted) == t[id].data;
    var kept := DeleteFields(fields, changes.deleted);
    assert changes.added == map[] ==> forall f <- kept :: kept[f] + [] == kept[f];
  }
}
