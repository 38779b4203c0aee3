/** The error-flag index kept beside the data: which rows carry `hasError` after any loads. */
module ErrorFlags {
  import opened Wrappers
  import opened Cells
  import opened SchemaDiff
  import opened RowText
  import opened Compare
  import opened Getter
  import opened Loader

  /** Every row whose data holds the error value carries the flag. */
  ghost predicate Complete(t: Table) {
    forall id <- t :: HasErrorCell(t[id].data) ==> t[id].hasError
  }

  /** Only such rows carry it. */
  ghost predicate Sound(t: Table) {
    forall id <- t :: t[id].hasError ==> HasErrorCell(t[id].data)
  }

  /** An inserted row starts without the flag and is noted exactly when it holds the error value. */
  lemma {:induction false} InsertedFlags(t: Table, meta: seq<Field>, rows: seq<seq<Value>>, id: RowId)
    requires WellFormedRows(meta, rows) && InsertRows(t, meta, rows).Some?
    ensures var m := InsertRows(t, meta, rows).value;
      && (id in t ==> id in m && m[id] == t[id] && id !in RowErrors(meta, rows))
      && (id in m && id !in t ==> !m[id].hasError && (HasErrorCell(m[id].data) <==> id in RowErrors(meta, rows)))
      && (id !in m ==> id !in RowErrors(meta, rows))
    decreases |rows|
  {
    if rows != [] {
      var n := |rows| - 1;
      OneMoreRow(t, meta, rows, n);
      assert rows[..n + 1] == rows;
      InsertedFlags(t, meta, rows[..n], id);
      hide InsertRows, RowErrors, WellFormedRows, HasErrorCell, DataOf;
    }
  }

  lemma ErrorSource(base: Row, updated: Row, added: Row, nulls: Row)
    requires forall f <- nulls :: nulls[f] == Null
    ensures HasErrorCell(base + updated + added + nulls) ==>
      HasErrorCell(base) || HasErrorCell(updated) || HasErrorCell(added)
  {
  }

  /** The rows of one committed patch, before the metadata step: an error value was there before, and
      flagged, or the row is noted. */
  lemma PatchNotesErrors(t: Table, data: LoaderData)
    requires WellFormedData(data) && Complete(t) && PatchRows(t, data).Some?
    ensures Complete(FlagErrors(PatchRows(t, data).value, NotedErrors(data)))
  {
    var patched := PatchRows(t, data).value;
    var removed := MarkRemoved(t, data.deletedRows);
    var inserted := InsertRows(removed, data.addedMeta, data.addedRows).value;
    forall id <- patched | HasErrorCell(patched[id].data)
      ensures patched[id].hasError || id in NotedErrors(data)
    {
      InsertedFlags(removed, data.addedMeta, data.addedRows, id);
      PatchedFrom(inserted, data, id);
    }
  }

  lemma PatchedFrom(inserted: Table, data: LoaderData, id: RowId)
    requires id in inserted
    ensures var after :=
        NullCells(MergeCells(MergeCells(inserted, data.updatedFields), data.addedFields), data.nulledFields);
      && after.Keys == inserted.Keys && after[id].hasError == inserted[id].hasError
      && (!HasErrorCell(after[id].data) || HasErrorCell(inserted[id].data)
           || id in CellErrors(data.updatedFields) || id in CellErrors(data.addedFields))
  {
    var u := if id in data.updatedFields then data.updatedFields[id] else map[];
    var a := if id in data.addedFields then data.addedFields[id] else map[];
    var n := if id in data.nulledFields then Nulls(data.nulledFields[id]) else map[];
    forall r: Row ensures r + map[] == r {}
    ErrorSource(inserted[id].data, u, a, n);
  }

  /** The first load flags exactly the rows with an error value. */
  lemma FirstLoadFlags(t: Table, data: LoaderData)
    requires WellFormedData(data) && Complete(t) && LoadTable(0, t, data).Some?
    ensures Complete(LoadTable(0, t, data).value)
    ensures Sound(t) ==> Sound(LoadTable(0, t, data).value)
  {
    var inserted := InsertRows(t, data.addedMeta, data.addedRows).value;
    forall id <- inserted
      ensures id in t ==> inserted[id] == t[id] && id !in RowErrors(data.addedMeta, data.addedRows)
      ensures id !in t ==> !inserted[id].hasError
      ensures id !in t ==> (HasErrorCell(inserted[id].data) <==> id in RowErrors(data.addedMeta, data.addedRows))
    {
      InsertedFlags(t, data.addedMeta, data.addedRows, id);
      hide InsertRows, RowErrors, WellFormedRows, HasErrorCell;
    }
    hide InsertRows, RowErrors, WellFormedRows, HasErrorCell;
  }

  /** The row holds the error value, and only in columns of `names`. */
  predicate OnlyErrorsIn(data: Row, names: seq<Field>) {
    HasErrorCell(data) && forall f <- data | data[f] == ERROR_VALUE :: f in names
  }

  lemma ErrorsDropped(data: Row, names: seq<Field>)
    ensures HasErrorCell(data) ==> (HasErrorCell(data - Elements(names)) <==> !OnlyErrorsIn(data, names))
  {
    if HasErrorCell(data) && !OnlyErrorsIn(data, names) {
      var f :| f in data && data[f] == ERROR_VALUE && f !in names;
      assert (data - Elements(names))[f] == ERROR_VALUE;
    }
  }

  /** A load that only changes the schema never reaches the metadata step: exact flags stay exact if and
      only if no row has all its error cells in dropped columns. */
  lemma SchemaLoadFlags(prevVersion: nat, t: Table, data: LoaderData)
    requires WellFormedData(data) && prevVersion != 0 && !IsDataChanged(data) && Complete(t) && Sound(t)
    ensures var loaded := LoadTable(prevVersion, t, data);
      && loaded.Some? && Complete(loaded.value)
      && (Sound(loaded.value) <==> forall id <- t :: !OnlyErrorsIn(t[id].data, data.changes.deleted))
  {
    hide HasErrorCell, Elements, OnlyErrorsIn;
    LoadKeepsFlags(prevVersion, t, data);
    var names := data.changes.deleted;
    var after := DropColumns(t, names);
    forall id <- t
      ensures after[id].hasError ==> (HasErrorCell(after[id].data) <==> !OnlyErrorsIn(t[id].data, names))
      ensures OnlyErrorsIn(t[id].data, names) ==> t[id].hasError
    {
      ErrorsDropped(t[id].data, names);
      if OnlyErrorsIn(t[id].data, names) { FlaggedIfOnlyErrors(t, id, names); }
    }
  }

  lemma FlaggedIfOnlyErrors(t: Table, id: RowId, names: seq<Field>)
    requires Complete(t) && id in t && OnlyErrorsIn(t[id].data, names)
    ensures t[id].hasError
  {
  }

  /** Whatever the loaded data, a committed load keeps every row with an error value flagged; a load
      that reaches the metadata step leaves no other row flagged. */
  lemma LoadKeepsFlags(prevVersion: nat, t: Table, data: LoaderData)
    requires WellFormedData(data) && Complete(t) && LoadTable(prevVersion, t, data).Some?
    ensures Complete(LoadTable(prevVersion, t, data).value)
    ensures prevVersion == 0 && Sound(t) ==> Sound(LoadTable(prevVersion, t, data).value)
    ensures prevVersion != 0 && IsDataChanged(data) ==> Sound(LoadTable(prevVersion, t, data).value)
  {
    if prevVersion == 0 {
      FirstLoadFlags(t, data);
    } else {
      TrimmedComplete(t, data.changes.deleted);
      if IsDataChanged(data) {
        PatchNotesErrors(DropColumns(t, data.changes.deleted), data);
      }
      hide PatchRows, NotedErrors, DropColumns, HasErrorCell, WellFormedData, IsDataChanged;
    }
  }

  lemma TrimmedComplete(t: Table, names: seq<Field>)
    requires Complete(t)
    ensures Complete(DropColumns(t, names))
  {
  }

  // ---- Any number of loads ----

  /** The tables after each of a list of loads into an empty table; a failed load changes nothing. */
  ghost function TableAfter(loads: seq<(nat, LoaderData)>): Table
    requires forall d <- loads :: WellFormedData(d.1)
  {
    if loads == [] then map[] else
      var last := loads[|loads| - 1];
      assert last in loads;
      var before := TableAfter(loads[..|loads| - 1]);
      match LoadTable(last.0, before, last.1)
      case None => before
      case Some(after) => after
  }

  lemma {:induction false} FlagsAfterLoads(loads: seq<(nat, LoaderData)>)
    requires forall d <- loads :: WellFormedData(d.1)
    ensures Complete(TableAfter(loads))
    decreases |loads|
  {
    if loads != [] {
      var last := loads[|loads| - 1];
      assert last in loads;
      FlagsAfterLoads(loads[..|loads| - 1]);
      var before := TableAfter(loads[..|loads| - 1]);
      if LoadTable(last.0, before, last.1).Some? {
        LoadKeepsFlags(last.0, before, last.1);
      }
      hide LoadTable, Complete;
    }
  }

  /** The flags are exact again after every committed load whose data changed: a row carries the flag if and
      only if one of its cells is the text `__Error`. */
  lemma FlagsExact(loads: seq<(nat, LoaderData)>, prevVersion: nat, data: LoaderData)
    requires (forall d <- loads :: WellFormedData(d.1)) && WellFormedData(data)
    requires prevVersion != 0 && IsDataChanged(data)
    ensures var after := LoadTable(prevVersion, TableAfter(loads), data);
      after.Some? ==> forall id <- after.value ::
        after.value[id].hasError <==> exists f <- after.value[id].data :: after.value[id].data[f] == Str("__Error")
  {
    FlagsAfterLoads(loads);
    var before := TableAfter(loads);
    if LoadTable(prevVersion, before, data).Some? {
      LoadKeepsFlags(prevVersion, before, data);
    }
  }

  /** The first version of a sheet whose one row has an error in column a, and a version without it. */
  ghost function FirstData(): LoaderData {
    LoaderData(map[], SchemaChanges([], map[], map[], map[], map[]), [PRIMARY, "a"], [[Str("r"), ERROR_VALUE]], [],
      map[], map[], map[])
  }

  ghost function DropData(): LoaderData {
    LoaderData(map[], SchemaChanges(["a"], map[], map[], map[], map[]), [PRIMARY], [], [], map[], map[], map[])
  }

  lemma FirstRowData(row: Row)
    requires row == map[PRIMARY := Str("r"), "a" := ERROR_VALUE] && PRIMARY != "a"
    ensures DataOf([PRIMARY, "a"], [Str("r"), ERROR_VALUE]) == row && HasErrorCell(row)
  {
    var meta, cells := [PRIMARY, "a"], [Str("r"), ERROR_VALUE];
    assert meta[..1] == [PRIMARY] && cells[..1] == [Str("r")] && meta[..1][..0] == [] && cells[..1][..0] == [];
    assert DataOf(meta[..1], cells[..1]) == map[PRIMARY := Str("r")];
    assert row["a"] == ERROR_VALUE;
  }

  lemma FirstRow(row: Row)
    requires row == map[PRIMARY := Str("r"), "a" := ERROR_VALUE] && PRIMARY != "a"
    ensures WellFormedData(FirstData())
    ensures InsertRows(map[], FirstData().addedMeta, FirstData().addedRows)
      == Some(map["r" := Record(row, false, false)])
    ensures RowErrors(FirstData().addedMeta, FirstData().addedRows) == {"r"}
  {
    hide DataOf, HasErrorCell;
    FirstRowData(row);
    var meta, rows := FirstData().addedMeta, FirstData().addedRows;
    assert rows[..0] == [] && rows[..1] == rows && WellFormedRows(meta, rows);
    OneMoreRow(map[], meta, rows, 0);
    NoRows(map[], meta);
  }

  lemma FirstLoad(row: Row)
    requires row == map[PRIMARY := Str("r"), "a" := ERROR_VALUE] && PRIMARY != "a"
    ensures WellFormedData(FirstData())
    ensures LoadTable(0, map[], FirstData()) == Some(map["r" := Record(row, true, false)])
  {
    hide InsertRows, RowErrors, WellFormedData;
    FirstRow(row);
    assert FlagErrors(map["r" := Record(row, false, false)], {"r"}) == map["r" := Record(row, true, false)];
  }

  lemma DropsOnly(t: Table)
    ensures WellFormedData(DropData()) && LoadTable(1, t, DropData()) == Some(DropColumns(t, ["a"]))
  {
  }

  /** Loading the one and then the other leaves the row flagged without an error value in it. */
  lemma DroppedErrorStaysFlagged()
    ensures WellFormedData(FirstData()) && WellFormedData(DropData())
    ensures var t := TableAfter([(0, FirstData()), (1, DropData())]);
      "r" in t && t["r"].hasError && !HasErrorCell(t["r"].data) && !Sound(t)
  {
    hide LoadTable, WellFormedData, FirstData, DropData;
    var first, drop := FirstData(), DropData();
    assert PRIMARY != "a" by { assert |PRIMARY| != |"a"|; }
    var row := map[PRIMARY := Str("r"), "a" := ERROR_VALUE];
    FirstLoad(row);
    var t := map["r" := Record(row, true, false)];
    assert TableAfter([(0, first)]) == t by { assert [(0, first)][..0] == []; }
    assert [(0, first), (1, drop)][..1] == [(0, first)];
    assert row - Elements(["a"]) == map[PRIMARY := Str("r")];
    DropsOnly(t);
  }
}
