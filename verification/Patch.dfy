/** Patching with the diff: what a table that holds the previous snapshot holds after a load of the
    comparer's result, exactly. */
module Patch {
  import opened Wrappers
  import opened Cells
  import opened FieldOrder
  import opened SchemaDiff
  import opened RowText
  import opened Compare
  import opened Getter
  import opened Loader
  import opened ReadBack

  // ---- What it means for a table to hold a snapshot ----

  function Live(t: Table): set<RowId> {
    set id <- t | !t[id].deleted
  }

  ghost predicate RowHolds(data: Row, row: Row, schema: Schema)
    requires schema.Keys <= row.Keys
  {
    data.Keys == schema.Keys && forall f <- schema :: SameCell(data[f], row[f], schema[f].dataType)
  }

  /** The live rows are the snapshot's, cell by cell, with NULL and the column's default as one value. */
  ghost predicate Holds(t: Table, s: Snapshot)
    requires s.Valid()
  {
    Live(t) == s.rows.Keys && forall id <- s.rows :: RowHolds(t[id].data, s.rows[id], s.schema)
  }

  /** Common columns have one type. */
  predicate SameTypes(a: Snapshot, b: Snapshot) {
    forall f <- a.schema | f in b.schema :: a.schema[f].dataType == b.schema[f].dataType
  }

  /** Two readings of a sheet agree cell by cell, as far as the comparer can see. */
  ghost predicate SameSheet(a: Snapshot, b: Snapshot)
    requires a.Valid() && b.Valid()
  {
    a.rows.Keys == b.rows.Keys && forall id <- a.rows :: RowHolds(a.rows[id], b.rows[id], b.schema)
  }

  lemma HeldRow(data: Row, a: Snapshot, b: Snapshot, id: RowId)
    requires a.Valid() && b.Valid() && SameTypes(a, b) && id in a.rows && id in b.rows
    requires RowHolds(data, a.rows[id], a.schema)
    ensures RowHolds(data, b.rows[id], b.schema) <==> RowHolds(a.rows[id], b.rows[id], b.schema)
  {
    hide NotNull;
  }

  /** A table that holds one reading of a sheet holds another if and only if the two readings agree. */
  lemma HeldSheet(t: Table, a: Snapshot, b: Snapshot)
    requires a.Valid() && b.Valid() && SameTypes(a, b) && Holds(t, a)
    ensures Holds(t, b) <==> SameSheet(a, b)
  {
    hide RowHolds, SameTypes;
    forall id <- a.rows | id in b.rows
      ensures RowHolds(t[id].data, b.rows[id], b.schema) <==> RowHolds(a.rows[id], b.rows[id], b.schema)
    {
      HeldRow(t[id].data, a, b, id);
    }
  }

  // ---- Hypotheses on a comparison ----

  ghost predicate KeepsTypes(q: Comparison) {
    forall f <- q.prev.schema | f in q.cur.schema :: q.prev.schema[f].dataType == q.cur.schema[f].dataType
  }

  /** Whether a kept cell differs as far as the comparer can see. */
  predicate CellChanged(q: Comparison, id: RowId, f: Field)
    requires q.Valid() && id in q.Common() && f in q.cols.kept
  {
    !SameCell(q.prev.rows[id][f], q.cur.rows[id][f], q.cur.schema[f].dataType)
  }

  /** The hash tells every changed cell. */
  ghost predicate TellsCells(q: Comparison)
    requires q.Valid()
  {
    forall id <- q.Common(), f <- q.cols.kept | CellChanged(q, id, f) ::
      var t := q.cur.schema[f].dataType;
      q.hash([NotNull(q.prev.rows[id][f], t)]) != q.hash([NotNull(q.cur.rows[id][f], t)])
  }

  /** The hash tells any two different value lists that a joined row gives. */
  ghost predicate TellsRows(q: Comparison)
    requires q.Valid()
  {
    forall id <- q.Common() ::
      var p := HashInput(q.cols.prev, q.prev.rows[id], q.prev.schema);
      var c := HashInput(q.cols.cur, q.cur.rows[id], q.cur.schema);
      p != c ==> q.hash(p) != q.hash(c)
  }

  // ---- When a changed cell arrives ----

  predicate Corruptible(v: Value) {
    v.Str? && HasCommaBrace(v.s)
  }

  /** A changed kept cell arrives when its row passes the pre-filter and its text holds no `,}`. */
  predicate CellArrives(q: Comparison, id: RowId, f: Field)
    requires q.Valid() && id in q.Common() && f in q.cols.kept
  {
    CellChanged(q, id, f) ==> q.Passes(id) && !Corruptible(q.cur.rows[id][f])
  }

  ghost predicate AllArrive(q: Comparison)
    requires q.Valid()
  {
    forall id <- q.Common(), f <- q.DataColumns() :: CellArrives(q, id, f)
  }

  // ---- One cell ----

  /** A cell after the patch: `d` is what the table holds, `p` and `c` the previous and current cells. */
  function CellAfter(passes: bool, cls: CellClass, d: Value, c: Value): Value {
    if !passes then d
    else match cls
      case Keep => d
      case Update => Scrub(c)
      case UpdateNull => Null
  }

  lemma CellExact(hash: CellHash, p: Value, c: Value, d: Value, t: DataType, passes: bool)
    requires SameCell(d, p, t)
    requires !SameCell(p, c, t) ==> hash([NotNull(p, t)]) != hash([NotNull(c, t)])
    ensures var cls := Classify(hash, p, t, c, t);
      && (cls == Update ==> !c.Null?)
      && (SameCell(CellAfter(passes, cls, d, c), c, t) <==> (SameCell(p, c, t) || (passes && !Corruptible(c))))
  {
    if c.Str? {
      DropFixed(c.s);
    }
  }

  /** What NULL reads as: 0, false or the empty text, by the column's type, and no other value. */
  lemma NullReadsAs(v: Value)
    ensures SameCell(Null, v, NumberType) <==> v == Null || v == Num("0")
    ensures SameCell(Null, v, BooleanType) <==> v == Null || v == Bool(false)
    ensures SameCell(Null, v, StringType) <==> v == Null || v == Str("")
    ensures SameCell(Null, v, DateType) <==> v == Null || v == Str("")
    ensures SameCell(Null, v, UnknownType) <==> v == Null || v == Str("")
  {
  }

  /** Two cells are one to the comparer only when they are equal or both read as NULL does. */
  lemma SameCellExact(a: Value, b: Value, t: DataType)
    ensures SameCell(a, b, t) <==> a == b || (SameCell(Null, a, t) && SameCell(Null, b, t))
  {
  }

  // ---- One row ----

  ghost function Dropped(q: Comparison): set<Field> {
    q.prev.schema.Keys - q.cur.schema.Keys
  }

  /** The data of a row in both snapshots, after the steps of a load. */
  ghost function RowAfter(q: Comparison, id: RowId, data: Row): Row
    requires q.Valid() && id in q.Common()
  {
    data - Dropped(q)
    + (if q.Passes(id) then UpdatedCells(q, id) else map[])
    + AddedCells(q, id)
    + (if q.Passes(id) then Nulls(q.NulledFields(id)) else map[])
  }

  lemma UpdatedAt(q: Comparison, id: RowId, f: Field)
    requires q.Valid() && id in q.Common()
    ensures f in UpdatedCells(q, id) <==>
      f in q.cols.kept && f != PRIMARY && q.ClassAt(id, f) == Update && !q.cur.rows[id][f].Null?
    ensures f in UpdatedCells(q, id) ==> UpdatedCells(q, id)[f] == Scrub(q.cur.rows[id][f])
  {
    hide Classify, Scrub, Leq, HashInput;
  }

  lemma NulledAt(q: Comparison, id: RowId, f: Field)
    requires q.Valid() && id in q.Common()
    ensures var nulls := Nulls(q.NulledFields(id));
      && (f in nulls <==> f in q.cols.kept && f != PRIMARY && q.ClassAt(id, f) == UpdateNull)
      && (f in nulls ==> nulls[f] == Null)
  {
    hide Classify, Leq, HashInput;
  }

  lemma ColumnsAt(q: Comparison, f: Field)
    requires q.Valid()
    ensures f in q.cols.kept <==> f in q.prev.schema && f in q.cur.schema
    ensures f in q.cols.added <==> f !in q.prev.schema && f in q.cur.schema
    ensures f in q.DataColumns() <==> f in q.cols.kept && f != PRIMARY
  {
  }

  lemma RowAfterAt(q: Comparison, id: RowId, data: Row, f: Field)
    requires q.Valid() && id in q.Common() && data.Keys == q.prev.schema.Keys
    ensures f in RowAfter(q, id, data) <==> f in q.cur.schema
    ensures f in q.cols.added ==>
      f in q.cur.schema && f in q.cur.rows[id] && RowAfter(q, id, data)[f] == q.cur.rows[id][f]
    ensures f in q.cols.kept && (f != PRIMARY && q.ClassAt(id, f) == Update ==> !q.cur.rows[id][f].Null?) ==>
      RowAfter(q, id, data)[f] ==
        if f == PRIMARY then data[f] else CellAfter(q.Passes(id), q.ClassAt(id, f), data[f], q.cur.rows[id][f])
  {
    hide UpdatedCells, Nulls, Comparison.DataColumns, Comparison.NulledFields, ColumnsOf, Scrub, HashInput,
         Comparison.ClassAt, Comparison.Passes;
    UpdatedAt(q, id, f);
    NulledAt(q, id, f);
    ColumnsAt(q, f);
  }

  /** After the patch a row holds the current one exactly when each of its changed cells arrives. */
  lemma RowExact(q: Comparison, id: RowId, data: Row)
    requires q.Valid() && KeepsTypes(q) && TellsCells(q) && id in q.Common()
    requires RowHolds(data, q.prev.rows[id], q.prev.schema)
    ensures RowHolds(RowAfter(q, id, data), q.cur.rows[id], q.cur.schema)
       <==> forall f <- q.DataColumns() :: CellArrives(q, id, f)
  {
    hide RowAfter, SameCell, CellChanged, Comparison.DataColumns, ColumnsOf, KeepsTypes, TellsCells;
    var after, row := RowAfter(q, id, data), q.cur.rows[id];
    forall f ensures f in after <==> f in q.cur.schema {
      RowAfterAt(q, id, data, f);
    }
    forall f ensures f in q.DataColumns() ==> f in q.cols.kept && f in q.cur.schema {
      ColumnsAt(q, f);
    }
    forall f <- q.cur.schema
      ensures SameCell(after[f], row[f], q.cur.schema[f].dataType) <==> f !in q.DataColumns() || CellArrives(q, id, f)
    {
      CellOfRowExact(q, id, data, f);
    }
  }

  lemma ChangeOfCell(q: Comparison, id: RowId, f: Field)
    requires q.Valid() && KeepsTypes(q) && TellsCells(q) && id in q.Common() && f in q.cols.kept
    ensures var t, p, c := q.cur.schema[f].dataType, q.prev.rows[id][f], q.cur.rows[id][f];
      && q.prev.schema[f].dataType == t
      && CellChanged(q, id, f) == !SameCell(p, c, t)
      && q.ClassAt(id, f) == Classify(q.hash, p, t, c, t)
      && (!SameCell(p, c, t) ==> q.hash([NotNull(p, t)]) != q.hash([NotNull(c, t)]))
  {
    hide Classify, SameCell, Leq, HashInput;
  }

  lemma CellOfRowExact(q: Comparison, id: RowId, data: Row, f: Field)
    requires q.Valid() && KeepsTypes(q) && TellsCells(q) && id in q.Common() && f in q.cur.schema
    requires RowHolds(data, q.prev.rows[id], q.prev.schema)
    ensures f in RowAfter(q, id, data)
    ensures SameCell(RowAfter(q, id, data)[f], q.cur.rows[id][f], q.cur.schema[f].dataType)
       <==> f !in q.DataColumns() || CellArrives(q, id, f)
  {
    ColumnsAt(q, f);
    RowAfterAt(q, id, data, f);
    hide RowAfter, Comparison.DataColumns, ColumnsOf, CellAfter, Corruptible, HashInput, Classify, SameCell, NotNull,
         KeepsTypes, TellsCells, CellChanged, Comparison.ClassAt;
    if f in q.cols.kept {
      ChangeOfCell(q, id, f);
      CellExact(q.hash, q.prev.rows[id][f], q.cur.rows[id][f], data[f], q.cur.schema[f].dataType, q.Passes(id));
    } else {
      Reflexive(q.cur.rows[id][f], q.cur.schema[f].dataType);
    }
  }

  lemma Reflexive(v: Value, t: DataType)
    ensures SameCell(v, v, t)
  {
  }

  // ---- The added rows ----

  lemma {:induction false} DataOfRow(meta: seq<Field>, row: Row)
    requires forall f <- meta :: f in row
    ensures DataOf(meta, RowValues(meta, row)) == map f <- meta :: row[f]
    decreases |meta|
  {
    if meta != [] {
      var n := |meta| - 1;
      DataOfRow(meta[..n], row);
      assert RowValues(meta, row)[..n] == RowValues(meta[..n], row);
      assert meta == meta[..n] + [meta[n]];
    }
  }

  lemma AddedRowData(meta: seq<Field>, cur: Snapshot, id: RowId)
    requires cur.Valid() && Enumerates(meta, cur.schema.Keys) && id in cur.rows
    ensures PRIMARY in meta && DataOf(meta, RowValues(meta, cur.rows[id])) == cur.rows[id]
  {
    DataOfRow(meta, cur.rows[id]);
  }

  lemma {:induction false} AddedRowsWellFormed(meta: seq<Field>, cur: Snapshot, ids: seq<RowId>)
    requires cur.Valid() && Enumerates(meta, cur.schema.Keys) && forall id <- ids :: id in cur.rows
    ensures WellFormedRows(meta, AddedRowsFile(meta, cur, ids))
    decreases |ids|
  {
    hide DataOf, RowValues;
    if ids != [] {
      var n := |ids| - 1;
      AddedRowsWellFormed(meta, cur, ids[..n]);
      AddedRowData(meta, cur, ids[n]);
    }
  }

  function NewRecords(cur: Snapshot, ids: seq<RowId>): Table
    requires forall id <- ids :: id in cur.rows
  {
    map id <- ids :: Record(cur.rows[id], false, false)
  }

  predicate NoneIn(ids: seq<RowId>, t: Table) {
    forall id <- ids :: id !in t
  }

  lemma InsertLast(t: Table, meta: seq<Field>, rows: seq<seq<Value>>, row: seq<Value>)
    requires WellFormedRows(meta, rows + [row])
    ensures row in rows + [row] && WellFormedRows(meta, rows)
    ensures InsertRows(t, meta, rows + [row]) ==
      match InsertRows(t, meta, rows)
      case None => None
      case Some(m) =>
        var data := DataOf(meta, row);
        if data[PRIMARY].s in m then None else Some(m[data[PRIMARY].s := Record(data, false, false)])
  {
  }

  lemma MoreNewRecords(t: Table, cur: Snapshot, before: seq<RowId>, id: RowId)
    requires (forall x <- before :: x in cur.rows && x != id) && id in cur.rows
    ensures (forall x <- before + [id] :: x in cur.rows)
    ensures t + NewRecords(cur, before + [id])
      == (t + NewRecords(cur, before))[id := Record(cur.rows[id], false, false)]
    ensures id in t + NewRecords(cur, before) <==> id in t
    ensures NoneIn(before + [id], t) <==> NoneIn(before, t) && id !in t
  {
  }

  lemma MoreRowsFile(meta: seq<Field>, cur: Snapshot, before: seq<RowId>, id: RowId)
    requires cur.Valid() && Enumerates(meta, cur.schema.Keys) && forall x <- before + [id] :: x in cur.rows
    ensures forall x <- before :: x in before + [id]
    ensures id in before + [id]
    ensures AddedRowsFile(meta, cur, before + [id])
      == AddedRowsFile(meta, cur, before) + [RowValues(meta, cur.rows[id])]
  {
  }

  ghost predicate Distinct(ids: seq<RowId>) {
    forall i, j :: 0 <= i < j < |ids| ==> ids[i] != ids[j]
  }

  lemma SplitLast(ids: seq<RowId>) returns (before: seq<RowId>, id: RowId)
    requires ids != [] && Distinct(ids)
    ensures ids == before + [id] && Distinct(before)
    ensures id in ids && forall x <- before :: x in ids && x != id
  {
    before, id := ids[..|ids| - 1], ids[|ids| - 1];
  }

  /** What COPY of these rows does: it fails when an id is in the table, else it adds the rows. */
  ghost predicate InsertsExactly(t: Table, meta: seq<Field>, cur: Snapshot, ids: seq<RowId>)
    requires cur.Valid() && Enumerates(meta, cur.schema.Keys) && (forall id <- ids :: id in cur.rows)
  {
    var rows := AddedRowsFile(meta, cur, ids);
    WellFormedRows(meta, rows) &&
    InsertRows(t, meta, rows) == if NoneIn(ids, t) then Some(t + NewRecords(cur, ids)) else None
  }

  lemma InsertStep(t: Table, meta: seq<Field>, cur: Snapshot, before: seq<RowId>, id: RowId)
    requires cur.Valid() && Enumerates(meta, cur.schema.Keys)
    requires (forall x <- before :: x in cur.rows && x != id) && id in cur.rows
    requires InsertsExactly(t, meta, cur, before)
    ensures (forall x <- before + [id] :: x in cur.rows) && InsertsExactly(t, meta, cur, before + [id])
  {
    MoreNewRecords(t, cur, before, id);
    MoreRowsFile(meta, cur, before, id);
    AddedRowsWellFormed(meta, cur, before + [id]);
    AddedRowData(meta, cur, id);
    var rows, row := AddedRowsFile(meta, cur, before), RowValues(meta, cur.rows[id]);
    InsertLast(t, meta, rows, row);
    hide InsertRows, WellFormedRows, DataOf, NewRecords, NoneIn, AddedRowsFile, RowValues, Enumerates;
  }

  /** COPY of rows with distinct ids succeeds exactly when none of the ids is in the table, and then
      adds those rows and leaves the others alone. */
  lemma {:induction false} InsertExact(t: Table, meta: seq<Field>, cur: Snapshot, ids: seq<RowId>)
    requires cur.Valid() && Enumerates(meta, cur.schema.Keys) && (forall id <- ids :: id in cur.rows)
    requires Distinct(ids)
    ensures InsertsExactly(t, meta, cur, ids)
    decreases |ids|
  {
    if ids == [] {
      AddedRowsWellFormed(meta, cur, ids);
      assert t + NewRecords(cur, ids) == t;
    } else {
      hide InsertsExactly, Enumerates, Snapshot.Valid;
      var before, id := SplitLast(ids);
      hide Distinct;
      InsertExact(t, meta, cur, before);
      InsertStep(t, meta, cur, before, id);
    }
  }

  // ---- The whole table ----

  /** Equal but for the error flags. */
  ghost predicate SameRows(a: Table, b: Table) {
    a.Keys == b.Keys && forall id <- a :: a[id].data == b[id].data && a[id].deleted == b[id].deleted
  }

  lemma NothingToPatch(t: Table)
    ensures MarkRemoved(t, []) == t && MergeCells(t, map[]) == t && NullCells(t, map[]) == t
  {
  }

  /** Skipping the data steps of an unchanged diff and touching the flags leave the same rows. */
  lemma LoadIsPatch(prevVersion: nat, t: Table, data: LoaderData)
    requires prevVersion != 0 && WellFormedData(data)
    ensures var patched := PatchRows(DropColumns(t, data.changes.deleted), data);
      var loaded := LoadTable(prevVersion, t, data);
      && (loaded.Some? <==> patched.Some?)
      && (loaded.Some? ==> SameRows(loaded.value, patched.value))
  {
    var trimmed := DropColumns(t, data.changes.deleted);
    hide DropColumns, MarkRemoved, MergeCells, NullCells, NotedErrors, RowErrors;
    if !IsDataChanged(data) {
      NothingToPatch(trimmed);
    }
  }

  function CellsAt(cells: map<RowId, Row>, id: RowId): Row {
    if id in cells then cells[id] else map[]
  }

  function NullsAt(nulled: map<RowId, seq<Field>>, id: RowId): Row {
    if id in nulled then Nulls(nulled[id]) else map[]
  }

  lemma StepsAt(t: Table, updated: map<RowId, Row>, added: map<RowId, Row>, nulled: map<RowId, seq<Field>>, id: RowId)
    requires id in t
    ensures var after := NullCells(MergeCells(MergeCells(t, updated), added), nulled);
      && after.Keys == t.Keys && after[id].deleted == t[id].deleted
      && after[id].data == t[id].data + CellsAt(updated, id) + CellsAt(added, id) + NullsAt(nulled, id)
  {
    hide Nulls;
    forall r: Row ensures r + map[] == r {}
  }

  lemma ListedAt(q: Comparison, l: Listing, id: RowId)
    requires q.Valid() && ListingOf(l, q)
    ensures id in l.updated <==> id in q.Common() && q.Passes(id) && q.HasUpdate(id)
    ensures id in l.nulled <==> id in q.Common() && q.Passes(id) && q.NulledFields(id) != []
    ensures id in l.current <==> id in q.cur.rows
    ensures id in l.added <==> id in q.cur.rows && id !in q.prev.rows
    ensures id in l.deleted <==> id in q.prev.rows && id !in q.cur.rows
  {
  }

  lemma UpdatedCellsAt(q: Comparison, changes: SchemaChanges, l: Listing, id: RowId)
    requires q.Valid() && ListingOf(l, q)
    ensures CellsAt(Expected(q, changes, l).updatedFields, id) ==
      if id in q.Common() && q.Passes(id) then UpdatedCells(q, id) else map[]
  {
    hide UpdatedCells, AddedRowsFile, Comparison.Valid, Comparison.Passes, Comparison.HasUpdate, ListingOf;
    ListedAt(q, l, id);
    if id in q.Common() {
      UpdatedOnlyWithUpdate(q, id);
    }
  }

  lemma NulledCellsAt(q: Comparison, changes: SchemaChanges, l: Listing, id: RowId)
    requires q.Valid() && ListingOf(l, q)
    ensures NullsAt(Expected(q, changes, l).nulledFields, id) ==
      if id in q.Common() && q.Passes(id) then Nulls(q.NulledFields(id)) else map[]
  {
    ListedAt(q, l, id);
    assert Nulls([]) == map[];
    hide Nulls, AddedRowsFile, Comparison.Valid, Comparison.Passes, Comparison.NulledFields;
  }

  lemma AddedCellsAt(q: Comparison, changes: SchemaChanges, l: Listing, id: RowId)
    requires q.Valid() && ListingOf(l, q)
    ensures CellsAt(Expected(q, changes, l).addedFields, id) == if id in q.cur.rows then AddedCells(q, id) else map[]
  {
  }

  lemma UpdatedOnlyWithUpdate(q: Comparison, id: RowId)
    requires q.Valid() && id in q.Common()
    ensures UpdatedCells(q, id) != map[] ==> q.HasUpdate(id)
  {
    hide Classify, Leq, HashInput, Scrub;
    if UpdatedCells(q, id) != map[] {
      var f :| f in UpdatedCells(q, id);
      assert q.ClassAt(id, f) == Update;
    }
  }

  lemma ExpectedWellFormed(q: Comparison, changes: SchemaChanges, l: Listing)
    requires q.Valid() && ListingOf(l, q)
    ensures WellFormedData(Expected(q, changes, l))
  {
    hide UpdatedCells, AddedCells, AddedRowsFile, WellFormedRows, Comparison.NulledFields, ListingOf, Comparison.Passes,
         Comparison.HasUpdate;
    forall id
      ensures id in l.added ==> id in q.cur.rows
      ensures id in l.nulled ==> id in q.Common() && q.NulledFields(id) != []
    {
      ListedAt(q, l, id);
    }
    AddedRowsWellFormed(q.cols.cur, q.cur, l.added);
  }

  /** The table a diff of `q` patches `t` to, when the insert succeeds. */
  ghost function Patched(q: Comparison, changes: SchemaChanges, l: Listing, t: Table): Table
    requires q.Valid() && ListingOf(l, q)
  {
    var data := Expected(q, changes, l);
    var kept := MarkRemoved(DropColumns(t, changes.deleted), l.deleted);
    NullCells(MergeCells(MergeCells(kept + NewRecords(q.cur, l.added), data.updatedFields), data.addedFields),
      data.nulledFields)
  }

  lemma PatchSucceeds(q: Comparison, changes: SchemaChanges, l: Listing, t: Table)
    requires q.Valid() && ListingOf(l, q)
    ensures WellFormedData(Expected(q, changes, l))
    ensures PatchRows(DropColumns(t, changes.deleted), Expected(q, changes, l)) ==
      if NoneIn(l.added, t) then Some(Patched(q, changes, l, t)) else None
  {
    ExpectedWellFormed(q, changes, l);
    var kept := MarkRemoved(DropColumns(t, changes.deleted), l.deleted);
    InsertExact(kept, q.cols.cur, q.cur, l.added);
    assert NoneIn(l.added, kept) <==> NoneIn(l.added, t);
    hide UpdatedCells, AddedCells, AddedRowsFile, WellFormedRows, NewRecords, MergeCells, NullCells, MarkRemoved,
         DropColumns, InsertRows, Comparison.Valid, ListingOf;
  }

  ghost function Inserted(q: Comparison, changes: SchemaChanges, l: Listing, t: Table): Table
    requires forall id <- l.added :: id in q.cur.rows
  {
    MarkRemoved(DropColumns(t, changes.deleted), l.deleted) + NewRecords(q.cur, l.added)
  }

  lemma InsertedAt(q: Comparison, changes: SchemaChanges, l: Listing, t: Table, id: RowId)
    requires (forall id <- l.added :: id in q.cur.rows) && NoneIn(l.added, t)
    ensures var inserted := Inserted(q, changes, l, t);
      && (id in inserted <==> id in t || id in l.added)
      && (id in l.added ==> inserted[id] == Record(q.cur.rows[id], false, false))
      && (id in t ==> inserted[id].data == t[id].data - Elements(changes.deleted))
      && (id in t ==> inserted[id].deleted == (t[id].deleted || id in l.deleted))
  {
  }

  lemma RowWithItsAddedCells(q: Comparison, id: RowId)
    requires q.Valid() && id in q.cur.rows
    ensures q.cur.rows[id] + map[] + AddedCells(q, id) + map[] == q.cur.rows[id]
  {
  }

  /** Every row of the patched table: rows in both snapshots, new rows, and rows no longer there. */
  lemma PatchedAt(q: Comparison, changes: SchemaChanges, l: Listing, t: Table, id: RowId)
    requires q.Valid() && ListingOf(l, q) && NoneIn(l.added, t)
    requires Elements(changes.deleted) == Dropped(q)
    ensures var after := Patched(q, changes, l, t);
      && (id in after <==> id in t || id in l.added)
      && (id in l.added ==> after[id].data == q.cur.rows[id] && !after[id].deleted)
      && (id in t ==> after[id].deleted == (t[id].deleted || id in l.deleted))
      && (id in t && id in q.Common() ==> after[id].data == RowAfter(q, id, t[id].data))
  {
    UpdatedCellsAt(q, changes, l, id);
    AddedCellsAt(q, changes, l, id);
    NulledCellsAt(q, changes, l, id);
    ListedAt(q, l, id);
    InsertedAt(q, changes, l, t, id);
    if id in q.cur.rows {
      RowWithItsAddedCells(q, id);
    }
    hide UpdatedCells, AddedCells, Expected, CellsAt, NullsAt, Comparison.Valid, ListingOf, Nulls, Dropped, Elements,
         MarkRemoved, DropColumns, NewRecords, Comparison.Passes, Comparison.NulledFields, NoneIn;
    var data := Expected(q, changes, l);
    var inserted := Inserted(q, changes, l, t);
    if id in inserted {
      StepsAt(inserted, data.updatedFields, data.addedFields, data.nulledFields, id);
      hide MergeCells, NullCells;
    }
  }

  // ---- Main theorems ----

  /** The live rows are those of `cur`, each with exactly its columns, and the new columns hold its cells. */
  ghost predicate HasShape(t: Table, q: Comparison)
    requires q.Valid()
  {
    Live(t) == q.cur.rows.Keys && forall id <- q.cur.rows :: RowHasShape(t[id].data, q, id)
  }

  ghost predicate RowHasShape(data: Row, q: Comparison, id: RowId)
    requires q.Valid() && id in q.cur.rows
  {
    data.Keys == q.cur.schema.Keys && forall f <- q.cur.schema | f !in q.prev.schema :: data[f] == q.cur.rows[id][f]
  }

  /** What `patched` must look like row by row. */
  ghost predicate PatchesRows(patched: Table, q: Comparison, t: Table)
    requires q.Valid()
  {
    && Live(patched) == q.cur.rows.Keys
    && (forall id <- q.cur.rows :: id in q.prev.rows ==> id in t && patched[id].data == RowAfter(q, id, t[id].data))
    && (forall id <- q.cur.rows :: id !in q.prev.rows ==> patched[id].data == q.cur.rows[id])
  }

  lemma PatchedRowAt(q: Comparison, changes: SchemaChanges, l: Listing, t: Table, id: RowId)
    requires q.Valid() && ListingOf(l, q) && NoneIn(l.added, t) && Live(t) == q.prev.rows.Keys
    requires Elements(changes.deleted) == Dropped(q)
    ensures var after := Patched(q, changes, l, t);
      && (id in Live(after) <==> id in q.cur.rows)
      && (id in q.Common() ==> id in t && id in after && after[id].data == RowAfter(q, id, t[id].data))
      && (id in q.cur.rows && id !in q.prev.rows ==> id in after && after[id].data == q.cur.rows[id])
  {
    PatchedAt(q, changes, l, t, id);
    ListedAt(q, l, id);
    hide Patched, RowAfter, Comparison.Valid, ListingOf, Dropped, Elements, NoneIn;
    assert id in Live(t) <==> id in t && !t[id].deleted;
  }

  lemma PatchedRows(q: Comparison, changes: SchemaChanges, l: Listing, t: Table, hash: FieldHash)
    requires q.Valid() && ListingOf(l, q) && NoneIn(l.added, t) && Live(t) == q.prev.rows.Keys
    requires IsDiff(changes, q.prev.schema, q.cur.schema, hash)
    ensures PatchesRows(Patched(q, changes, l, t), q, t)
  {
    hide IsDiff, IsDiffOn, Elements, Patched, RowAfter, Comparison.Valid, ListingOf, NoneIn, Live;
    DiffKeys(changes, q.prev.schema, q.cur.schema, hash);
    forall id { PatchedRowAt(q, changes, l, t, id); }
  }

  lemma ShapeOf(q: Comparison, patched: Table, t: Table)
    requires q.Valid() && Holds(t, q.prev) && PatchesRows(patched, q, t)
    ensures HasShape(patched, q)
  {
    forall id <- q.cur.rows ensures RowHasShape(patched[id].data, q, id) {
      if id in q.prev.rows {
        ShapeOfRow(q, id, t[id].data);
      }
    }
    hide RowHasShape, PatchesRows, Comparison.Valid;
  }

  lemma ShapeAt(q: Comparison, id: RowId, data: Row, f: Field)
    requires q.Valid() && id in q.Common() && data.Keys == q.prev.schema.Keys
    ensures f in RowAfter(q, id, data) <==> f in q.cur.schema
    ensures f in q.cur.schema && f !in q.prev.schema ==>
      f in RowAfter(q, id, data) && f in q.cur.rows[id] && RowAfter(q, id, data)[f] == q.cur.rows[id][f]
  {
    RowAfterAt(q, id, data, f);
    ColumnsAt(q, f);
    hide RowAfter, ColumnsOf, CellAfter, Comparison.ClassAt, Comparison.Passes, Comparison.DataColumns;
  }

  lemma ShapeOfRow(q: Comparison, id: RowId, data: Row)
    requires q.Valid() && id in q.Common() && data.Keys == q.prev.schema.Keys
    ensures RowHasShape(RowAfter(q, id, data), q, id)
  {
    hide RowAfter, Comparison.Valid;
    forall f { ShapeAt(q, id, data, f); }
  }

  lemma HoldsExactly(q: Comparison, patched: Table, t: Table)
    requires q.Valid() && Holds(t, q.prev) && PatchesRows(patched, q, t) && KeepsTypes(q) && TellsCells(q)
    ensures Holds(patched, q.cur) <==> AllArrive(q)
  {
    forall id <- q.cur.rows
      ensures RowHolds(patched[id].data, q.cur.rows[id], q.cur.schema) <==>
        (id in q.prev.rows ==> forall f <- q.DataColumns() :: CellArrives(q, id, f))
    {
      if id in q.prev.rows {
        RowExact(q, id, t[id].data);
      } else {
        NewRowHolds(q.cur, id);
      }
      hide RowHolds, RowAfter, CellArrives, KeepsTypes, TellsCells, ColumnsOf;
    }
    hide RowHolds, RowAfter, CellArrives, KeepsTypes, TellsCells, ColumnsOf, Live;
  }

  lemma NewRowHolds(s: Snapshot, id: RowId)
    requires s.Valid() && id in s.rows
    ensures RowHolds(s.rows[id], s.rows[id], s.schema)
  {
  }

  /** A load of the comparer's files into a table that holds the previous snapshot: it fails exactly
      when an id deleted earlier comes back. When it commits, the live rows are the current ones with
      exactly the current columns, and the new columns hold the current cells whatever the pre-filter
      let through. */
  lemma LoadShape(q: Comparison, changes: SchemaChanges, l: Listing, t: Table, hash: FieldHash, prevVersion: nat)
    requires q.Valid() && ListingOf(l, q) && prevVersion != 0
    requires IsDiff(changes, q.prev.schema, q.cur.schema, hash)
    requires Holds(t, q.prev)
    ensures WellFormedData(Expected(q, changes, l))
    ensures var loaded := LoadTable(prevVersion, t, Expected(q, changes, l));
      && (loaded.None? <==> exists id <- q.cur.rows :: id !in q.prev.rows && id in t)
      && (loaded.Some? ==> HasShape(loaded.value, q))
  {
    LoadedRows(q, changes, l, t, hash, prevVersion);
    var loaded := LoadTable(prevVersion, t, Expected(q, changes, l));
    if loaded.Some? {
      ShapeOf(q, loaded.value, t);
    }
  }

  /** After a committed load the table holds the current snapshot if and only if every changed cell of
      a kept column arrives: its row passes the pre-filter and its text holds no `,}`. */
  lemma PatchExact(q: Comparison, changes: SchemaChanges, l: Listing, t: Table, hash: FieldHash, prevVersion: nat)
    requires q.Valid() && ListingOf(l, q) && prevVersion != 0
    requires IsDiff(changes, q.prev.schema, q.cur.schema, hash)
    requires KeepsTypes(q) && TellsCells(q)
    requires Holds(t, q.prev)
    ensures WellFormedData(Expected(q, changes, l))
    ensures var loaded := LoadTable(prevVersion, t, Expected(q, changes, l));
      loaded.Some? ==> (Holds(loaded.value, q.cur) <==> AllArrive(q))
  {
    LoadedRows(q, changes, l, t, hash, prevVersion);
    var loaded := LoadTable(prevVersion, t, Expected(q, changes, l));
    if loaded.Some? {
      HoldsExactly(q, loaded.value, t);
    }
  }

  lemma LoadedRow(q: Comparison, changes: SchemaChanges, l: Listing, t: Table, hash: FieldHash, prevVersion: nat,
      id: RowId)
    requires q.Valid() && ListingOf(l, q) && prevVersion != 0
    requires IsDiff(changes, q.prev.schema, q.cur.schema, hash) && Holds(t, q.prev) && id in q.Common()
    ensures WellFormedData(Expected(q, changes, l))
    ensures id in t && t[id].data.Keys == q.prev.schema.Keys
    ensures var loaded := LoadTable(prevVersion, t, Expected(q, changes, l));
      loaded.Some? ==> id in loaded.value && loaded.value[id].data == RowAfter(q, id, t[id].data)
  {
    hide LoadTable, Expected, RowAfter, ListingOf, IsDiff, IsDiffOn, WellFormedData, SameCell, Comparison.Passes;
    LoadedRows(q, changes, l, t, hash, prevVersion);
  }

  lemma ScrubFixed(v: Value)
    ensures !Corruptible(v) ==> Scrub(v) == v
  {
    if v.Str? { DropFixed(v.s); }
  }

  lemma KeptCellAfter(q: Comparison, id: RowId, data: Row, f: Field)
    requires q.Valid() && KeepsTypes(q) && TellsCells(q) && id in q.Common() && f in q.cols.kept && f != PRIMARY
    requires data.Keys == q.prev.schema.Keys
    ensures f in data && f in RowAfter(q, id, data)
    ensures RowAfter(q, id, data)[f] ==
      (if !q.Passes(id) then data[f]
       else if q.cur.rows[id][f].Null? then (if q.prev.rows[id][f].Null? then data[f] else Null)
       else if CellChanged(q, id, f) then Scrub(q.cur.rows[id][f])
       else data[f])
  {
    hide RowAfter, KeepsTypes, TellsCells, HashInput, Classify, CellChanged, Comparison.ClassAt, ColumnsOf, Scrub,
         Comparison.Passes;
    ClassOfCell(q, id, f);
    ColumnsAt(q, f);
    RowAfterAt(q, id, data, f);
  }

  /** What a committed load leaves in a kept column of a row in both snapshots. In a row that passes the
      pre-filter a value that became NULL is set to null, even 0, false or the empty text; a cell that
      changed otherwise gets the current text; every other cell stays as the table holds it. */
  lemma KeptCellLoaded(q: Comparison, changes: SchemaChanges, l: Listing, t: Table, hash: FieldHash,
      prevVersion: nat, id: RowId, f: Field)
    requires q.Valid() && ListingOf(l, q) && prevVersion != 0
    requires IsDiff(changes, q.prev.schema, q.cur.schema, hash)
    requires KeepsTypes(q) && TellsCells(q) && Holds(t, q.prev)
    requires id in q.Common() && f in q.cols.kept && f != PRIMARY
    ensures WellFormedData(Expected(q, changes, l))
    ensures var loaded := LoadTable(prevVersion, t, Expected(q, changes, l));
      loaded.Some? ==>
        && id in t && f in t[id].data && id in loaded.value && f in loaded.value[id].data
        && loaded.value[id].data[f] ==
          (if !q.Passes(id) then t[id].data[f]
           else if q.cur.rows[id][f].Null? then (if q.prev.rows[id][f].Null? then t[id].data[f] else Null)
           else if CellChanged(q, id, f) then Scrub(q.cur.rows[id][f])
           else t[id].data[f])
  {
    hide LoadTable, Expected, RowAfter, KeepsTypes, TellsCells, ListingOf, IsDiff, IsDiffOn, WellFormedData, Holds,
         CellChanged, ColumnsOf, Scrub, Comparison.Passes;
    LoadedRow(q, changes, l, t, hash, prevVersion, id);
    KeptCellAfter(q, id, t[id].data, f);
  }

  /** The class of a kept cell, when the hash tells changed cells. */
  lemma ClassOfCell(q: Comparison, id: RowId, f: Field)
    requires q.Valid() && KeepsTypes(q) && TellsCells(q) && id in q.Common() && f in q.cols.kept
    ensures q.ClassAt(id, f) ==
      if q.cur.rows[id][f].Null? then (if q.prev.rows[id][f].Null? then Keep else UpdateNull)
      else if CellChanged(q, id, f) then Update else Keep
  {
    ChangeOfCell(q, id, f);
    hide TellsCells, KeepsTypes, Comparison.ClassAt, CellChanged;
  }

  /** A kept cell that goes from NULL to any value it does not read as is classified as updated, and where
      its row passes and its text holds no `,}` the value is in the table after the load. */
  lemma NullToValueArrives(q: Comparison, changes: SchemaChanges, l: Listing, t: Table, hash: FieldHash,
      prevVersion: nat, id: RowId, f: Field)
    requires q.Valid() && ListingOf(l, q) && prevVersion != 0
    requires IsDiff(changes, q.prev.schema, q.cur.schema, hash)
    requires KeepsTypes(q) && TellsCells(q) && Holds(t, q.prev)
    requires id in q.Common() && f in q.cols.kept && f != PRIMARY && q.prev.rows[id][f] == Null
    requires !SameCell(Null, q.cur.rows[id][f], q.cur.schema[f].dataType)
    ensures q.ClassAt(id, f) == Update && WellFormedData(Expected(q, changes, l))
    ensures var loaded := LoadTable(prevVersion, t, Expected(q, changes, l));
      loaded.Some? && q.Passes(id) && !Corruptible(q.cur.rows[id][f]) ==>
        id in loaded.value && f in loaded.value[id].data && loaded.value[id].data[f] == q.cur.rows[id][f]
  {
    hide LoadTable, Expected, RowAfter, KeepsTypes, TellsCells, ListingOf, IsDiff, IsDiffOn, HashInput, Classify,
         Comparison.ClassAt, WellFormedData, Holds, Comparison.Passes, ColumnsOf, Corruptible, Scrub;
    ColumnsAt(q, f);
    ClassOfCell(q, id, f);
    KeptCellLoaded(q, changes, l, t, hash, prevVersion, id, f);
    ScrubFixed(q.cur.rows[id][f]);
  }

  lemma LoadedRows(q: Comparison, changes: SchemaChanges, l: Listing, t: Table, hash: FieldHash, prevVersion: nat)
    requires q.Valid() && ListingOf(l, q) && prevVersion != 0
    requires IsDiff(changes, q.prev.schema, q.cur.schema, hash) && Live(t) == q.prev.rows.Keys
    ensures WellFormedData(Expected(q, changes, l))
    ensures var loaded := LoadTable(prevVersion, t, Expected(q, changes, l));
      && (loaded.None? <==> exists id <- q.cur.rows :: id !in q.prev.rows && id in t)
      && (loaded.Some? ==> PatchesRows(loaded.value, q, t))
  {
    var data := Expected(q, changes, l);
    PatchSucceeds(q, changes, l, t);
    LoadIsPatch(prevVersion, t, data);
    assert NoneIn(l.added, t) <==> !exists id <- q.cur.rows :: id !in q.prev.rows && id in t by {
      forall id { ListedAt(q, l, id); }
    }
    if NoneIn(l.added, t) {
      PatchedRows(q, changes, l, t, hash);
      SameRowsPatch(LoadTable(prevVersion, t, data).value, Patched(q, changes, l, t), q, t);
    }
  }

  lemma SameRowsPatch(a: Table, b: Table, q: Comparison, t: Table)
    requires q.Valid() && SameRows(a, b) && PatchesRows(b, q, t)
    ensures PatchesRows(a, q, t)
  {
  }
}
