/** Reading the result files into the loader's maps. */
module Getter {
  import opened Wrappers
  import opened Cells
  import opened SchemaDiff
  import opened RowText
  import opened Compare

  datatype LoaderData = LoaderData(
    schema: Schema, changes: SchemaChanges,
    addedMeta: seq<Field>, addedRows: seq<seq<Value>>, deletedRows: seq<RowId>,
    addedFields: map<RowId, Row>, updatedFields: map<RowId, Row>, nulledFields: map<RowId, seq<Field>>)

  /** The rows of a file of (id, object text) pairs: a later row with the same id wins, an empty
      object is skipped, and one malformed object fails the whole file. */
  function ParsedRows(rows: seq<(RowId, string)>): Option<map<RowId, Row>> {
    if rows == [] then Some(map[]) else
      var last := rows[|rows| - 1];
      match (ParsedRows(rows[..|rows| - 1]), ParseObject(last.1))
      case (Some(m), Some(row)) => Some(if row == map[] then m else m[last.0 := row])
      case _ => None
  }

  function ListedFields(rows: seq<(RowId, seq<Field>)>): map<RowId, seq<Field>> {
    if rows == [] then map[]
    else ListedFields(rows[..|rows| - 1])[rows[|rows| - 1].0 := rows[|rows| - 1].1]
  }

  /** What the getter returns: None when a file cannot be parsed. */
  function LoadData(prevVersion: nat, files: ResultFiles): Option<LoaderData> {
    if prevVersion == 0 then
      Some(LoaderData(files.schema, SchemaChanges([], map[], map[], map[], map[]),
        files.addedMeta, files.addedRows, [], map[], map[], map[]))
    else
      match (ParsedRows(files.updatedFields), ParsedRows(files.addedFields))
      case (Some(updated), Some(added)) =>
        Some(LoaderData(files.schema, files.changes, files.addedMeta, files.addedRows, files.deletedRows,
          added, updated, ListedFields(files.nulledFields)))
      case _ => None
  }

  /** The last row of the file with this id and a non-empty object is row `i`. */
  ghost predicate IsLastRow(rows: seq<(RowId, string)>, id: RowId, i: nat) {
    && i < |rows| && HasObject(rows[i], id)
    && forall j :: i < j < |rows| ==> !HasObject(rows[j], id)
  }

  predicate HasObject(row: (RowId, string), id: RowId) {
    row.0 == id && ParseObject(row.1).Some? && ParseObject(row.1).value != map[]
  }

  lemma LastRowMore(rows: seq<(RowId, string)>, id: RowId, i: nat)
    requires rows != []
    ensures IsLastRow(rows, id, i) <==>
      if HasObject(rows[|rows| - 1], id) then i == |rows| - 1 else IsLastRow(rows[..|rows| - 1], id, i)
  {
    hide HasObject;
  }

  lemma LastRowIn(rows: seq<(RowId, string)>, id: RowId, i: nat)
    ensures IsLastRow(rows, id, i) ==> i < |rows|
  {
  }

  /** A file of objects is read if and only if every object is well formed, and then each id has the
      cells of its last row with a non-empty object. */
  lemma {:induction false} RowsRead(rows: seq<(RowId, string)>, id: RowId)
    ensures ParsedRows(rows).Some? <==> forall row <- rows :: ParseObject(row.1).Some?
    ensures ParsedRows(rows).Some? ==>
      && (id in ParsedRows(rows).value <==> exists i: nat :: IsLastRow(rows, id, i))
      && forall i: nat :: IsLastRow(rows, id, i) ==> ParsedRows(rows).value[id] == ParseObject(rows[i].1).value
    decreases |rows|
  {
    hide ParseObject, IsLastRow;
    if rows == [] {
      forall i: nat ensures !IsLastRow(rows, id, i) { LastRowIn(rows, id, i); }
    } else {
      var n := |rows| - 1;
      var before := rows[..n];
      RowsRead(before, id);
      assert rows == before + [rows[n]];
      forall i: nat
        ensures IsLastRow(rows, id, i) <==> if HasObject(rows[n], id) then i == n else IsLastRow(before, id, i)
        ensures IsLastRow(before, id, i) ==> i < n
      {
        LastRowMore(rows, id, i);
        LastRowIn(before, id, i);
      }
      assert HasObject(rows[n], id) ==> IsLastRow(rows, id, n);
    }
  }

  /** In a file of field lists the last row of an id counts. */
  lemma {:induction false} ListsRead(rows: seq<(RowId, seq<Field>)>, i: nat)
    requires i < |rows| && forall j :: i < j < |rows| ==> rows[j].0 != rows[i].0
    ensures rows[i].0 in ListedFields(rows) && ListedFields(rows)[rows[i].0] == rows[i].1
    ensures forall id <- ListedFields(rows) :: exists row <- rows :: row.0 == id
    decreases |rows|
  {
    var n := |rows| - 1;
    if i < n {
      ListsRead(rows[..n], i);
    }
    ListedIn(rows);
  }

  lemma {:induction false} ListedIn(rows: seq<(RowId, seq<Field>)>)
    ensures forall id <- ListedFields(rows) :: exists row <- rows :: row.0 == id
  {
    if rows != [] {
      var n := |rows| - 1;
      ListedIn(rows[..n]);
      assert rows == rows[..n] + [rows[n]];
    }
  }

  lemma {:induction false} PrefixFails(rows: seq<(RowId, string)>, n: nat)
    requires n <= |rows| && ParsedRows(rows[..n]).None?
    ensures ParsedRows(rows).None?
    decreases |rows|
  {
    if n < |rows| {
      assert rows[..|rows| - 1][..n] == rows[..n];
      PrefixFails(rows[..|rows| - 1], n);
    } else {
      assert rows[..n] == rows;
    }
  }

  method ParseRows(rows: seq<(RowId, string)>) returns (r: Option<map<RowId, Row>>)
    ensures r == ParsedRows(rows)
  {
    var data: map<RowId, Row> := map[];
    for i := 0 to |rows|
      invariant ParsedRows(rows[..i]) == Some(data)
    {
      assert rows[..i + 1][..i] == rows[..i];
      var parsed := ParseObject(rows[i].1);
      if parsed.None? {
        PrefixFails(rows, i + 1);
        return None;
      }
      if parsed.value != map[] {
        data := data[rows[i].0 := parsed.value];
      }
    }
    assert rows[..|rows|] == rows;
    r := Some(data);
  }

  method ListFields(rows: seq<(RowId, seq<Field>)>) returns (data: map<RowId, seq<Field>>)
    ensures data == ListedFields(rows)
  {
    data := map[];
    for i := 0 to |rows|
      invariant data == ListedFields(rows[..i])
    {
      assert rows[..i + 1][..i] == rows[..i];
      data := data[rows[i].0 := rows[i].1];
    }
    assert rows[..|rows|] == rows;
  }

  method GetLoadData(prevVersion: nat, files: ResultFiles) returns (r: Option<LoaderData>)
    ensures r == LoadData(prevVersion, files)
  {
    var data := LoaderData(files.schema, SchemaChanges([], map[], map[], map[], map[]),
      files.addedMeta, files.addedRows, [], map[], map[], map[]);
    if prevVersion != 0 {
      data := data.(changes := files.changes, deletedRows := files.deletedRows);
      var updated := ParseRows(files.updatedFields);
      if updated.None? { return None; }
      var added := ParseRows(files.addedFields);
      if added.None? { return None; }
      var nulled := ListFields(files.nulledFields);
      data := data.(updatedFields := updated.value, addedFields := added.value, nulledFields := nulled);
    }
    r := Some(data);
  }

  // ---- What the getter reads from the comparer's files ----

  /** The cells the updated-fields file carries for a row. */
  ghost function UpdatedCells(q: Comparison, id: RowId): Row
    requires q.Valid() && id in q.Common()
  {
    var row := q.UpdateRow(id);
    map f <- q.DataColumns() | !row[f].Null? :: Scrub(row[f])
  }

  ghost function AddedCells(q: Comparison, id: RowId): Row
    requires q.Valid() && id in q.cur.rows
  {
    map f <- q.cols.added :: q.cur.rows[id][f]
  }

  /** Column names are hashed names and number cells hold number literals. */
  ghost predicate PrintableCells(row: Row) {
    forall f <- row :: WordName(f) && Printable(row[f])
  }

  ghost predicate PrintableSnapshot(s: Snapshot) {
    forall id <- s.rows :: PrintableCells(s.rows[id])
  }

  /** The rows of `cells` listed in `ids` that are not empty. */
  function Picked(ids: seq<RowId>, cells: map<RowId, Row>): map<RowId, Row>
    requires forall id <- ids :: id in cells
  {
    map id <- ids | cells[id] != map[] :: cells[id]
  }

  lemma {:induction false} FileParses(ids: seq<RowId>, texts: map<RowId, string>, cells: map<RowId, Row>)
    requires forall id <- ids :: id in texts && id in cells && ParseObject(texts[id]) == Some(cells[id])
    ensures ParsedRows(FileOf(ids, texts)) == Some(Picked(ids, cells))
    decreases |ids|
  {
    hide ParseObject;
    if ids != [] {
      var n := |ids| - 1;
      FileParses(ids[..n], texts, cells);
      var file := FileOf(ids, texts);
      assert file[..n] == FileOf(ids[..n], texts);
      assert ids == ids[..n] + [ids[n]];
      assert Picked(ids, cells) ==
        if cells[ids[n]] == map[] then Picked(ids[..n], cells) else Picked(ids[..n], cells)[ids[n] := cells[ids[n]]];
    }
  }

  lemma {:induction false} FileLists(ids: seq<RowId>, lists: map<RowId, seq<Field>>)
    requires forall id <- ids :: id in lists
    ensures ListedFields(FileOf(ids, lists)) == map id <- ids :: lists[id]
    decreases |ids|
  {
    if ids != [] {
      var n := |ids| - 1;
      FileLists(ids[..n], lists);
      var file := FileOf(ids, lists);
      assert file[..n] == FileOf(ids[..n], lists);
      assert ids == ids[..n] + [ids[n]];
    }
  }
}
