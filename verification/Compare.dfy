/** What the comparer's queries compute from two snapshots, and the result files they write. */
module Compare {
  import opened Cells
  import opened FieldOrder
  import opened SchemaDiff
  import opened RowText

  /** cityHash64 of a list of values. */
  type CellHash = seq<Value> -> int

  // ---- The query context ----

  /** The column lists of a query context: the first two sorted, the others in any order. */
  datatype Columns = Columns(prev: seq<Field>, cur: seq<Field>, kept: seq<Field>, added: seq<Field>)

  ghost predicate ColumnsOf(cols: Columns, prev: Schema, cur: Schema) {
    && Sorted(cols.prev) && Enumerates(cols.prev, prev.Keys)
    && Sorted(cols.cur) && Enumerates(cols.cur, cur.Keys)
    && Enumerates(cols.kept, prev.Keys * cur.Keys)
    && Enumerates(cols.added, cur.Keys - prev.Keys)
  }

  /** The keys of a map in the order its iteration happens to visit them. */
  method ListKeys<V>(m: map<Field, V>) returns (names: seq<Field>)
    ensures Enumerates(names, m.Keys)
  {
    names := [];
    var todo := m.Keys;
    while todo != {}
      invariant todo <= m.Keys && Enumerates(names, m.Keys - todo)
    {
      var f :| f in todo;
      EnumerateMore(names, m.Keys - todo, f);
      assert m.Keys - todo + {f} == m.Keys - (todo - {f});
      names, todo := names + [f], todo - {f};
    }
  }

  method SortedKeys<V>(m: map<Field, V>) returns (names: seq<Field>)
    ensures Sorted(names) && Enumerates(names, m.Keys)
  {
    var unsorted := ListKeys(m);
    assert Elements(unsorted) == m.Keys;
    names := Sort(unsorted);
  }

  class QueryContext {
    const previousSchema: Schema
    const currentSchema: Schema
    const schemaResult: SchemaChanges
    var prevFields: seq<Field>
    var curFields: seq<Field>
    var allFields: seq<Field>
    var keptFields: seq<Field>
    var addedFields: seq<Field>

    constructor (prev: Schema, cur: Schema, changes: SchemaChanges)
      ensures previousSchema == prev && currentSchema == cur && schemaResult == changes
    {
      previousSchema, currentSchema, schemaResult := prev, cur, changes;
      prevFields, curFields, allFields, keptFields, addedFields := [], [], [], [], [];
    }

    /** The names of both schemas, and those that occur in both, in one pass over the current schema. */
    method MergeFields() returns (fieldMap: map<Field, bool>, common: seq<Field>)
      ensures fieldMap.Keys == previousSchema.Keys + currentSchema.Keys
      ensures Enumerates(common, previousSchema.Keys * currentSchema.Keys)
    {
      fieldMap, common := map f <- previousSchema :: true, [];
      var todo := currentSchema.Keys;
      while todo != {}
        invariant todo <= currentSchema.Keys
        invariant fieldMap.Keys == previousSchema.Keys + (currentSchema.Keys - todo)
        invariant forall f :: f in common <==> f in previousSchema && f in currentSchema && f !in todo
        invariant forall i, j :: 0 <= i < j < |common| ==> common[i] != common[j]
      {
        var f :| f in todo;
        if f !in fieldMap {
          fieldMap := fieldMap[f := true];
        } else {
          common := common + [f];
        }
        todo := todo - {f};
      }
    }

    /** The five column lists; given the diff of the two schemas, they are the columns of a comparison. */
    method Setup(ghost hash: FieldHash)
      modifies this
      ensures Sorted(prevFields) && Enumerates(prevFields, previousSchema.Keys)
      ensures Sorted(curFields) && Enumerates(curFields, currentSchema.Keys)
      ensures Enumerates(allFields, previousSchema.Keys + currentSchema.Keys)
      ensures Enumerates(keptFields, previousSchema.Keys * currentSchema.Keys)
      ensures Enumerates(addedFields, schemaResult.added.Keys)
      ensures IsDiff(schemaResult, previousSchema, currentSchema, hash) ==>
        ColumnsOf(Columns(prevFields, curFields, keptFields, addedFields), previousSchema, currentSchema)
    {
      hide IsDiffOn, IsDiff, Sorted;
      var fieldMap, common := MergeFields();
      allFields := ListKeys(fieldMap);
      keptFields := common;
      prevFields := SortedKeys(previousSchema);
      curFields := SortedKeys(currentSchema);
      addedFields := ListKeys(schemaResult.added);
      if IsDiff(schemaResult, previousSchema, currentSchema, hash) {
        DiffKeys(schemaResult, previousSchema, currentSchema, hash);
      }
    }
  }

  // ---- The cell classifier and the row pre-filter ----

  datatype CellClass = Keep | Update | UpdateNull

  function Classify(hash: CellHash, p: Value, pt: DataType, c: Value, ct: DataType): CellClass {
    if !p.Null? && c.Null? then UpdateNull
    else if hash([NotNull(p, pt)]) == hash([NotNull(c, ct)]) then Keep
    else Update
  }

  function HashInput(fields: seq<Field>, row: Row, schema: Schema): seq<Value>
    requires forall f <- fields :: f in row && f in schema
  {
    seq(|fields|, i requires 0 <= i < |fields| => NotNull(row[fields[i]], schema[fields[i]].dataType))
  }

  /** One comparison: the hash, the column lists and the two snapshots. */
  datatype Comparison = Comparison(hash: CellHash, cols: Columns, prev: Snapshot, cur: Snapshot) {
    ghost predicate Valid() {
      prev.Valid() && cur.Valid() && ColumnsOf(cols, prev.schema, cur.schema)
    }

    /** The ids in both snapshots. */
    function Common(): set<RowId> {
      prev.rows.Keys * cur.rows.Keys
    }

    /** The kept columns without the id column. */
    function DataColumns(): seq<Field> {
      Without(cols.kept, PRIMARY)
    }

    /** The WHERE clause of the diff table: hashes of values in column order, without the names. */
    predicate Passes(id: RowId)
      requires Valid() && id in Common()
    {
      hash(HashInput(cols.prev, prev.rows[id], prev.schema)) != hash(HashInput(cols.cur, cur.rows[id], cur.schema))
    }

    function ClassAt(id: RowId, f: Field): CellClass
      requires Valid() && id in Common() && f in cols.kept
    {
      Classify(hash, prev.rows[id][f], prev.schema[f].dataType, cur.rows[id][f], cur.schema[f].dataType)
    }

    /** The row of the updated-fields query: the current cell where the class is `update`, else NULL. */
    function UpdateRow(id: RowId): Row
      requires Valid() && id in Common()
    {
      map f <- DataColumns() :: if ClassAt(id, f) == Update then cur.rows[id][f] else Null
    }

    function NulledFields(id: RowId): seq<Field>
      requires Valid() && id in Common()
    {
      NulledIn(id, DataColumns())
    }

    function NulledIn(id: RowId, fields: seq<Field>): (r: seq<Field>)
      requires Valid() && id in Common() && forall f <- fields :: f in cols.kept
      ensures forall f :: f in r <==> f in fields && ClassAt(id, f) == UpdateNull
    {
      if fields == [] then []
      else if ClassAt(id, fields[0]) == UpdateNull then [fields[0]] + NulledIn(id, fields[1..])
      else NulledIn(id, fields[1..])
    }

    ghost predicate HasUpdate(id: RowId)
      requires Valid() && id in Common()
    {
      exists f <- DataColumns() :: ClassAt(id, f) == Update
    }
  }

  function Without(s: seq<Field>, x: Field): (r: seq<Field>)
    ensures forall f :: f in r <==> f in s && f != x
  {
    if s == [] then [] else if s[0] == x then Without(s[1..], x) else [s[0]] + Without(s[1..], x)
  }

  // ---- The result files ----

  datatype ResultFiles = ResultFiles(
    schema: Schema, changes: SchemaChanges,
    addedMeta: seq<Field>, addedRows: seq<seq<Value>>, deletedRows: seq<RowId>,
    updatedFields: seq<(RowId, string)>, nulledFields: seq<(RowId, seq<Field>)>,
    addedFields: seq<(RowId, string)>)

  /** The orders in which the queries return their rows. */
  datatype Listing = Listing(
    added: seq<RowId>, deleted: seq<RowId>, updated: seq<RowId>, nulled: seq<RowId>, current: seq<RowId>)

  ghost predicate ListingOf(l: Listing, q: Comparison)
    requires q.Valid()
  {
    && Enumerates(l.added, q.cur.rows.Keys - q.prev.rows.Keys)
    && Enumerates(l.deleted, q.prev.rows.Keys - q.cur.rows.Keys)
    && Enumerates(l.updated, set id <- q.Common() | q.Passes(id) && q.HasUpdate(id))
    && Enumerates(l.nulled, set id <- q.Common() | q.Passes(id) && q.NulledFields(id) != [])
    && Enumerates(l.current, q.cur.rows.Keys)
  }

  function RowValues(fields: seq<Field>, row: Row): (r: seq<Value>)
    requires forall f <- fields :: f in row
    ensures |r| == |fields| && forall i :: 0 <= i < |r| ==> r[i] == row[fields[i]]
  {
    seq(|fields|, i requires 0 <= i < |fields| => row[fields[i]])
  }

  function AddedRowsFile(fields: seq<Field>, cur: Snapshot, ids: seq<RowId>): (rows: seq<seq<Value>>)
    requires cur.Valid() && (forall f <- fields :: f in cur.schema) && (forall id <- ids :: id in cur.rows)
    ensures |rows| == |ids|
  {
    if ids == [] then [] else
      var n := |ids| - 1;
      AddedRowsFile(fields, cur, ids[..n]) + [RowValues(fields, cur.rows[ids[n]])]
  }

  /** A file with one row for each id, in the order of `ids`. */
  function FileOf<T>(ids: seq<RowId>, contents: map<RowId, T>): (file: seq<(RowId, T)>)
    requires forall id <- ids :: id in contents
    ensures |file| == |ids|
  {
    if ids == [] then [] else
      var n := |ids| - 1;
      FileOf(ids[..n], contents) + [(ids[n], contents[ids[n]])]
  }

  function UpdatedTexts(q: Comparison): map<RowId, string>
    requires q.Valid()
  {
    map id <- q.Common() :: Strip(Print(q.DataColumns(), q.UpdateRow(id)))
  }

  function NulledLists(q: Comparison): map<RowId, seq<Field>>
    requires q.Valid()
  {
    map id <- q.Common() :: q.NulledFields(id)
  }

  /** Every current row, whether or not it passed the pre-filter. */
  function AddedTexts(q: Comparison): map<RowId, string>
    requires q.Valid()
  {
    map id <- q.cur.rows :: Print(q.cols.added, q.cur.rows[id])
  }

  ghost function FullCompare(q: Comparison, changes: SchemaChanges, l: Listing): ResultFiles
    requires q.Valid() && ListingOf(l, q)
  {
    ResultFiles(q.cur.schema, changes, q.cols.cur,
      AddedRowsFile(q.cols.cur, q.cur, l.added), l.deleted,
      FileOf(l.updated, UpdatedTexts(q)), FileOf(l.nulled, NulledLists(q)),
      if q.cols.added == [] then [] else FileOf(l.current, AddedTexts(q)))
  }

  /** The first version: every row of the current snapshot is an added row, in the table's column order. */
  ghost function FirstCompare(cur: Snapshot, fields: seq<Field>, ids: seq<RowId>): ResultFiles
    requires cur.Valid() && Enumerates(fields, cur.schema.Keys) && Enumerates(ids, cur.rows.Keys)
  {
    ResultFiles(cur.schema, SchemaChanges([], map[], map[], map[], map[]), fields,
      AddedRowsFile(fields, cur, ids), [], [], [], [])
  }
}
