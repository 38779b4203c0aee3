/** Consequences of the exact patch theorem: unchanged columns, the first load, and concrete inputs
    on which the patch does not give the current snapshot. */
module PatchCases {
  import opened Wrappers
  import opened Cells
  import opened FieldOrder
  import opened SchemaDiff
  import opened RowText
  import opened Compare
  import opened Getter
  import opened Loader
  import opened ReadBack
  import opened Patch

  // ---- Unchanged columns ----

  /** No changed cell of a kept column holds `,}`. */
  ghost predicate NoCorruption(q: Comparison)
    requires q.Valid()
  {
    forall id <- q.Common(), f <- q.DataColumns() | CellChanged(q, id, f) :: !Corruptible(q.cur.rows[id][f])
  }

  /** With the same columns in both schemas, every changed row passes the pre-filter. */
  lemma ChangedRowPasses(q: Comparison, id: RowId, f: Field)
    requires q.Valid() && KeepsTypes(q) && TellsRows(q) && q.prev.schema.Keys == q.cur.schema.Keys
    requires id in q.Common() && f in q.cols.kept && CellChanged(q, id, f)
    ensures q.Passes(id)
  {
    SortedIsCanonical(q.cols.prev, q.cols.cur, q.cur.schema.Keys);
    ColumnsAt(q, f);
    assert f in q.cols.cur;
    var i :| 0 <= i < |q.cols.cur| && q.cols.cur[i] == f;
    hide Leq, Sorted;
    var p := HashInput(q.cols.prev, q.prev.rows[id], q.prev.schema);
    var c := HashInput(q.cols.cur, q.cur.rows[id], q.cur.schema);
    assert p[i] != c[i];
  }

  /** With the same columns, a row passes the pre-filter if and only if some kept cell changed: a row whose
      cells only go between NULL and what NULL reads as does not. */
  lemma PassesExactly(q: Comparison, id: RowId)
    requires q.Valid() && KeepsTypes(q) && TellsRows(q) && q.prev.schema.Keys == q.cur.schema.Keys
    requires id in q.Common()
    ensures q.Passes(id) <==> exists f <- q.cols.kept :: CellChanged(q, id, f)
  {
    hide Leq, Comparison.Valid, TellsRows, CellChanged, Comparison.Passes;
    if exists f <- q.cols.kept :: CellChanged(q, id, f) {
      var f :| f in q.cols.kept && CellChanged(q, id, f);
      ChangedRowPasses(q, id, f);
    } else {
      UnchangedRowStops(q, id);
    }
  }

  lemma UnchangedRowStops(q: Comparison, id: RowId)
    requires q.Valid() && KeepsTypes(q) && q.prev.schema.Keys == q.cur.schema.Keys && id in q.Common()
    requires forall f <- q.cols.kept :: !CellChanged(q, id, f)
    ensures !q.Passes(id)
  {
    hide Leq, Sorted, CellChanged, KeepsTypes, NotNull;
    SortedIsCanonical(q.cols.prev, q.cols.cur, q.cur.schema.Keys);
    var p := HashInput(q.cols.prev, q.prev.rows[id], q.prev.schema);
    var c := HashInput(q.cols.cur, q.cur.rows[id], q.cur.schema);
    forall i | 0 <= i < |q.cols.cur| ensures p[i] == c[i] {
      SameInput(q, id, q.cols.cur[i]);
    }
    assert p == c;
  }

  lemma SameInput(q: Comparison, id: RowId, f: Field)
    requires q.Valid() && KeepsTypes(q) && q.prev.schema.Keys == q.cur.schema.Keys && id in q.Common()
    requires f in q.cols.cur && (f in q.cols.kept ==> !CellChanged(q, id, f))
    ensures f in q.prev.schema && f in q.cur.schema
    ensures NotNull(q.prev.rows[id][f], q.prev.schema[f].dataType) ==
      NotNull(q.cur.rows[id][f], q.cur.schema[f].dataType)
  {
    hide Leq, Sorted;
    ColumnsAt(q, f);
  }

  /** From the comparer's files to the table, columns unchanged: a committed load gives the current
      snapshot if and only if no changed cell holds `,}`. It fails exactly when a deleted id returns. */
  lemma SameColumnsExact(q: Comparison, changes: SchemaChanges, l: Listing, t: Table, hash: FieldHash, prevVersion: nat)
    requires q.Valid() && ListingOf(l, q) && prevVersion != 0 && PrintableSnapshot(q.cur)
    requires IsDiff(changes, q.prev.schema, q.cur.schema, hash)
    requires q.prev.schema.Keys == q.cur.schema.Keys && KeepsTypes(q) && TellsCells(q) && TellsRows(q)
    requires Holds(t, q.prev)
    ensures var read := LoadData(prevVersion, FullCompare(q, changes, l));
      && read.Some? && WellFormedData(read.value)
      && var loaded := LoadTable(prevVersion, t, read.value);
      && (loaded.None? <==> exists id <- q.cur.rows :: id !in q.prev.rows && id in t)
      && (loaded.Some? ==> (Holds(loaded.value, q.cur) <==> NoCorruption(q)))
  {
    hide Expected, FullCompare, LoadTable, LoadData, HasShape, Holds, ListingOf, IsDiff, IsDiffOn, AllArrive,
         NoCorruption, TellsRows, TellsCells, KeepsTypes, Comparison.Valid, PrintableSnapshot;
    GetterReads(q, changes, l, prevVersion);
    LoadShape(q, changes, l, t, hash, prevVersion);
    PatchExact(q, changes, l, t, hash, prevVersion);
    SameColumnsArrive(q);
  }

  lemma SameColumnsArrive(q: Comparison)
    requires q.Valid() && KeepsTypes(q) && TellsRows(q) && q.prev.schema.Keys == q.cur.schema.Keys
    ensures AllArrive(q) <==> NoCorruption(q)
  {
    hide CellChanged, Corruptible, Comparison.Passes, Comparison.DataColumns, Comparison.Valid, TellsRows, KeepsTypes;
    forall id <- q.Common(), f <- q.DataColumns()
      ensures f in q.cols.kept && (CellChanged(q, id, f) ==> q.Passes(id))
    {
      ColumnsAt(q, f);
      if CellChanged(q, id, f) { ChangedRowPasses(q, id, f); }
    }
  }

  // ---- The first load ----

  /** The first version, into an empty table: the load succeeds and the table holds the snapshot. */
  lemma FirstLoadHolds(cur: Snapshot, fields: seq<Field>, ids: seq<RowId>)
    requires cur.Valid() && Enumerates(fields, cur.schema.Keys) && Enumerates(ids, cur.rows.Keys)
    ensures var read := LoadData(0, FirstCompare(cur, fields, ids));
      && read.Some? && WellFormedData(read.value)
      && var loaded := LoadTable(0, map[], read.value);
      && loaded.Some? && Holds(loaded.value, cur)
  {
    AddedRowsWellFormed(fields, cur, ids);
    InsertExact(map[], fields, cur, ids);
    hide AddedRowsFile, InsertRows, WellFormedRows, RowErrors, Enumerates;
    FirstRowsHold(cur, ids);
  }

  lemma FirstRowsHold(cur: Snapshot, ids: seq<RowId>)
    requires cur.Valid() && (forall id :: id in ids <==> id in cur.rows)
    ensures Holds(map[] + NewRecords(cur, ids), cur)
    ensures forall errors :: Holds(FlagErrors(map[] + NewRecords(cur, ids), errors), cur)
  {
    hide RowHolds, Snapshot.Valid;
    forall id <- cur.rows { NewRowHolds(cur, id); }
  }

  // ---- Inputs on which the patch falls short ----

  const TEXT: FieldSchema := FieldSchema("", StringType, "", true, [], false, false)

  /** One row "r" with two text columns besides its id. */
  function TwoColumns(first: Field, second: Field, a: Value, b: Value): Snapshot {
    Snapshot(map[PRIMARY := TEXT, first := TEXT, second := TEXT],
      map["r" := map[PRIMARY := Str("r"), first := a, second := b]])
  }

  /** The comparison of a row `a`, `b` with a row `c`, `d`, under any names in sorted order. */
  ghost function Example(hash: CellHash, first: (Field, Field), second: (Field, Field),
      a: Value, b: Value, c: Value, d: Value): Comparison {
    Comparison(hash, Columns([first.0, first.1, PRIMARY], [second.0, second.1, PRIMARY],
      if first == second then [first.0, first.1, PRIMARY] else [first.1, PRIMARY],
      if first == second then [] else [second.1]),
      TwoColumns(first.0, first.1, a, b), TwoColumns(second.0, second.1, c, d))
  }

  ghost predicate InOrder(names: (Field, Field)) {
    names.0 != names.1 && PRIMARY != names.0 && PRIMARY != names.1
    && Leq(names.0, names.1) && Leq(names.0, PRIMARY) && Leq(names.1, PRIMARY)
  }

  lemma ExampleValid(hash: CellHash, first: (Field, Field), second: (Field, Field),
      a: Value, b: Value, c: Value, d: Value)
    requires InOrder(first) && InOrder(second)
    requires first == second || (first.1 == second.0 && first.0 != second.1)
    ensures Example(hash, first, second, a, b, c, d).Valid() && KeepsTypes(Example(hash, first, second, a, b, c, d))
  {
    hide Leq, TwoColumns, Sorted, Snapshot.Valid;
    TwoColumnsValid(first.0, first.1, a, b);
    TwoColumnsValid(second.0, second.1, c, d);
    ThreeSorted(first);
    ThreeSorted(second);
    var prev, cur := TwoColumns(first.0, first.1, a, b), TwoColumns(second.0, second.1, c, d);
    if first != second {
      assert prev.schema.Keys * cur.schema.Keys == {first.1, PRIMARY};
      assert cur.schema.Keys - prev.schema.Keys == {second.1};
    }
  }

  lemma TwoColumnsValid(first: Field, second: Field, a: Value, b: Value)
    requires first != second && PRIMARY != first && PRIMARY != second
    ensures TwoColumns(first, second, a, b).Valid()
    ensures TwoColumns(first, second, a, b).schema.Keys == {first, second, PRIMARY}
    ensures forall f <- TwoColumns(first, second, a, b).schema :: TwoColumns(first, second, a, b).schema[f] == TEXT
  {
  }

  lemma ThreeSorted(names: (Field, Field))
    requires InOrder(names)
    ensures Sorted([names.0, names.1, PRIMARY])
  {
  }

  lemma LettersInOrder()
    ensures InOrder(("a", "b")) && InOrder(("b", "c"))
  {
  }

  /** Columns a, b become b, c: the row hashes alike, since only values are hashed, so the changed
      cell of the kept column b never arrives. */
  lemma PreFilterMisses(hash: CellHash)
    ensures var q := Example(hash, ("a", "b"), ("b", "c"), Str("x"), Str("y"), Str("x"), Str("y"));
      && q.Valid() && KeepsTypes(q)
      && "r" in q.Common() && "b" in q.cols.kept && CellChanged(q, "r", "b")
      && !q.Passes("r") && !AllArrive(q)
  {
    hide Leq, Comparison.Valid, KeepsTypes, InOrder;
    LettersInOrder();
    ExampleValid(hash, ("a", "b"), ("b", "c"), Str("x"), Str("y"), Str("x"), Str("y"));
    var q := Example(hash, ("a", "b"), ("b", "c"), Str("x"), Str("y"), Str("x"), Str("y"));
    assert HashInput(q.cols.prev, q.prev.rows["r"], q.prev.schema) == [Str("x"), Str("y"), Str("r")];
    assert HashInput(q.cols.cur, q.cur.rows["r"], q.cur.schema) == [Str("x"), Str("y"), Str("r")];
    assert !CellArrives(q, "r", "b") && "b" in q.DataColumns();
  }

  /** A cell that becomes `,}` arrives, if at all, as `}`. */
  lemma CommaBraceIsLost(hash: CellHash)
    ensures var q := Example(hash, ("a", "b"), ("a", "b"), Str("x"), Str("y"), Str(",}"), Str("y"));
      && q.Valid() && KeepsTypes(q) && q.prev.schema == q.cur.schema
      && Scrub(q.cur.rows["r"]["a"]) == Str("}") && !AllArrive(q)
  {
    hide Leq, Comparison.Valid, KeepsTypes, InOrder;
    LettersInOrder();
    ExampleValid(hash, ("a", "b"), ("a", "b"), Str("x"), Str("y"), Str(",}"), Str("y"));
    var q := Example(hash, ("a", "b"), ("a", "b"), Str("x"), Str("y"), Str(",}"), Str("y"));
    assert ",}"[2..] == "" && ",}"[0] == ',' && ",}"[1] == '}';
    assert Corruptible(Str(",}")) && CellChanged(q, "r", "a");
    assert !CellArrives(q, "r", "a") && "a" in q.DataColumns();
  }

  // ---- An input on which all the hypotheses hold ----

  /** Row "r" of columns a, b: its cell under a goes from x to z. */
  ghost function OneChange(hash: CellHash): Comparison {
    Example(hash, ("a", "b"), ("a", "b"), Str("x"), Str("y"), Str("z"), Str("y"))
  }

  /** The hash tells x from z, and the row before from the row after. */
  ghost predicate TellsChange(hash: CellHash) {
    hash([Str("x")]) != hash([Str("z")]) && hash([Str("x"), Str("y"), Str("r")]) != hash([Str("z"), Str("y"), Str("r")])
  }

  lemma OneChangeFacts(hash: CellHash)
    requires TellsChange(hash)
    ensures var q := OneChange(hash);
      && q.Valid() && KeepsTypes(q) && q.Common() == {"r"} && q.Passes("r")
      && "a" in q.cols.kept && CellChanged(q, "r", "a") && q.ClassAt("r", "a") == Update
      && (forall f <- q.cols.kept :: f != "a" ==> !CellChanged(q, "r", f) && q.ClassAt("r", f) == Keep)
      && (forall f <- q.cols.kept :: !Corruptible(q.cur.rows["r"][f]))
  {
    hide Leq, Comparison.Valid, KeepsTypes, InOrder;
    LettersInOrder();
    ExampleValid(hash, ("a", "b"), ("a", "b"), Str("x"), Str("y"), Str("z"), Str("y"));
    var q := OneChange(hash);
    assert HashInput(q.cols.prev, q.prev.rows["r"], q.prev.schema) == [Str("x"), Str("y"), Str("r")];
    assert HashInput(q.cols.cur, q.cur.rows["r"], q.cur.schema) == [Str("z"), Str("y"), Str("r")];
  }

  lemma OneChangeListed(hash: CellHash)
    requires TellsChange(hash)
    ensures var q, l := OneChange(hash), Listing([], [], ["r"], [], ["r"]);
      && q.Valid() && ListingOf(l, q) && TellsCells(q) && TellsRows(q) && AllArrive(q)
  {
    OneChangeFacts(hash);
    hide Comparison.Valid, CellChanged, Corruptible, OneChange, Comparison.ClassAt, Comparison.NulledFields;
    var q := OneChange(hash);
    OneChangeClasses(q);
    OneChangeTold(q);
  }

  lemma FirstIn(s: seq<Field>)
    ensures s != [] ==> s[0] in s
  {
  }

  lemma OneChangeClasses(q: Comparison)
    requires q.Valid() && q.Common() == {"r"} && "a" in q.cols.kept && q.ClassAt("r", "a") == Update
    requires forall f <- q.cols.kept :: f != "a" ==> q.ClassAt("r", f) == Keep
    ensures q.HasUpdate("r") && q.NulledFields("r") == []
  {
    hide Comparison.Valid, Comparison.ClassAt;
    assert PRIMARY != "a" by { assert |PRIMARY| != |"a"|; }
    assert "a" in q.DataColumns();
    FirstIn(q.NulledFields("r"));
  }

  lemma OneChangeTold(q: Comparison)
    requires q.Valid() && KeepsTypes(q) && q.Common() == {"r"} && q.Passes("r")
    requires forall f <- q.cols.kept :: f != "a" ==> !CellChanged(q, "r", f)
    requires forall f <- q.cols.kept :: !Corruptible(q.cur.rows["r"][f])
    requires "a" in q.cols.kept && q.ClassAt("r", "a") == Update
    ensures TellsCells(q) && TellsRows(q) && AllArrive(q)
  {
    hide Corruptible, HashInput, Leq;
  }

  /** The hypotheses of the exact patch theorem hold together: this load commits, and takes a table
      that holds the previous row and not the current one to one that holds the current one. */
  lemma HypothesesCanHold(hash: CellHash, fields: FieldHash)
    returns (q: Comparison, changes: SchemaChanges, l: Listing, t: Table)
    requires TellsChange(hash)
    ensures q.Valid() && ListingOf(l, q) && KeepsTypes(q) && TellsCells(q) && TellsRows(q) && AllArrive(q)
    ensures IsDiff(changes, q.prev.schema, q.cur.schema, fields) && Holds(t, q.prev) && !Holds(t, q.cur)
    ensures WellFormedData(Expected(q, changes, l))
    ensures var loaded := LoadTable(1, t, Expected(q, changes, l)); loaded.Some? && Holds(loaded.value, q.cur)
  {
    hide Comparison.Valid, KeepsTypes, TellsCells, TellsRows, AllArrive, ListingOf, Expected, LoadTable, WellFormedData,
         Holds, Comparison.ClassAt, Comparison.Passes, CellChanged, Corruptible, IsDiff, HasShape, Classify;
    q, l := OneChange(hash), Listing([], [], ["r"], [], ["r"]);
    OneChangeFacts(hash);
    OneChangeListed(hash);
    changes := SchemaChanges([], map[], map[], map[], q.cur.schema);
    SameSchemaDiff(q.cur.schema, fields);
    t := map["r" := Record(q.prev.rows["r"], false, false)];
    OneRowHolds(q.prev, t);
    ChangedIsNotHeld(q, t);
    PatchExact(q, changes, l, t, fields, 1);
    LoadShape(q, changes, l, t, fields, 1);
  }

  lemma SameSchemaDiff(s: Schema, hash: FieldHash)
    ensures IsDiff(SchemaChanges([], map[], map[], map[], s), s, s, hash)
  {
  }

  lemma OneRowHolds(s: Snapshot, t: Table)
    requires s.Valid() && s.rows.Keys == {"r"} && t == map["r" := Record(s.rows["r"], false, false)]
    ensures Holds(t, s)
  {
    NewRowHolds(s, "r");
    hide RowHolds;
  }

  lemma ChangedIsNotHeld(q: Comparison, t: Table)
    requires q.Valid() && q.Common() == {"r"} && "a" in q.cols.kept && CellChanged(q, "r", "a")
    requires t == map["r" := Record(q.prev.rows["r"], false, false)]
    ensures !Holds(t, q.cur)
  {
    ColumnsAt(q, "a");
    hide SameCell, Leq;
    assert !RowHolds(t["r"].data, q.cur.rows["r"], q.cur.schema);
  }
}
