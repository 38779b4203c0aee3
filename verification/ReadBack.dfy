/** What the getter reads back from the comparer's result files, through the text of the rows. */
module ReadBack {
  import opened Wrappers
  import opened Cells
  import opened FieldOrder
  import opened SchemaDiff
  import opened RowText
  import opened Compare
  import opened Getter

  // ---- The loader data a comparison gives ----

  ghost function Expected(q: Comparison, changes: SchemaChanges, l: Listing): LoaderData
    requires q.Valid() && ListingOf(l, q)
  {
    LoaderData(q.cur.schema, changes, q.cols.cur, AddedRowsFile(q.cols.cur, q.cur, l.added), l.deleted,
      if q.cols.added == [] then map[] else Picked(l.current, map id <- q.cur.rows :: AddedCells(q, id)),
      Picked(l.updated, map id <- q.Common() :: UpdatedCells(q, id)),
      map id <- l.nulled :: NulledLists(q)[id])
  }

  lemma MaskedRowPrintable(fields: seq<Field>, source: Row, row: Row)
    requires PrintableCells(source)
    requires forall f <- fields :: f in source && f in row && (row[f] == source[f] || row[f] == Null)
    ensures PrintableRow(fields, row)
  {
  }

  lemma UpdatedRowParses(q: Comparison, id: RowId)
    requires q.Valid() && PrintableSnapshot(q.cur) && id in q.Common()
    ensures ParseObject(UpdatedTexts(q)[id]) == Some(UpdatedCells(q, id))
  {
    hide Print, Strip, ParseObject, Scrub, Classify, Leq, Without, PrintableRow, PrintableCells;
    MaskedRowPrintable(q.DataColumns(), q.cur.rows[id], q.UpdateRow(id));
    StripExact(q.DataColumns(), q.UpdateRow(id));
  }

  lemma AddedRowParses(q: Comparison, id: RowId)
    requires q.Valid() && PrintableSnapshot(q.cur) && id in q.cur.rows
    ensures ParseObject(AddedTexts(q)[id]) == Some(AddedCells(q, id))
    ensures q.cols.added != [] ==> AddedCells(q, id) != map[]
  {
    hide Print, ParseObject, Sorted, Printable, WordName;
    var row := q.cur.rows[id];
    forall f <- q.cols.added ensures WordName(f) && f in row && Printable(row[f]) {
      assert f in row;
    }
    PrintParse(q.cols.added, row);
    if q.cols.added != [] {
      assert q.cols.added[0] in AddedCells(q, id);
    }
  }

  /** The getter turns the comparer's files into exactly these maps, through the text rewrite. */
  lemma GetterReads(q: Comparison, changes: SchemaChanges, l: Listing, prevVersion: nat)
    requires q.Valid() && ListingOf(l, q) && PrintableSnapshot(q.cur) && prevVersion != 0
    ensures LoadData(prevVersion, FullCompare(q, changes, l)) == Some(Expected(q, changes, l))
  {
    UpdatedFileReads(q, l.updated);
    if q.cols.added != [] {
      AddedFileReads(q, l.current);
    }
    FileLists(l.nulled, NulledLists(q));
    hide ParsedRows, ListedFields, FileOf, UpdatedTexts, AddedTexts, UpdatedCells, AddedCells, AddedRowsFile,
         PrintableSnapshot, Picked;
  }

  lemma UpdatedFileReads(q: Comparison, ids: seq<RowId>)
    requires q.Valid() && PrintableSnapshot(q.cur) && forall id <- ids :: id in q.Common()
    ensures ParsedRows(FileOf(ids, UpdatedTexts(q))) == Some(Picked(ids, map id <- q.Common() :: UpdatedCells(q, id)))
  {
    var cells := map id <- q.Common() :: UpdatedCells(q, id);
    forall id <- ids { UpdatedRowParses(q, id); }
    hide ParsedRows, FileOf, Print, Strip, ParseObject, UpdatedCells, PrintableSnapshot, Picked, Leq;
    FileParses(ids, UpdatedTexts(q), cells);
  }

  lemma AddedFileReads(q: Comparison, ids: seq<RowId>)
    requires q.Valid() && PrintableSnapshot(q.cur) && forall id <- ids :: id in q.cur.rows
    ensures ParsedRows(FileOf(ids, AddedTexts(q))) == Some(Picked(ids, map id <- q.cur.rows :: AddedCells(q, id)))
  {
    var cells := map id <- q.cur.rows :: AddedCells(q, id);
    forall id <- ids { AddedRowParses(q, id); }
    hide ParsedRows, FileOf, Print, ParseObject, AddedCells, PrintableSnapshot, Picked, Leq;
    FileParses(ids, AddedTexts(q), cells);
  }
}
