/** Grouping the repaired ids into contiguous ranges to write back. */
module IdBatches {

  type Id = string

  /** A line of the ids file. */
  datatype Entry = Entry(id: Id, row: int)

  const MAX_BATCH_SIZE := 20000

  /** First row of each batch -> its ids. */
  type Batches = map<int, seq<Id>>

  /** The loop's variables. */
  datatype Grouping = Grouping(data: Batches, first: int, prev: int, batch: seq<Id>)

  function Start(includeHeader: bool, header: Id): Grouping {
    if includeHeader then Grouping(map[], 1, 1, [header]) else Grouping(map[], 2, 2, [])
  }

  /** One line: it continues the batch, or the batch is stored and a new one starts. */
  function Step(g: Grouping, e: Entry): Grouping {
    if g.prev + 1 == e.row && |g.batch| < MAX_BATCH_SIZE then
      g.(batch := g.batch + [e.id], prev := e.row)
    else
      Grouping(g.data[g.first := g.batch], e.row, e.row, [e.id])
  }

  function GroupAll(entries: seq<Entry>, includeHeader: bool, header: Id): Grouping {
    if entries == [] then Start(includeHeader, header)
    else Step(GroupAll(entries[..|entries| - 1], includeHeader, header), entries[|entries| - 1])
  }

  function Close(g: Grouping): Batches {
    g.data[g.first := g.batch]
  }

  method GenerateUpdateIdData(entries: seq<Entry>, includeHeader: bool, header: Id) returns (data: Batches)
    ensures data == Close(GroupAll(entries, includeHeader, header))
  {
    data := map[];
    var first, prev, batch;
    if includeHeader {
      first, prev, batch := 1, 1, [header];
    } else {
      first, prev, batch := 2, 2, [];
    }
    for i := 0 to |entries|
      invariant Grouping(data, first, prev, batch) == GroupAll(entries[..i], includeHeader, header)
    {
      assert entries[..i + 1][..i] == entries[..i];
      var id, row := entries[i].id, entries[i].row;
      if prev + 1 == row && |batch| < MAX_BATCH_SIZE {
        batch := batch + [id];
      } else {
        data := data[first := batch];
        first, batch := row, [id];
      }
      prev := row;
    }
    assert entries[..|entries|] == entries;
    data := data[first := batch];
  }

  // ---- What the batches write ----

  /** The cell of the id column that the batches write at `row`, if any. */
  ghost predicate Writes(data: Batches, row: int, id: Id) {
    exists first <- data :: At(data[first], row - first, id)
  }

  predicate At(ids: seq<Id>, i: int, id: Id) {
    0 <= i < |ids| && ids[i] == id
  }

  /** The cells that should be written: the entries', and the header's in row 1. */
  ghost predicate Wanted(entries: seq<Entry>, includeHeader: bool, header: Id, row: int, id: Id) {
    (includeHeader && row == 1 && id == header) || Entry(id, row) in entries
  }

  predicate Increasing(entries: seq<Entry>, least: int) {
    && (forall e <- entries :: e.row >= least)
    && (forall i, j :: 0 <= i < j < |entries| ==> entries[i].row < entries[j].row)
  }

  /** Ranges do not overlap and are not too long. */
  ghost predicate Disjoint(data: Batches) {
    && (forall first <- data :: |data[first]| <= 20000)
    && (forall a <- data, b <- data | a < b :: a + |data[a]| <= b)
  }

  /** Stored batches end before the open one begins, and the open one ends at the previous row. Only
      an empty batch can have the open one's first row. */
  ghost predicate GroupingOk(g: Grouping) {
    && Disjoint(g.data)
    && (forall a <- g.data :: a + |g.data[a]| <= g.first)
    && 1 <= |g.batch| <= MAX_BATCH_SIZE && g.prev == g.first + |g.batch| - 1
  }

  /** Without a header the first line always starts a batch of its own, unless its row is 3, and
      leaves the empty batch at row 2. */
  lemma FirstStep(e: Entry, header: Id)
    ensures Step(Start(false, header), e) ==
      if e.row == 3 then Grouping(map[], 2, 3, [e.id]) else Grouping(map[2 := []], e.row, e.row, [e.id])
  {
  }

  lemma GroupOne(entries: seq<Entry>, includeHeader: bool, header: Id)
    requires |entries| == 1
    ensures GroupAll(entries, includeHeader, header) == Step(Start(includeHeader, header), entries[0])
  {
  }

  lemma StepOk(g: Grouping, e: Entry)
    requires GroupingOk(g) && g.prev < e.row
    ensures GroupingOk(Step(g, e)) && Step(g, e).prev == e.row
  {
  }

  /** Writing more: what a step adds to the cells written. */
  lemma StepWrites(g: Grouping, e: Entry, row: int, id: Id)
    requires GroupingOk(g) && g.prev < e.row
    ensures Writes(Close(Step(g, e)), row, id) <==> Writes(Close(g), row, id) || (row == e.row && id == e.id)
  {
    var before, after := Close(g), Close(Step(g, e));
    if g.prev + 1 == e.row && |g.batch| < MAX_BATCH_SIZE {
      assert after == before[g.first := g.batch + [e.id]];
      ExtendWrites(before, g.first, e.id, row, id);
    } else {
      assert after == before[e.row := [e.id]];
      NewWrites(before, e.row, [e.id], row, id);
    }
  }

  lemma ExtendWrites(data: Batches, first: int, more: Id, row: int, id: Id)
    requires first in data
    ensures Writes(data[first := data[first] + [more]], row, id)
       <==> Writes(data, row, id) || (row == first + |data[first]| && id == more)
  {
    var after := data[first := data[first] + [more]];
    if Writes(data, row, id) {
      var a :| a in data && At(data[a], row - a, id);
      assert At(after[a], row - a, id);
    }
    if row == first + |data[first]| && id == more {
      assert At(after[first], row - first, id);
    }
    if Writes(after, row, id) {
      var a :| a in after && At(after[a], row - a, id);
      assert a == first || At(data[a], row - a, id);
      assert a == first && row - a < |data[a]| ==> At(data[a], row - a, id);
    }
  }

  lemma NewWrites(data: Batches, first: int, ids: seq<Id>, row: int, id: Id)
    requires first !in data
    ensures Writes(data[first := ids], row, id) <==> Writes(data, row, id) || At(ids, row - first, id)
  {
    var after := data[first := ids];
    if Writes(data, row, id) {
      var a :| a in data && At(data[a], row - a, id);
      assert At(after[a], row - a, id);
    }
    if At(ids, row - first, id) {
      assert At(after[first], row - first, id);
    }
  }

  lemma Last(entries: seq<Entry>, least: int) returns (before: seq<Entry>, e: Entry)
    requires entries != [] && Increasing(entries, least)
    ensures entries == before + [e] && Increasing(before, least) && e.row >= least
    ensures entries[..|entries| - 1] == before && entries[|entries| - 1] == e
    ensures before != [] ==> before[|before| - 1].row < e.row
  {
    before, e := entries[..|entries| - 1], entries[|entries| - 1];
  }

  /** Where the rows of the file may start: below the header row; without one, row 3 would join the
      batch that starts at 2. */
  predicate RowsFit(entries: seq<Entry>, includeHeader: bool) {
    Increasing(entries, 2) && (!includeHeader && entries != [] ==> entries[0].row != 3)
  }

  lemma {:induction false} GroupingHolds(entries: seq<Entry>, includeHeader: bool, header: Id)
    requires RowsFit(entries, includeHeader) && (includeHeader || entries != [])
    ensures var g := GroupAll(entries, includeHeader, header);
      GroupingOk(g) && g.prev == (if entries == [] then 1 else entries[|entries| - 1].row)
    decreases |entries|
  {
    hide Step, GroupingOk, Increasing;
    if entries == [] {
      FirstOk(Entry("", 2), header);
    } else {
      var before, e := Last(entries, 2);
      assert e.row >= 2;
      if includeHeader || before != [] {
        GroupingHolds(before, includeHeader, header);
        StepOk(GroupAll(before, includeHeader, header), e);
      } else {
        GroupOne(entries, false, header);
        FirstOk(e, header);
      }
    }
  }

  lemma FirstOk(e: Entry, header: Id)
    requires e.row >= 2 && e.row != 3
    ensures GroupingOk(Start(true, header))
    ensures GroupingOk(Step(Start(false, header), e)) && Step(Start(false, header), e).prev == e.row
  {
  }

  /** The batches of a file whose rows fit do not overlap and are not too long. */
  lemma BatchesAreDisjoint(entries: seq<Entry>, includeHeader: bool, header: Id)
    requires RowsFit(entries, includeHeader)
    ensures Disjoint(Close(GroupAll(entries, includeHeader, header)))
  {
    if includeHeader || entries != [] {
      GroupingHolds(entries, includeHeader, header);
    }
  }

  /** Two batches touch only when the first is full. */
  ghost predicate Maximal(data: Batches) {
    forall a <- data, b <- data :: a != b && a + |data[a]| == b ==> |data[a]| == 20000
  }

  lemma MaximalStep(g: Grouping, e: Entry)
    requires GroupingOk(g) && g.prev < e.row && Maximal(Close(g))
    ensures Maximal(Close(Step(g, e)))
  {
    var before, after := Close(g), Close(Step(g, e));
    forall a <- after, b <- after | a != b && a + |after[a]| == b ensures |after[a]| == 20000 {
      if a != g.first && b != e.row {
        assert before[a] == after[a] && b in before;
      }
    }
  }

  lemma MaximalFirst(e: Entry, header: Id)
    requires e.row >= 2 && e.row != 3
    ensures Maximal(Close(Start(true, header))) && Maximal(Close(Step(Start(false, header), e)))
  {
  }

  /** Ids of adjacent rows are sent in one batch, of up to 20000. */
  lemma {:induction false} BatchesAreMaximal(entries: seq<Entry>, includeHeader: bool, header: Id)
    requires RowsFit(entries, includeHeader) && (includeHeader || entries != [])
    ensures Maximal(Close(GroupAll(entries, includeHeader, header)))
    decreases |entries|
  {
    hide Step, GroupingOk, Increasing, Close, Maximal;
    if entries == [] {
      MaximalFirst(Entry("", 2), header);
    } else {
      var before, e := Last(entries, 2);
      assert e.row >= 2;
      if includeHeader || before != [] {
        BatchesAreMaximal(before, includeHeader, header);
        GroupingHolds(before, includeHeader, header);
        MaximalStep(GroupAll(before, includeHeader, header), e);
      } else {
        GroupOne(entries, false, header);
        MaximalFirst(e, header);
      }
    }
  }

  lemma {:induction false} GroupingCorrect(entries: seq<Entry>, includeHeader: bool, header: Id, row: int, id: Id)
    requires RowsFit(entries, includeHeader) && (includeHeader || entries != [])
    ensures Writes(Close(GroupAll(entries, includeHeader, header)), row, id)
       <==> Wanted(entries, includeHeader, header, row, id)
    decreases |entries|
  {
    hide Step, GroupingOk, Close, Writes, Increasing;
    if entries == [] {
      HeaderWrites(header, row, id);
    } else {
      var before, e := Last(entries, 2);
      assert e.row >= 2;
      var g := GroupAll(before, includeHeader, header);
      if includeHeader || before != [] {
        GroupingCorrect(before, includeHeader, header, row, id);
        GroupingHolds(before, includeHeader, header);
        StepWrites(g, e, row, id);
      } else {
        GroupOne(entries, false, header);
        FirstWrites(e, header, row, id);
      }
    }
  }

  lemma HeaderWrites(header: Id, row: int, id: Id)
    ensures Writes(Close(Start(true, header)), row, id) <==> row == 1 && id == header
  {
    NewWrites(map[], 1, [header], row, id);
  }

  lemma FirstWrites(e: Entry, header: Id, row: int, id: Id)
    requires e.row >= 2 && e.row != 3
    ensures Writes(Close(Step(Start(false, header), e)), row, id) <==> row == e.row && id == e.id
  {
    var data := map[2 := []][e.row := [e.id]];
    assert Close(Step(Start(false, header), e)) == data;
    if row == e.row && id == e.id {
      assert At(data[e.row], row - e.row, id);
    }
  }

  /** Without a header, a file that starts at row 3 puts its first id in row 2. */
  lemma {:induction false} RowThreeShifts(entries: seq<Entry>, header: Id)
    requires Increasing(entries, 2) && entries != [] && entries[0].row == 3
    ensures var g := GroupAll(entries, false, header);
      && g.first >= 2 && (g.first == 2 ==> g.batch != [] && g.batch[0] == entries[0].id)
      && (g.first != 2 ==> 2 in g.data && g.data[2] != [] && g.data[2][0] == entries[0].id)
    decreases |entries|
  {
    if |entries| == 1 {
      GroupOne(entries, false, header);
      FirstStep(entries[0], header);
    } else {
      var before, e := Last(entries, 2);
      RowThreeShifts(before, header);
      assert e.row > entries[0].row;
    }
  }

  /** The batches write exactly the file's (row, id) pairs and the header if asked for, for any
      increasing rows, if and only if there is a header or the first row is not 3. */
  lemma BatchesExact(entries: seq<Entry>, includeHeader: bool, header: Id)
    requires Increasing(entries, 2)
    ensures var data := Close(GroupAll(entries, includeHeader, header));
      (forall row, id :: Writes(data, row, id) <==> Wanted(entries, includeHeader, header, row, id))
      <==> (includeHeader || entries == [] || entries[0].row != 3)
  {
    var data := Close(GroupAll(entries, includeHeader, header));
    if !includeHeader && entries == [] {
      assert data == map[2 := []];
    } else if includeHeader || entries[0].row != 3 {
      forall row, id ensures Writes(data, row, id) <==> Wanted(entries, includeHeader, header, row, id) {
        GroupingCorrect(entries, includeHeader, header, row, id);
      }
    } else {
      RowThreeShifts(entries, header);
      var first := entries[0].id;
      assert At(data[2], 0, first);
      assert Writes(data, 2, first);
      assert !Wanted(entries, includeHeader, header, 2, first);
    }
  }

  // ---- Empty batches ----

  /** An empty batch, if there is one, is about to be overwritten. */
  ghost predicate NoneEmpty(g: Grouping) {
    g.batch != [] && forall a <- g.data :: g.data[a] == [] ==> a == g.first
  }

  lemma {:induction false} NoEmptyBatch(entries: seq<Entry>, includeHeader: bool, header: Id)
    requires Increasing(entries, 2)
    requires includeHeader || (entries != [] && (entries[0].row == 2 || entries[0].row == 3))
    ensures NoneEmpty(GroupAll(entries, includeHeader, header))
    decreases |entries|
  {
    hide Step, NoneEmpty, Increasing;
    if entries == [] {
      NoneEmptyAtFirst(Entry("", 2), header);
    } else {
      var before, e := Last(entries, 2);
      if includeHeader || before != [] {
        assert before != [] ==> before[0] == entries[0];
        NoEmptyBatch(before, includeHeader, header);
        NoneEmptyStep(GroupAll(before, includeHeader, header), e);
      } else {
        GroupOne(entries, false, header);
        NoneEmptyAtFirst(e, header);
      }
    }
  }

  lemma NoneEmptyStep(g: Grouping, e: Entry)
    requires NoneEmpty(g)
    ensures NoneEmpty(Step(g, e))
  {
  }

  lemma NoneEmptyAtFirst(e: Entry, header: Id)
    requires e.row == 2 || e.row == 3
    ensures NoneEmpty(Start(true, header)) && NoneEmpty(Step(Start(false, header), e))
  {
  }

  lemma {:induction false} EmptyBatchStays(entries: seq<Entry>, header: Id)
    requires Increasing(entries, 4) && entries != []
    ensures var g := GroupAll(entries, false, header); g.first > 2 && 2 in g.data && g.data[2] == []
    decreases |entries|
  {
    hide Increasing;
    var before, e := Last(entries, 4);
    assert e.row >= 4;
    if before == [] {
      GroupOne(entries, false, header);
    } else {
      EmptyBatchStays(before, header);
    }
  }

  /** The batch that starts at row 2 is left empty exactly when there is no header and no entry in row 2 or
      3 to start with. */
  lemma EmptyBatchExact(entries: seq<Entry>, includeHeader: bool, header: Id)
    requires Increasing(entries, 2)
    ensures var data := Close(GroupAll(entries, includeHeader, header));
      && ((exists first <- data :: data[first] == []) <==>
            !includeHeader && (entries == [] || entries[0].row > 3))
      && (forall first <- data :: data[first] == [] ==> first == 2)
  {
    if includeHeader || (entries != [] && entries[0].row <= 3) {
      NoEmptyBatch(entries, includeHeader, header);
    } else if entries != [] {
      EmptyBatchStays(entries, header);
      OnlyTwoIsEmpty(entries, header);
      assert Close(GroupAll(entries, false, header))[2] == [];
    } else {
      assert Close(GroupAll(entries, false, header)) == map[2 := []];
      assert Close(GroupAll(entries, false, header))[2] == [];
    }
  }

  lemma {:induction false} OnlyTwoIsEmpty(entries: seq<Entry>, header: Id)
    requires entries != []
    ensures var g := GroupAll(entries, false, header); g.batch != [] && forall a <- g.data :: g.data[a] == [] ==> a == 2
    decreases |entries|
  {
    if |entries| == 1 {
      GroupOne(entries, false, header);
    } else {
      OnlyTwoIsEmpty(entries[..|entries| - 1], header);
    }
  }
}
