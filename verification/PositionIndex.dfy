/** Refreshing the stored row positions of a sheet from its id column. */
module PositionIndex {

  type RowId = string

  /** The stored positions: a document for each row id that has one. */
  type Index = map<RowId, int>

  /** uuid.Parse succeeds. */
  type Validity = string -> bool

  /** One upsert of a bulk write. */
  datatype Write = Write(id: RowId, pos: int)

  type Batch = seq<Write>

  const BATCH_SIZE := 1000

  /** A missing entry reads as 0, the zero of Go's map. */
  function OldPos(stored: Index, id: RowId): int {
    if id in stored then stored[id] else 0
  }

  /** Line `n` of the id column asks for a write. */
  predicate NeedsWrite(stored: Index, ids: seq<RowId>, n: nat, valid: Validity)
    requires n < |ids|
  {
    n != 0 && valid(ids[n]) && OldPos(stored, ids[n]) != n
  }

  /** The writes of the lines in their order. */
  function Writes(stored: Index, ids: seq<RowId>, valid: Validity): seq<Write> {
    if ids == [] then [] else
      var n := |ids| - 1;
      Writes(stored, ids[..n], valid) + if NeedsWrite(stored, ids, n, valid) then [Write(ids[n], n)] else []
  }

  function Flatten(batches: seq<Batch>): seq<Write> {
    if batches == [] then [] else Flatten(batches[..|batches| - 1]) + batches[|batches| - 1]
  }

  lemma NoLines(stored: Index, valid: Validity)
    ensures Flatten([]) == [] && Writes(stored, [], valid) == []
  {
  }

  lemma OneMoreBatch(batches: seq<Batch>, batch: Batch)
    ensures Flatten(batches + [batch]) == Flatten(batches) + batch
  {
    assert (batches + [batch])[..|batches|] == batches;
  }

  lemma OneMoreLine(stored: Index, ids: seq<RowId>, valid: Validity, n: nat)
    requires n < |ids|
    ensures Writes(stored, ids[..n + 1], valid) ==
      Writes(stored, ids[..n], valid) + if NeedsWrite(stored, ids, n, valid) then [Write(ids[n], n)] else []
  {
    assert ids[..n + 1][..n] == ids[..n];
  }

  /** Cuts the differences into batches, in the order of the lines: every batch but the last is full. */
  method UploadRowMetadata(stored: Index, ids: seq<RowId>, valid: Validity) returns (batches: seq<Batch>)
    ensures Flatten(batches) == Writes(stored, ids, valid)
    ensures forall i :: 0 <= i < |batches| - 1 ==> |batches[i]| == 1000
    ensures batches != [] ==> 1 <= |batches[|batches| - 1]| <= 1000
  {
    hide Flatten, Writes;
    NoLines(stored, valid);
    batches := [];
    var bulkWrite: Batch := [];
    for count := 0 to |ids|
      invariant Flatten(batches) + bulkWrite == Writes(stored, ids[..count], valid)
      invariant |bulkWrite| < BATCH_SIZE
      invariant forall b <- batches :: |b| == BATCH_SIZE
    {
      OneMoreLine(stored, ids, valid, count);
      var rowId := ids[count];
      if count != 0 && valid(rowId) {
        if OldPos(stored, rowId) != count {
          bulkWrite := bulkWrite + [Write(rowId, count)];
          if |bulkWrite| == BATCH_SIZE {
            OneMoreBatch(batches, bulkWrite);
            batches := batches + [bulkWrite];
            bulkWrite := [];
          }
        }
      }
    }
    assert ids[..|ids|] == ids;
    if |bulkWrite| > 0 {
      OneMoreBatch(batches, bulkWrite);
      batches := batches + [bulkWrite];
    }
  }

  // ---- What the writes do ----

  function Apply(index: Index, w: Write): Index {
    index[w.id := w.pos]
  }

  function ApplyAll(index: Index, writes: seq<Write>): Index {
    if writes == [] then index else Apply(ApplyAll(index, writes[..|writes| - 1]), writes[|writes| - 1])
  }

  /** The positions the id column gives: every listed valid id under its line number, the rest untouched. */
  ghost predicate IsRebuilt(index: Index, stored: Index, ids: seq<RowId>, valid: Validity) {
    && (forall n :: 1 <= n < |ids| && valid(ids[n]) ==> ids[n] in index && index[ids[n]] == n)
    && (forall id :: !Listed(ids, id, valid) ==> Untouched(index, stored, id))
  }

  predicate Untouched(index: Index, stored: Index, id: RowId) {
    (id in index <==> id in stored) && (id in stored && id in index ==> index[id] == stored[id])
  }

  predicate Listed(ids: seq<RowId>, id: RowId, valid: Validity) {
    valid(id) && exists n :: 1 <= n < |ids| && ids[n] == id
  }

  /** The ids below the header line are distinct. */
  ghost predicate DistinctIds(ids: seq<RowId>, valid: Validity) {
    forall i, j :: 1 <= i < j < |ids| && valid(ids[i]) ==> ids[i] != ids[j]
  }

  /** `writes` holds exactly the writes of the lines, in any order and any grouping. */
  ghost predicate SameWrites(writes: seq<Write>, stored: Index, ids: seq<RowId>, valid: Validity) {
    multiset(writes) == multiset(Writes(stored, ids, valid))
  }

  lemma {:induction false} WritesOf(stored: Index, ids: seq<RowId>, valid: Validity, w: Write)
    ensures w in Writes(stored, ids, valid)
       <==> 0 <= w.pos < |ids| && ids[w.pos] == w.id && NeedsWrite(stored, ids, w.pos, valid)
    decreases |ids|
  {
    if ids != [] {
      WritesOf(stored, ids[..|ids| - 1], valid, w);
    }
  }

  /** A line is written exactly when it is below the header, its id is valid, and the stored position is
      not its line number already. */
  lemma WrittenExactly(stored: Index, ids: seq<RowId>, valid: Validity, n: nat)
    requires n < |ids|
    ensures Write(ids[n], n) in Writes(stored, ids, valid) <==>
      n >= 1 && valid(ids[n]) && !(ids[n] in stored && stored[ids[n]] == n)
  {
    WritesOf(stored, ids, valid, Write(ids[n], n));
  }

  /** Where each id is written at most once, the order of the writes does not matter. */
  ghost predicate OncePerId(writes: seq<Write>) {
    forall i, j :: 0 <= i < j < |writes| ==> writes[i].id != writes[j].id
  }

  lemma {:induction false} ApplyAllAt(index: Index, writes: seq<Write>, id: RowId)
    requires OncePerId(writes)
    ensures id in ApplyAll(index, writes) <==> id in index || exists w <- writes :: w.id == id
    ensures forall w <- writes :: w.id == id ==> ApplyAll(index, writes)[id] == w.pos
    ensures (forall w <- writes :: w.id != id) && id in index ==> ApplyAll(index, writes)[id] == index[id]
    decreases |writes|
  {
    if writes != [] {
      var n := |writes| - 1;
      ApplyAllAt(index, writes[..n], id);
      assert writes == writes[..n] + [writes[n]];
    }
  }

  /** Each line is written at most once. */
  lemma {:induction false} WrittenOnce(stored: Index, ids: seq<RowId>, valid: Validity, w: Write)
    ensures multiset(Writes(stored, ids, valid))[w] <= 1
    decreases |ids|
  {
    if ids != [] {
      WrittenOnce(stored, ids[..|ids| - 1], valid, w);
      WritesOf(stored, ids[..|ids| - 1], valid, w);
    }
  }

  lemma TwiceInMultiset(writes: seq<Write>, i: nat, j: nat)
    requires i < j < |writes| && writes[i] == writes[j]
    ensures multiset(writes)[writes[i]] >= 2
  {
    assert writes == writes[..j] + [writes[j]] + writes[j + 1..];
    assert writes[..j][i] == writes[i];
  }

  lemma AnyOrderOncePerId(writes: seq<Write>, stored: Index, ids: seq<RowId>, valid: Validity)
    requires SameWrites(writes, stored, ids, valid) && DistinctIds(ids, valid)
    ensures OncePerId(writes)
    ensures forall w :: w in writes <==> w in Writes(stored, ids, valid)
  {
    var expected := Writes(stored, ids, valid);
    forall w ensures w in writes <==> w in expected {
      assert w in multiset(writes) <==> w in multiset(expected);
    }
    forall i, j | 0 <= i < j < |writes| ensures writes[i].id != writes[j].id {
      assert writes[i] in expected && writes[j] in expected;
      WritesOf(stored, ids, valid, writes[i]);
      WritesOf(stored, ids, valid, writes[j]);
      if writes[i] == writes[j] {
        TwiceInMultiset(writes, i, j);
        WrittenOnce(stored, ids, valid, writes[i]);
      }
    }
  }

  /** Whatever the order in which the batches and their writes run, every listed id maps to its line
      number afterwards and nothing else changes: writing only the differences is as good as a rebuild. */
  lemma RefreshIsRebuild(writes: seq<Write>, stored: Index, ids: seq<RowId>, valid: Validity)
    requires SameWrites(writes, stored, ids, valid) && DistinctIds(ids, valid)
    ensures IsRebuilt(ApplyAll(stored, writes), stored, ids, valid)
  {
    AnyOrderOncePerId(writes, stored, ids, valid);
    var index := ApplyAll(stored, writes);
    forall n | 1 <= n < |ids| && valid(ids[n]) ensures ids[n] in index && index[ids[n]] == n {
      WritesOf(stored, ids, valid, Write(ids[n], n));
      ApplyAllAt(stored, writes, ids[n]);
      if !NeedsWrite(stored, ids, n, valid) {
        OtherLines(writes, stored, ids, valid, ids[n], n);
      }
    }
    forall id | !Listed(ids, id, valid) ensures Untouched(index, stored, id) {
      OtherLines(writes, stored, ids, valid, id, 0);
      ApplyAllAt(stored, writes, id);
    }
  }

  /** An id that is up to date or not listed is not written. */
  lemma OtherLines(writes: seq<Write>, stored: Index, ids: seq<RowId>, valid: Validity, id: RowId, n: nat)
    requires forall w :: w in writes <==> w in Writes(stored, ids, valid)
    requires DistinctIds(ids, valid)
    requires !Listed(ids, id, valid)
      || (1 <= n < |ids| && ids[n] == id && valid(id) && !NeedsWrite(stored, ids, n, valid))
    ensures forall w <- writes :: w.id != id
  {
    forall w <- writes ensures w.id != id {
      WritesOf(stored, ids, valid, w);
    }
  }

  /** The refresh is a rebuild only then: no index gives an id on two lines both line numbers. */
  lemma RebuildExactly(writes: seq<Write>, stored: Index, ids: seq<RowId>, valid: Validity)
    requires SameWrites(writes, stored, ids, valid)
    ensures IsRebuilt(ApplyAll(stored, writes), stored, ids, valid) <==> DistinctIds(ids, valid)
  {
    if DistinctIds(ids, valid) {
      RefreshIsRebuild(writes, stored, ids, valid);
    }
  }

  /** With an id on two lines the order of the writes decides. */
  lemma DuplicateIdDependsOnOrder(x: RowId, valid: Validity)
    requires valid(x)
    ensures var ids := ["__StarionId", x, x]; var writes := [Write(x, 1), Write(x, 2)];
      && SameWrites(writes, map[], ids, valid) && SameWrites([writes[1], writes[0]], map[], ids, valid)
      && ApplyAll(map[], writes)[x] == 2 && ApplyAll(map[], [writes[1], writes[0]])[x] == 1
  {
    var ids := ["__StarionId", x, x];
    assert ids[..2] == ["__StarionId", x] && ids[..2][..1] == ["__StarionId"] && ids[..2][..1][..0] == [];
    assert Writes(map[], ids[..2][..1], valid) == [];
    assert Writes(map[], ids[..2], valid) == [Write(x, 1)];
    assert Writes(map[], ids, valid) == [Write(x, 1), Write(x, 2)];
    assert [Write(x, 1), Write(x, 2)][..1] == [Write(x, 1)] && [Write(x, 2), Write(x, 1)][..1] == [Write(x, 2)];
  }
}
