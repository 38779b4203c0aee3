/** Giving every row of a sheet a valid id of its own. */
module IdRepair {

  datatype Line = Line(id: string, row: string)

  /** uuid.Parse succeeds. */
  type Validity = string -> bool

  /** The k-th generated id. */
  type Generator = nat -> string

  /** The two outputs, the ids seen or given so far, and how many were generated. */
  datatype Repair = Repair(out: seq<Line>, full: seq<Line>, idSet: set<string>, generated: nat)

  predicate NeedsNewId(id: string, idSet: set<string>, valid: Validity) {
    id == "" || id in idSet || !valid(id)
  }

  function Step(r: Repair, line: Line, valid: Validity, gen: Generator): Repair {
    if NeedsNewId(line.id, r.idSet, valid) then
      var given := Line(gen(r.generated), line.row);
      Repair(r.out + [given], r.full + [given], r.idSet + {given.id}, r.generated + 1)
    else
      r.(full := r.full + [line], idSet := r.idSet + {line.id})
  }

  function RepairAll(lines: seq<Line>, valid: Validity, gen: Generator): Repair {
    if lines == [] then Repair([], [], {}, 0)
    else Step(RepairAll(lines[..|lines| - 1], valid, gen), lines[|lines| - 1], valid, gen)
  }

  method FindAndFix(lines: seq<Line>, valid: Validity, gen: Generator) returns (out: seq<Line>, full: seq<Line>)
    ensures out == RepairAll(lines, valid, gen).out && full == RepairAll(lines, valid, gen).full
  {
    var idSet: set<string>, generated := {}, 0;
    out, full := [], [];
    for i := 0 to |lines|
      invariant Repair(out, full, idSet, generated) == RepairAll(lines[..i], valid, gen)
    {
      assert lines[..i + 1][..i] == lines[..i];
      var id, row := lines[i].id, lines[i].row;
      if id == "" || id in idSet || !valid(id) {
        var newId := gen(generated);
        generated := generated + 1;
        out, full := out + [Line(newId, row)], full + [Line(newId, row)];
        idSet := idSet + {newId};
      } else {
        full := full + [lines[i]];
        idSet := idSet + {id};
      }
    }
    assert lines[..|lines|] == lines;
  }

  // ---- Properties ----

  predicate IsFirst(lines: seq<Line>, i: nat)
    requires i < |lines|
  {
    forall j :: 0 <= j < i ==> lines[j].id != lines[i].id
  }

  /** The rows whose id was replaced, as lines of the full output. */
  function Replaced(lines: seq<Line>, full: seq<Line>): seq<Line>
    requires |lines| == |full|
  {
    if lines == [] then [] else
      var n := |lines| - 1;
      Replaced(lines[..n], full[..n]) + if full[n].id == lines[n].id then [] else [full[n]]
  }

  /** Generated ids are valid, pairwise distinct and not in the sheet. */
  ghost predicate GoodGenerator(lines: seq<Line>, valid: Validity, gen: Generator) {
    && (forall k: nat :: valid(gen(k)) && gen(k) != "")
    && (forall j: nat, k: nat :: j != k ==> gen(j) != gen(k))
    && (forall k: nat, line <- lines :: gen(k) != line.id)
  }

  ghost predicate DistinctIds(lines: seq<Line>) {
    forall i, j :: 0 <= i < j < |lines| ==> lines[i].id != lines[j].id
  }

  function Ids(lines: seq<Line>): set<string> {
    set line <- lines :: line.id
  }

  /** Line i of the full output: in place, valid, and the old id exactly when that is valid and first. */
  ghost predicate LineOk(lines: seq<Line>, full: seq<Line>, i: nat, valid: Validity)
    requires i < |lines| == |full|
  {
    && full[i].row == lines[i].row && valid(full[i].id) && full[i].id != ""
    && (full[i].id == lines[i].id <==> (valid(lines[i].id) && lines[i].id != "" && IsFirst(lines, i)))
  }

  ghost predicate FromSheetOrNew(lines: seq<Line>, full: seq<Line>, gen: Generator, generated: nat)
    requires |lines| == |full|
  {
    forall i :: 0 <= i < |full| ==> full[i].id == lines[i].id || exists k: nat :: k < generated && full[i].id == gen(k)
  }

  ghost predicate RepairOk(lines: seq<Line>, r: Repair, valid: Validity, gen: Generator) {
    && |r.full| == |lines| && r.idSet == Ids(r.full) && FromSheetOrNew(lines, r.full, gen, r.generated)
    && (forall i: nat :: i < |lines| ==> LineOk(lines, r.full, i, valid))
    && DistinctIds(r.full) && r.out == Replaced(lines, r.full)
  }

  /** An id of the sheet has been seen exactly when it is not its first occurrence. */
  lemma SeenIffNotFirst(lines: seq<Line>, r: Repair, line: Line, valid: Validity, gen: Generator)
    requires RepairOk(lines, r, valid, gen) && GoodGenerator(lines + [line], valid, gen)
    requires valid(line.id) && line.id != ""
    ensures line.id in r.idSet <==> !IsFirst(lines + [line], |lines|)
  {
    var all := lines + [line];
    assert line in all;
    if line.id in r.idSet {
      var l :| l in r.full && l.id == line.id;
      var i :| 0 <= i < |r.full| && r.full[i] == l;
      assert all[i].id == line.id;
    }
    if !IsFirst(all, |lines|) {
      var j :| 0 <= j < |lines| && all[j].id == line.id;
      var i := FirstOf(lines, j);
      assert LineOk(lines, r.full, i, valid);
      assert r.full[i] in r.full;
    }
  }

  lemma {:induction false} FirstOf(lines: seq<Line>, j: nat) returns (i: nat)
    requires j < |lines|
    ensures i <= j && lines[i].id == lines[j].id && IsFirst(lines, i)
  {
    if IsFirst(lines, j) {
      i := j;
    } else {
      var k: nat :| k < j && lines[k].id == lines[j].id;
      i := FirstOf(lines, k);
    }
  }

  lemma NewIdUnseen(lines: seq<Line>, r: Repair, line: Line, valid: Validity, gen: Generator)
    requires RepairOk(lines, r, valid, gen) && GoodGenerator(lines + [line], valid, gen)
    ensures gen(r.generated) !in r.idSet && gen(r.generated) != line.id
  {
  }

  lemma FirstInPrefix(lines: seq<Line>, line: Line, i: nat)
    requires i < |lines|
    ensures IsFirst(lines + [line], i) <==> IsFirst(lines, i)
  {
    var all := lines + [line];
    forall j | 0 <= j <= i ensures all[j] == lines[j] {}
  }

  lemma ExtendFrom(lines: seq<Line>, r: Repair, line: Line, added: Line, gen: Generator, generated: nat)
    requires |lines| == |r.full| && FromSheetOrNew(lines, r.full, gen, r.generated) && generated >= r.generated
    requires added.id == line.id || exists k: nat :: k < generated && added.id == gen(k)
    ensures FromSheetOrNew(lines + [line], r.full + [added], gen, generated)
  {
  }

  lemma ExtendDistinct(full: seq<Line>, added: Line)
    requires DistinctIds(full) && added.id !in Ids(full)
    ensures DistinctIds(full + [added]) && Ids(full + [added]) == Ids(full) + {added.id}
  {
  }

  /** Adding a line whose id is not in the full output yet. */
  lemma Extend(lines: seq<Line>, r: Repair, line: Line, added: Line, valid: Validity, gen: Generator, generated: nat)
    requires RepairOk(lines, r, valid, gen) && added.id !in r.idSet && generated >= r.generated
    requires added.row == line.row && valid(added.id) && added.id != ""
    requires added.id == line.id <==> (valid(line.id) && line.id != "" && IsFirst(lines + [line], |lines|))
    requires added.id == line.id || exists k: nat :: k < generated && added.id == gen(k)
    ensures RepairOk(lines + [line], Repair(
      if added.id == line.id then r.out else r.out + [added],
      r.full + [added], r.idSet + {added.id}, generated), valid, gen)
  {
    hide IsFirst, GoodGenerator, DistinctIds, FromSheetOrNew, Ids;
    var all, full := lines + [line], r.full + [added];
    forall i: nat | i < |all| ensures LineOk(all, full, i, valid) {
      if i < |lines| {
        assert LineOk(lines, r.full, i, valid);
        FirstInPrefix(lines, line, i);
      }
    }
    ExtendFrom(lines, r, line, added, gen, generated);
    ExtendDistinct(r.full, added);
    assert all[..|lines|] == lines && full[..|lines|] == r.full;
  }

  lemma {:induction false} RepairCorrect(lines: seq<Line>, valid: Validity, gen: Generator)
    requires GoodGenerator(lines, valid, gen)
    ensures RepairOk(lines, RepairAll(lines, valid, gen), valid, gen)
    decreases |lines|
  {
    if lines != [] {
      var n := |lines| - 1;
      var before, line, r := lines[..n], lines[n], RepairAll(lines[..n], valid, gen);
      assert lines == before + [line];
      RepairCorrect(before, valid, gen);
      NewIdUnseen(before, r, line, valid, gen);
      if valid(line.id) && line.id != "" { SeenIffNotFirst(before, r, line, valid, gen); }
      if NeedsNewId(line.id, r.idSet, valid) {
        Extend(before, r, line, Line(gen(r.generated), line.row), valid, gen, r.generated + 1);
      } else {
        Extend(before, r, line, line, valid, gen, r.generated);
      }
    }
  }

  /** The full output has one line a row, in order and under the same row numbers, with pairwise
      distinct valid ids; a valid id is kept exactly at its first occurrence; and the short output is
      the replaced rows, in order. */
  lemma IdsAreRepaired(lines: seq<Line>, valid: Validity, gen: Generator)
    requires GoodGenerator(lines, valid, gen)
    ensures var r := RepairAll(lines, valid, gen);
      && |r.full| == |lines| && DistinctIds(r.full)
      && (forall i: nat :: i < |lines| ==> LineOk(lines, r.full, i, valid))
      && r.out == Replaced(lines, r.full)
  {
    RepairCorrect(lines, valid, gen);
  }
}
