/** Form edits of a Google sheet through a stored, possibly stale, row position. */
module GuardedEdits {
  import opened Wrappers
  import Cells
  import PositionIndex

  datatype Cell = Null | Text(s: string) | Number(n: int) | Flag(b: bool)

  /** The cells of a row that are not empty, by column counted from 0. */
  type Row = map<nat, Cell>

  /** Hashed header name -> column. */
  type Headers = map<string, nat>

  type NameHash = string -> string

  const PRIMARY_NAME := "__StarionId"
  const PRIMARY: string := Cells.PRIMARY
  const LAST_HEADER_COLUMN := 26

  datatype Outcome = Done | MetadataDoesNotExist | MetadataDoesNotMatch | CanNotBeDone | Thrown

  /** JavaScript truthiness of a cell value. */
  predicate Truthy(v: Cell) {
    match v
    case Null => false
    case Text(s) => s != ""
    case Number(n) => n != 0
    case Flag(b) => b
  }

  // ---- The header row ----

  datatype HeaderScan = HeaderScan(headers: Headers, names: set<string>)

  /** One header cell: skipped, entered under its name, or, when the name is taken, under `name (1)`.
      None when that is taken too: the search for a free suffix tests the same name for ever. */
  function ScanHeader(scan: HeaderScan, name: string, index: nat, includeId: bool, hash: NameHash): Option<HeaderScan> {
    if name == "" || (!includeId && name == PRIMARY_NAME) then Some(scan)
    else if name !in scan.names then Some(HeaderScan(scan.headers[hash(name) := index], scan.names + {name}))
    else if name + " (1)" in scan.names then None
    else Some(HeaderScan(scan.headers[hash(name + " (1)") := index], scan.names + {name + " (1)"}))
  }

  function ScanHeaders(names: seq<string>, includeId: bool, hash: NameHash): Option<HeaderScan> {
    if names == [] then Some(HeaderScan(map[], {})) else
      var n := |names| - 1;
      match ScanHeaders(names[..n], includeId, hash)
      case None => None
      case Some(scan) => ScanHeader(scan, names[n], n, includeId, hash)
  }

  /** Each column is entered under one name at most. */
  ghost predicate OneNameAColumn(headers: Headers, width: nat) {
    && (forall h <- headers :: headers[h] < width)
    && (forall g <- headers, h <- headers | g != h :: headers[g] != headers[h])
  }

  lemma {:induction false} ScanGivesColumns(names: seq<string>, includeId: bool, hash: NameHash)
    requires ScanHeaders(names, includeId, hash).Some?
    ensures OneNameAColumn(ScanHeaders(names, includeId, hash).value.headers, |names|)
    decreases |names|
  {
    if names != [] {
      ScanGivesColumns(names[..|names| - 1], includeId, hash);
    }
  }

  lemma {:induction false} StuckStaysStuck(names: seq<string>, n: nat, includeId: bool, hash: NameHash)
    requires n <= |names| && ScanHeaders(names[..n], includeId, hash).None?
    ensures ScanHeaders(names, includeId, hash).None?
    decreases |names|
  {
    if n < |names| {
      assert names[..|names| - 1][..n] == names[..n];
      StuckStaysStuck(names[..|names| - 1], n, includeId, hash);
    } else {
      assert names[..n] == names;
    }
  }

  // ---- When the header scan has an end ----

  /** The header cell is not blank and not the id column's where that is left out. */
  predicate Entered(names: seq<string>, i: nat, includeId: bool)
    requires i < |names|
  {
    names[i] != "" && (includeId || names[i] != PRIMARY_NAME)
  }

  /** Before column `n` the name is taken: by its own cell, or as `name (1)` by a repetition. */
  predicate Taken(names: seq<string>, name: string, n: nat, includeId: bool)
    requires n <= |names|
    decreases n, 0
  {
    exists i: nat :: i < n && Entered(names, i, includeId)
      && (names[i] == name || (names[i] + " (1)" == name && Repeats(names, i, includeId)))
  }

  /** The cell repeats an earlier name. */
  predicate Repeats(names: seq<string>, i: nat, includeId: bool)
    requires i < |names|
    decreases i, 1
  {
    Entered(names, i, includeId) && Taken(names, names[i], i, includeId)
  }

  /** A repetition whose `name (1)` is taken as well. */
  predicate IsStuck(names: seq<string>, i: nat, includeId: bool)
    requires i < |names|
  {
    Repeats(names, i, includeId) && Taken(names, names[i] + " (1)", i, includeId)
  }

  /** The scan of the first `n` columns has an end exactly when none of them is stuck, and then has
      entered exactly the taken names. */
  ghost predicate ScanExact(names: seq<string>, n: nat, includeId: bool, hash: NameHash)
    requires n <= |names|
  {
    var scan := ScanHeaders(names[..n], includeId, hash);
    && (scan.Some? <==> forall i: nat :: i < n ==> !IsStuck(names, i, includeId))
    && (scan.Some? ==> forall name :: name in scan.value.names <==> Taken(names, name, n, includeId))
  }

  lemma TakenMore(names: seq<string>, name: string, n: nat, includeId: bool)
    requires n < |names|
    ensures Taken(names, name, n + 1, includeId) <==>
      (Taken(names, name, n, includeId) || (Entered(names, n, includeId)
        && (names[n] == name || (names[n] + " (1)" == name && Repeats(names, n, includeId)))))
  {
  }

  lemma OneMoreColumn(names: seq<string>, n: nat, includeId: bool, hash: NameHash)
    requires n < |names|
    ensures ScanHeaders(names[..n + 1], includeId, hash) ==
      match ScanHeaders(names[..n], includeId, hash)
      case None => None
      case Some(scan) => ScanHeader(scan, names[n], n, includeId, hash)
  {
    assert names[..n + 1][..n] == names[..n];
  }

  lemma {:induction false} ScanIsExact(names: seq<string>, n: nat, includeId: bool, hash: NameHash)
    requires n <= |names|
    ensures ScanExact(names, n, includeId, hash)
  {
    if n > 0 {
      ScanIsExact(names, n - 1, includeId, hash);
      ScanStepExact(names, n - 1, includeId, hash);
    }
  }

  lemma ScanStepExact(names: seq<string>, n: nat, includeId: bool, hash: NameHash)
    requires n < |names| && ScanExact(names, n, includeId, hash)
    ensures ScanExact(names, n + 1, includeId, hash)
  {
    hide ScanHeaders, Taken;
    OneMoreColumn(names, n, includeId, hash);
    forall name
      ensures Taken(names, name, n + 1, includeId) <==>
        (Taken(names, name, n, includeId) || (Entered(names, n, includeId)
          && (names[n] == name || (names[n] + " (1)" == name && Repeats(names, n, includeId)))))
    {
      TakenMore(names, name, n, includeId);
    }
    assert (forall i: nat :: i < n + 1 ==> !IsStuck(names, i, includeId)) <==>
      (forall i: nat :: i < n ==> !IsStuck(names, i, includeId)) && !IsStuck(names, n, includeId);
  }

  /** In terms of the names alone: the scan never ends if and only if some cell repeats an earlier name
      whose `name (1)` is taken too, by its own cell or by an earlier repetition. */
  lemma ScanEndsExactly(names: seq<string>, includeId: bool, hash: NameHash)
    ensures ScanHeaders(names, includeId, hash).None? <==> exists i: nat :: i < |names| && IsStuck(names, i, includeId)
  {
    ScanIsExact(names, |names|, includeId, hash);
    assert names[..|names|] == names;
  }

  /** A third cell of one name makes the scan run for ever, whatever stands between. */
  lemma ThirdNameHangs(names: seq<string>, i: nat, j: nat, k: nat, includeId: bool, hash: NameHash)
    requires i < j < k < |names| && names[i] == names[j] == names[k] && Entered(names, i, includeId)
    ensures ScanHeaders(names, includeId, hash).None?
  {
    ScanEndsExactly(names, includeId, hash);
    assert Taken(names, names[j], j, includeId);
    assert Repeats(names, j, includeId);
    assert Taken(names, names[k], k, includeId);
    assert Taken(names, names[k] + " (1)", k, includeId);
    assert IsStuck(names, k, includeId);
  }

  /** So does a repetition after a cell that holds its `name (1)`, with no name three times. */
  lemma SuffixedNameHangs(hash: NameHash)
    ensures ScanHeaders(["a", "a (1)", "a"], true, hash).None?
    ensures ScanHeaders(["a", "a", "a"], true, hash).None?
  {
    ThirdNameHangs(["a", "a", "a"], 0, 1, 2, true, hash);
    var names := ["a", "a (1)", "a"];
    ScanEndsExactly(names, true, hash);
    assert "a" + " (1)" == "a (1)";
    assert Entered(names, 0, true) && Entered(names, 1, true);
    assert Taken(names, names[2], 2, true) && Taken(names, names[2] + " (1)", 2, true);
    assert IsStuck(names, 2, true);
  }

  // ---- The columns the scan enters ----

  /** The name an entered cell is stored under. */
  function EnteredAs(names: seq<string>, i: nat, includeId: bool): string
    requires i < |names|
  {
    if Repeats(names, i, includeId) then names[i] + " (1)" else names[i]
  }

  /** Among the first `n`, column `i` is the last one entered under this hash. */
  ghost predicate IsColumn(names: seq<string>, n: nat, includeId: bool, hash: NameHash, h: string, i: nat)
    requires n <= |names|
  {
    && i < n && Entered(names, i, includeId) && hash(EnteredAs(names, i, includeId)) == h
    && forall j :: i < j < n && Entered(names, j, includeId) ==> hash(EnteredAs(names, j, includeId)) != h
  }

  /** The scan of the first `n` columns has entered exactly those. */
  ghost predicate ColumnsExact(names: seq<string>, n: nat, includeId: bool, hash: NameHash)
    requires n <= |names|
  {
    var scan := ScanHeaders(names[..n], includeId, hash);
    scan.Some? ==> forall h, i: nat ::
      (h in scan.value.headers && scan.value.headers[h] == i) <==> IsColumn(names, n, includeId, hash, h, i)
  }

  lemma IsColumnMore(names: seq<string>, n: nat, includeId: bool, hash: NameHash, h: string, i: nat)
    requires n < |names|
    ensures IsColumn(names, n + 1, includeId, hash, h, i) <==>
      if Entered(names, n, includeId) && hash(EnteredAs(names, n, includeId)) == h then i == n
      else IsColumn(names, n, includeId, hash, h, i)
  {
    hide EnteredAs, Entered;
  }

  lemma ScanStepColumns(names: seq<string>, n: nat, includeId: bool, hash: NameHash)
    requires n < |names| && ScanExact(names, n, includeId, hash) && ColumnsExact(names, n, includeId, hash)
    ensures ColumnsExact(names, n + 1, includeId, hash)
  {
    hide ScanHeaders, Taken, IsColumn;
    OneMoreColumn(names, n, includeId, hash);
    var m := n + 1;
    var before, after := ScanHeaders(names[..n], includeId, hash), ScanHeaders(names[..m], includeId, hash);
    if after.Some? {
      assert after.value.headers == if Entered(names, n, includeId)
        then before.value.headers[hash(EnteredAs(names, n, includeId)) := n] else before.value.headers;
      forall h, i: nat
        ensures (h in after.value.headers && after.value.headers[h] == i) <==>
          IsColumn(names, m, includeId, hash, h, i)
      {
        IsColumnMore(names, n, includeId, hash, h, i);
        assert (h in before.value.headers && before.value.headers[h] == i) <==>
          IsColumn(names, n, includeId, hash, h, i);
      }
    }
  }

  lemma {:induction false} ScanColumns(names: seq<string>, n: nat, includeId: bool, hash: NameHash)
    requires n <= |names|
    ensures ColumnsExact(names, n, includeId, hash)
  {
    if n > 0 {
      ScanColumns(names, n - 1, includeId, hash);
      ScanIsExact(names, n - 1, includeId, hash);
      ScanStepColumns(names, n - 1, includeId, hash);
    }
  }

  /** Where the scan ends, the headers map a hash to a column exactly when that column is the last one
      entered under it, whatever the hash: under its name, or for a repetition under `name (1)`. */
  lemma HeadersExact(names: seq<string>, includeId: bool, hash: NameHash, h: string, i: nat)
    requires ScanHeaders(names, includeId, hash).Some?
    ensures var headers := ScanHeaders(names, includeId, hash).value.headers;
      (h in headers && headers[h] == i) <==> IsColumn(names, |names|, includeId, hash, h, i)
  {
    hide IsColumn, ScanHeaders;
    ScanColumns(names, |names|, includeId, hash);
    assert names[..|names|] == names;
  }

  /** The hash tells the names under which columns are entered. */
  ghost predicate TellsNames(names: seq<string>, includeId: bool, hash: NameHash) {
    forall i: nat, j: nat
      | i < |names| && j < |names| && Entered(names, i, includeId) && Entered(names, j, includeId) ::
      hash(EnteredAs(names, i, includeId)) == hash(EnteredAs(names, j, includeId)) ==>
        EnteredAs(names, i, includeId) == EnteredAs(names, j, includeId)
  }

  lemma EnteredOnce(names: seq<string>, i: nat, j: nat, includeId: bool)
    requires i < j < |names| && Entered(names, i, includeId) && Entered(names, j, includeId)
    requires !IsStuck(names, j, includeId)
    ensures EnteredAs(names, i, includeId) != EnteredAs(names, j, includeId)
  {
    assert Taken(names, EnteredAs(names, i, includeId), j, includeId);
  }

  /** With such a hash, every entered cell has its own column under the hash of its name, or for a
      repetition of `name (1)`, and there is no other key. */
  lemma ColumnsByName(names: seq<string>, includeId: bool, hash: NameHash)
    requires ScanHeaders(names, includeId, hash).Some? && TellsNames(names, includeId, hash)
    ensures var headers := ScanHeaders(names, includeId, hash).value.headers;
      && (forall i: nat :: i < |names| && Entered(names, i, includeId) ==>
            hash(EnteredAs(names, i, includeId)) in headers && headers[hash(EnteredAs(names, i, includeId))] == i)
      && (forall h <- headers :: exists i: nat ::
            i < |names| && Entered(names, i, includeId) && h == hash(EnteredAs(names, i, includeId)))
  {
    hide EnteredAs, Entered, ScanHeaders, IsStuck;
    ScanEndsExactly(names, includeId, hash);
    var headers := ScanHeaders(names, includeId, hash).value.headers;
    forall i: nat | i < |names| && Entered(names, i, includeId)
      ensures hash(EnteredAs(names, i, includeId)) in headers && headers[hash(EnteredAs(names, i, includeId))] == i
    {
      var h := hash(EnteredAs(names, i, includeId));
      forall j | i < j < |names| && Entered(names, j, includeId) ensures hash(EnteredAs(names, j, includeId)) != h {
        EnteredOnce(names, i, j, includeId);
      }
      HeadersExact(names, includeId, hash, h, i);
    }
    forall h <- headers
      ensures exists i: nat :: i < |names| && Entered(names, i, includeId) && h == hash(EnteredAs(names, i, includeId))
    {
      HeadersExact(names, includeId, hash, h, headers[h]);
    }
  }

  // ---- The id column ----

  /** The first header cell that reads `__StarionId`, within the columns that are read. */
  predicate IsIdColumn(header: seq<string>, c: nat) {
    c < 26 && c < |header| && header[c] == "__StarionId" && "__StarionId" !in header[..c]
  }

  /** The key of the id column is the hash of its name and of no other name entered. */
  ghost predicate TellsId(names: seq<string>, hash: NameHash) {
    && hash("__StarionId") == PRIMARY
    && forall i: nat :: i < |names| && Entered(names, i, true) && hash(EnteredAs(names, i, true)) == PRIMARY ==>
         EnteredAs(names, i, true) == "__StarionId"
  }

  lemma NotSuffixed(name: string)
    ensures name + " (1)" != "__StarionId"
  {
    var s := name + " (1)";
    assert s[|s| - 1] == ')' && "__StarionId"[|"__StarionId"| - 1] == 'd';
  }

  /** The id's name is entered exactly by its first cell. */
  lemma IdEntered(names: seq<string>, c: nat)
    requires c < |names|
    ensures Entered(names, c, true) && EnteredAs(names, c, true) == "__StarionId" <==>
      names[c] == "__StarionId" && "__StarionId" !in names[..c]
  {
    NotSuffixed(names[c]);
    forall i: nat | i < c ensures names[i] + " (1)" != "__StarionId" { NotSuffixed(names[i]); }
    if names[c] == "__StarionId" {
      assert Taken(names, "__StarionId", c, true) <==> "__StarionId" in names[..c] by {
        if "__StarionId" in names[..c] {
          var i :| 0 <= i < c && names[..c][i] == "__StarionId";
          assert names[i] == "__StarionId" && Entered(names, i, true);
        }
      }
    }
  }

  /** The headers give the id column as the first cell with the id's name. */
  lemma IdColumnExact(names: seq<string>, hash: NameHash, c: nat)
    requires ScanHeaders(names, true, hash).Some? && TellsId(names, hash)
    ensures var headers := ScanHeaders(names, true, hash).value.headers;
      (PRIMARY in headers && headers[PRIMARY] == c) <==>
        c < |names| && names[c] == "__StarionId" && "__StarionId" !in names[..c]
  {
    hide EnteredAs, Entered, ScanHeaders;
    HeadersExact(names, true, hash, PRIMARY, c);
    forall i: nat | i < |names|
      ensures Entered(names, i, true) && EnteredAs(names, i, true) == "__StarionId" <==>
        names[i] == "__StarionId" && "__StarionId" !in names[..i]
    {
      IdEntered(names, i);
    }
    if c < |names| && names[c] == "__StarionId" {
      forall j | c < j < |names| ensures "__StarionId" in names[..j] { assert names[..j][c] == names[c]; }
    }
  }

  class FormSync {
    const hash: NameHash
    var header: seq<string>
    var rows: seq<Row>
    var rowPos: map<string, nat>
    var rowCount: nat

    constructor (hash: NameHash, header: seq<string>, rows: seq<Row>, rowPos: map<string, nat>, rowCount: nat)
      ensures this.hash == hash && this.header == header && this.rows == rows
      ensures this.rowPos == rowPos && this.rowCount == rowCount
    {
      this.hash, this.header, this.rows, this.rowPos, this.rowCount := hash, header, rows, rowPos, rowCount;
    }

    /** The first 26 header cells. */
    function HeaderValues(): seq<string>
      reads this`header
    {
      if |header| <= LAST_HEADER_COLUMN then header else header[..LAST_HEADER_COLUMN]
    }

    /** The columns by hashed name: None when there is no header row to read or the scan never ends. */
    function HashedHeaders(includeId: bool): Option<Headers>
      reads this`header
    {
      if header == [] then None else
        match ScanHeaders(HeaderValues(), includeId, hash)
        case None => None
        case Some(scan) => Some(scan.headers)
    }

    method GetHashedHeaders(includeId: bool) returns (r: Option<Headers>)
      ensures r == HashedHeaders(includeId)
      ensures r.Some? ==> OneNameAColumn(r.value, LAST_HEADER_COLUMN)
    {
      if header == [] { return None; }
      var values := HeaderValues();
      var scan := HeaderScan(map[], {});
      for index := 0 to |values|
        invariant ScanHeaders(values[..index], includeId, hash) == Some(scan)
      {
        assert values[..index + 1][..index] == values[..index];
        var next := ScanHeader(scan, values[index], index, includeId, hash);
        if next.None? {
          StuckStaysStuck(values, index + 1, includeId, hash);
          return None;
        }
        scan := next.value;
      }
      assert values[..|values|] == values;
      ScanGivesColumns(values, includeId, hash);
      r := Some(scan.headers);
    }

    /** The cell of the sheet's row `position`, where the header is row 1. */
    function CellValue(position: nat, column: nat): Cell
      reads this
      requires position >= 2 && column >= 1
    {
      if position - 2 < |rows| && column - 1 in rows[position - 2] then rows[position - 2][column - 1] else Null
    }

    /** The guard of a delete or an update: Done when the stored position is of a row that holds the id.
        A stored position 0 and an id column 0 read as missing. */
    function Guard(rowId: string): Outcome
      reads this
    {
      match HashedHeaders(true)
      case None => Thrown
      case Some(headers) =>
        if rowId !in rowPos || rowPos[rowId] == 0 then MetadataDoesNotExist
        else if PRIMARY !in headers || headers[PRIMARY] == 0 then CanNotBeDone
        else if CellValue(rowPos[rowId] + 1, headers[PRIMARY] + 1) == Text(rowId) then Done
        else MetadataDoesNotMatch
    }

    /** Row `i` of the data holds the id in the id column. */
    predicate HoldsId(i: nat, rowId: string)
      reads this
    {
      && HashedHeaders(true).Some? && PRIMARY in HashedHeaders(true).value
      && i < |rows| && HashedHeaders(true).value[PRIMARY] in rows[i]
      && rows[i][HashedHeaders(true).value[PRIMARY]] == Text(rowId)
    }

    /** The hash tells the id column among the headers that are read. */
    ghost predicate TellsIdColumn()
      reads this`header
    {
      TellsId(HeaderValues(), hash)
    }

    /** A new row holds the record id below the id's header cell, where the hash tells that column; without
        a record id it has no cell below any header cell of that name. */
    ghost predicate IdBelow(row: Row, recordId: Option<string>)
      reads this`header
    {
      match recordId
      case Some(id) => TellsIdColumn() ==> forall c: nat :: IsIdColumn(header, c) ==> c in row && row[c] == Text(id)
      case None => forall c: nat :: c < |header| && header[c] == "__StarionId" ==> c !in row
    }

    /** The scan ends, the stored position is of a row with the id below the cell `__StarionId`, and that
        cell is not in the first column. */
    ghost predicate IsFoundBelow(rowId: string)
      reads this
    {
      && HashedHeaders(true).Some? && rowId in rowPos && rowPos[rowId] > 0
      && exists c: nat :: c > 0 && IsIdColumn(header, c) && CellIs(rows, rowPos[rowId] - 1, c, rowId)
    }

    method CheckRow(rowId: string) returns (r: Outcome, headers: Headers, pos: nat)
      ensures r == Guard(rowId)
      ensures r.Done? ==> HashedHeaders(true) == Some(headers) && OneNameAColumn(headers, LAST_HEADER_COLUMN)
      ensures r.Done? ==> PRIMARY in headers && rowId in rowPos && pos == rowPos[rowId]
      ensures r.Done? ==> 1 <= pos <= |rows| && HoldsId(pos - 1, rowId)
    {
      headers, pos := map[], 0;
      var scanned := GetHashedHeaders(true);
      if scanned.None? { return Thrown, headers, pos; }
      headers := scanned.value;
      if rowId !in rowPos || rowPos[rowId] == 0 { return MetadataDoesNotExist, headers, pos; }
      pos := rowPos[rowId];
      if PRIMARY !in headers || headers[PRIMARY] == 0 { return CanNotBeDone, headers, pos; }
      var current := CellValue(pos + 1, headers[PRIMARY] + 1);
      r := if current == Text(rowId) then Done else MetadataDoesNotMatch;
    }

    /** The stored position is of a row that holds the id, and the id column is not the first. */
    predicate IsFound(rowId: string)
      reads this
    {
      && rowId in rowPos && rowPos[rowId] > 0 && HoldsId(rowPos[rowId] - 1, rowId)
      && HashedHeaders(true).value[PRIMARY] > 0
    }

    /** Whatever the stored position, a delete removes exactly one row, which holds the id, or nothing. It
        does exactly when the row is found. */
    method HandleDelete(rowId: string) returns (r: Outcome)
      modifies this`rows
      ensures r == old(Guard(rowId)) && (r.Done? <==> old(IsFound(rowId)))
      ensures TellsIdColumn() ==> (r.Done? <==> old(IsFoundBelow(rowId)))
      ensures r.Done? ==> var i := rowPos[rowId] - 1;
        0 <= i < |old(rows)| && old(HoldsId(rowPos[rowId] - 1, rowId)) && rows == old(rows)[..i] + old(rows)[i + 1..]
      ensures !r.Done? ==> rows == old(rows)
    {
      hide FormSync.HashedHeaders, FormSync.Guard, FormSync.HoldsId, FormSync.IsFound, FormSync.IsFoundBelow,
           FormSync.TellsIdColumn;
      GuardExact(this, rowId);
      if TellsIdColumn() { FoundBelow(this, rowId); }
      var headers, pos;
      r, headers, pos := CheckRow(rowId);
      if r.Done? {
        rows := rows[..pos - 1] + rows[pos..];
      }
    }

    /** The new values of a row: a header's value where it is truthy, never in the id column. */
    static function Updates(headers: Headers, data: map<string, Cell>, header: string): bool {
      header in headers && header != PRIMARY && header in data && Truthy(data[header])
    }

    method FillValues(headers: Headers, data: map<string, Cell>) returns (values: seq<Option<Cell>>, updateCount: nat)
      requires OneNameAColumn(headers, LAST_HEADER_COLUMN) && headers != map[]
      ensures |values| <= LAST_HEADER_COLUMN
      ensures forall h <- headers :: headers[h] < |values|
      ensures forall h <- headers :: values[headers[h]] == if Updates(headers, data, h) then Some(data[h]) else None
      ensures forall c :: 0 <= c < |values| && values[c].Some? ==>
        exists h <- headers :: headers[h] == c && Updates(headers, data, h)
      ensures updateCount > 0 <==> exists h <- headers :: Updates(headers, data, h)
    {
      var last := LastColumn(headers);
      values := seq(last + 1, _ => None);
      updateCount := 0;
      var todo := headers.Keys;
      while todo != {}
        invariant todo <= headers.Keys && |values| == last + 1
        invariant forall h <- headers ::
          values[headers[h]] == if h !in todo && Updates(headers, data, h) then Some(data[h]) else None
        invariant forall c :: 0 <= c < |values| && values[c].Some? ==>
          exists h <- headers :: headers[h] == c && Updates(headers, data, h)
        invariant updateCount > 0 <==> exists h <- headers :: h !in todo && Updates(headers, data, h)
      {
        var h :| h in todo;
        if h in data && Truthy(data[h]) && h != PRIMARY {
          values := values[headers[h] := Some(data[h])];
          updateCount := updateCount + 1;
        }
        todo := todo - {h};
      }
    }

    static method LastColumn(headers: Headers) returns (last: nat)
      requires headers != map[]
      ensures (exists h <- headers :: headers[h] == last) && forall h <- headers :: headers[h] <= last
    {
      var todo := headers.Keys;
      var first :| first in todo;
      last := headers[first];
      while todo != {}
        invariant todo <= headers.Keys && exists h <- headers :: headers[h] == last
        invariant forall h <- headers :: h !in todo ==> headers[h] <= last
      {
        var h :| h in todo;
        if headers[h] > last { last := headers[h]; }
        todo := todo - {h};
      }
    }

    /** Writes the values that are given; the others leave their cells as they are. */
    static method UpdateRange(row: Row, values: seq<Option<Cell>>) returns (r: Row)
      ensures forall c :: 0 <= c < |values| && values[c].Some? ==> c in r && r[c] == values[c].value
      ensures forall c: nat :: !(c < |values| && values[c].Some?) ==> SameCell(r, row, c)
    {
      r := row;
      for c := 0 to |values|
        invariant forall k :: 0 <= k < c && values[k].Some? ==> k in r && r[k] == values[k].value
        invariant forall k: nat :: !(k < c && values[k].Some?) ==> SameCell(r, row, k)
      {
        ghost var before := r;
        if values[c].Some? { r := r[c := values[c].value]; }
        forall k: nat | !(k <= c && values[k].Some?) ensures SameCell(r, row, k) {
          assert SameCell(before, row, k);
        }
      }
    }

    /** Whatever the stored position, an update changes one row that holds the id, only in the columns
        of headers with a truthy value, never the id itself; or it changes nothing. */
    method HandleUpdate(rowId: string, data: map<string, Cell>) returns (r: Outcome)
      modifies this`rows
      ensures r.Done? <==> old(IsFound(rowId)) && AnyUpdate(old(HashedHeaders(true)).value, data)
      ensures r.Done? && TellsIdColumn() ==> old(IsFoundBelow(rowId)) && IsFoundBelow(rowId)
      ensures r == if old(Guard(rowId)).Done? && !AnyUpdate(old(HashedHeaders(true).value), data)
                   then CanNotBeDone else old(Guard(rowId))
      ensures r.Done? ==> var i := rowPos[rowId] - 1;
        && 0 <= i < |old(rows)| == |rows| && old(HoldsId(rowPos[rowId] - 1, rowId)) && HoldsId(i, rowId)
        && EditedRow(old(rows)[i], rows[i], HashedHeaders(true).value, data)
        && forall j :: 0 <= j < |rows| && j != i ==> rows[j] == old(rows)[j]
      ensures !r.Done? ==> rows == old(rows)
    {
      hide FormSync.HashedHeaders, FormSync.Guard, OneNameAColumn, EditedRow, FormSync.IsFoundBelow,
           FormSync.TellsIdColumn, SameCell;
      GuardExact(this, rowId);
      if TellsIdColumn() { FoundBelow(this, rowId); }
      var headers, pos;
      r, headers, pos := CheckRow(rowId);
      if r.Done? {
        var values, updateCount := FillValues(headers, data);
        if updateCount == 0 { return CanNotBeDone; }
        var row := UpdateRange(rows[pos - 1], values);
        ValuesEdit(rows[pos - 1], row, headers, data, values);
        IdCellKept(rows[pos - 1], row, headers, data);
        rows := rows[pos - 1 := row];
        if TellsIdColumn() { FoundBelow(this, rowId); }
      }
    }

    method FillInsert(headers: Headers, data: map<string, Cell>) returns (values: seq<Option<Cell>>, insertCount: nat)
      requires OneNameAColumn(headers, LAST_HEADER_COLUMN) && headers != map[]
      ensures forall h <- headers :: headers[h] < |values|
      ensures forall h <- headers :: values[headers[h]] == if h in data && !data[h].Null? then Some(data[h]) else None
      ensures forall c :: 0 <= c < |values| && values[c].Some? ==> exists h <- headers :: headers[h] == c
      ensures insertCount > 0 <==> exists h <- headers :: h in data
    {
      var last := LastColumn(headers);
      values := seq(last + 1, _ => None);
      insertCount := 0;
      var todo := headers.Keys;
      while todo != {}
        invariant todo <= headers.Keys && |values| == last + 1
        invariant forall h <- headers ::
          values[headers[h]] == if h !in todo && h in data && !data[h].Null? then Some(data[h]) else None
        invariant forall c :: 0 <= c < |values| && values[c].Some? ==> exists h <- headers :: headers[h] == c
        invariant insertCount > 0 <==> exists h <- headers :: h !in todo && h in data
      {
        var h :| h in todo;
        if h in data {
          values := values[headers[h] := if data[h].Null? then None else Some(data[h])];
          insertCount := insertCount + 1;
        }
        todo := todo - {h};
      }
    }

    /** An insert adds one row at the stored row count, with the given cells under their headers and the
        record id in the id column, and leaves every other row as it is; or it changes nothing. */
    method HandleInsert(recordId: Option<string>, data: map<string, Cell>) returns (r: Outcome)
      modifies this`rows, this`rowCount
      ensures r.Done? ==> var at := old(rowCount) - 1; var headers := HashedHeaders(recordId.Some?);
        && 0 <= at <= |old(rows)| && |rows| == |old(rows)| + 1
        && rows[..at] == old(rows)[..at] && rows[at + 1..] == old(rows)[at..]
        && headers.Some? && NewRow(rows[at], headers.value, data, recordId)
        && rowCount == old(rowCount) + 1
      ensures r.Done? ==> IdBelow(rows[old(rowCount) - 1], recordId)
      ensures !r.Done? ==> rows == old(rows) && rowCount == old(rowCount)
      ensures var headers := HashedHeaders(recordId.Some?);
        r == (if headers.None? then Thrown
              else if old(rowCount) == 0 then MetadataDoesNotExist
              else if headers.value == map[] then Thrown
              else if forall h <- headers.value :: !IsGiven(h, data, recordId) then CanNotBeDone
              else if old(rowCount) > |old(rows)| + 1 then Thrown
              else Done)
    {
      WithIdKeys(data, recordId);
      hide FormSync.HashedHeaders, WithId, NewRow, OneNameAColumn, FormSync.IdBelow;
      var scanned := GetHashedHeaders(recordId.Some?);
      if scanned.None? { return Thrown; }
      var headers := scanned.value;
      if rowCount == 0 { return MetadataDoesNotExist; }
      if headers == map[] { return Thrown; }
      var given := WithId(data, recordId);
      var values, insertCount := FillInsert(headers, given);
      if insertCount == 0 { return CanNotBeDone; }
      var at := rowCount - 1;
      if at > |rows| { return Thrown; }
      var row := UpdateRange(map[], values);
      ValuesInsert(row, headers, data, recordId, values);
      IdGiven(this, row, data, recordId);
      rows := rows[..at] + [row] + rows[at..];
      rowCount := rowCount + 1;
      r := Done;
    }
  }

  // ---- When the guard lets an edit through ----

  /** Each outcome of the guard, in terms of the sheet and the stored position. */
  lemma GuardExact(f: FormSync, rowId: string)
    ensures f.Guard(rowId) == Done <==> f.IsFound(rowId)
    ensures f.Guard(rowId) == Thrown <==> f.HashedHeaders(true).None?
    ensures f.Guard(rowId) == MetadataDoesNotExist <==>
      f.HashedHeaders(true).Some? && (rowId !in f.rowPos || f.rowPos[rowId] == 0)
    ensures f.Guard(rowId) == MetadataDoesNotMatch <==>
      f.HashedHeaders(true).Some? && rowId in f.rowPos && f.rowPos[rowId] > 0
      && PRIMARY in f.HashedHeaders(true).value && f.HashedHeaders(true).value[PRIMARY] > 0
      && !f.HoldsId(f.rowPos[rowId] - 1, rowId)
  {
    hide FormSync.HashedHeaders;
  }

  /** The headers that are read give the first cell `__StarionId` as the id column. */
  lemma IdColumnOf(f: FormSync, c: nat)
    requires f.HashedHeaders(true).Some? && f.TellsIdColumn()
    ensures var headers := f.HashedHeaders(true).value;
      (PRIMARY in headers && headers[PRIMARY] == c) <==> IsIdColumn(f.header, c)
  {
    hide ScanHeaders, TellsId;
    IdColumnExact(f.HeaderValues(), f.hash, c);
    if c < |f.HeaderValues()| { assert f.HeaderValues()[..c] == f.header[..c]; }
  }

  lemma IdGiven(f: FormSync, row: Row, data: map<string, Cell>, recordId: Option<string>)
    requires f.HashedHeaders(recordId.Some?).Some?
    requires NewRow(row, f.HashedHeaders(recordId.Some?).value, data, recordId)
    ensures f.IdBelow(row, recordId)
  {
    hide FormSync.HashedHeaders, IsIdColumn, FormSync.TellsIdColumn;
    if recordId.None? {
      IdLeftOut(f, row, data);
    } else if f.TellsIdColumn() {
      forall c: nat { IdColumnOf(f, c); }
    }
  }

  /** A new row without a record id has no cell below any header cell with the id's name. */
  lemma IdLeftOut(f: FormSync, row: Row, data: map<string, Cell>)
    requires f.HashedHeaders(false).Some? && NewRow(row, f.HashedHeaders(false).value, data, None)
    ensures forall c: nat :: c < |f.header| && f.header[c] == "__StarionId" ==> c !in row
  {
    var headers, names := f.HashedHeaders(false).value, f.HeaderValues();
    forall c: nat | c < |f.header| && f.header[c] == "__StarionId" ensures c !in row {
      if c in row {
        var h :| h in headers && headers[h] == c;
        HeadersExact(names, false, f.hash, h, c);
      }
    }
  }

  /** When the row of the stored position is found, in terms of the header cells. */
  lemma FoundBelow(f: FormSync, rowId: string)
    requires f.TellsIdColumn()
    ensures f.IsFound(rowId) <==> f.IsFoundBelow(rowId)
  {
    hide FormSync.HashedHeaders, IsIdColumn, FormSync.TellsIdColumn;
    if f.HashedHeaders(true).Some? {
      forall c: nat { IdColumnOf(f, c); }
      if f.IsFound(rowId) {
        var c := f.HashedHeaders(true).value[PRIMARY];
        assert IsIdColumn(f.header, c) && CellIs(f.rows, f.rowPos[rowId] - 1, c, rowId);
      }
    }
  }

  /** There are headers to work with exactly when there is a header row and the scan of its first 26
      cells ends. */
  lemma HeadersRead(f: FormSync, includeId: bool)
    ensures f.HashedHeaders(includeId).None? <==>
      f.header == [] || exists i: nat :: i < |f.HeaderValues()| && IsStuck(f.HeaderValues(), i, includeId)
    ensures |f.HeaderValues()| == if |f.header| < 26 then |f.header| else 26
    ensures f.HeaderValues() <= f.header
  {
    ScanEndsExactly(f.HeaderValues(), includeId, f.hash);
    hide IsStuck, ScanHeaders;
  }

  /** A sheet whose id column is the first: its one row is at the stored position and holds the id, and the
      delete is refused. */
  method IdInFirstColumn(hash: NameHash) returns (f: FormSync, r: Outcome)
    requires hash("__StarionId") == PRIMARY
    ensures f.header == ["__StarionId"] && f.rowPos == map["r" := 1] && f.rows == [map[0 := Text("r")]]
    ensures f.HoldsId(0, "r")
    ensures r == CanNotBeDone
  {
    f := new FormSync(hash, ["__StarionId"], [map[0 := Text("r")]], map["r" := 1], 2);
    assert f.HeaderValues() == ["__StarionId"] && ["__StarionId"][..0] == [];
    assert ScanHeaders([], true, hash) == Some(HeaderScan(map[], {}));
    assert ScanHeaders(["__StarionId"], true, hash).value.headers == map[PRIMARY := 0];
    r := f.HandleDelete("r");
  }

  // ---- What an edit of a row means ----

  /** Row `i` holds the text in column `c`. */
  predicate CellIs(rows: seq<Row>, i: nat, c: nat, text: string) {
    i < |rows| && c in rows[i] && rows[i][c] == Text(text)
  }

  predicate SameCell(a: Row, b: Row, c: nat) {
    (c in a <==> c in b) && (c in a && c in b ==> a[c] == b[c])
  }

  ghost predicate AnyUpdate(headers: Headers, data: map<string, Cell>) {
    exists h <- headers :: FormSync.Updates(headers, data, h)
  }

  ghost predicate Touched(headers: Headers, data: map<string, Cell>, c: nat) {
    exists h <- headers :: headers[h] == c && FormSync.Updates(headers, data, h)
  }

  ghost predicate EditedRow(before: Row, after: Row, headers: Headers, data: map<string, Cell>) {
    && (forall h <- headers | FormSync.Updates(headers, data, h) ::
          headers[h] in after && after[headers[h]] == data[h])
    && (forall c: nat :: !Touched(headers, data, c) ==> SameCell(after, before, c))
  }

  function WithId(data: map<string, Cell>, recordId: Option<string>): map<string, Cell> {
    if recordId.Some? then data[PRIMARY := Text(recordId.value)] else data
  }

  /** A value is given for the header: in the data, or as the record id. */
  predicate IsGiven(h: string, data: map<string, Cell>, recordId: Option<string>) {
    h in data || (recordId.Some? && h == PRIMARY)
  }

  lemma WithIdKeys(data: map<string, Cell>, recordId: Option<string>)
    ensures forall h :: h in WithId(data, recordId) <==> IsGiven(h, data, recordId)
  {
  }

  /** The id column holds the record id if there is one, whatever the data say; every other column holds
      what the data give for its header, and nothing where they give nothing or null. */
  ghost predicate NewRow(row: Row, headers: Headers, data: map<string, Cell>, recordId: Option<string>) {
    && (recordId.Some? && PRIMARY in headers ==>
          headers[PRIMARY] in row && row[headers[PRIMARY]] == Text(recordId.value))
    && (forall h <- headers | h != PRIMARY || recordId.None? ::
          && (headers[h] in row <==> h in data && !data[h].Null?)
          && (headers[h] in row && h in data ==> row[headers[h]] == data[h]))
    && (forall c <- row :: exists h <- headers :: headers[h] == c)
  }

  lemma ValuesEdit(before: Row, after: Row, headers: Headers, data: map<string, Cell>, values: seq<Option<Cell>>)
    requires forall h <- headers :: headers[h] < |values|
    requires forall h <- headers ::
      values[headers[h]] == if FormSync.Updates(headers, data, h) then Some(data[h]) else None
    requires forall c :: 0 <= c < |values| && values[c].Some? ==>
      exists h <- headers :: headers[h] == c && FormSync.Updates(headers, data, h)
    requires forall c :: 0 <= c < |values| && values[c].Some? ==> c in after && after[c] == values[c].value
    requires forall c: nat :: !(c < |values| && values[c].Some?) ==> SameCell(after, before, c)
    ensures EditedRow(before, after, headers, data)
  {
  }

  lemma ValuesInsert(row: Row, headers: Headers, data: map<string, Cell>, recordId: Option<string>,
      values: seq<Option<Cell>>)
    requires forall h <- headers :: headers[h] < |values|
    requires var given := WithId(data, recordId);
      forall h <- headers :: values[headers[h]] == if h in given && !given[h].Null? then Some(given[h]) else None
    requires forall c :: 0 <= c < |values| && values[c].Some? ==> exists h <- headers :: headers[h] == c
    requires forall c :: 0 <= c < |values| && values[c].Some? ==> c in row && row[c] == values[c].value
    requires forall c: nat :: !(c < |values| && values[c].Some?) ==> SameCell(row, map[], c)
    ensures NewRow(row, headers, data, recordId)
  {
  }

  /** An edit never reaches the id cell: no other header shares its column. */
  lemma IdCellKept(before: Row, after: Row, headers: Headers, data: map<string, Cell>)
    requires OneNameAColumn(headers, LAST_HEADER_COLUMN) && PRIMARY in headers
    requires EditedRow(before, after, headers, data)
    ensures SameCell(after, before, headers[PRIMARY])
  {
  }

  /** The sheet's id column, below the header line, is `ids`. */
  ghost predicate IdColumnIs(f: FormSync, ids: seq<string>)
    reads f
  {
    && f.HashedHeaders(true).Some? && PRIMARY in f.HashedHeaders(true).value
    && f.HashedHeaders(true).value[PRIMARY] > 0 && |ids| == |f.rows| + 1
    && forall n :: 1 <= n < |ids| ==> f.HoldsId(n - 1, ids[n])
  }

  /** Right after a refresh of the index from the id column, in whatever order its writes were carried
      out, the guard lets an edit of every listed id through. */
  lemma FreshIndexPasses(f: FormSync, ids: seq<string>, stored: PositionIndex.Index,
      writes: seq<PositionIndex.Write>, valid: PositionIndex.Validity, n: nat)
    requires IdColumnIs(f, ids) && PositionIndex.DistinctIds(ids, valid)
    requires PositionIndex.SameWrites(writes, stored, ids, valid)
    requires var index := PositionIndex.ApplyAll(stored, writes);
      forall id <- index :: id in f.rowPos && f.rowPos[id] == index[id]
    requires 1 <= n < |ids| && valid(ids[n])
    ensures f.Guard(ids[n]) == Done
  {
    hide PositionIndex.ApplyAll, PositionIndex.SameWrites, PositionIndex.DistinctIds, FormSync.HashedHeaders;
    PositionIndex.RefreshIsRebuild(writes, stored, ids, valid);
    assert f.HoldsId(n - 1, ids[n]);
  }

  /** A requested value arrives if and only if it is truthy or already there: an update to 0, false or
      the empty text is dropped. */
  lemma UpdateArrives(before: Row, after: Row, headers: Headers, data: map<string, Cell>, h: string)
    requires OneNameAColumn(headers, LAST_HEADER_COLUMN) && EditedRow(before, after, headers, data)
    requires h in headers && h in data && h != PRIMARY
    ensures (headers[h] in after && after[headers[h]] == data[h])
       <==> (data[h] !in {Null, Text(""), Number(0), Flag(false)}
             || (headers[h] in before && before[headers[h]] == data[h]))
  {
    if !Truthy(data[h]) {
      assert !Touched(headers, data, headers[h]);
    }
  }

  /** With an id on one row only, no row holds it after its row is removed. */
  lemma DeletedIdIsGone(rows: seq<Row>, i: nat, column: nat, rowId: string)
    requires i < |rows| && column in rows[i] && rows[i][column] == Text(rowId)
    requires forall j, k :: 0 <= j < k < |rows| && column in rows[j] && column in rows[k] ==>
      rows[j][column] != rows[k][column]
    ensures forall row <- rows[..i] + rows[i + 1..] :: !(column in row && row[column] == Text(rowId))
  {
  }
}
