/** The addresses under which the id batches are sent, and the cells those name. */
module RangeAddresses {
  import opened Wrappers
  import opened ColumnNames
  import opened IdBatches
  import Headers

  // ---- Addresses ----

  function Itoa(n: int): string {
    if n < 0 then "-" + Headers.Decimal(-n) else Headers.Decimal(n)
  }

  function Notation(row: int, column: int): string {
    A1Column(column) + Itoa(row)
  }

  /** The cells of one column from row `first` to row `last`: none when `last` is above `first`. */
  datatype Range = Range(column: int, first: int, last: int) {
    function Address(): string {
      Notation(first, column) + ":" + Notation(last, column)
    }
  }

  /** The text names the cell: read back, it gives column and row again. */
  method ConvertToA1Notation(row: int, column: int) returns (s: string)
    ensures s == Notation(row, column)
    ensures column >= 1 ==> ReadCell(s) == Some((column, row))
  {
    if column >= 1 { NotationReads(row, column); }
    var columnStr := ConvertToA1Column(column);
    s := columnStr + Itoa(row);
  }

  /** The request bodies by address. */
  type Requests = map<string, seq<Id>>

  function RangeOf(column: int, first: int, ids: seq<Id>): Range {
    Range(column, first, first + |ids| - 1)
  }

  /** One request for each batch in `done`, and no other. */
  ghost predicate RequestsFor(requests: Requests, data: Batches, column: int) {
    && (forall first <- data :: RangeOf(column, first, data[first]).Address() in requests
          && requests[RangeOf(column, first, data[first]).Address()] == data[first])
    && (forall address <- requests :: exists first <- data :: address == RangeOf(column, first, data[first]).Address())
  }

  lemma AddressText(column: int, first: int, ids: seq<Id>)
    ensures RangeOf(column, first, ids).Address() ==
      Notation(first, column) + ":" + Notation(first + |ids| - 1, column)
  {
  }

  lemma SameRequests(requests: Requests, a: Batches, b: Batches, column: int)
    requires RequestsFor(requests, a, column)
    requires (forall first <- a :: first in b && a[first] == b[first]) && (forall first <- b :: first in a)
    ensures RequestsFor(requests, b, column)
  {
  }

  lemma NoRequests(column: int)
    ensures RequestsFor(map[], map[], column)
  {
  }

  method GenerateUpdateDataInJson(data: Batches, idColIndex: int) returns (result: Requests)
    ensures RequestsFor(result, data, idColIndex)
  {
    hide RequestsFor, Range.Address;
    NoRequests(idColIndex);
    result := map[];
    ghost var done: Batches := map[];
    var todo := data.Items;
    while todo != {}
      invariant todo <= data.Items && done.Keys <= data.Keys
      invariant forall first <- data :: (first, data[first]) in todo <==> first !in done
      invariant forall first <- done :: done[first] == data[first]
      invariant RequestsFor(result, done, idColIndex)
    {
      var batch :| batch in todo;
      var first, values := batch.0, batch.1;
      var start := ConvertToA1Notation(first, idColIndex);
      var end := ConvertToA1Notation(first + |values| - 1, idColIndex);
      AddressText(idColIndex, first, values);
      RequestMore(result, done, idColIndex, first, values, start + ":" + end);
      result := result[start + ":" + end := values];
      done, todo := done[first := values], todo - {batch};
    }
    forall first <- data ensures first in done {
      assert (first, data[first]) !in todo;
    }
    SameRequests(result, done, data, idColIndex);
  }

  // ---- Reading an address ----

  predicate IsLetter(c: char) {
    'A' <= c <= 'Z'
  }

  /** The letters a text starts with. */
  function Letters(s: string): (r: seq<Letter>)
    ensures |r| <= |s|
  {
    if s != "" && IsLetter(s[0]) then [s[0]] + Letters(s[1..]) else []
  }

  /** A whole number, with a minus sign if it is negative. */
  function ReadInt(s: string): Option<int> {
    if s != "" && Headers.AllDigits(s) then Some(Headers.ReadDecimal(s))
    else if |s| > 1 && s[0] == '-' && Headers.AllDigits(s[1..]) then
      var n: int := Headers.ReadDecimal(s[1..]);
      Some(-n)
    else None
  }

  /** A cell as column and row: the column's letters, then the row. */
  function ReadCell(s: string): Option<(int, int)> {
    var letters := Letters(s);
    match ReadInt(s[|letters|..])
    case Some(row) => if letters != [] then Some((Number(letters), row)) else None
    case None => None
  }

  /** The position of the first colon. */
  function Colon(s: string): (i: nat)
    ensures i <= |s|
  {
    if s == "" || s[0] == ':' then 0 else 1 + Colon(s[1..])
  }

  /** Two cells of one column with a colon between. */
  function ReadRange(s: string): Option<Range> {
    var i := Colon(s);
    if i == |s| then None else
      match (ReadCell(s[..i]), ReadCell(s[i + 1..]))
      case (Some(a), Some(b)) => if a.0 == b.0 then Some(Range(a.0, a.1, b.1)) else None
      case _ => None
  }

  lemma DropPrefix(c: string, x: string, y: string)
    requires c + x == c + y
    ensures x == y
  {
    assert (c + x)[|c|..] == x && (c + y)[|c|..] == y;
  }

  lemma {:induction false} ColonAfter(a: string, rest: string)
    requires forall c <- a :: c != ':'
    ensures Colon(a + ":" + rest) == |a|
  {
    var s := a + ":" + rest;
    if a != "" {
      assert a[0] in a && s[1..] == a[1..] + ":" + rest;
      assert forall c <- a[1..] :: c in a;
      ColonAfter(a[1..], rest);
    }
  }

  lemma {:induction false} LettersBefore(a: seq<Letter>, rest: string)
    requires rest != "" && !IsLetter(rest[0])
    ensures Letters(a + rest) == a
  {
    var s: string := a + rest;
    if a == [] {
      assert s == rest;
    } else {
      assert s[0] == a[0] && s[1..] == a[1..] + rest;
      LettersBefore(a[1..], rest);
    }
  }

  predicate IsNumberChar(c: char) {
    c == '-' || '0' <= c <= '9'
  }

  /** The text of a number reads as that number. */
  lemma ItoaReads(n: int)
    ensures ReadInt(Itoa(n)) == Some(n)
    ensures Itoa(n) != "" && forall c <- Itoa(n) :: IsNumberChar(c)
  {
    Headers.DecimalReads(if n < 0 then -n else n);
    if n < 0 {
      assert Itoa(n)[1..] == Headers.Decimal(-n) && Itoa(n)[0] == '-' && Itoa(n)[0] in Itoa(n);
    }
  }

  /** The notation of a cell reads as its column and row, for columns from 1. */
  lemma NotationReads(row: int, column: int)
    requires column >= 1
    ensures ReadCell(Notation(row, column)) == Some((column, row))
    ensures forall c <- Notation(row, column) :: c != ':'
  {
    hide Itoa, ReadInt;
    ItoaReads(row);
    NumberOfName(column - 1);
    var name: seq<Letter>, text := NameOf(column - 1), Itoa(row);
    assert text[0] in text;
    LettersBefore(name, text);
    assert Notation(row, column)[|name|..] == text;
  }

  /** The address of a range reads as that range, for columns from 1. */
  lemma AddressReads(r: Range)
    requires r.column >= 1
    ensures ReadRange(r.Address()) == Some(r)
  {
    hide Notation, ReadCell;
    var from, to := Notation(r.first, r.column), Notation(r.last, r.column);
    NotationReads(r.first, r.column);
    NotationReads(r.last, r.column);
    ColonAfter(from, to);
    assert r.Address()[..|from|] == from && r.Address()[|from| + 1..] == to;
  }

  /** For columns from 1 an address names one range of cells. */
  lemma AddressIsUnique(r: Range, q: Range)
    requires r.column >= 1 && q.column >= 1 && r.Address() == q.Address()
    ensures r == q
  {
    hide ReadRange;
    AddressReads(r);
    AddressReads(q);
  }

  lemma AddressParts(r: Range)
    ensures var c := A1Column(r.column);
      r.Address() == c + (Itoa(r.first) + ":" + (c + Itoa(r.last)))
  {
    hide A1Column, Itoa;
    var c := A1Column(r.column);
    assert c + Itoa(r.first) + ":" + (c + Itoa(r.last)) == c + (Itoa(r.first) + ":" + (c + Itoa(r.last)));
  }

  /** Two ranges of one column, be it below 1, with the same address are the same. */
  lemma AddressOfColumn(column: int, f: int, l: int, g: int, m: int)
    requires Range(column, f, l).Address() == Range(column, g, m).Address()
    ensures f == g && l == m
  {
    hide Range.Address, A1Column, Itoa, ReadInt, Colon;
    AddressParts(Range(column, f, l));
    AddressParts(Range(column, g, m));
    var c := A1Column(column);
    var s, t := Itoa(f) + ":" + (c + Itoa(l)), Itoa(g) + ":" + (c + Itoa(m));
    DropPrefix(c, s, t);
    ItoaReads(f);
    ItoaReads(g);
    ItoaReads(l);
    ItoaReads(m);
    ColonAfter(Itoa(f), c + Itoa(l));
    ColonAfter(Itoa(g), c + Itoa(m));
    assert Itoa(f) == s[..|Itoa(f)|] == t[..|Itoa(g)|] == Itoa(g);
    DropPrefix(Itoa(f) + ":", c + Itoa(l), c + Itoa(m));
    DropPrefix(c, Itoa(l), Itoa(m));
  }

  lemma RequestMore(requests: Requests, done: Batches, column: int, first: int, ids: seq<Id>, address: string)
    requires RequestsFor(requests, done, column) && first !in done
    requires address == RangeOf(column, first, ids).Address()
    ensures RequestsFor(requests[address := ids], done[first := ids], column)
  {
    hide Range.Address;
    var more, all := requests[address := ids], done[first := ids];
    forall f <- done ensures RangeOf(column, f, done[f]).Address() != address {
      if RangeOf(column, f, done[f]).Address() == address {
        AddressOfColumn(column, f, f + |done[f]| - 1, first, first + |ids| - 1);
      }
    }
    forall a <- more ensures exists f <- all :: a == RangeOf(column, f, all[f]).Address() {
      if a == address {
        assert a == RangeOf(column, first, all[first]).Address();
      } else {
        var f :| f in done && a == RangeOf(column, f, done[f]).Address();
        assert a == RangeOf(column, f, all[f]).Address();
      }
    }
  }

  // ---- The cells written ----

  /** Some request, whose address reads as a range with the cell, gives it this id. */
  ghost predicate CellGets(requests: Requests, column: int, row: int, id: Id) {
    exists address <- requests :: RangeGives(address, requests[address], column, row, id)
  }

  predicate RangeGives(address: string, ids: seq<Id>, column: int, row: int, id: Id) {
    match ReadRange(address)
    case Some(r) => r.column == column && r.first <= row <= r.last && At(ids, row - r.first, id)
    case None => false
  }

  lemma CellsAreBatches(requests: Requests, data: Batches, column: int, c: int, row: int, id: Id)
    requires RequestsFor(requests, data, column) && column >= 1
    ensures CellGets(requests, c, row, id) <==> c == column && Writes(data, row, id)
  {
    hide Range.Address, ReadRange;
    if CellGets(requests, c, row, id) {
      var address :| address in requests && RangeGives(address, requests[address], c, row, id);
      var first :| first in data && address == RangeOf(column, first, data[first]).Address();
      AddressReads(RangeOf(column, first, data[first]));
      assert At(data[first], row - first, id);
    }
    if c == column && Writes(data, row, id) {
      var first :| first in data && At(data[first], row - first, id);
      var address := RangeOf(column, first, data[first]).Address();
      AddressReads(RangeOf(column, first, data[first]));
      assert RangeGives(address, requests[address], column, row, id);
    }
  }

  /** Through their addresses the requests give exactly the wanted ids to the cells of the id column, and
      name no other cell, if and only if there is a header or the first row is not 3. */
  lemma AddressesExact(entries: seq<Entry>, includeHeader: bool, header: Id, column: int, requests: Requests)
    requires Increasing(entries, 2) && column >= 1
    requires RequestsFor(requests, Close(GroupAll(entries, includeHeader, header)), column)
    ensures
      (forall c, row, id ::
        CellGets(requests, c, row, id) <==> c == column && Wanted(entries, includeHeader, header, row, id))
      <==> (includeHeader || entries == [] || entries[0].row != 3)
  {
    var data := Close(GroupAll(entries, includeHeader, header));
    BatchesExact(entries, includeHeader, header);
    hide GroupAll, Close, Writes, Wanted, CellGets, RequestsFor;
    forall c, row, id ensures CellGets(requests, c, row, id) <==> c == column && Writes(data, row, id) {
      CellsAreBatches(requests, data, column, c, row, id);
    }
    if forall c, row, id ::
      CellGets(requests, c, row, id) <==> c == column && Wanted(entries, includeHeader, header, row, id) {
      forall row, id ensures Writes(data, row, id) <==> Wanted(entries, includeHeader, header, row, id) {
        assert CellGets(requests, column, row, id) <==> Writes(data, row, id);
      }
    }
  }

  lemma InvertedAddress(column: int)
    ensures Range(column, 2, 1).Address() == A1Column(column) + "2:" + A1Column(column) + "1"
  {
    hide A1Column;
    var c := A1Column(column);
    assert Itoa(2) == "2" && Itoa(1) == "1";
    assert c + "2" + ":" + (c + "1") == c + "2:" + c + "1" by { assert "2" + ":" == "2:"; }
  }

  /** A request without ids, for the inverted range from row 2 to row 1, is sent exactly when there is no
      header and no entry in row 2 or 3 to start with. */
  lemma EmptyRequestExact(entries: seq<Entry>, includeHeader: bool, header: Id, column: int, requests: Requests)
    requires Increasing(entries, 2)
    requires RequestsFor(requests, Close(GroupAll(entries, includeHeader, header)), column)
    ensures (exists address <- requests :: requests[address] == [])
       <==> !includeHeader && (entries == [] || entries[0].row > 3)
    ensures forall address <- requests :: requests[address] == [] ==>
      address == A1Column(column) + "2:" + A1Column(column) + "1"
  {
    var data := Close(GroupAll(entries, includeHeader, header));
    EmptyBatchExact(entries, includeHeader, header);
    InvertedAddress(column);
    hide GroupAll, Close, Range.Address, A1Column;
    forall address <- requests
      ensures requests[address] == [] ==> address == Range(column, 2, 1).Address() && 2 in data && data[2] == []
    {
      var first :| first in data && address == RangeOf(column, first, data[first]).Address();
      assert requests[address] == data[first];
    }
    if exists first <- data :: data[first] == [] {
      var first :| first in data && data[first] == [];
      assert requests[RangeOf(column, first, data[first]).Address()] == [];
    }
  }

  /** Without a header everything is as it should be, cells and ranges, for no file but those whose first
      entry is in row 2. */
  lemma GoodRequestsExactly(entries: seq<Entry>, includeHeader: bool, header: Id, column: int, requests: Requests)
    requires Increasing(entries, 2) && column >= 1
    requires RequestsFor(requests, Close(GroupAll(entries, includeHeader, header)), column)
    ensures
      ((forall c, row, id ::
         CellGets(requests, c, row, id) <==> c == column && Wanted(entries, includeHeader, header, row, id))
       && (forall address <- requests :: requests[address] != []))
      <==> (includeHeader || (entries != [] && entries[0].row == 2))
  {
    hide CellGets, Wanted, RequestsFor;
    AddressesExact(entries, includeHeader, header, column, requests);
    EmptyRequestExact(entries, includeHeader, header, column, requests);
    if entries != [] { assert entries[0] in entries; }
  }
}
