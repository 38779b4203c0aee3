/** The two forms of the spreadsheet column-name algorithm. */
module ColumnNames {

  type Letter = c: char | 'A' <= c <= 'Z' witness 'A'

  function LetterOf(d: nat): Letter
    requires d < 26
  {
    'A' + d as char
  }

  /** The name of a column counted from 0, most significant letter first. */
  function NameOf(n: nat): (s: seq<Letter>)
    ensures s != []
    decreases n
  {
    if n < 26 then [LetterOf(n)] else NameOf(n / 26 - 1) + [LetterOf(n % 26)]
  }

  // ---- The TypeScript form, on columns counted from 0 ----

  /** A negative number has the empty name. */
  function Prefix(n: int): seq<Letter> {
    if n < 0 then [] else NameOf(n)
  }

  lemma PrefixStep(n: nat)
    ensures Prefix(n) == Prefix(n / 26 - 1) + [LetterOf(n % 26)]
  {
  }

  method ConvertToExcelColumnName(columnNumber: int) returns (columnName: seq<Letter>)
    ensures columnName == Prefix(columnNumber)
  {
    columnName := [];
    var number := columnNumber;
    while number >= 0
      invariant Prefix(number) + columnName == Prefix(columnNumber)
      decreases number
    {
      PrefixStep(number);
      var remainder := number % 26;
      columnName := [LetterOf(remainder)] + columnName;
      number := number / 26 - 1;
    }
  }

  // ---- The Go form, on columns counted from 1 ----

  /** Go's remainder by 26, which has the sign of its operand. */
  function Remainder(n: int): (r: int)
    ensures -26 < r < 26
  {
    if n >= 0 then n % 26 else -(-n % 26)
  }

  /** The character `unit` places from A. */
  function FromA(unit: int): char
    requires -26 < unit < 26
  {
    (65 + unit) as char
  }

  lemma FromAIsLetter(d: nat)
    requires d < 26
    ensures FromA(d) == LetterOf(d)
  {
  }

  /** The name, and for a number below 1 a single character up to 25 places before A, or A itself. */
  function A1Column(column: int): string {
    if column >= 1 then NameOf(column - 1) else [FromA(Remainder(column - 1))]
  }

  method ConvertToA1Column(column: int) returns (columnStr: string)
    ensures columnStr == A1Column(column)
  {
    hide FromA, LetterOf;
    var c := column;
    var unit := Remainder(c - 1);
    columnStr := [FromA(unit)];
    if column < 1 { return; }
    FromAIsLetter(unit);
    PrefixStep(c - 1);
    while c > 26
      invariant c >= 1
      invariant Prefix((c - 1) / 26 - 1) + columnStr == NameOf(column - 1)
      decreases c
    {
      c := (c - 1) / 26;
      unit := Remainder(c - 1);
      PrefixStep(c - 1);
      FromAIsLetter(unit);
      columnStr := [FromA(unit)] + columnStr;
    }
    assert (c - 1) / 26 == 0;
  }

  /** The name of a column from 1 is that of the other form one lower, and decodes to it; a lower number
      gives one character before A, by the remainder of how far it is below 1, or A itself. */
  lemma A1ColumnExact(column: int)
    ensures if column >= 1 then A1Column(column) == Prefix(column - 1) && Number(NameOf(column - 1)) == column
            else A1Column(column) == ['A' - ((1 - column) % 26) as char]
  {
    if column >= 1 { NumberOfName(column - 1); }
  }

  // ---- Decoding ----

  function Digit(c: Letter): nat {
    (c - 'A') as nat
  }

  /** Bijective base 26: the number of a name, counted from 1; the empty name is 0. */
  function Number(s: seq<Letter>): nat {
    if s == [] then 0 else Number(s[..|s| - 1]) * 26 + Digit(s[|s| - 1]) + 1
  }

  lemma {:induction false} NumberOfName(n: nat)
    ensures Number(NameOf(n)) == n + 1
  {
    var s := NameOf(n);
    assert Digit(s[|s| - 1]) == n % 26;
    if n < 26 {
      assert s[..0] == [];
    } else {
      NumberOfName(n / 26 - 1);
      assert s[..|s| - 1] == NameOf(n / 26 - 1);
    }
  }

  lemma LettersAndDigits(c: Letter)
    ensures Digit(c) < 26 && LetterOf(Digit(c)) == c
  {
  }

  lemma {:induction false} NameOfNumber(s: seq<Letter>)
    requires s != []
    ensures Number(s) >= 1 && NameOf(Number(s) - 1) == s
  {
    var init, last := s[..|s| - 1], s[|s| - 1];
    LettersAndDigits(last);
    assert s == init + [last];
    if init != [] {
      NameOfNumber(init);
      var n := Number(s) - 1;
      assert n == Number(init) * 26 + Digit(last);
      assert n / 26 == Number(init) && n % 26 == Digit(last);
    }
  }

  // ---- Order ----

  /** By length, then alphabetically. */
  predicate Before(a: seq<Letter>, b: seq<Letter>) {
    |a| < |b| || (|a| == |b| && Alphabetical(a, b))
  }

  predicate Alphabetical(a: seq<Letter>, b: seq<Letter>)
    requires |a| == |b|
  {
    a != [] && (Alphabetical(a[..|a| - 1], b[..|b| - 1])
      || (a[..|a| - 1] == b[..|b| - 1] && a[|a| - 1] < b[|b| - 1]))
  }

  lemma {:induction false} LongerIsLater(a: seq<Letter>, b: seq<Letter>)
    requires |a| < |b|
    ensures Number(a) < Number(b)
  {
    if a != [] {
      LongerIsLater(a[..|a| - 1], b[..|b| - 1]);
      LettersAndDigits(a[|a| - 1]);
    }
  }

  lemma {:induction false} AlphabeticalIsLater(a: seq<Letter>, b: seq<Letter>)
    requires |a| == |b|
    ensures Alphabetical(a, b) <==> Number(a) < Number(b)
  {
    if a != [] {
      AlphabeticalIsLater(a[..|a| - 1], b[..|b| - 1]);
      LettersAndDigits(a[|a| - 1]);
      LettersAndDigits(b[|b| - 1]);
      if Number(a[..|a| - 1]) == Number(b[..|b| - 1]) {
        SameNumber(a[..|a| - 1], b[..|b| - 1]);
      }
    }
  }

  lemma SameNumber(a: seq<Letter>, b: seq<Letter>)
    requires Number(a) == Number(b)
    ensures a == b
  {
  }

  /** Names are ordered by length then alphabetically as the column grows, so no two columns share one. */
  lemma NamesAreOrdered(m: nat, n: nat)
    ensures Before(NameOf(m), NameOf(n)) <==> m < n
  {
    var a, b := NameOf(m), NameOf(n);
    NumberOfName(m);
    NumberOfName(n);
    if |a| < |b| {
      LongerIsLater(a, b);
    } else if |b| < |a| {
      LongerIsLater(b, a);
    } else {
      AlphabeticalIsLater(a, b);
    }
  }
}
