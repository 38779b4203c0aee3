/** The text form of an updated row: how ClickHouse prints it, how the comparer's query strips the
    nulls out of that text, and how the getter parses what is left. */
module RowText {
  import opened Wrappers
  import opened Cells

  // ---- Characters ----

  predicate IsWord(c: char) {
    'a' <= c <= 'z' || 'A' <= c <= 'Z' || '0' <= c <= '9' || c == '_'
  }

  predicate IsSpace(c: char) {
    c == ' ' || c == '\t' || c == '\n' || c == '\r' || c as int == 11 || c as int == 12
  }

  predicate IsNumeric(c: char) {
    '0' <= c <= '9' || c == '-' || c == '+' || c == '.' || c == 'e' || c == 'E'
  }

  ghost predicate WordName(s: string) {
    s != "" && forall c <- s :: IsWord(c)
  }

  // ---- Printing (the JSONEachRow format); `rest` is the text that follows ----

  function HexDigit(n: nat): char
    requires n < 16
  {
    if n < 10 then (n + '0' as int) as char else (n - 10 + 'a' as int) as char
  }

  function EscapeChar(c: char): string {
    if c == '"' then "\\\""
    else if c == '\\' then "\\\\"
    else if c == '/' then "\\/"
    else if c == '\n' then "\\n"
    else if c == '\r' then "\\r"
    else if c == '\t' then "\\t"
    else if c as int < 32 then "\\u00" + [HexDigit(c as int / 16), HexDigit(c as int % 16)]
    else [c]
  }

  function Escaped(s: string, rest: string): string {
    if s == "" then rest else EscapeChar(s[0]) + Escaped(s[1..], rest)
  }

  function PrintValue(v: Value, rest: string): string {
    match v
    case Null => "null" + rest
    case Str(s) => "\"" + Escaped(s, "\"" + rest)
    case Num(lit) => lit + rest
    case Bool(b) => (if b then "true" else "false") + rest
  }

  function PrintMember(f: Field, v: Value, rest: string): string {
    "\"" + Escaped(f, "\":" + PrintValue(v, rest))
  }

  function Body(fields: seq<Field>, row: Row): string
    requires forall f <- fields :: f in row
  {
    if fields == [] then "}"
    else PrintMember(fields[0], row[fields[0]], if |fields| == 1 then "}" else "," + Body(fields[1..], row))
  }

  /** The columns `fields` of one row as a JSON object. */
  function Print(fields: seq<Field>, row: Row): string
    requires forall f <- fields :: f in row
  {
    "{" + Body(fields, row)
  }

  // ---- Stripping: replaceAll(replaceRegexpAll(row, '"\w+?"\s*:\s*null,?', ''), ',}', '}') ----

  function WordRun(s: string): (n: nat)
    ensures n <= |s|
    ensures forall i :: 0 <= i < n ==> IsWord(s[i])
    ensures n < |s| ==> !IsWord(s[n])
  {
    if s == "" || !IsWord(s[0]) then 0 else 1 + WordRun(s[1..])
  }

  function SpaceRun(s: string): (n: nat)
    ensures n <= |s|
    ensures n < |s| ==> !IsSpace(s[n])
  {
    if s == "" || !IsSpace(s[0]) then 0 else 1 + SpaceRun(s[1..])
  }

  /** The length of the match of the null pattern at the start of `s`, 0 when there is none. */
  function NullMatch(s: string): (n: nat)
    ensures n <= |s|
  {
    if s == "" || s[0] != '"' then 0 else
      var w := WordRun(s[1..]);
      if w == 0 || 1 + w >= |s| || s[1 + w] != '"' then 0 else NullValueMatch(s, 2 + w)
  }

  function NullValueMatch(s: string, at: nat): (n: nat)
    requires at <= |s|
    ensures n == 0 || at < n <= |s|
  {
    var colon := at + SpaceRun(s[at..]);
    if colon >= |s| || s[colon] != ':' then 0 else
      var v := colon + 1 + SpaceRun(s[colon + 1..]);
      if !("null" <= s[v..]) then 0
      else if v + 4 < |s| && s[v + 4] == ',' then v + 5
      else v + 4
  }

  function RemoveNulls(s: string): string
    decreases |s|
  {
    if s == "" then ""
    else if NullMatch(s) > 0 then RemoveNulls(s[NullMatch(s)..])
    else [s[0]] + RemoveNulls(s[1..])
  }

  function DropCommaBrace(s: string): (r: string)
    decreases |s|
  {
    if s == "" then ""
    else if ",}" <= s then "}" + DropCommaBrace(s[2..])
    else [s[0]] + DropCommaBrace(s[1..])
  }

  function Strip(s: string): string {
    DropCommaBrace(RemoveNulls(s))
  }

  // ---- Parsing (of flat objects without white space, which is all the comparer writes) ----

  function HexValue(c: char): Option<nat> {
    if '0' <= c <= '9' then Some(c as int - '0' as int)
    else if 'a' <= c <= 'f' then Some(c as int - 'a' as int + 10)
    else None
  }

  /** The first character of a string body, decoded, and how many characters of text it took. */
  function UnescapeOne(s: string): (r: Option<(char, nat)>)
    ensures r.Some? ==> 1 <= r.value.1 <= |s|
  {
    if s == "" || s[0] == '"' then None
    else if s[0] != '\\' then Some((s[0], 1))
    else if |s| < 2 then None
    else match s[1]
      case '"' => Some(('"', 2))
      case '\\' => Some(('\\', 2))
      case '/' => Some(('/', 2))
      case 'n' => Some(('\n', 2))
      case 'r' => Some(('\r', 2))
      case 't' => Some(('\t', 2))
      case 'u' =>
        if |s| < 6 || s[2] != '0' || s[3] != '0' then None
        else (match (HexValue(s[4]), HexValue(s[5]))
              case (Some(h), Some(l)) => if h < 8 && l < 16 then Some(((h * 16 + l) as char, 6)) else None
              case _ => None)
      case _ => None
  }

  /** Reads a string body up to and including its closing quote. */
  function ParseString(s: string): (r: Option<(string, string)>)
    ensures r.Some? ==> |r.value.1| < |s|
    decreases |s|
  {
    if s != "" && s[0] == '"' then Some(("", s[1..]))
    else match UnescapeOne(s)
      case None => None
      case Some((c, n)) =>
        match ParseString(s[n..])
        case None => None
        case Some((tail, rest)) => Some(([c] + tail, rest))
  }

  function NumericRun(s: string): (n: nat)
    ensures n <= |s|
  {
    if s == "" || !IsNumeric(s[0]) then 0 else 1 + NumericRun(s[1..])
  }

  function ParseValue(s: string): (r: Option<(Value, string)>)
    ensures r.Some? ==> |r.value.1| < |s|
  {
    if s == "" then None
    else if s[0] == '"' then
      (match ParseString(s[1..])
       case None => None
       case Some((t, rest)) => Some((Str(t), rest)))
    else if "null" <= s then Some((Null, s[4..]))
    else if "true" <= s then Some((Bool(true), s[4..]))
    else if "false" <= s then Some((Bool(false), s[5..]))
    else
      var n := NumericRun(s);
      if n == 0 then None else Some((Num(s[..n]), s[n..]))
  }

  /** Reads the members of an object up to its closing brace; nothing may follow. Of two members
      with one key the later counts. */
  function ParseMembers(s: string): (r: Option<Row>)
    decreases |s|
  {
    if s == "" || s[0] != '"' then None
    else match ParseString(s[1..])
      case None => None
      case Some((key, afterKey)) =>
        if afterKey == "" || afterKey[0] != ':' then None
        else match ParseValue(afterKey[1..])
          case None => None
          case Some((v, rest)) =>
            if rest == "}" then Some(map[key := v])
            else if rest == "" || rest[0] != ',' then None
            else match ParseMembers(rest[1..])
              case None => None
              case Some(more) => Some(map[key := v] + more)
  }

  function ParseObject(s: string): Option<Row> {
    if s == "{}" then Some(map[])
    else if s == "" || s[0] != '{' then None
    else ParseMembers(s[1..])
  }

  // ---- What stripping does to a row ----

  /** The value the stripped text carries: `,}` inside a string loses its comma. */
  function Scrub(v: Value): Value {
    if v.Str? then Str(DropCommaBrace(v.s)) else v
  }

  function ScrubRow(row: Row): Row {
    map f <- row :: Scrub(row[f])
  }

  function NonNull(fields: seq<Field>, row: Row): (r: seq<Field>)
    requires forall f <- fields :: f in row
    ensures forall f :: f in r <==> f in fields && !row[f].Null?
  {
    if fields == [] then []
    else if row[fields[0]].Null? then NonNull(fields[1..], row)
    else [fields[0]] + NonNull(fields[1..], row)
  }

  ghost predicate Printable(v: Value) {
    v.Num? ==> v.lit != "" && forall c <- v.lit :: IsNumeric(c)
  }

  ghost predicate PrintableRow(fields: seq<Field>, row: Row) {
    forall f <- fields :: WordName(f) && f in row && Printable(row[f])
  }

  predicate HasCommaBrace(s: string) {
    exists i :: 0 <= i < |s| - 1 && s[i] == ',' && s[i + 1] == '}'
  }

  ghost predicate Ends(rest: string) {
    rest != "" && (rest[0] == ',' || rest[0] == '}')
  }

  // ---- Escaped strings ----

  lemma EscapeFacts(c: char)
    ensures EscapeChar(c) != "" && EscapeChar(c)[0] != '"'
    ensures c == '"' ==> EscapeChar(c) == ['\\', '"']
    ensures c != '"' ==> '"' !in EscapeChar(c)
    ensures if IsWord(c) then EscapeChar(c) == [c] else !IsWord(EscapeChar(c)[0])
    ensures c == ',' || c == '}' ==> EscapeChar(c) == [c]
    ensures c != ',' ==> ',' !in EscapeChar(c)
    ensures EscapeChar(c)[0] == '}' ==> c == '}'
  {
  }

  lemma UnescapeEscaped(c: char, tail: string)
    ensures UnescapeOne(EscapeChar(c) + tail) == Some((c, |EscapeChar(c)|))
  {
  }

  lemma {:induction false} EscapedWord(k: string, rest: string)
    requires forall c <- k :: IsWord(c)
    ensures Escaped(k, rest) == k + rest
  {
    if k == "" {
      assert k + rest == rest;
    } else {
      EscapeFacts(k[0]);
      EscapedWord(k[1..], rest);
      assert k + rest == [k[0]] + (k[1..] + rest);
    }
  }

  lemma {:induction false} ParseEscaped(s: string, rest: string)
    ensures ParseString(Escaped(s, "\"" + rest)) == Some((s, rest))
  {
    var t := Escaped(s, "\"" + rest);
    if s == "" {
      assert t[1..] == rest;
    } else {
      var e, tail := EscapeChar(s[0]), Escaped(s[1..], "\"" + rest);
      EscapeFacts(s[0]);
      UnescapeEscaped(s[0], tail);
      hide EscapeChar, UnescapeOne;
      assert t[0] == e[0];
      assert t[|e|..] == tail;
      ParseEscaped(s[1..], rest);
      assert [s[0]] + s[1..] == s;
    }
  }

  // ---- Parsing what was printed ----

  lemma {:induction false} NumericRunOf(lit: string, rest: string)
    requires forall c <- lit :: IsNumeric(c)
    requires Ends(rest)
    ensures NumericRun(lit + rest) == |lit|
  {
    if lit == "" {
      assert lit + rest == rest;
    } else {
      assert (lit + rest)[1..] == lit[1..] + rest;
      NumericRunOf(lit[1..], rest);
    }
  }

  lemma OtherStart(p: string, t: string)
    requires p != "" && t != "" && p[0] != t[0]
    ensures !(p <= t)
  {
  }

  lemma ParsePrintedValue(v: Value, rest: string)
    requires Printable(v) && Ends(rest)
    ensures ParseValue(PrintValue(v, rest)) == Some((v, rest))
  {
    hide Escaped, ParseString, NumericRun;
    match v
    case Null =>
    case Bool(b) =>
    case Num(lit) =>
      var t := lit + rest;
      NumericRunOf(lit, rest);
      assert t[0] == lit[0] && lit[0] in lit;
      OtherStart("null", t);
      OtherStart("true", t);
      OtherStart("false", t);
      assert t[..|lit|] == lit && t[|lit|..] == rest;
    case Str(s) =>
      ParseEscaped(s, rest);
  }

  lemma {:induction false} ParsePrinted(fields: seq<Field>, row: Row)
    requires fields != [] && PrintableRow(fields, row)
    ensures ParseMembers(Body(fields, row)) == Some(map f <- fields :: row[f])
  {
    hide Escaped, ParseString, PrintValue, ParseValue;
    var f, v := fields[0], row[fields[0]];
    var rest := if |fields| == 1 then "}" else "," + Body(fields[1..], row);
    var afterKey := "\":" + PrintValue(v, rest);
    assert afterKey == "\"" + (":" + PrintValue(v, rest));
    ParseEscaped(f, ":" + PrintValue(v, rest));
    ParsePrintedValue(v, rest);
    if |fields| == 1 {
      assert (map g <- fields :: row[g]) == map[f := v];
    } else {
      ParsePrinted(fields[1..], row);
      BodyNonEmpty(fields[1..], row);
      assert (map g <- fields :: row[g]) == map[f := v] + (map g <- fields[1..] :: row[g]);
    }
  }

  lemma BodyNonEmpty(fields: seq<Field>, row: Row)
    requires forall f <- fields :: f in row
    ensures Body(fields, row) != "" && (fields != [] ==> Body(fields, row)[0] == '"')
  {
  }

  /** Printing columns of a row and parsing the text gives those columns back. */
  lemma PrintParse(fields: seq<Field>, row: Row)
    requires PrintableRow(fields, row)
    ensures ParseObject(Print(fields, row)) == Some(map f <- fields :: row[f])
  {
    if fields != [] {
      BodyNonEmpty(fields, row);
      assert Print(fields, row)[1..] == Body(fields, row);
      ParsePrinted(fields, row);
    }
  }

  // ---- Deleting the null members from the text ----

  lemma CopyChar(c: char, tail: string)
    requires c != '"'
    ensures RemoveNulls([c] + tail) == [c] + RemoveNulls(tail)
  {
  }

  lemma {:induction false} CopyUnquoted(t: string, rest: string)
    requires '"' !in t
    ensures RemoveNulls(t + rest) == t + RemoveNulls(rest)
  {
    hide RemoveNulls;
    if t == "" {
      assert t + rest == rest;
    } else {
      assert t == [t[0]] + t[1..];
      assert t + rest == [t[0]] + (t[1..] + rest);
      CopyChar(t[0], t[1..] + rest);
      CopyUnquoted(t[1..], rest);
    }
  }

  /** The word characters at the start of a string body end before its closing quote, or at it. */
  lemma {:induction false} BodyRun(s: string, rest: string)
    ensures var t := Escaped(s, "\"" + rest); var w := WordRun(t);
      w < |t| && (t[w] == '"' ==> t[w..] == "\"" + rest)
  {
    var t := Escaped(s, "\"" + rest);
    if s != "" {
      EscapeFacts(s[0]);
      BodyRun(s[1..], rest);
      hide EscapeChar;
      if IsWord(s[0]) {
        assert t[1..] == Escaped(s[1..], "\"" + rest);
      } else {
        assert t[0] == EscapeChar(s[0])[0];
      }
    }
  }

  lemma NoMatchInString(s: string, rest: string)
    requires Ends(rest)
    ensures NullMatch("\"" + Escaped(s, "\"" + rest)) == 0
  {
    var body := Escaped(s, "\"" + rest);
    var t := "\"" + body;
    BodyRun(s, rest);
    hide Escaped;
    var w := WordRun(body);
    assert t[1..] == body;
    if body[w] == '"' {
      assert t[2 + w..] == body[w..][1..] == rest;
      assert SpaceRun(rest) == 0;
    }
  }

  lemma CopyQuote(tail: string)
    requires NullMatch("\"" + tail) == 0
    ensures RemoveNulls(['\\', '"'] + tail) == ['\\', '"'] + RemoveNulls(tail)
  {
    hide NullMatch;
    var t := "\"" + tail;
    assert t[1..] == tail;
    assert RemoveNulls(t) == "\"" + RemoveNulls(tail);
    assert ['\\', '"'] + tail == "\\" + t;
    CopyUnquoted("\\", t);
    assert ['\\', '"'] + RemoveNulls(tail) == "\\" + ("\"" + RemoveNulls(tail));
  }

  lemma {:induction false} CopyString(s: string, rest: string)
    requires Ends(rest)
    ensures RemoveNulls(Escaped(s, "\"" + rest)) == Escaped(s, "\"" + RemoveNulls(rest))
  {
    if s == "" {
      assert ("\"" + rest)[1..] == rest;
      assert WordRun(rest) == 0;
    } else {
      var e, tail := EscapeChar(s[0]), Escaped(s[1..], "\"" + rest);
      EscapeFacts(s[0]);
      CopyString(s[1..], rest);
      hide EscapeChar, NullMatch;
      if s[0] == '"' {
        NoMatchInString(s[1..], rest);
        CopyQuote(tail);
      } else {
        CopyUnquoted(e, tail);
      }
    }
  }

  lemma CopyValue(v: Value, rest: string)
    requires !v.Null? && Printable(v) && Ends(rest)
    ensures RemoveNulls(PrintValue(v, rest)) == PrintValue(v, RemoveNulls(rest))
  {
    match v
    case Str(s) =>
      NoMatchInString(s, rest);
      CopyString(s, rest);
      hide Escaped, NullMatch;
      assert ("\"" + Escaped(s, "\"" + rest))[1..] == Escaped(s, "\"" + rest);
    case Num(lit) => CopyUnquoted(lit, rest);
    case Bool(b) => CopyUnquoted(if b then "true" else "false", rest);
  }

  lemma {:induction false} WordRunOf(k: string, rest: string)
    requires forall c <- k :: IsWord(c)
    requires rest != "" && !IsWord(rest[0])
    ensures WordRun(k + rest) == |k|
  {
    if k == "" {
      assert k + rest == rest;
    } else {
      assert (k + rest)[1..] == k[1..] + rest;
      WordRunOf(k[1..], rest);
    }
  }

  /** At the start of a member the pattern matches when the value starts with `null`, and only then. */
  lemma MatchAtMember(k: string, value: string)
    requires WordName(k) && value != "" && !IsSpace(value[0])
    ensures var t := "\"" + (k + ("\":" + value)); var v := 3 + |k|;
      && t[v..] == value
      && NullMatch(t) == (if !("null" <= value) then 0 else if |value| > 4 && value[4] == ',' then v + 5 else v + 4)
  {
    var t := "\"" + (k + ("\":" + value));
    assert t[1..] == k + ("\":" + value);
    WordRunOf(k, "\":" + value);
    assert t[2 + |k|..] == ":" + value;
    assert t[3 + |k|..] == value;
    assert SpaceRun(value) == 0 && SpaceRun(":" + value) == 0;
  }

  lemma MemberText(k: Field, v: Value, rest: string)
    requires WordName(k)
    ensures PrintMember(k, v, rest) == "\"" + (k + ("\":" + PrintValue(v, rest)))
  {
    EscapedWord(k, "\":" + PrintValue(v, rest));
  }

  lemma CopyMember(k: Field, v: Value, rest: string)
    requires WordName(k) && !v.Null? && Printable(v) && Ends(rest)
    ensures RemoveNulls(PrintMember(k, v, rest)) == PrintMember(k, v, RemoveNulls(rest))
  {
    MemberText(k, v, rest);
    MemberText(k, v, RemoveNulls(rest));
    CopyValue(v, rest);
    ValueStart(v, rest);
    hide PrintMember, PrintValue;
    var value := PrintValue(v, rest);
    MatchAtMember(k, value);
    CopyKey(k, value);
  }

  lemma NoMatchAtColon(value: string)
    ensures NullMatch(":" + value) == 0 && NullMatch("\"" + (":" + value)) == 0
  {
  }

  lemma CopyColon(value: string)
    ensures RemoveNulls("\":" + value) == "\":" + RemoveNulls(value)
  {
    hide NullMatch;
    NoMatchAtColon(value);
    var t := "\"" + (":" + value);
    assert "\":" + value == t && t[1..] == ":" + value;
    assert RemoveNulls(t) == "\"" + RemoveNulls(":" + value);
    CopyChar(':', value);
    assert "\":" + RemoveNulls(value) == "\"" + (":" + RemoveNulls(value));
  }

  lemma CopyKey(k: Field, value: string)
    requires WordName(k) && NullMatch("\"" + (k + ("\":" + value))) == 0
    ensures RemoveNulls("\"" + (k + ("\":" + value))) == "\"" + (k + ("\":" + RemoveNulls(value)))
  {
    hide NullMatch;
    var q := "\":" + value;
    var t := "\"" + (k + q);
    assert t[1..] == k + q;
    assert RemoveNulls(t) == "\"" + RemoveNulls(k + q);
    hide RemoveNulls;
    CopyColon(value);
    CopyUnquoted(k, q);
  }

  lemma ValueStart(v: Value, rest: string)
    requires !v.Null? && Printable(v)
    ensures var t := PrintValue(v, rest); t != "" && !IsSpace(t[0]) && !("null" <= t)
  {
    var t := PrintValue(v, rest);
    if v.Num? {
      assert t[0] == v.lit[0] && v.lit[0] in v.lit;
    } else if v.Str? {
      hide Escaped;
      assert t[0] == '"';
    }
    OtherStart("null", t);
  }

  lemma DropMember(k: Field, rest: string)
    requires WordName(k) && Ends(rest)
    ensures RemoveNulls(PrintMember(k, Null, rest)) == RemoveNulls(if rest[0] == ',' then rest[1..] else rest)
  {
    MemberText(k, Null, rest);
    var value := "null" + rest;
    MatchAtMember(k, value);
    hide NullMatch, PrintMember;
    var t := "\"" + (k + ("\":" + value));
    assert value[4..] == rest;
    assert t[7 + |k|..] == rest;
    if rest[0] == ',' {
      assert t[8 + |k|..] == rest[1..];
    }
  }

  /** The text left once the null members are deleted: a comma may be left before the brace. */
  function NullFreeBody(fields: seq<Field>, row: Row): string
    requires forall f <- fields :: f in row
  {
    if fields == [] then "}"
    else if row[fields[0]].Null? then NullFreeBody(fields[1..], row)
    else PrintMember(fields[0], row[fields[0]], if |fields| == 1 then "}" else "," + NullFreeBody(fields[1..], row))
  }

  lemma {:induction false} RemoveNullsFromBody(fields: seq<Field>, row: Row)
    requires PrintableRow(fields, row)
    ensures RemoveNulls(Body(fields, row)) == NullFreeBody(fields, row)
  {
    CopyUnquoted("}", "");
    assert "}" + "" == "}";
    if fields != [] {
      var more := Body(fields[1..], row);
      var rest := if |fields| == 1 then "}" else "," + more;
      RemoveNullsFromBody(fields[1..], row);
      CopyUnquoted(",", more);
      hide PrintMember, NullMatch;
      if row[fields[0]].Null? {
        DropMember(fields[0], rest);
      } else {
        CopyMember(fields[0], row[fields[0]], rest);
      }
    }
  }

  // ---- Replacing `,}` by `}` ----

  lemma DropChar(c: char, tail: string)
    requires c != ','
    ensures DropCommaBrace([c] + tail) == [c] + DropCommaBrace(tail)
  {
  }

  lemma {:induction false} DropIn(t: string, rest: string)
    requires ',' !in t
    ensures DropCommaBrace(t + rest) == t + DropCommaBrace(rest)
  {
    hide DropCommaBrace;
    if t == "" {
      assert t + rest == rest;
    } else {
      assert t == [t[0]] + t[1..];
      assert t + rest == [t[0]] + (t[1..] + rest);
      DropChar(t[0], t[1..] + rest);
      DropIn(t[1..], rest);
    }
  }

  lemma DropComma(rest: string)
    requires rest != "" && rest[0] != '}'
    ensures DropCommaBrace("," + rest) == "," + DropCommaBrace(rest)
  {
    assert ("," + rest)[1..] == rest;
  }

  lemma EscapedStart(s: string, rest: string)
    ensures var t := Escaped(s, "\"" + rest); t != "" && (t[0] == '}' ==> s != "" && s[0] == '}')
  {
  }

  lemma {:induction false} DropInString(s: string, rest: string)
    ensures DropCommaBrace(Escaped(s, "\"" + rest)) == Escaped(DropCommaBrace(s), "\"" + DropCommaBrace(rest))
    decreases |s|
  {
    var q := "\"" + DropCommaBrace(rest);
    if s == "" {
      DropIn("\"", rest);
    } else if ",}" <= s {
      EscapeFacts(',');
      EscapeFacts('}');
      hide EscapeChar;
      var tail := Escaped(s[2..], "\"" + rest);
      assert s[1..][1..] == s[2..];
      assert Escaped(s[1..], "\"" + rest) == "}" + tail;
      var t := Escaped(s, "\"" + rest);
      assert t == ",}" + tail;
      assert t[2..] == tail;
      DropInString(s[2..], rest);
      assert ("}" + DropCommaBrace(s[2..]))[1..] == DropCommaBrace(s[2..]);
    } else {
      var tail := Escaped(s[1..], "\"" + rest);
      DropInString(s[1..], rest);
      EscapeFacts(s[0]);
      assert ([s[0]] + DropCommaBrace(s[1..]))[1..] == DropCommaBrace(s[1..]);
      EscapedStart(s[1..], rest);
      hide EscapeChar;
      if s[0] == ',' {
        DropComma(tail);
      } else {
        DropIn(EscapeChar(s[0]), tail);
      }
    }
  }

  lemma DropInMember(k: Field, v: Value, rest: string)
    requires WordName(k) && Printable(v)
    ensures DropCommaBrace(PrintMember(k, v, rest)) == PrintMember(k, Scrub(v), DropCommaBrace(rest))
  {
    MemberText(k, v, rest);
    MemberText(k, Scrub(v), DropCommaBrace(rest));
    hide PrintMember;
    DropInValue(v, rest);
    var value := PrintValue(v, rest);
    hide PrintValue, Scrub;
    DropIn("\":", value);
    DropIn(k, "\":" + value);
    DropIn("\"", k + ("\":" + value));
  }

  lemma DropInValue(v: Value, rest: string)
    requires Printable(v)
    ensures DropCommaBrace(PrintValue(v, rest)) == PrintValue(Scrub(v), DropCommaBrace(rest))
  {
    match v
    case Str(s) =>
      DropInString(s, rest);
      hide Escaped;
      DropIn("\"", Escaped(s, "\"" + rest));
    case Num(lit) => DropIn(lit, rest);
    case Null => DropIn("null", rest);
    case Bool(b) => DropIn(if b then "true" else "false", rest);
  }

  lemma {:induction false} NullFreeStart(fields: seq<Field>, row: Row)
    requires forall f <- fields :: f in row
    ensures var t := NullFreeBody(fields, row);
      if NonNull(fields, row) == [] then t == "}" else t != "" && t[0] == '"'
  {
    hide Escaped, PrintValue;
    if fields != [] {
      NullFreeStart(fields[1..], row);
    }
  }

  lemma {:induction false} DropInBody(fields: seq<Field>, row: Row)
    requires PrintableRow(fields, row)
    ensures DropCommaBrace(NullFreeBody(fields, row)) == Body(NonNull(fields, row), ScrubRow(row))
  {
    hide PrintMember;
    if fields == [] {
      Brace();
    } else {
      DropInBody(fields[1..], row);
      if !row[fields[0]].Null? {
        DropInHead(fields, row);
      }
    }
  }

  lemma DropInHead(fields: seq<Field>, row: Row)
    requires fields != [] && PrintableRow(fields, row) && !row[fields[0]].Null?
    requires DropCommaBrace(NullFreeBody(fields[1..], row)) == Body(NonNull(fields[1..], row), ScrubRow(row))
    ensures DropCommaBrace(NullFreeBody(fields, row)) == Body(NonNull(fields, row), ScrubRow(row))
  {
    var f, v, more, kept := fields[0], row[fields[0]], NullFreeBody(fields[1..], row), NonNull(fields[1..], row);
    assert ([f] + kept)[1..] == kept;
    NullFreeStart(fields[1..], row);
    hide PrintMember, DropCommaBrace;
    DropInMember(f, v, if |fields| == 1 then "}" else "," + more);
    DropSeparator(more, kept == []);
    Brace();
  }

  lemma Brace()
    ensures DropCommaBrace("}") == "}"
  {
  }

  lemma DropSeparator(more: string, last: bool)
    requires if last then more == "}" else more != "" && more[0] == '"'
    ensures DropCommaBrace("," + more) == if last then "}" else "," + DropCommaBrace(more)
  {
    if last {
      assert "," + more == ",}" && ",}"[2..] == "";
    } else {
      DropComma(more);
    }
  }

  lemma StripText(fields: seq<Field>, row: Row)
    requires PrintableRow(fields, row)
    ensures Strip(Print(fields, row)) == Print(NonNull(fields, row), ScrubRow(row))
  {
    RemoveNullsFromBody(fields, row);
    DropInBody(fields, row);
    hide NullMatch, Body, NullFreeBody, RemoveNulls, DropCommaBrace, ScrubRow;
    CopyUnquoted("{", Body(fields, row));
    DropIn("{", NullFreeBody(fields, row));
  }

  lemma ScrubPrintable(fields: seq<Field>, row: Row)
    requires PrintableRow(fields, row)
    ensures PrintableRow(NonNull(fields, row), ScrubRow(row))
  {
  }

  /** Exactly what survives the text rewrite, for every row with word-character keys: the columns
      that are not null, each string with `,}` replaced by `}`. */
  lemma StripExact(fields: seq<Field>, row: Row)
    requires PrintableRow(fields, row)
    ensures ParseObject(Strip(Print(fields, row))) == Some(map f <- fields | !row[f].Null? :: Scrub(row[f]))
  {
    hide Strip, Print, ParseObject, DropCommaBrace, WordName, Printable;
    StripText(fields, row);
    ScrubPrintable(fields, row);
    var kept := NonNull(fields, row);
    PrintParse(kept, ScrubRow(row));
    assert (map f <- kept :: ScrubRow(row)[f]) == (map f <- fields | !row[f].Null? :: Scrub(row[f]));
  }

  // ---- When the rewrite is faithful ----

  lemma {:induction false} DropFixed(s: string)
    ensures if HasCommaBrace(s) then 0 < |DropCommaBrace(s)| < |s| else DropCommaBrace(s) == s
    ensures |DropCommaBrace(s)| <= |s|
    decreases |s|
  {
    if s != "" {
      if ",}" <= s {
        DropFixed(s[2..]);
        assert s[0] == ',' && s[1] == '}';
      } else {
        DropFixed(s[1..]);
        assert s == [s[0]] + s[1..];
        assert HasCommaBrace(s) == HasCommaBrace(s[1..]) by {
          if HasCommaBrace(s) {
            var i :| 0 <= i < |s| - 1 && s[i] == ',' && s[i + 1] == '}';
            assert s[1..][i - 1] == ',' && s[1..][i] == '}';
          }
          if HasCommaBrace(s[1..]) {
            var i :| 0 <= i < |s[1..]| - 1 && s[1..][i] == ',' && s[1..][i + 1] == '}';
            assert s[i + 1] == ',' && s[i + 2] == '}';
          }
        }
      }
    }
  }

  /** The stripped text carries exactly the non-null columns if and only if no string among them
      holds `,}`. */
  lemma StripFaithful(fields: seq<Field>, row: Row)
    requires PrintableRow(fields, row)
    ensures ParseObject(Strip(Print(fields, row))) == Some(map f <- fields | !row[f].Null? :: row[f])
       <==> (forall f <- fields :: row[f].Str? ==> !HasCommaBrace(row[f].s))
  {
    StripExact(fields, row);
    var carried := map f <- fields | !row[f].Null? :: Scrub(row[f]);
    var wanted := map f <- fields | !row[f].Null? :: row[f];
    forall f <- fields | row[f].Str?
      ensures carried[f] == wanted[f] <==> !HasCommaBrace(row[f].s)
    {
      DropFixed(row[f].s);
    }
    assert carried.Keys == wanted.Keys;
    if forall f <- fields :: row[f].Str? ==> !HasCommaBrace(row[f].s) {
      assert forall f <- carried :: carried[f] == wanted[f];
      assert carried == wanted;
    }
  }

  // ---- Which names the null pattern knows ----

  lemma {:induction false} NothingRemoved(s: string)
    requires forall i :: 0 <= i < |s| ==> NullMatch(s[i..]) == 0
    ensures RemoveNulls(s) == s
  {
    if s != "" {
      assert s[0..] == s;
      forall i | 0 <= i < |s[1..]| ensures NullMatch(s[1..][i..]) == 0 { assert s[1..][i..] == s[i + 1..]; }
      NothingRemoved(s[1..]);
      assert s == [s[0]] + s[1..];
    }
  }

  /** Letters of both cases, digits and underscores make a name whose null is removed. */
  lemma WordNullRemoved()
    ensures Strip(Print(["Az_09"], map["Az_09" := Null])) == "{}"
  {
    var row := map["Az_09" := Null];
    assert WordName("Az_09");
    StripText(["Az_09"], row);
    assert NonNull(["Az_09"], row) == [];
  }

  /** Another character in the name keeps the null in the text. */
  lemma OtherNullStays()
    ensures Strip(Print(["a-b"], map["a-b" := Null])) == "{\"a-b\":null}"
  {
    hide Print, DropCommaBrace, RemoveNulls, NullMatch;
    var s := "{\"a-b\":null}";
    OtherNullPrinted();
    NoMatches(s);
    DropFixed(s);
  }

  lemma NoMatches(s: string)
    requires |s| > 6 && s[2..4] == "a-" && s[6] == ':'
    requires forall i :: 0 <= i < |s| ==> (s[i] == '"' <==> i == 1 || i == 5)
    ensures RemoveNulls(s) == s
  {
    hide NullMatch, RemoveNulls;
    assert s[2] == s[2..4][0] && s[3] == s[2..4][1];
    forall i | 0 <= i < |s| ensures NullMatch(s[i..]) == 0 {
      if i == 1 {
        NoWordName(s[i..], 1);
      } else if i == 5 {
        NoWordName(s[i..], 0);
      } else {
        NoQuote(s[i..]);
      }
    }
    NothingRemoved(s);
  }

  lemma OtherNullPrinted()
    ensures Print(["a-b"], map["a-b" := Null]) == "{\"a-b\":null}"
  {
    hide Escaped;
    EscapedPlain("a-b", "\":null}");
    assert PrintValue(Null, "}") == "null}" && "\":" + "null}" == "\":null}";
    assert PrintMember("a-b", Null, "}") == "\"a-b\":null}";
  }

  lemma NoQuote(s: string)
    ensures s == "" || s[0] != '"' ==> NullMatch(s) == 0
  {
  }

  lemma EscapedPlain(k: string, rest: string)
    requires k == "a-b"
    ensures Escaped(k, rest) == k + rest
  {
    assert k[1..] == "-b" && k[1..][1..] == "b" && k[1..][1..][1..] == "";
    assert Escaped("b", rest) == "b" + rest;
    assert Escaped("-b", rest) == "-" + ("b" + rest);
  }

  /** Quotes around no word, or a word and more, are no match. */
  lemma NoWordName(s: string, w: nat)
    requires w + 1 < |s| && s[0] == '"' && (forall i :: 1 <= i <= w ==> IsWord(s[i]))
    requires !IsWord(s[w + 1]) && (w == 0 || s[w + 1] != '"')
    ensures NullMatch(s) == 0
  {
    assert WordRun(s[1..]) == w;
  }
}
