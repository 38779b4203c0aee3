/** Cell values, column schemas and snapshots, as the comparer and the loader see them. */
module Cells {

  type Field = string
  type RowId = string

  /** A cell. A number is kept as the literal it is printed with. */
  datatype Value = Null | Str(s: string) | Num(lit: string) | Bool(b: bool)

  datatype DataType = StringType | NumberType | DateType | BooleanType | UnknownType

  /** One field of a schema file, with its seven attributes. */
  datatype FieldSchema = FieldSchema(
    name: string, dataType: DataType, originalType: string, nullable: bool,
    enumValues: seq<Value>, readonly: bool, primary: bool)

  type Schema = map<Field, FieldSchema>
  type Row = map<Field, Value>

  /** The hashed name of the id column. */
  const PRIMARY: Field := "f_gfbbfabeggejigfgbfhdcdbecifcjhdd"

  /** The marker the ingest scripts write for a cell in error. */
  const ERROR_VALUE: Value := Str("__Error")

  /** What `assumeNotNull` reads from a NULL of the column's ClickHouse type. */
  function Default(t: DataType): Value {
    match t
    case NumberType => Num("0")
    case BooleanType => Bool(false)
    case _ => Str("")
  }

  function NotNull(v: Value, t: DataType): Value {
    if v.Null? then Default(t) else v
  }

  /** Equality up to what the comparer can see: NULL and the column's default are one value. */
  predicate SameCell(a: Value, b: Value, t: DataType) {
    NotNull(a, t) == NotNull(b, t)
  }

  /** One version of a sheet: its schema and its rows by id. */
  datatype Snapshot = Snapshot(schema: Schema, rows: map<RowId, Row>) {
    ghost predicate Valid() {
      && PRIMARY in schema
      && (forall id <- rows :: rows[id].Keys == schema.Keys && rows[id][PRIMARY] == Str(id))
    }
  }

  function Elements<T>(s: seq<T>): set<T> {
    set x <- s
  }

  /** `s` lists `elements`, each once. */
  ghost predicate Enumerates<T(!new)>(s: seq<T>, elements: set<T>) {
    && (forall x :: x in s <==> x in elements)
    && (forall i, j :: 0 <= i < j < |s| ==> s[i] != s[j])
  }

  lemma EnumerateMore<T(!new)>(s: seq<T>, elements: set<T>, x: T)
    requires Enumerates(s, elements) && x !in elements
    ensures Enumerates(s + [x], elements + {x})
  {
  }
}
