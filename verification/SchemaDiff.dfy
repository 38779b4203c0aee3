/** Comparing two schemas, and applying the difference to the stored schema fields. */
module SchemaDiff {
  import opened Cells

  /** The comparer's schema result, as written to the `schema` result file. */
  datatype SchemaChanges = SchemaChanges(
    deleted: seq<Field>, added: Schema, updated: Schema,
    updatedTypes: map<Field, DataType>, kept: Schema)

  /** cityHash64 of the marshalled field. */
  type FieldHash = FieldSchema -> int

  /** What happens to a field name from one schema to the next. */
  datatype Change = Absent | Deleted | Added | Updated | Unchanged

  function ChangeOf(prev: Schema, cur: Schema, hash: FieldHash, f: Field): Change {
    if f in prev && f in cur then (if hash(prev[f]) != hash(cur[f]) then Updated else Unchanged)
    else if f in prev then Deleted
    else if f in cur then Added
    else Absent
  }

  ghost predicate IsDiff(d: SchemaChanges, prev: Schema, cur: Schema, hash: FieldHash) {
    IsDiffOn(d, prev, cur, hash, prev.Keys + cur.Keys)
  }

  /** The diff of the fields named in `done`. */
  ghost predicate IsDiffOn(d: SchemaChanges, prev: Schema, cur: Schema, hash: FieldHash, done: set<Field>) {
    && (forall f :: f in d.deleted <==> f in done && ChangeOf(prev, cur, hash, f) == Deleted)
    && (forall i, j :: 0 <= i < j < |d.deleted| ==> d.deleted[i] != d.deleted[j])
    && (forall f :: f in d.added <==> f in done && ChangeOf(prev, cur, hash, f) == Added)
    && (forall f :: f in d.updated <==> f in done && ChangeOf(prev, cur, hash, f) == Updated)
    && (forall f :: f in d.kept <==> f in done && ChangeOf(prev, cur, hash, f) == Unchanged)
    && (forall f :: f in d.updatedTypes <==> f in d.updated && prev[f].dataType != cur[f].dataType)
    && (forall f <- d.added :: d.added[f] == cur[f])
    && (forall f <- d.updated :: d.updated[f] == cur[f])
    && (forall f <- d.kept :: d.kept[f] == cur[f])
    && (forall f <- d.updatedTypes :: d.updatedTypes[f] == cur[f].dataType)
  }

  /** The diff with one more field name. */
  function Noted(d: SchemaChanges, prev: Schema, cur: Schema, hash: FieldHash, f: Field): SchemaChanges {
    match ChangeOf(prev, cur, hash, f)
    case Deleted => d.(deleted := d.deleted + [f])
    case Added => d.(added := d.added[f := cur[f]])
    case Updated => d.(updated := d.updated[f := cur[f]],
      updatedTypes :=
        if prev[f].dataType != cur[f].dataType then d.updatedTypes[f := cur[f].dataType] else d.updatedTypes)
    case Unchanged => d.(kept := d.kept[f := cur[f]])
    case Absent => d
  }

  lemma NothingDiffers(prev: Schema, cur: Schema, hash: FieldHash)
    ensures IsDiffOn(SchemaChanges([], map[], map[], map[], map[]), prev, cur, hash, {})
  {
  }

  lemma NotedDiff(d: SchemaChanges, prev: Schema, cur: Schema, hash: FieldHash, done: set<Field>, f: Field)
    requires IsDiffOn(d, prev, cur, hash, done) && f !in done && (f in prev || f in cur)
    ensures IsDiffOn(Noted(d, prev, cur, hash, f), prev, cur, hash, done + {f})
  {
    hide IsDiffOn, Noted;
    match ChangeOf(prev, cur, hash, f) {
      case Deleted => NotedDeleted(d, prev, cur, hash, done, f);
      case Added => NotedAdded(d, prev, cur, hash, done, f);
      case Updated => NotedUpdated(d, prev, cur, hash, done, f);
      case Unchanged => NotedUnchanged(d, prev, cur, hash, done, f);
    }
  }

  lemma NotedDeleted(d: SchemaChanges, prev: Schema, cur: Schema, hash: FieldHash, done: set<Field>, f: Field)
    requires IsDiffOn(d, prev, cur, hash, done) && f !in done && ChangeOf(prev, cur, hash, f) == Deleted
    ensures IsDiffOn(Noted(d, prev, cur, hash, f), prev, cur, hash, done + {f})
  {
  }

  lemma NotedAdded(d: SchemaChanges, prev: Schema, cur: Schema, hash: FieldHash, done: set<Field>, f: Field)
    requires IsDiffOn(d, prev, cur, hash, done) && f !in done && ChangeOf(prev, cur, hash, f) == Added
    ensures IsDiffOn(Noted(d, prev, cur, hash, f), prev, cur, hash, done + {f})
  {
  }

  lemma NotedUpdated(d: SchemaChanges, prev: Schema, cur: Schema, hash: FieldHash, done: set<Field>, f: Field)
    requires IsDiffOn(d, prev, cur, hash, done) && f !in done && ChangeOf(prev, cur, hash, f) == Updated
    ensures IsDiffOn(Noted(d, prev, cur, hash, f), prev, cur, hash, done + {f})
  {
  }

  lemma NotedUnchanged(d: SchemaChanges, prev: Schema, cur: Schema, hash: FieldHash, done: set<Field>, f: Field)
    requires IsDiffOn(d, prev, cur, hash, done) && f !in done && ChangeOf(prev, cur, hash, f) == Unchanged
    ensures IsDiffOn(Noted(d, prev, cur, hash, f), prev, cur, hash, done + {f})
  {
  }

  class CompareService {
    const prevSchema: Schema
    const curSchema: Schema
    var compareSchemaResult: SchemaChanges

    constructor (prev: Schema, cur: Schema)
      ensures prevSchema == prev && curSchema == cur
      ensures compareSchemaResult == SchemaChanges([], map[], map[], map[], map[])
    {
      prevSchema, curSchema := prev, cur;
      compareSchemaResult := SchemaChanges([], map[], map[], map[], map[]);
    }

    /** Tags every field name: 1 is deleted, 2 is in both schemas, 3 is added. */
    method TagFields() returns (tags: map<Field, int>)
      ensures tags.Keys == prevSchema.Keys + curSchema.Keys
      ensures forall f <- tags :: tags[f] == (if f !in curSchema then 1 else if f in prevSchema then 2 else 3)
    {
      tags := map[];
      var todo := prevSchema.Keys;
      while todo != {}
        invariant todo <= prevSchema.Keys && tags.Keys == prevSchema.Keys - todo
        invariant forall f <- tags :: tags[f] == 1
      {
        var f :| f in todo;
        tags, todo := tags[f := 1], todo - {f};
      }
      todo := curSchema.Keys;
      while todo != {}
        invariant todo <= curSchema.Keys && tags.Keys == prevSchema.Keys + (curSchema.Keys - todo)
        invariant forall f <- tags ::
          tags[f] == (if f !in curSchema || f in todo then 1 else if f in prevSchema then 2 else 3)
      {
        var f :| f in todo;
        tags, todo := tags[f := if f !in tags then 3 else 2], todo - {f};
      }
    }

    method CompareSchema(hash: FieldHash)
      modifies this
      ensures IsDiff(compareSchemaResult, prevSchema, curSchema, hash)
    {
      hide IsDiffOn;
      var tags := TagFields();
      NothingDiffers(prevSchema, curSchema, hash);
      var d := SchemaChanges([], map[], map[], map[], map[]);
      var todo := tags.Keys;
      assert tags.Keys - todo == {};
      while todo != {}
        invariant todo <= tags.Keys
        invariant IsDiffOn(d, prevSchema, curSchema, hash, tags.Keys - todo)
      {
        var f :| f in todo;
        ghost var before := d;
        if tags[f] == 1 {
          d := d.(deleted := d.deleted + [f]);
        } else if tags[f] == 3 {
          d := d.(added := d.added[f := curSchema[f]]);
        } else if hash(prevSchema[f]) != hash(curSchema[f]) {
          d := d.(updated := d.updated[f := curSchema[f]]);
          if prevSchema[f].dataType != curSchema[f].dataType {
            d := d.(updatedTypes := d.updatedTypes[f := curSchema[f].dataType]);
          }
        } else {
          d := d.(kept := d.kept[f := curSchema[f]]);
        }
        assert d == Noted(before, prevSchema, curSchema, hash, f);
        NotedDiff(before, prevSchema, curSchema, hash, tags.Keys - todo, f);
        assert tags.Keys - (todo - {f}) == tags.Keys - todo + {f};
        todo := todo - {f};
      }
      assert tags.Keys - {} == prevSchema.Keys + curSchema.Keys;
      compareSchemaResult := d;
    }
  }

  // ---- The stored schema fields ----

  /** The rows of the schema-field table, by hashed name: nothing in the table keeps a name unique. */
  type FieldTable = map<Field, seq<FieldSchema>>

  function DoubleQuotes(s: string): string {
    if s == "" then ""
    else if s[0] == '\'' then "''" + DoubleQuotes(s[1..])
    else [s[0]] + DoubleQuotes(s[1..])
  }

  /** What COPY stores for a field: the enum text has its single quotes doubled as for a literal,
      and COPY takes it as it is. */
  function Copied(field: FieldSchema): FieldSchema {
    field.(enumValues := seq(|field.enumValues|, i requires 0 <= i < |field.enumValues| =>
      if field.enumValues[i].Str? then Str(DoubleQuotes(field.enumValues[i].s)) else field.enumValues[i]))
  }

  function DeleteFields(t: FieldTable, names: seq<Field>): FieldTable {
    t - Elements(names)
  }

  function CopyFields(t: FieldTable, fields: Schema): FieldTable {
    map f <- t.Keys + fields.Keys ::
      (if f in t then t[f] else []) + (if f in fields then [Copied(fields[f])] else [])
  }

  function UpdateFields(t: FieldTable, fields: Schema): FieldTable {
    map f <- t :: if f in fields then seq(|t[f]|, _ => fields[f]) else t[f]
  }

  function ApplyChanges(t: FieldTable, d: SchemaChanges): FieldTable {
    UpdateFields(CopyFields(DeleteFields(t, d.deleted), d.added), d.updated)
  }

  /** The table holds each field of `s` once, and nothing else. */
  ghost predicate Stores(t: FieldTable, s: Schema) {
    t == map f <- s :: [s[f]]
  }

  predicate HasQuote(field: FieldSchema) {
    exists v <- field.enumValues :: v.Str? && '\'' in v.s
  }

  // ---- Properties of a diff ----

  /** Every field name of either schema falls in exactly one group, and a changed type is an update. */
  lemma DiffPartitions(d: SchemaChanges, prev: Schema, cur: Schema, hash: FieldHash, f: Field)
    requires IsDiff(d, prev, cur, hash)
    ensures f in prev.Keys + cur.Keys <==> f in Elements(d.deleted) + d.added.Keys + d.updated.Keys + d.kept.Keys
    ensures Elements(d.deleted) !! d.added.Keys !! d.updated.Keys !! d.kept.Keys
    ensures f in d.updatedTypes ==> f in d.updated && f in prev && prev[f].dataType != d.updatedTypes[f]
    ensures f in prev && f in cur && prev[f].dataType != cur[f].dataType && hash(prev[f]) != hash(cur[f])
        ==> f in d.updatedTypes
  {
  }

  lemma {:induction false} DoubledFixed(s: string)
    ensures if '\'' in s then |DoubleQuotes(s)| > |s| else DoubleQuotes(s) == s
    ensures |DoubleQuotes(s)| >= |s|
  {
    if s != "" {
      DoubledFixed(s[1..]);
      assert s == [s[0]] + s[1..];
    }
  }

  lemma CopiedFixed(field: FieldSchema)
    ensures Copied(field) == field <==> !HasQuote(field)
  {
    var stored := Copied(field).enumValues;
    forall i | 0 <= i < |stored| && field.enumValues[i].Str?
      ensures stored[i] == field.enumValues[i] <==> '\'' !in field.enumValues[i].s
    {
      DoubledFixed(field.enumValues[i].s);
    }
    if HasQuote(field) {
      var v :| v in field.enumValues && v.Str? && '\'' in v.s;
      var i :| 0 <= i < |stored| && field.enumValues[i] == v;
      assert stored[i] != v;
    } else {
      assert stored == field.enumValues;
    }
  }

  /** Fields copied into an empty table. */
  lemma FirstFields(s: Schema)
    ensures Stores(CopyFields(map[], s), s) <==> forall f <- s :: !HasQuote(s[f])
  {
    hide Copied, HasQuote;
    var t := CopyFields(map[], s);
    forall f <- s ensures t[f] == [s[f]] <==> !HasQuote(s[f]) {
      CopiedFixed(s[f]);
      assert t[f] == [Copied(s[f])];
    }
  }

  /** An added field keeps its enum text and a changed field is noticed. */
  predicate Recorded(prev: Schema, cur: Schema, hash: FieldHash, f: Field)
    requires f in cur
  {
    if f in prev then prev[f] == cur[f] || hash(prev[f]) != hash(cur[f]) else !HasQuote(cur[f])
  }

  /** Applying the diff to the stored previous schema gives the current one, in all seven attributes,
      exactly when no added field has a quote in its enum and the hash tells every changed field. */
  lemma SchemaRoundTrip(t: FieldTable, d: SchemaChanges, prev: Schema, cur: Schema, hash: FieldHash)
    requires Stores(t, prev) && IsDiff(d, prev, cur, hash)
    ensures Stores(ApplyChanges(t, d), cur) <==> forall f <- cur :: Recorded(prev, cur, hash, f)
  {
    var after := ApplyChanges(t, d);
    hide ApplyChanges, IsDiff, IsDiffOn, Recorded, HasQuote;
    KeysAfter(t, d, prev, cur, hash);
    forall f <- cur ensures after[f] == [cur[f]] <==> Recorded(prev, cur, hash, f) {
      FieldAfter(t, d, prev, cur, hash, f);
    }
  }

  lemma DiffKeys(d: SchemaChanges, prev: Schema, cur: Schema, hash: FieldHash)
    requires IsDiff(d, prev, cur, hash)
    ensures Elements(d.deleted) == prev.Keys - cur.Keys && d.added.Keys == cur.Keys - prev.Keys
  {
  }

  lemma DiffUpdates(d: SchemaChanges, prev: Schema, cur: Schema, hash: FieldHash, f: Field)
    requires IsDiff(d, prev, cur, hash) && f in cur
    ensures f in d.added ==> d.added[f] == cur[f]
    ensures f in d.updated <==> f in prev && hash(prev[f]) != hash(cur[f])
    ensures f in d.updated ==> d.updated[f] == cur[f]
  {
  }

  lemma KeysAfter(t: FieldTable, d: SchemaChanges, prev: Schema, cur: Schema, hash: FieldHash)
    requires Stores(t, prev) && IsDiff(d, prev, cur, hash)
    ensures ApplyChanges(t, d).Keys == cur.Keys
  {
  }

  lemma FieldAfter(t: FieldTable, d: SchemaChanges, prev: Schema, cur: Schema, hash: FieldHash, f: Field)
    requires Stores(t, prev) && IsDiff(d, prev, cur, hash) && f in cur
    ensures f in ApplyChanges(t, d)
    ensures ApplyChanges(t, d)[f] == [cur[f]] <==> Recorded(prev, cur, hash, f)
  {
    hide Copied, HasQuote, IsDiff, IsDiffOn, Elements;
    CopiedFixed(cur[f]);
    DiffKeys(d, prev, cur, hash);
    DiffUpdates(d, prev, cur, hash, f);
    var copied := CopyFields(DeleteFields(t, d.deleted), d.added);
    assert copied[f] == [if f in prev then prev[f] else Copied(cur[f])];
    assert ApplyChanges(t, d)[f] ==
      [if f !in prev then Copied(cur[f]) else if f in d.updated then cur[f] else prev[f]];
  }

  /** A field added with an enum value that holds a quote is stored with the quote doubled. */
  lemma QuoteIsDoubled(f: Field, hash: FieldHash)
    ensures var field := FieldSchema("size", StringType, "", true, [Str("5'")], false, false);
      var d := SchemaChanges([], map[f := field], map[], map[], map[]);
      && IsDiff(d, map[], map[f := field], hash)
      && ApplyChanges(map[], d)[f][0].enumValues == [Str("5''")]
      && !Stores(ApplyChanges(map[], d), map[f := field])
  {
    var field := FieldSchema("size", StringType, "", true, [Str("5'")], false, false);
    assert "5'"[1..] == "'" && "'"[1..] == "";
    assert DoubleQuotes("'") == "''" && DoubleQuotes("5'") == "5''";
    assert HasQuote(field) by { assert field.enumValues[0] == Str("5'") && "5'"[1] == '\''; }
    CopiedFixed(field);
  }
}
