/**
  `normalize_arrow_types` of rust/src/reader.rs, and its place behind the concatenation of the batches that
  a query returned.
 */
module Arrow {
  import opened Wrappers

  datatype DataType = Decimal128(precision: nat, scale: int) | Float64 | Other(name: string)

  /** `extra` is the field's metadata. */
  datatype Field = Field(name: string, dataType: DataType, nullable: bool, extra: map<string, string>)

  datatype Cell = Null | Cell(bits: int)

  type Column = seq<Cell>

  datatype Schema = Schema(fields: seq<Field>, extra: map<string, string>)

  datatype Batch = Batch(schema: Schema, columns: seq<Column>, rows: nat) {
    /** What `RecordBatch::try_new` checks. */
    predicate Valid() {
      && |columns| == |schema.fields|
      && (forall i :: 0 <= i < |columns| ==> |columns[i]| == rows)
      && (forall i :: 0 <= i < |columns| && !schema.fields[i].nullable ==> Null !in columns[i])
    }
  }

  /** Arrow's cast to Float64: it refuses a column, or converts it cell by cell and keeps nulls. */
  datatype Caster = Caster(refuses: (DataType, Column) -> Option<string>, cell: (DataType, Cell) -> Cell) {
    ghost predicate Lawful() {
      forall t: DataType, c: Cell :: cell(t, c).Null? <==> c.Null?
    }
  }

  predicate NeedsCast(schema: Schema) {
    exists i :: 0 <= i < |schema.fields| && schema.fields[i].dataType.Decimal128?
  }

  // ---------- Specification: column by column ----------

  function NormalField(f: Field): Field {
    if f.dataType.Decimal128? then Field(f.name, Float64, f.nullable, map[]) else f
  }

  function NormalColumn(cast: Caster, f: Field, column: Column): Column {
    if f.dataType.Decimal128? then seq(|column|, (i: nat) requires i < |column| => cast.cell(f.dataType, column[i]))
    else column
  }

  /** A schema without decimals is kept whole; a rebuilt one loses its own metadata. */
  function NormalSchema(schema: Schema): Schema {
    if NeedsCast(schema) then Schema(seq(|schema.fields|, (i: nat) requires i < |schema.fields| => NormalField(schema.fields[i])), map[])
    else schema
  }

  function Normal(cast: Caster, b: Batch): Batch
    requires |b.columns| == |b.schema.fields|
  {
    Batch(NormalSchema(b.schema),
          seq(|b.columns|, (i: nat) requires i < |b.columns| => NormalColumn(cast, b.schema.fields[i], b.columns[i])),
          b.rows)
  }

  // ---------- What can go wrong ----------

  predicate Castable(cast: Caster, f: Field, column: Column) {
    f.dataType.Decimal128? ==> cast.refuses(f.dataType, column).None?
  }

  const INVALID := "failed to normalize arrow types: "

  /** `RecordBatch::try_new`, which counts the rows of the first column; why it refuses a batch is not modelled. */
  function TryNew(schema: Schema, columns: seq<Column>, reason: string): Result<Batch>
    requires columns != []
  {
    var b := Batch(schema, columns, |columns[0]|);
    if b.Valid() then Ok(b) else Err(INVALID + reason)
  }

  // ---------- The loop ----------

  /** The first decimal column that cannot be cast fails the whole; the rebuilt batch itself never does. */
  method NormalizeArrowTypes(b: Batch, cast: Caster, reason: string) returns (r: Result<Batch>)
    requires b.Valid() && cast.Lawful()
    ensures r.Ok? <==> forall i :: 0 <= i < |b.columns| && b.schema.fields[i].dataType.Decimal128? ==>
                         cast.refuses(b.schema.fields[i].dataType, b.columns[i]).None?
    ensures r.Ok? ==> r.value == Normal(cast, b) && r.value.Valid()
    ensures r.Ok? ==> forall i :: 0 <= i < |b.columns| && b.schema.fields[i].dataType.Decimal128? ==>
                        && r.value.schema.fields[i].dataType == Float64 && |r.value.columns[i]| == b.rows
                        && forall k :: 0 <= k < b.rows ==>
                             r.value.columns[i][k] == cast.cell(b.schema.fields[i].dataType, b.columns[i][k])
    ensures r.Err? ==>
              exists i: nat :: FirstRefused(cast, b, i)
                               && r.error == "failed to cast column '" + b.schema.fields[i].name + "' from Decimal to Float64: "
                                             + cast.refuses(b.schema.fields[i].dataType, b.columns[i]).value
  {
    if !NeedsCast(b.schema) {
      NothingToCast(cast, b);
      return Ok(b);
    }
    var newFields: seq<Field> := [];
    var newColumns: seq<Column> := [];
    for i := 0 to |b.schema.fields|
      invariant |newFields| == |newColumns| == i
      invariant forall j :: 0 <= j < i ==> Castable(cast, b.schema.fields[j], b.columns[j])
      invariant forall j :: 0 <= j < i ==> newFields[j] == NormalField(b.schema.fields[j])
      invariant forall j :: 0 <= j < i ==> newColumns[j] == NormalColumn(cast, b.schema.fields[j], b.columns[j])
    {
      var field := b.schema.fields[i];
      if field.dataType.Decimal128? {
        var refusal := cast.refuses(field.dataType, b.columns[i]);
        if refusal.Some? {
          assert FirstRefused(cast, b, i);
          return Err("failed to cast column '" + field.name + "' from Decimal to Float64: " + refusal.value);
        }
        var column := b.columns[i];
        var casted := seq(|column|, (k: nat) requires k < |column| => cast.cell(field.dataType, column[k]));
        newFields := newFields + [Field(field.name, Float64, field.nullable, map[])];
        newColumns := newColumns + [casted];
      } else {
        newFields := newFields + [field];
        newColumns := newColumns + [b.columns[i]];
      }
    }
    NormalIsValid(cast, b);
    DecimalsBecomeFloats(cast, b);
    assert newColumns == Normal(cast, b).columns && newFields == Normal(cast, b).schema.fields;
    r := TryNew(Schema(newFields, map[]), newColumns, reason);
  }

  ghost predicate FirstRefused(cast: Caster, b: Batch, i: nat)
    requires |b.columns| == |b.schema.fields|
  {
    && i < |b.columns| && b.schema.fields[i].dataType.Decimal128?
    && cast.refuses(b.schema.fields[i].dataType, b.columns[i]).Some?
    && forall j :: 0 <= j < i ==> Castable(cast, b.schema.fields[j], b.columns[j])
  }

  lemma NothingToCast(cast: Caster, b: Batch)
    requires |b.columns| == |b.schema.fields| && !NeedsCast(b.schema)
    ensures Normal(cast, b) == b
  {
    assert Normal(cast, b).columns == b.columns;
  }

  lemma NormalIsValid(cast: Caster, b: Batch)
    requires b.Valid() && cast.Lawful()
    ensures Normal(cast, b).Valid()
  {
    var n := Normal(cast, b);
    forall i | 0 <= i < |n.columns| && !n.schema.fields[i].nullable
      ensures Null !in n.columns[i]
    {
      assert !b.schema.fields[i].nullable && Null !in b.columns[i];
      forall k | 0 <= k < |n.columns[i]|
        ensures n.columns[i][k] != Null
      {
        assert b.columns[i][k] in b.columns[i];
      }
    }
  }

  // ---------- What normalising means ----------

  /** Every decimal column becomes a column of doubles, each cell the cast of the one it was. */
  lemma DecimalsBecomeFloats(cast: Caster, b: Batch)
    requires |b.columns| == |b.schema.fields|
    ensures var n := Normal(cast, b);
      forall i :: 0 <= i < |b.columns| && b.schema.fields[i].dataType.Decimal128? ==>
        && |n.schema.fields| == |b.columns| && n.schema.fields[i].dataType == Float64
        && |n.columns[i]| == |b.columns[i]|
        && forall k :: 0 <= k < |b.columns[i]| ==> n.columns[i][k] == cast.cell(b.schema.fields[i].dataType, b.columns[i][k])
  {
  }

  /** No decimal is left; names, order and nullability are; nothing else changes; and a second pass does nothing. */
  lemma NormalKeepsShape(cast: Caster, b: Batch)
    requires |b.columns| == |b.schema.fields|
    ensures var n := Normal(cast, b);
      && !NeedsCast(n.schema)
      && n.rows == b.rows && |n.columns| == |b.columns| && |n.schema.fields| == |b.schema.fields|
      && (forall i :: 0 <= i < |b.columns| ==>
            && n.schema.fields[i].name == b.schema.fields[i].name
            && n.schema.fields[i].nullable == b.schema.fields[i].nullable
            && |n.columns[i]| == |b.columns[i]|
            && (!b.schema.fields[i].dataType.Decimal128? ==>
                  n.schema.fields[i] == b.schema.fields[i] && n.columns[i] == b.columns[i]))
      && Normal(cast, n) == n
  {
    var n := Normal(cast, b);
    assert !NeedsCast(n.schema);
    NothingToCast(cast, n);
  }

  /**
    The schema's own metadata survives exactly when there was none or no column had to be cast, and a
    field's exactly when it had none or was not cast itself.
   */
  lemma MetadataSurvivesExactlyWhen(cast: Caster, b: Batch)
    requires |b.columns| == |b.schema.fields|
    ensures Normal(cast, b).schema.extra == b.schema.extra <==> !NeedsCast(b.schema) || b.schema.extra == map[]
    ensures forall i :: 0 <= i < |b.schema.fields| ==>
              (Normal(cast, b).schema.fields[i].extra == b.schema.fields[i].extra <==>
                 !b.schema.fields[i].dataType.Decimal128? || b.schema.fields[i].extra == map[])
  {
  }

  // ---------- Concatenation ----------

  /** Column `i` of all batches, one below the other. */
  function Stack(batches: seq<Batch>, i: nat): Column
    requires forall b :: b in batches ==> i < |b.columns|
  {
    if batches == [] then [] else batches[0].columns[i] + Stack(batches[1..], i)
  }

  function Rows(batches: seq<Batch>): nat {
    if batches == [] then 0 else batches[0].rows + Rows(batches[1..])
  }

  ghost predicate Conform(schema: Schema, batches: seq<Batch>) {
    forall b :: b in batches ==> b.Valid() && b.schema == schema
  }

  /** `concat_batches`, or an empty batch when the stream had none. */
  function Concat(schema: Schema, batches: seq<Batch>): Batch
    requires Conform(schema, batches)
  {
    Batch(schema, seq(|schema.fields|, (i: nat) requires i < |schema.fields| => Stack(batches, i)), Rows(batches))
  }

  lemma {:induction false} StackAppends(above: seq<Batch>, below: seq<Batch>, i: nat)
    requires forall b :: b in above ==> i < |b.columns|
    requires forall b :: b in below ==> i < |b.columns|
    ensures Stack(above + below, i) == Stack(above, i) + Stack(below, i)
    ensures Rows(above + below) == Rows(above) + Rows(below)
    decreases |above|
  {
    if above == [] {
      assert above + below == below;
    } else {
      var first, rest := above[0], above[1..];
      StackAppends(rest, below, i);
      assert (above + below)[0] == first && (above + below)[1..] == rest + below;
      Associate(first.columns[i], Stack(rest, i), Stack(below, i));
    }
  }

  lemma Associate(a: Column, b: Column, c: Column)
    ensures a + (b + c) == (a + b) + c
  {
  }

  /** Concatenation keeps the batches in order, row by row. */
  lemma ConcatAppends(schema: Schema, above: seq<Batch>, below: seq<Batch>, i: nat)
    requires Conform(schema, above) && Conform(schema, below) && i < |schema.fields|
    ensures Conform(schema, above + below)
    ensures Concat(schema, above + below).columns[i] == Concat(schema, above).columns[i] + Concat(schema, below).columns[i]
    ensures Concat(schema, above + below).rows == Concat(schema, above).rows + Concat(schema, below).rows
  {
    StackAppends(above, below, i);
  }

  lemma ConcatOfOne(b: Batch)
    requires b.Valid()
    ensures Conform(b.schema, [b]) && Concat(b.schema, [b]) == b
  {
    assert [b][1..] == [] && Rows([b]) == b.rows + Rows([b][1..]);
    forall i | 0 <= i < |b.columns|
      ensures Stack([b], i) == b.columns[i]
    {
      assert Stack([b], i) == b.columns[i] + Stack([b][1..], i);
    }
    assert Concat(b.schema, [b]).columns == b.columns;
  }

  function NormalAll(cast: Caster, batches: seq<Batch>): seq<Batch>
    requires forall b :: b in batches ==> |b.columns| == |b.schema.fields|
  {
    if batches == [] then [] else [Normal(cast, batches[0])] + NormalAll(cast, batches[1..])
  }

  lemma {:induction false} NormalAllConforms(cast: Caster, schema: Schema, batches: seq<Batch>)
    requires Conform(schema, batches) && cast.Lawful()
    ensures |NormalAll(cast, batches)| == |batches| && Rows(NormalAll(cast, batches)) == Rows(batches)
    ensures Conform(NormalSchema(schema), NormalAll(cast, batches))
  {
    if batches != [] {
      NormalIsValid(cast, batches[0]);
      NormalAllConforms(cast, schema, batches[1..]);
    }
  }

  lemma {:induction false} NormalStacks(cast: Caster, schema: Schema, batches: seq<Batch>, i: nat)
    requires Conform(schema, batches) && cast.Lawful() && i < |schema.fields|
    requires Conform(NormalSchema(schema), NormalAll(cast, batches))
    ensures Stack(NormalAll(cast, batches), i) == NormalColumn(cast, schema.fields[i], Stack(batches, i))
  {
    if batches != [] {
      NormalAllConforms(cast, schema, batches[1..]);
      NormalStacks(cast, schema, batches[1..], i);
      var first, f := batches[0], schema.fields[i];
      assert NormalAll(cast, batches) == [Normal(cast, first)] + NormalAll(cast, batches[1..]);
      assert Normal(cast, first).columns[i] == NormalColumn(cast, f, first.columns[i]);
      hide NormalColumn, Normal, NormalAll, Batch.Valid, Caster.Lawful;
      ColumnsStack(cast, f, first.columns[i], Stack(batches[1..], i));
    }
  }

  lemma ColumnsStack(cast: Caster, f: Field, above: Column, below: Column)
    ensures NormalColumn(cast, f, above + below) == NormalColumn(cast, f, above) + NormalColumn(cast, f, below)
  {
  }

  /** Normalising what the batches make together is the same as normalising each of them first. */
  lemma NormalCommutesWithConcat(cast: Caster, schema: Schema, batches: seq<Batch>)
    requires Conform(schema, batches) && cast.Lawful()
    ensures Conform(NormalSchema(schema), NormalAll(cast, batches))
    ensures Normal(cast, Concat(schema, batches)) == Concat(NormalSchema(schema), NormalAll(cast, batches))
  {
    NormalAllConforms(cast, schema, batches);
    var whole, parts := Normal(cast, Concat(schema, batches)), Concat(NormalSchema(schema), NormalAll(cast, batches));
    forall i | 0 <= i < |schema.fields|
      ensures whole.columns[i] == parts.columns[i]
    {
      NormalStacks(cast, schema, batches, i);
    }
    assert whole.columns == parts.columns;
  }
}
