/** The struct-to-table mapping of gee-orm's schema package.

    Reflection is replaced by explicit input: a struct type is its name and
    the sequence of its field descriptors, and an object is its struct type,
    the table name its `TableName()` method gives (None when the type does
    not implement `ITableName`) and the values of its fields by name.  The
    dialect's `DataTypeOf` is a function passed to `Parse`. */
module OrmSchema {
  import opened Wrappers

  /** A Go type as reflection reports it; only its identity matters here. */
  type GoType = string

  /** One field of a struct, as `reflect.StructField` describes it. */
  datatype FieldDesc = FieldDesc(
    name: string,
    goType: GoType,
    anonymous: bool,
    geeormTag: Option<string>)   // the value of the `geeorm` struct tag, if any

  /** A struct type: its name and its fields in declaration order. */
  datatype StructType = StructType(name: string, fields: seq<FieldDesc>)

  /** An object handed to `Parse` or `RecordValues`. */
  datatype Object<V> = Object(
    typ: StructType,
    tableName: Option<string>,   // what `TableName()` returns, if the type has it
    values: map<string, V>)      // the value of each field, by field name

  /** A column of a table. */
  datatype Field = Field(name: string, typ: string, tag: string)

  /** A table: the model object, its name, its columns in order, their names
      in the same order, and the columns indexed by name. */
  datatype Schema<V> = Schema(
    model: Object<V>,
    name: string,
    fields: seq<Field>,
    fieldNames: seq<string>,
    fieldMap: map<string, Field>)
  {
    /** The column called `name`; None stands for Go's nil. */
    function GetField(name: string): Option<Field> {
      if name in fieldMap then Some(fieldMap[name]) else None
    }

    /** The values of `dest`'s fields, one per column, in column order.
        Go's reflection panics on a column that `dest` does not have, so the
        caller must hand in an object of the schema's type. */
    method RecordValues(dest: Object<V>) returns (fieldValues: seq<V>)
      requires forall i :: 0 <= i < |fields| ==> fields[i].name in dest.values
      ensures |fieldValues| == |fields|
      ensures forall i :: 0 <= i < |fields| ==> fieldValues[i] == dest.values[fields[i].name]
    {
      fieldValues := [];
      for i := 0 to |fields|
        invariant |fieldValues| == i
        invariant forall j :: 0 <= j < i ==> fieldValues[j] == dest.values[fields[j].name]
      {
        fieldValues := fieldValues + [dest.values[fields[i].name]];
      }
    }
  }

  /** Go's `ast.IsExported`, restricted to ASCII: the name starts with an
      upper-case letter. */
  predicate IsExported(name: string) {
    |name| > 0 && 'A' <= name[0] <= 'Z'
  }

  /** Whether `Parse` turns the field into a column. */
  predicate Keep(p: FieldDesc) {
    !p.anonymous && IsExported(p.name)
  }

  /** The column `Parse` builds for a kept field. */
  function ToField(p: FieldDesc, dataTypeOf: GoType -> string): Field {
    Field(p.name, dataTypeOf(p.goType), p.geeormTag.GetOr(""))
  }

  /** The columns built from a field sequence, in order. */
  function Columns(ps: seq<FieldDesc>, dataTypeOf: GoType -> string): seq<Field>
    decreases |ps|
  {
    if ps == [] then []
    else
      var last := ps[|ps| - 1];
      Columns(ps[..|ps| - 1], dataTypeOf) + (if Keep(last) then [ToField(last, dataTypeOf)] else [])
  }

  /** The positions of the kept fields, in order. */
  function KeptIndices(ps: seq<FieldDesc>): seq<nat>
    decreases |ps|
  {
    if ps == [] then []
    else KeptIndices(ps[..|ps| - 1]) + (if Keep(ps[|ps| - 1]) then [|ps| - 1] else [])
  }

  /** The names of the columns, in order. */
  function NamesOf(cols: seq<Field>): seq<string> {
    seq(|cols|, i requires 0 <= i < |cols| => cols[i].name)
  }

  /** The columns entered one after the other into a map by name. */
  function IndexByName(cols: seq<Field>): map<string, Field>
    decreases |cols|
  {
    if cols == [] then map[]
    else
      var last := cols[|cols| - 1];
      IndexByName(cols[..|cols| - 1])[last.name := last]
  }

  /** The table name: `TableName()` when the type implements it, the struct
      type's name otherwise. */
  function TableName<V>(dest: Object<V>): string {
    match dest.tableName
    case Some(t) => t
    case None => dest.typ.name
  }

  /** The schema `Parse` builds. */
  function ParseSpec<V>(dest: Object<V>, dataTypeOf: GoType -> string): Schema<V> {
    var cols := Columns(dest.typ.fields, dataTypeOf);
    Schema(dest, TableName(dest), cols, NamesOf(cols), IndexByName(cols))
  }

  /** The three views of the columns agree: names in lockstep with the
      columns, and the map holds exactly those names, each to a column of
      that name. */
  ghost predicate Consistent<V>(s: Schema<V>) {
    && |s.fields| == |s.fieldNames|
    && (forall i :: 0 <= i < |s.fields| ==> s.fieldNames[i] == s.fields[i].name)
    && (forall name :: name in s.fieldMap <==> name in s.fieldNames)
    && (forall name :: name in s.fieldMap ==> s.fieldMap[name] in s.fields && s.fieldMap[name].name == name)
  }

  /** No two kept fields share a name.  Go makes every non-blank field name
      of a struct unique; only blank fields, all named "_", may repeat, and
      they are never kept because "_" is not exported. */
  ghost predicate DistinctKeptNames(ps: seq<FieldDesc>) {
    forall i, j :: 0 <= i < j < |ps| && Keep(ps[i]) && Keep(ps[j]) ==> ps[i].name != ps[j].name
  }

  /** Builds the schema of `dest`'s struct type, as the Go code does: one
      pass over the fields, appending each kept one to the columns and the
      names and entering it into the map. */
  method Parse<V>(dest: Object<V>, dataTypeOf: GoType -> string) returns (schema: Schema<V>)
    ensures schema == ParseSpec(dest, dataTypeOf)
    ensures Consistent(schema)
    ensures schema.model == dest
    ensures dest.tableName.Some? ==> schema.name == dest.tableName.value
    ensures dest.tableName.None? ==> schema.name == dest.typ.name
  {
    var tableName: string;
    match dest.tableName {
      case None => tableName := dest.typ.name;
      case Some(t) => tableName := t;
    }
    schema := Schema(dest, tableName, [], [], map[]);
    var ps := dest.typ.fields;
    for i := 0 to |ps|
      invariant schema.model == dest && schema.name == tableName
      invariant schema.fields == Columns(ps[..i], dataTypeOf)
      invariant schema.fieldNames == NamesOf(schema.fields)
      invariant schema.fieldMap == IndexByName(schema.fields)
    {
      var p := ps[i];
      ColumnsStep(ps, i, dataTypeOf);
      if !p.anonymous && IsExported(p.name) {
        var field := Field(p.name, dataTypeOf(p.goType), "");
        match p.geeormTag {
          case Some(v) => field := field.(tag := v);
          case None =>
        }
        AppendColumn(schema.fields, field);
        schema := schema.(fields := schema.fields + [field],
                          fieldNames := schema.fieldNames + [p.name],
                          fieldMap := schema.fieldMap[p.name := field]);
      }
    }
    assert ps[..|ps|] == ps;
    ParseConsistent(dest, dataTypeOf);
  }

  // ---------------------------------------------------------------------
  // Lemmas about the specification

  /** One more field extends the columns by its column when it is kept. */
  lemma ColumnsStep(ps: seq<FieldDesc>, i: nat, dataTypeOf: GoType -> string)
    requires i < |ps|
    ensures Columns(ps[..i + 1], dataTypeOf)
      == Columns(ps[..i], dataTypeOf) + (if Keep(ps[i]) then [ToField(ps[i], dataTypeOf)] else [])
  {
    assert ps[..i + 1][..i] == ps[..i];
  }

  /** One more column extends the names by its name and enters it into the
      map. */
  lemma AppendColumn(cols: seq<Field>, f: Field)
    ensures NamesOf(cols + [f]) == NamesOf(cols) + [f.name]
    ensures IndexByName(cols + [f]) == IndexByName(cols)[f.name := f]
  {
  }


  /** The kept positions lie within the fields, point at kept fields and
      increase. */
  lemma {:induction false} KeptIndicesSound(ps: seq<FieldDesc>)
    ensures forall k :: 0 <= k < |KeptIndices(ps)| ==>
      KeptIndices(ps)[k] < |ps| && Keep(ps[KeptIndices(ps)[k]])
    ensures forall k, l :: 0 <= k < l < |KeptIndices(ps)| ==> KeptIndices(ps)[k] < KeptIndices(ps)[l]
  {
    if ps != [] {
      var init := ps[..|ps| - 1];
      KeptIndicesSound(init);
      var ks0, ks := KeptIndices(init), KeptIndices(ps);
      assert ks == ks0 + (if Keep(ps[|ps| - 1]) then [|ps| - 1] else []);
      forall k | 0 <= k < |ks0|
        ensures ks[k] < |ps| && Keep(ps[ks[k]])
      {
        assert ks[k] == ks0[k] && init[ks0[k]] == ps[ks0[k]];
      }
    }
  }

  /** Every field that is not anonymous and is exported has its position
      among the kept ones. */
  lemma {:induction false} KeptIndicesComplete(ps: seq<FieldDesc>, i: nat)
    requires i < |ps| && Keep(ps[i])
    ensures i in KeptIndices(ps)
  {
    var init := ps[..|ps| - 1];
    var ks0, ks := KeptIndices(init), KeptIndices(ps);
    assert ks == ks0 + (if Keep(ps[|ps| - 1]) then [|ps| - 1] else []);
    if i < |init| {
      assert init[i] == ps[i];
      KeptIndicesComplete(init, i);
      assert i in ks0;
    } else {
      assert ks[|ks| - 1] == i;
    }
  }

  /** The k-th column is the column of the field at the k-th kept position. */
  lemma {:induction false} ColumnsAreKeptFields(ps: seq<FieldDesc>, dataTypeOf: GoType -> string)
    ensures |Columns(ps, dataTypeOf)| == |KeptIndices(ps)|
    ensures forall k :: 0 <= k < |KeptIndices(ps)| ==>
      KeptIndices(ps)[k] < |ps| && Columns(ps, dataTypeOf)[k] == ToField(ps[KeptIndices(ps)[k]], dataTypeOf)
  {
    KeptIndicesSound(ps);
    if ps != [] {
      var init := ps[..|ps| - 1];
      ColumnsAreKeptFields(init, dataTypeOf);
      KeptIndicesSound(init);
      var ks0, ks := KeptIndices(init), KeptIndices(ps);
      var cols0, cols := Columns(init, dataTypeOf), Columns(ps, dataTypeOf);
      assert ks == ks0 + (if Keep(ps[|ps| - 1]) then [|ps| - 1] else []);
      assert cols == cols0 + (if Keep(ps[|ps| - 1]) then [ToField(ps[|ps| - 1], dataTypeOf)] else []);
      forall k | 0 <= k < |ks|
        ensures cols[k] == ToField(ps[ks[k]], dataTypeOf)
      {
        if k < |ks0| {
          assert cols[k] == cols0[k] && ks[k] == ks0[k] && init[ks0[k]] == ps[ks0[k]];
        }
      }
    }
  }

  /** Each column carries its field's name, the dialect's type for the
      field's Go type, and the `geeorm` tag, or "" when the field has none. */
  lemma ParseColumnAt<V>(dest: Object<V>, dataTypeOf: GoType -> string, k: nat)
    requires k < |ParseSpec(dest, dataTypeOf).fields|
    ensures k < |KeptIndices(dest.typ.fields)| && KeptIndices(dest.typ.fields)[k] < |dest.typ.fields|
    ensures var f, p := ParseSpec(dest, dataTypeOf).fields[k], dest.typ.fields[KeptIndices(dest.typ.fields)[k]];
      && f.name == p.name
      && f.typ == dataTypeOf(p.goType)
      && (p.geeormTag.Some? ==> f.tag == p.geeormTag.value)
      && (p.geeormTag.None? ==> f.tag == "")
  {
    ColumnsAreKeptFields(dest.typ.fields, dataTypeOf);
  }

  /** A value is a column exactly when it is the column of some kept field. */
  lemma {:induction false} ColumnsMembership(ps: seq<FieldDesc>, dataTypeOf: GoType -> string, f: Field)
    ensures f in Columns(ps, dataTypeOf) <==>
      exists i :: 0 <= i < |ps| && Keep(ps[i]) && f == ToField(ps[i], dataTypeOf)
  {
    var cols, ks := Columns(ps, dataTypeOf), KeptIndices(ps);
    KeptIndicesSound(ps);
    ColumnsAreKeptFields(ps, dataTypeOf);
    if f in cols {
      var k :| 0 <= k < |cols| && cols[k] == f;
      assert Keep(ps[ks[k]]) && f == ToField(ps[ks[k]], dataTypeOf);
    }
    if exists i :: 0 <= i < |ps| && Keep(ps[i]) && f == ToField(ps[i], dataTypeOf) {
      var i :| 0 <= i < |ps| && Keep(ps[i]) && f == ToField(ps[i], dataTypeOf);
      KeptIndicesComplete(ps, i);
      var k :| 0 <= k < |ks| && ks[k] == i;
      assert cols[k] == f;
    }
  }

  /** The map's keys are exactly the column names. */
  lemma {:induction false} IndexByNameKeys(cols: seq<Field>)
    ensures forall name :: name in IndexByName(cols) <==> name in NamesOf(cols)
  {
    if cols != [] {
      var init, last := cols[..|cols| - 1], cols[|cols| - 1];
      IndexByNameKeys(init);
      AppendColumn(init, last);
      assert init + [last] == cols;
    }
  }

  /** The map sends each key to a column that carries it. */
  lemma {:induction false} IndexByNameValues(cols: seq<Field>)
    ensures forall name :: name in IndexByName(cols) ==>
      IndexByName(cols)[name] in cols && IndexByName(cols)[name].name == name
  {
    if cols != [] {
      var init, last := cols[..|cols| - 1], cols[|cols| - 1];
      IndexByNameValues(init);
      assert init + [last] == cols;
      forall name | name in IndexByName(cols)
        ensures IndexByName(cols)[name] in cols && IndexByName(cols)[name].name == name
      {
        if name != last.name {
          assert IndexByName(cols)[name] == IndexByName(init)[name];
          assert IndexByName(init)[name] in init;
        }
      }
    }
  }

  /** A column that no later column shares a name with is what the map
      holds for its name. */
  lemma {:induction false} IndexByNameLast(cols: seq<Field>, k: nat)
    requires k < |cols| && forall j :: k < j < |cols| ==> cols[j].name != cols[k].name
    ensures cols[k].name in IndexByName(cols) && IndexByName(cols)[cols[k].name] == cols[k]
  {
    var init, last := cols[..|cols| - 1], cols[|cols| - 1];
    if k < |init| {
      assert init[k] == cols[k];
      forall j | k < j < |init|
        ensures init[j].name != init[k].name
      {
        assert init[j] == cols[j];
      }
      IndexByNameLast(init, k);
      assert last.name != cols[k].name;
    }
  }

  /** The map holds exactly the column names, and each name to the last
      column that carries it. */
  lemma IndexByNameLastWins(cols: seq<Field>)
    ensures forall name :: name in IndexByName(cols) <==> name in NamesOf(cols)
    ensures forall k :: 0 <= k < |cols| && (forall j :: k < j < |cols| ==> cols[j].name != cols[k].name) ==>
      cols[k].name in IndexByName(cols) && IndexByName(cols)[cols[k].name] == cols[k]
    ensures forall name :: name in IndexByName(cols) ==>
      IndexByName(cols)[name] in cols && IndexByName(cols)[name].name == name
  {
    IndexByNameKeys(cols);
    IndexByNameValues(cols);
    forall k | 0 <= k < |cols| && (forall j :: k < j < |cols| ==> cols[j].name != cols[k].name)
      ensures cols[k].name in IndexByName(cols) && IndexByName(cols)[cols[k].name] == cols[k]
    {
      IndexByNameLast(cols, k);
    }
  }

  /** The schema `Parse` builds is consistent. */
  lemma ParseConsistent<V>(dest: Object<V>, dataTypeOf: GoType -> string)
    ensures Consistent(ParseSpec(dest, dataTypeOf))
  {
    IndexByNameLastWins(Columns(dest.typ.fields, dataTypeOf));
  }

  /** A name is a column name exactly when some kept field carries it. */
  lemma {:induction false} ColumnNames(ps: seq<FieldDesc>, dataTypeOf: GoType -> string, name: string)
    ensures name in NamesOf(Columns(ps, dataTypeOf)) <==>
      exists i :: 0 <= i < |ps| && Keep(ps[i]) && ps[i].name == name
  {
    var cols, ks := Columns(ps, dataTypeOf), KeptIndices(ps);
    var names := NamesOf(cols);
    KeptIndicesSound(ps);
    ColumnsAreKeptFields(ps, dataTypeOf);
    if name in names {
      var k :| 0 <= k < |names| && names[k] == name;
      assert Keep(ps[ks[k]]) && ps[ks[k]].name == name;
    }
    if exists i :: 0 <= i < |ps| && Keep(ps[i]) && ps[i].name == name {
      var i :| 0 <= i < |ps| && Keep(ps[i]) && ps[i].name == name;
      KeptIndicesComplete(ps, i);
      var k :| 0 <= k < |ks| && ks[k] == i;
      assert names[k] == name;
    }
  }

  /** `GetField` finds a column exactly for the names of kept fields, and
      what it finds is a column of that name. */
  lemma GetFieldFindsKept<V>(dest: Object<V>, dataTypeOf: GoType -> string, name: string)
    ensures var s, ps := ParseSpec(dest, dataTypeOf), dest.typ.fields;
      && (s.GetField(name).Some? <==> exists i :: 0 <= i < |ps| && Keep(ps[i]) && ps[i].name == name)
      && (s.GetField(name).Some? ==> s.GetField(name).value in s.fields && s.GetField(name).value.name == name)
  {
    var s := ParseSpec(dest, dataTypeOf);
    IndexByNameLastWins(s.fields);
    assert s.GetField(name).Some? <==> name in NamesOf(s.fields);
    ColumnNames(dest.typ.fields, dataTypeOf, name);
  }

  /** With distinct names among the kept fields (always so in Go, where
      non-blank field names are unique), `GetField` returns, for
      the name of each kept field, exactly that field's column. */
  lemma GetFieldReturnsItsColumn<V>(dest: Object<V>, dataTypeOf: GoType -> string, i: nat)
    requires DistinctKeptNames(dest.typ.fields)
    requires i < |dest.typ.fields| && Keep(dest.typ.fields[i])
    ensures ParseSpec(dest, dataTypeOf).GetField(dest.typ.fields[i].name)
      == Some(ToField(dest.typ.fields[i], dataTypeOf))
  {
    var s, ps := ParseSpec(dest, dataTypeOf), dest.typ.fields;
    var cols, ks := s.fields, KeptIndices(ps);
    KeptIndicesSound(ps);
    KeptIndicesComplete(ps, i);
    ColumnsAreKeptFields(ps, dataTypeOf);
    IndexByNameLastWins(cols);
    var k :| 0 <= k < |ks| && ks[k] == i;
    forall j | k < j < |cols|
      ensures cols[j].name != cols[k].name
    {
      assert ks[k] < ks[j] && cols[j] == ToField(ps[ks[j]], dataTypeOf);
    }
    assert cols[k] == ToField(ps[i], dataTypeOf);
  }
}
