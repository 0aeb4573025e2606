/** Schema extraction and comparison (src/schema.py): the pandas-to-Spark type
    mapping, the per-column schema table, its JSON form, and the four-way
    comparison of two JSON schemas. */
module Schema {
  import opened Wrappers
  import opened Text
  import opened Seqs

  // ---------------------------------------------------------------------------
  //  Type mapping
  // ---------------------------------------------------------------------------

  /** The five Spark type names the mapping can produce. */
  const SparkTypes: set<string> := {"integer", "double", "string", "boolean", "timestamp"}

  /** Exact-match table from lower-case dtype names to Spark types. */
  const SparkTypeMap: map<string, string> := map[
    "int64" := "integer", "int32" := "integer", "int16" := "integer", "int8" := "integer",
    "uint8" := "integer", "uint16" := "integer", "uint32" := "integer", "uint64" := "integer",
    "integer" := "integer", "int" := "integer",
    "float64" := "double", "float32" := "double", "float16" := "double", "double" := "double",
    "object" := "string", "string" := "string",
    "bool" := "boolean", "boolean" := "boolean",
    "datetime64[ns]" := "timestamp", "datetime64" := "timestamp",
    "timedelta64[ns]" := "string",
    "category" := "string"
  ]

  lemma PrefixFirstChar(s: string, p: string)
    ensures StartsWith(s, p) && |p| > 0 ==> s[0] == p[0]
  {
  }

  /** The table agrees with the prefix rules wherever both apply: every entry
      whose name starts with `int`/`uint` is integer, and so on. */
  lemma TableAgreesWithPrefixes(l: string)
    requires l in SparkTypeMap
    ensures SparkTypeMap[l] in SparkTypes
    ensures SparkTypeMap[l] == "integer" <==> StartsWith(l, "int") || StartsWith(l, "uint")
    ensures SparkTypeMap[l] == "double" <==> StartsWith(l, "float") || l == "double"
    ensures SparkTypeMap[l] == "boolean" <==> l == "bool" || l == "boolean"
    ensures SparkTypeMap[l] == "timestamp" <==> StartsWith(l, "datetime")
  {
    PrefixFirstChar(l, "int");
    PrefixFirstChar(l, "uint");
    PrefixFirstChar(l, "float");
    PrefixFirstChar(l, "datetime");
  }

  /** `get_spark_type`: total, always one of the five Spark types, and
      classified by the lower-cased name alone: integer exactly for an
      `int`/`uint` prefix, double for a `float` prefix or `double`, boolean for
      `bool`/`boolean`, timestamp for a `datetime` prefix, string otherwise. */
  function GetSparkType(dtype: string): (r: string)
    ensures r in SparkTypes
    ensures r == "integer" <==> StartsWith(Lower(dtype), "int") || StartsWith(Lower(dtype), "uint")
    ensures r == "double" <==> StartsWith(Lower(dtype), "float") || Lower(dtype) == "double"
    ensures r == "boolean" <==> Lower(dtype) == "bool" || Lower(dtype) == "boolean"
    ensures r == "timestamp" <==> StartsWith(Lower(dtype), "datetime")
  {
    var lower := Lower(dtype);
    PrefixFirstChar(lower, "int");
    PrefixFirstChar(lower, "uint");
    PrefixFirstChar(lower, "float");
    PrefixFirstChar(lower, "datetime");
    if lower in SparkTypeMap then
      TableAgreesWithPrefixes(lower);
      SparkTypeMap[lower]
    else if StartsWith(lower, "int") || StartsWith(lower, "uint") then "integer"
    else if StartsWith(lower, "float") then "double"
    else if StartsWith(lower, "datetime") then "timestamp"
    else "string"
  }

  /** The mapping ignores case: a name and its lower-case form map alike. */
  lemma SparkTypeIgnoresCase(dtype: string)
    ensures GetSparkType(Lower(dtype)) == GetSparkType(dtype)
  {
    LowerIdempotent(dtype);
  }

  /** A name found in the exact table gets the table's type. */
  lemma ExactEntryWins(dtype: string)
    requires Lower(dtype) in SparkTypeMap
    ensures GetSparkType(dtype) == SparkTypeMap[Lower(dtype)]
  {
  }

  /** The exact table sends `timedelta64[ns]` and `category` to string,
      although neither has a string-like name. */
  lemma TableOnlyNames()
    ensures GetSparkType("timedelta64[ns]") == "string"
    ensures GetSparkType("category") == "string"
  {
    assert Lower("timedelta64[ns]") == "timedelta64[ns]";
    assert Lower("category") == "category";
  }

  /** Pandas' nullable spellings are upper-case and reach the prefix rules
      or the table after lower-casing. */
  lemma NullableSpellings()
    ensures GetSparkType("Int64") == "integer"
    ensures GetSparkType("UInt8") == "integer"
    ensures GetSparkType("Float64") == "double"
  {
    Int64Spelling();
    UInt8Spelling();
    Float64Spelling();
  }

  lemma Int64Spelling()
    ensures GetSparkType("Int64") == "integer"
  {
    assert Lower("Int64") == "int64";
  }

  lemma UInt8Spelling()
    ensures GetSparkType("UInt8") == "integer"
  {
    assert Lower("UInt8") == "uint8";
  }

  lemma Float64Spelling()
    ensures GetSparkType("Float64") == "double"
  {
    assert Lower("Float64") == "float64";
  }

  /** A time-zone aware datetime is not in the table but has the `datetime`
      prefix. */
  lemma PrefixOnly()
    ensures GetSparkType("datetime64[ns, UTC]") == "timestamp"
  {
    assert Lower("datetime64[ns, UTC]") == "datetime64[ns, utc]";
  }

  /** A name neither in the table nor with a known prefix is a string. */
  lemma Fallback()
    ensures GetSparkType("decimal") == "string"
  {
    assert Lower("decimal") == "decimal";
    assert "decimal" !in SparkTypeMap;
    PrefixFirstChar("decimal", "int");
    PrefixFirstChar("decimal", "uint");
    PrefixFirstChar("decimal", "float");
  }

  // ---------------------------------------------------------------------------
  //  Schema table and its JSON form
  // ---------------------------------------------------------------------------

  /** One column of a loaded table as the schema engine sees it: its name and
      the pandas dtype name of its values. */
  datatype ColumnInfo = ColumnInfo(name: string, dtype: string)

  /** One row of the schema table: `Column Name`, `Pandas Type`, `Spark Type`. */
  datatype ColumnSchema = ColumnSchema(columnName: string, pandasType: string, sparkType: string)

  /** `get_schema_df`: one row per column, in column order, whose Spark type
      is the mapping of its pandas type. */
  function GetSchemaDf(columns: seq<ColumnInfo>): (rows: seq<ColumnSchema>)
    ensures |rows| == |columns|
    ensures forall i :: 0 <= i < |columns| ==>
      rows[i].columnName == columns[i].name && rows[i].pandasType == columns[i].dtype
      && rows[i].sparkType == GetSparkType(columns[i].dtype)
  {
    if columns == [] then []
    else
      var c := columns[0];
      [ColumnSchema(c.name, c.dtype, GetSparkType(c.dtype))] + GetSchemaDf(columns[1..])
  }

  /** The header names of the schema table. */
  const SchemaHeaders: seq<string> := ["Column Name", "Pandas Type", "Spark Type"]

  /** `c.lower().replace(' ', '_')`. */
  function NormaliseKey(k: string): (r: string)
    ensures |r| == |k| && ' ' !in r
    ensures forall i :: 0 <= i < |k| ==> (k[i] == ' ' ==> r[i] == '_') && (k[i] != ' ' ==> r[i] == LowerChar(k[i]))
  {
    var l := Lower(k);
    var r := seq(|l|, i requires 0 <= i < |l| => if l[i] == ' ' then '_' else l[i]);
    assert forall i :: 0 <= i < |r| ==> r[i] != ' ';
    r
  }

  /** Normalising a normalised key changes nothing. */
  lemma NormaliseKeyIdempotent(k: string)
    ensures NormaliseKey(NormaliseKey(k)) == NormaliseKey(k)
  {
    var r := NormaliseKey(k);
    assert forall i :: 0 <= i < |r| ==> NormaliseKey(r)[i] == r[i];
  }

  /** The JSON keys the headers normalise to. */
  lemma NormalisedHeaders()
    ensures NormaliseKey(SchemaHeaders[0]) == "column_name"
    ensures NormaliseKey(SchemaHeaders[1]) == "pandas_type"
    ensures NormaliseKey(SchemaHeaders[2]) == "spark_type"
  {
  }

  /** A JSON record: key to string value. */
  type Record = map<string, string>

  /** The JSON document written for a schema. */
  datatype SchemaJson = SchemaJson(schema: seq<Record>, totalColumns: nat, createdAt: string, dataFile: string)

  /** `to_dict(orient='records')` for one schema row, after key normalisation. */
  function ToRecord(row: ColumnSchema): (rec: Record)
    ensures rec.Keys == {"column_name", "pandas_type", "spark_type"}
    ensures rec["column_name"] == row.columnName && rec["pandas_type"] == row.pandasType
      && rec["spark_type"] == row.sparkType
  {
    NormalisedHeaders();
    map[NormaliseKey(SchemaHeaders[0]) := row.columnName,
        NormaliseKey(SchemaHeaders[1]) := row.pandasType,
        NormaliseKey(SchemaHeaders[2]) := row.sparkType]
  }

  /** `schema_to_json_dict`: one record per schema row with the normalised keys
      `column_name`, `pandas_type`, `spark_type`; `total_columns` is the number
      of rows; `data_file` is name + "." + extension. The clock reading is a
      parameter. */
  function SchemaToJsonDict(rows: seq<ColumnSchema>, fileName: string, fileExt: string,
                            createdAt: string): (j: SchemaJson)
    ensures |j.schema| == |rows| && j.totalColumns == |rows|
    ensures forall i :: 0 <= i < |rows| ==>
      j.schema[i] == map["column_name" := rows[i].columnName, "pandas_type" := rows[i].pandasType,
                         "spark_type" := rows[i].sparkType]
    ensures j.dataFile == fileName + "." + fileExt && j.createdAt == createdAt
  {
    var records := seq(|rows|, i requires 0 <= i < |rows| => ToRecord(rows[i]));
    SchemaJson(records, |records|, createdAt, fileName + "." + fileExt)
  }

  // ---------------------------------------------------------------------------
  //  Reading a JSON schema back
  // ---------------------------------------------------------------------------

  /** What the comparison reads from one record: `column_name` and `spark_type`. */
  datatype Column = Column(name: string, sparkType: string)

  /** `c['column_name']` and `c['spark_type']` for every record `c`; a record
      lacking either key makes the source raise `KeyError`, here `None`. */
  function ReadColumns(records: seq<Record>): (r: Option<seq<Column>>)
    ensures r.Some? <==>
      forall i :: 0 <= i < |records| ==> "column_name" in records[i] && "spark_type" in records[i]
    ensures r.Some? ==> |r.value| == |records|
    ensures r.Some? ==> forall i :: 0 <= i < |records| ==>
      r.value[i] == Column(records[i]["column_name"], records[i]["spark_type"])
  {
    if records == [] then Some([])
    else
      var head := records[0];
      if "column_name" in head && "spark_type" in head then
        match ReadColumns(records[1..])
        case None => None
        case Some(rest) => Some([Column(head["column_name"], head["spark_type"])] + rest)
      else None
  }

  /** The columns a schema table describes, as the comparison reads them. */
  function SchemaColumns(rows: seq<ColumnSchema>): seq<Column> {
    seq(|rows|, i requires 0 <= i < |rows| => Column(rows[i].columnName, rows[i].sparkType))
  }

  /** Reading back a written schema gives each row's name and Spark type, in
      order. */
  lemma WrittenSchemaReadsBack(rows: seq<ColumnSchema>, fileName: string, fileExt: string,
                               createdAt: string)
    ensures ReadColumns(SchemaToJsonDict(rows, fileName, fileExt, createdAt).schema)
      == Some(SchemaColumns(rows))
  {
    var j := SchemaToJsonDict(rows, fileName, fileExt, createdAt);
    var r := ReadColumns(j.schema);
    assert r.Some?;
    assert r.value == SchemaColumns(rows);
  }

  // ---------------------------------------------------------------------------
  //  Comparison
  // ---------------------------------------------------------------------------

  function Names(cols: seq<Column>): (names: seq<string>)
    ensures |names| == |cols|
    ensures forall i :: 0 <= i < |cols| ==> names[i] == cols[i].name
  {
    seq(|cols|, i requires 0 <= i < |cols| => cols[i].name)
  }

  /** `{c['column_name']: c['spark_type'] for c in cols}`: its keys are
      exactly the names of `cols`. */
  function TypeMap(cols: seq<Column>): (m: map<string, string>)
    ensures forall n :: n in m <==> n in Names(cols)
  {
    if cols == [] then map[]
    else
      var k := |cols| - 1;
      assert Names(cols) == Names(cols[..k]) + [cols[k].name];
      TypeMap(cols[..k])[cols[k].name := cols[k].sparkType]
  }

  /** Dict construction is last-wins: a name's type is the one of its last
      entry. */
  lemma {:induction false} TypeMapLastWins(cols: seq<Column>, i: nat)
    requires i < |cols|
    requires forall j :: i < j < |cols| ==> cols[j].name != cols[i].name
    ensures cols[i].name in TypeMap(cols) && TypeMap(cols)[cols[i].name] == cols[i].sparkType
  {
    var k := |cols| - 1;
    if i < k {
      TypeMapLastWins(cols[..k], i);
    }
  }

  /** With distinct names every entry's own type is the one in the map. */
  lemma TypeMapDistinct(cols: seq<Column>, i: nat)
    requires Distinct(Names(cols)) && i < |cols|
    ensures cols[i].name in TypeMap(cols) && TypeMap(cols)[cols[i].name] == cols[i].sparkType
  {
    var names := Names(cols);
    forall j | i < j < |cols| ensures cols[j].name != cols[i].name {
      assert names[j] == cols[j].name && names[i] == cols[i].name;
    }
    TypeMapLastWins(cols, i);
  }

  /** The filter test `n not in other`. */
  function Absent(other: map<string, string>): string -> bool {
    n => n !in other
  }

  /** The filter test `n in other`. */
  function Present(other: map<string, string>): string -> bool {
    n => n in other
  }

  /** The filter test of the type-mismatch comprehension. */
  function Mismatched(m1: map<string, string>, m2: map<string, string>): string -> bool {
    n => n in m1 && n in m2 && m1[n] != m2[n]
  }

  /** One reported type difference; `Message` is the text the source lists. */
  datatype TypeMismatch = TypeMismatch(name: string, typeInFirst: string, typeInSecond: string) {
    function Message(): string {
      name + ": " + typeInFirst + " vs " + typeInSecond
    }
  }

  /** One reported order difference, with 0-based positions; `Message` shows
      both positions plus one, as the source does. */
  datatype OrderMismatch = OrderMismatch(name: string, indexInFirst: nat, indexInSecond: nat) {
    function Message(): string {
      name + ": position " + NatToString(indexInFirst + 1) + " in file 1 vs position "
      + NatToString(indexInSecond + 1) + " in file 2"
    }
  }

  /** The text of an order mismatch shows both positions counted from one:
      the name at index 0 of file 1 and index 1 of file 2 reads
      `x: position 1 in file 1 vs position 2 in file 2`. */
  lemma OrderMismatchMessage()
    ensures OrderMismatch("x", 0, 1).Message()
      == "x" + ": position " + "1" + " in file 1 vs position " + "2" + " in file 2"
  {
    SmallNumbers();
  }

  lemma SmallNumbers()
    ensures NatToString(1) == "1" && NatToString(2) == "2"
  {
  }

  /** The names a list of type mismatches is about, in its order. */
  function MismatchNames(ts: seq<TypeMismatch>): seq<string> {
    seq(|ts|, i requires 0 <= i < |ts| => ts[i].name)
  }

  /** The type-mismatch comprehension: over the names of file 1, in order,
      one entry for each name present in both maps with different types. */
  function TypeMismatches(names1: seq<string>, m1: map<string, string>, m2: map<string, string>)
    : (r: seq<TypeMismatch>)
    ensures forall t :: t in r <==>
      t.name in names1 && t.name in m1 && t.name in m2
      && t.typeInFirst == m1[t.name] && t.typeInSecond == m2[t.name] && t.typeInFirst != t.typeInSecond
  {
    if names1 == [] then []
    else
      var n := names1[0];
      var rest := TypeMismatches(names1[1..], m1, m2);
      assert names1 == [n] + names1[1..];
      if n in m1 && n in m2 && m1[n] != m2[n] then [TypeMismatch(n, m1[n], m2[n])] + rest
      else rest
  }

  /** The mismatches come in file-1 order: their names are the names of file
      1 that pass the comprehension's test, in order. */
  lemma {:induction false} TypeMismatchOrder(names1: seq<string>, m1: map<string, string>,
                                             m2: map<string, string>)
    ensures MismatchNames(TypeMismatches(names1, m1, m2)) == Filter(names1, Mismatched(m1, m2))
  {
    if names1 != [] {
      var n := names1[0];
      TypeMismatchOrder(names1[1..], m1, m2);
      if n in m1 && n in m2 && m1[n] != m2[n] {
        MismatchNamesCons(TypeMismatch(n, m1[n], m2[n]), TypeMismatches(names1[1..], m1, m2));
      }
    }
  }

  lemma MismatchNamesCons(t: TypeMismatch, rest: seq<TypeMismatch>)
    ensures MismatchNames([t] + rest) == [t.name] + MismatchNames(rest)
  {
    assert |MismatchNames([t] + rest)| == |[t.name] + MismatchNames(rest)|;
  }

  /** `{n: idx for idx, n in enumerate(names) if n in keep}`: every kept name
      maps to the index of its LAST occurrence in the whole of `names`. */
  function PositionMap(names: seq<string>, keep: map<string, string>): (pos: map<string, nat>)
    ensures forall n :: n in pos <==> n in names && n in keep
    ensures forall n :: n in pos ==> pos[n] < |names| && names[pos[n]] == n
    ensures forall n, j :: n in pos && pos[n] < j < |names| ==> names[j] != n
  {
    if names == [] then map[]
    else
      var k := |names| - 1;
      var prev := PositionMap(names[..k], keep);
      assert names == names[..k] + [names[k]];
      if names[k] in keep then prev[names[k] := k] else prev
  }

  /** With distinct names a kept name maps to its own index. */
  lemma PositionMapDistinct(names: seq<string>, keep: map<string, string>, i: nat)
    requires Distinct(names) && i < |names| && names[i] in keep
    ensures names[i] in PositionMap(names, keep) && PositionMap(names, keep)[names[i]] == i
  {
  }

  /** The order-mismatch loop over `common` enumerated from `start`: its
      entries carry indices inside the enumeration, in increasing order. */
  function OrderMismatchesFrom(common: seq<string>, pos2: map<string, nat>, start: nat)
    : (r: seq<OrderMismatch>)
    ensures |r| <= |common|
    ensures forall o :: o in r ==> start <= o.indexInFirst < start + |common|
    ensures forall k, l :: 0 <= k < l < |r| ==> r[k].indexInFirst < r[l].indexInFirst
    decreases |common|
  {
    if common == [] then []
    else
      var name := common[0];
      var rest := OrderMismatchesFrom(common[1..], pos2, start + 1);
      if name in pos2 && pos2[name] != start then
        var r := [OrderMismatch(name, start, pos2[name])] + rest;
        assert r[1..] == rest;
        assert forall l :: 0 <= l < |rest| ==> start < rest[l].indexInFirst by {
          forall l | 0 <= l < |rest| ensures start < rest[l].indexInFirst {
            assert rest[l] in rest;
          }
        }
        r
      else rest
  }

  /** An entry exists for exactly the names whose index differs from their
      entry in `pos2`. */
  lemma {:induction false} OrderMismatchesFromMembers(common: seq<string>, pos2: map<string, nat>,
                                                      start: nat, o: OrderMismatch)
    ensures o in OrderMismatchesFrom(common, pos2, start) <==>
      start <= o.indexInFirst < start + |common| && o.name == common[o.indexInFirst - start]
      && o.name in pos2 && o.indexInSecond == pos2[o.name] && o.indexInSecond != o.indexInFirst
    decreases |common|
  {
    if common != [] {
      OrderMismatchesFromMembers(common[1..], pos2, start + 1, o);
      if o.indexInFirst > start && o.indexInFirst < start + |common| {
        assert common[1..][o.indexInFirst - (start + 1)] == common[o.indexInFirst - start];
      }
    }
  }

  /** The result of a comparison: the four lists of findings. */
  datatype SchemaComparisonResult = SchemaComparisonResult(
    onlyInFirst: seq<string>,
    onlyInSecond: seq<string>,
    typeMismatches: seq<TypeMismatch>,
    orderMismatches: seq<OrderMismatch>)
  {
    /** `has_differences`: some list is non-empty. */
    predicate HasDifferences() {
      onlyInFirst != [] || onlyInSecond != [] || typeMismatches != [] || orderMismatches != []
    }

    /** `total_differences`: the number of findings over the four lists; it is
        zero exactly when there are no differences. */
    function TotalDifferences(): (n: nat)
      ensures n == 0 <==> !HasDifferences()
      ensures n >= |onlyInFirst| && n >= |onlyInSecond| && n >= |typeMismatches| && n >= |orderMismatches|
    {
      |onlyInFirst| + |onlyInSecond| + |typeMismatches| + |orderMismatches|
    }
  }

  /** `common`: the names of `first`, in order, that `second` also has. */
  function CommonNames(first: seq<Column>, second: seq<Column>): seq<string> {
    Filter(Names(first), Present(TypeMap(second)))
  }

  /** `compare_schemas` on the columns read from the two JSON schemas:
      `only_in_first` holds, in file-1 order, exactly the names of file 1
      absent from file 2, and `only_in_second` the converse; type mismatches
      are, in file-1 order, the names in both whose (last-wins) types differ.
      The order mismatches are described by `OrderMismatchMeaning`. */
  function CompareSchemas(first: seq<Column>, second: seq<Column>): (r: SchemaComparisonResult)
    ensures forall n :: n in r.onlyInFirst <==> n in Names(first) && n !in Names(second)
    ensures forall n :: n in r.onlyInSecond <==> n in Names(second) && n !in Names(first)
    ensures forall t :: t in r.typeMismatches <==>
      t.name in Names(first) && t.name in Names(second)
      && t.typeInFirst == TypeMap(first)[t.name] && t.typeInSecond == TypeMap(second)[t.name]
      && t.typeInFirst != t.typeInSecond
    ensures MismatchNames(r.typeMismatches) == Filter(Names(first), Mismatched(TypeMap(first), TypeMap(second)))
  {
    TypeMismatchOrder(Names(first), TypeMap(first), TypeMap(second));
    var names1, names2 := Names(first), Names(second);
    var m1, m2 := TypeMap(first), TypeMap(second);
    SchemaComparisonResult(
      Filter(names1, Absent(m2)),
      Filter(names2, Absent(m1)),
      TypeMismatches(names1, m1, m2),
      OrderMismatchesFrom(CommonNames(first, second), PositionMap(names2, m1), 0))
  }

  /** `only_in_first` keeps file 1's order, and lists a name as often as file
      1 does when file 2 lacks it and not at all otherwise; `only_in_second`
      likewise for file 2. */
  lemma OnlyInKeepOrder(first: seq<Column>, second: seq<Column>)
    ensures IsSubsequence(CompareSchemas(first, second).onlyInFirst, Names(first))
    ensures IsSubsequence(CompareSchemas(first, second).onlyInSecond, Names(second))
    ensures forall n ::
              multiset(CompareSchemas(first, second).onlyInFirst)[n]
              == if n in Names(second) then 0 else multiset(Names(first))[n]
    ensures forall n ::
              multiset(CompareSchemas(first, second).onlyInSecond)[n]
              == if n in Names(first) then 0 else multiset(Names(second))[n]
  {
    var names1, names2 := Names(first), Names(second);
    var m1, m2 := TypeMap(first), TypeMap(second);
    FilterIsSubsequence(names1, Absent(m2));
    FilterIsSubsequence(names2, Absent(m1));
    forall n
      ensures multiset(Filter(names1, Absent(m2)))[n] == if n in names2 then 0 else multiset(names1)[n]
      ensures multiset(Filter(names2, Absent(m1)))[n] == if n in names1 then 0 else multiset(names2)[n]
    {
      FilterMultiplicity(names1, Absent(m2), n);
      FilterMultiplicity(names2, Absent(m1), n);
    }
  }

  /** The order list of the comparison, by its parts. */
  lemma OrderMismatchesOfCompare(a: seq<Column>, b: seq<Column>)
    ensures CompareSchemas(a, b).orderMismatches
      == OrderMismatchesFrom(CommonNames(a, b), PositionMap(Names(b), TypeMap(a)), 0)
  {
  }

  /** An order mismatch is reported exactly for a name at index `i` among the
      common names of file 1 whose LAST index in the full name list of file
      2 is not `i`; the list follows file-1 order. */
  lemma {:induction false} OrderMismatchMeaning(a: seq<Column>, b: seq<Column>, o: OrderMismatch)
    ensures o in CompareSchemas(a, b).orderMismatches <==>
      o.indexInFirst < |CommonNames(a, b)| && o.name == CommonNames(a, b)[o.indexInFirst]
      && o.indexInSecond < |b| && b[o.indexInSecond].name == o.name
      && (forall j :: o.indexInSecond < j < |b| ==> b[j].name != o.name)
      && o.indexInFirst != o.indexInSecond
    ensures forall k, l :: 0 <= k < l < |CompareSchemas(a, b).orderMismatches| ==>
      CompareSchemas(a, b).orderMismatches[k].indexInFirst < CompareSchemas(a, b).orderMismatches[l].indexInFirst
  {
    OrderMismatchesOfCompare(a, b);
    var common := CommonNames(a, b);
    assert forall n :: n in common ==> n in TypeMap(a) by {
      forall n | n in common ensures n in TypeMap(a) {
        assert n in Names(a);
      }
    }
    OrderMismatchesOfNames(common, b, TypeMap(a), o);
  }

  /** The order loop over names that file 1 has, against the position map of
      file 2's names: an entry for a name at index `i` whose last index in
      file 2 is not `i`. */
  lemma OrderMismatchesOfNames(common: seq<string>, b: seq<Column>, keep: map<string, string>, o: OrderMismatch)
    requires forall n :: n in common ==> n in keep
    ensures o in OrderMismatchesFrom(common, PositionMap(Names(b), keep), 0) <==>
      o.indexInFirst < |common| && o.name == common[o.indexInFirst]
      && LastIndex(b, o.name, o.indexInSecond) && o.indexInFirst != o.indexInSecond
  {
    if o.indexInFirst < |common| && o.name == common[o.indexInFirst] {
      LastPosition(b, keep, o.name, o.indexInSecond);
    }
    OrderMismatchesAtLast(common, PositionMap(Names(b), keep), b, o);
  }

  /** The membership of `OrderMismatchesFromMembers`, for a position map
      that agrees with `LastIndex` on the entry's name. */
  lemma OrderMismatchesAtLast(common: seq<string>, pos: map<string, nat>, b: seq<Column>, o: OrderMismatch)
    requires o.indexInFirst < |common| && o.name == common[o.indexInFirst] ==>
      ((o.name in pos && pos[o.name] == o.indexInSecond) <==> LastIndex(b, o.name, o.indexInSecond))
    ensures o in OrderMismatchesFrom(common, pos, 0) <==>
      o.indexInFirst < |common| && o.name == common[o.indexInFirst]
      && LastIndex(b, o.name, o.indexInSecond) && o.indexInFirst != o.indexInSecond
  {
    OrderMismatchesFromMembers(common, pos, 0, o);
  }

  /** `p` is the last index of a column called `name`. */
  predicate LastIndex(b: seq<Column>, name: string, p: nat) {
    p < |b| && b[p].name == name && forall j :: p < j < |b| ==> b[j].name != name
  }

  /** In the position map of file 2's names, a kept name maps to `p` exactly
      when `p` is its last occurrence among the columns of file 2. */
  lemma LastPosition(b: seq<Column>, keep: map<string, string>, name: string, p: nat)
    requires name in keep
    ensures var pos := PositionMap(Names(b), keep);
      (name in pos && pos[name] == p) <==> LastIndex(b, name, p)
  {
    var n2 := Names(b);
    var pos := PositionMap(n2, keep);
    if name in pos {
      var q := pos[name];
      assert b[q].name == n2[q];
      forall j | q < j < |b| ensures b[j].name != name {
        assert b[j].name == n2[j];
      }
    }
    if p < |b| && b[p].name == name && (forall j :: p < j < |b| ==> b[j].name != name) {
      assert n2[p] == name;
      var q := pos[name];
      assert n2[q] == name && b[q].name == n2[q];
    }
  }

  /** Swapping the files swaps the two "only in" lists. */
  lemma OnlyInSwap(a: seq<Column>, b: seq<Column>)
    ensures CompareSchemas(a, b).onlyInFirst == CompareSchemas(b, a).onlyInSecond
    ensures CompareSchemas(a, b).onlyInSecond == CompareSchemas(b, a).onlyInFirst
  {
  }

  /** Maps that agree on every shared name give no type mismatch. */
  lemma {:induction false} NoTypeMismatches(names: seq<string>, m1: map<string, string>,
                                            m2: map<string, string>)
    requires forall n :: n in m1 && n in m2 ==> m1[n] == m2[n]
    ensures TypeMismatches(names, m1, m2) == []
  {
    if names != [] {
      NoTypeMismatches(names[1..], m1, m2);
    }
  }

  /** Every name at its own index gives no order mismatch. */
  lemma {:induction false} NoOrderMismatches(common: seq<string>, pos2: map<string, nat>, start: nat)
    requires forall i :: 0 <= i < |common| && common[i] in pos2 ==> pos2[common[i]] == start + i
    ensures OrderMismatchesFrom(common, pos2, start) == []
    decreases |common|
  {
    if common != [] {
      assert forall i :: 0 <= i < |common| - 1 ==> common[1..][i] == common[i + 1];
      NoOrderMismatches(common[1..], pos2, start + 1);
    }
  }

  /** A schema whose names are distinct compared with itself shows no
      differences at all. */
  lemma {:induction false} CompareWithItself(a: seq<Column>)
    requires Distinct(Names(a))
    ensures CompareSchemas(a, a) == SchemaComparisonResult([], [], [], [])
  {
    var names, m := Names(a), TypeMap(a);
    var pos := PositionMap(names, m);
    FilterNonePass(names, Absent(m));
    FilterAllPass(names, Present(m));
    NoTypeMismatches(names, m, m);
    forall i | 0 <= i < |names| && names[i] in pos ensures pos[names[i]] == i {
      PositionMapDistinct(names, m, i);
    }
    NoOrderMismatches(names, pos, 0);
  }

  lemma ElementAt(s: seq<string>, i: int)
    ensures 0 <= i < |s| ==> s[i] in s
  {
  }

  /** Helper for the two-way argument below: a distinct sequence whose
      elements all occur in its prefix `p` is no longer than `p`. */
  lemma CoveredByPrefix(p: seq<string>, s: seq<string>)
    requires Distinct(s) && |p| <= |s|
    requires forall i :: 0 <= i < |p| ==> s[i] == p[i]
    requires forall x :: x in s ==> x in p
    ensures s == p
  {
    if |s| > |p| {
      ElementAt(s, |p|);
      assert false;
    }
  }

  /** No differences means both files have the same names with the same
      (last-wins) types. */
  lemma {:induction false} NoDifferencesSameTypes(a: seq<Column>, b: seq<Column>)
    requires !CompareSchemas(a, b).HasDifferences()
    ensures TypeMap(a) == TypeMap(b)
  {
    NoDifferencesSameKeys(a, b);
    NoDifferencesSameValues(a, b);
    MapsEqual(TypeMap(a), TypeMap(b));
  }

  lemma {:induction false} NoDifferencesSameKeys(a: seq<Column>, b: seq<Column>)
    requires !CompareSchemas(a, b).HasDifferences()
    ensures TypeMap(a).Keys == TypeMap(b).Keys
  {
    var r := CompareSchemas(a, b);
    forall n | n in TypeMap(a) ensures n in TypeMap(b) {
      assert n !in r.onlyInFirst;
    }
    forall n | n in TypeMap(b) ensures n in TypeMap(a) {
      assert n !in r.onlyInSecond;
    }
  }

  lemma {:induction false} NoDifferencesSameValues(a: seq<Column>, b: seq<Column>)
    requires !CompareSchemas(a, b).HasDifferences()
    ensures forall n :: n in TypeMap(a) && n in TypeMap(b) ==> TypeMap(a)[n] == TypeMap(b)[n]
  {
    var m1, m2 := TypeMap(a), TypeMap(b);
    forall n | n in m1 && n in m2 ensures m1[n] == m2[n] {
      assert TypeMismatch(n, m1[n], m2[n]) !in CompareSchemas(a, b).typeMismatches;
    }
  }

  lemma MapsEqual(m1: map<string, string>, m2: map<string, string>)
    requires m1.Keys == m2.Keys && forall n :: n in m1 ==> m1[n] == m2[n]
    ensures m1 == m2
  {
  }

  /** With distinct names and no differences, the column at index `i` of
      file 1 is at index `i` of file 2 too. */
  lemma {:induction false} NoDifferencesSameIndex(a: seq<Column>, b: seq<Column>, i: nat)
    requires Distinct(Names(b))
    requires !CompareSchemas(a, b).HasDifferences()
    requires i < |a|
    ensures i < |b| && b[i].name == a[i].name
  {
    var n1, n2 := Names(a), Names(b);
    var r := CompareSchemas(a, b);
    forall n | n in n1 ensures n in TypeMap(b) {
      assert n !in r.onlyInFirst;
    }
    FilterAllPass(n1, Present(TypeMap(b)));
    assert n1[i] in TypeMap(b);
    var k :| 0 <= k < |n2| && n2[k] == n1[i];
    forall j | k < j < |b| ensures b[j].name != n1[i] {
      assert b[j].name == n2[j];
    }
    OrderMismatchMeaning(a, b, OrderMismatch(n1[i], i, k));
  }

  /** With distinct names, no differences means both files list the same
      names in the same order. */
  lemma {:induction false} NoDifferencesSameNames(a: seq<Column>, b: seq<Column>)
    requires Distinct(Names(a)) && Distinct(Names(b))
    requires !CompareSchemas(a, b).HasDifferences()
    ensures Names(a) == Names(b)
  {
    var n1, n2 := Names(a), Names(b);
    forall n | n in n2 ensures n in n1 {
      assert n !in CompareSchemas(a, b).onlyInSecond;
    }
    forall i | 0 <= i < |n1| ensures i < |n2| && n2[i] == n1[i] {
      NoDifferencesSameIndex(a, b, i);
    }
    if n1 != [] {
      NoDifferencesSameIndex(a, b, |n1| - 1);
    }
    CoveredByPrefix(n1, n2);
  }

  /** With distinct names, the comparison finds no difference exactly when
      the two schemas are the same list of columns. */
  lemma {:induction false} NoDifferencesIffEqual(a: seq<Column>, b: seq<Column>)
    requires Distinct(Names(a)) && Distinct(Names(b))
    ensures !CompareSchemas(a, b).HasDifferences() <==> a == b
  {
    if !CompareSchemas(a, b).HasDifferences() {
      NoDifferencesSameNames(a, b);
      NoDifferencesSameTypes(a, b);
      forall i | 0 <= i < |a| ensures a[i] == b[i] {
        assert a[i].name == Names(a)[i] == Names(b)[i] == b[i].name;
        TypeMapDistinct(a, i);
        TypeMapDistinct(b, i);
      }
    }
    if a == b {
      CompareWithItself(a);
    }
  }

  /** With distinct names, whether two schemas differ does not depend on
      which one is first. */
  lemma HasDifferencesSymmetric(a: seq<Column>, b: seq<Column>)
    requires Distinct(Names(a)) && Distinct(Names(b))
    ensures CompareSchemas(a, b).HasDifferences() == CompareSchemas(b, a).HasDifferences()
  {
    NoDifferencesIffEqual(a, b);
    NoDifferencesIffEqual(b, a);
  }

  // ---------------------------------------------------------------------------
  //  The comparison of two JSON documents
  // ---------------------------------------------------------------------------

  /** `compare_schemas(json1, json2)`: `None` where the source raises
      `KeyError` because a record lacks `column_name` or `spark_type`. */
  function CompareSchemaJson(json1: SchemaJson, json2: SchemaJson): (r: Option<SchemaComparisonResult>)
    ensures r.Some? <==> ReadColumns(json1.schema).Some? && ReadColumns(json2.schema).Some?
  {
    match (ReadColumns(json1.schema), ReadColumns(json2.schema))
    case (Some(first), Some(second)) => Some(CompareSchemas(first, second))
    case _ => None
  }

  /** The column names of a loaded table. */
  function ColumnNames(columns: seq<ColumnInfo>): seq<string> {
    seq(|columns|, i requires 0 <= i < |columns| => columns[i].name)
  }

  /** Two schema files written for tables with the same distinct columns and
      dtypes compare equal, whatever their file names and time stamps. */
  lemma {:induction false} SameColumnsNoDifferences(columns: seq<ColumnInfo>,
      name1: string, ext1: string, at1: string, name2: string, ext2: string, at2: string)
    requires Distinct(ColumnNames(columns))
    ensures CompareSchemaJson(SchemaToJsonDict(GetSchemaDf(columns), name1, ext1, at1),
                              SchemaToJsonDict(GetSchemaDf(columns), name2, ext2, at2))
      == Some(SchemaComparisonResult([], [], [], []))
  {
    var rows := GetSchemaDf(columns);
    WrittenSchemaReadsBack(rows, name1, ext1, at1);
    WrittenSchemaReadsBack(rows, name2, ext2, at2);
    var cols := SchemaColumns(rows);
    assert Names(cols) == ColumnNames(columns);
    CompareWithItself(cols);
  }

  // ---------------------------------------------------------------------------
  //  Worked examples
  // ---------------------------------------------------------------------------

  /** The order check on two common names at given positions of file 2. */
  lemma OrderMismatchesOfTwo(x: string, y: string, pos: map<string, nat>)
    requires x in pos && y in pos && pos[x] != 0 && pos[y] != 1
    ensures OrderMismatchesFrom([x, y], pos, 0) == [OrderMismatch(x, 0, pos[x]), OrderMismatch(y, 1, pos[y])]
  {
    assert [x, y][1..] == [y];
    assert OrderMismatchesFrom([y], pos, 1) == [OrderMismatch(y, 1, pos[y])];
  }

  /** File 1 has columns `x`, `y`, `z`; file 2 has `y`, `x` with the same
      types: `z` is only in file 1, nothing is only in file 2, the types
      agree. */
  lemma {:induction false} SwappedColumnsExistence(x: string, y: string, z: string,
                                                   tx: string, ty: string, tz: string)
    requires x != y && y != z && x != z
    ensures var r := CompareSchemas([Column(x, tx), Column(y, ty), Column(z, tz)], [Column(y, ty), Column(x, tx)]);
      r.onlyInFirst == [z] && r.onlyInSecond == [] && r.typeMismatches == []
  {
    SwappedColumnsOnlyInFirst(x, y, z, tx, ty, tz);
    SwappedColumnsTypes(x, y, z, tx, ty, tz);
  }

  lemma {:induction false} SwappedColumnsOnlyInFirst(x: string, y: string, z: string,
                                                     tx: string, ty: string, tz: string)
    requires x != y && y != z && x != z
    ensures CompareSchemas([Column(x, tx), Column(y, ty), Column(z, tz)], [Column(y, ty), Column(x, tx)]).onlyInFirst == [z]
  {
    var a, b := [Column(x, tx), Column(y, ty), Column(z, tz)], [Column(y, ty), Column(x, tx)];
    assert Names(a) == [x, y, z];
    assert Names(b) == [y, x];
    var m2 := TypeMap(b);
    assert z !in m2;
    assert Filter([z], Absent(m2)) == [z];
    assert Filter([y, z], Absent(m2)) == [z];
  }

  lemma {:induction false} SwappedColumnsTypes(x: string, y: string, z: string,
                                               tx: string, ty: string, tz: string)
    requires x != y && y != z && x != z
    ensures var r := CompareSchemas([Column(x, tx), Column(y, ty), Column(z, tz)], [Column(y, ty), Column(x, tx)]);
      r.onlyInSecond == [] && r.typeMismatches == []
  {
    SwappedColumnsNoneOnlyInSecond(x, y, z, tx, ty, tz);
    SwappedColumnsSameTypes(x, y, z, tx, ty, tz);
  }

  lemma SwappedColumnsNoneOnlyInSecond(x: string, y: string, z: string, tx: string, ty: string, tz: string)
    requires x != y && y != z && x != z
    ensures var a, b := [Column(x, tx), Column(y, ty), Column(z, tz)], [Column(y, ty), Column(x, tx)];
      Filter(Names(b), Absent(TypeMap(a))) == []
  {
    var a, b := [Column(x, tx), Column(y, ty), Column(z, tz)], [Column(y, ty), Column(x, tx)];
    assert Names(a) == [x, y, z] && Names(b) == [y, x];
    FilterNonePass(Names(b), Absent(TypeMap(a)));
  }

  lemma SwappedColumnsSameTypes(x: string, y: string, z: string, tx: string, ty: string, tz: string)
    requires x != y && y != z && x != z
    ensures var a, b := [Column(x, tx), Column(y, ty), Column(z, tz)], [Column(y, ty), Column(x, tx)];
      TypeMismatches(Names(a), TypeMap(a), TypeMap(b)) == []
  {
    var a, b := [Column(x, tx), Column(y, ty), Column(z, tz)], [Column(y, ty), Column(x, tx)];
    assert Names(a) == [x, y, z] && Distinct(Names(a));
    assert Names(b) == [y, x] && Distinct(Names(b));
    var m1, m2 := TypeMap(a), TypeMap(b);
    TypeMapDistinct(a, 0);
    TypeMapDistinct(a, 1);
    TypeMapDistinct(b, 0);
    TypeMapDistinct(b, 1);
    forall n | n in m1 && n in m2 ensures m1[n] == m2[n] {
      assert n in Names(b);
      assert n == y || n == x;
    }
    NoTypeMismatches(Names(a), m1, m2);
  }

  lemma {:induction false} SwappedColumnsCommon(x: string, y: string, z: string,
                                                tx: string, ty: string, tz: string)
    requires x != y && y != z && x != z
    ensures CommonNames([Column(x, tx), Column(y, ty), Column(z, tz)], [Column(y, ty), Column(x, tx)]) == [x, y]
  {
    var a, b := [Column(x, tx), Column(y, ty), Column(z, tz)], [Column(y, ty), Column(x, tx)];
    assert Names(a) == [x, y, z];
    assert Names(b) == [y, x];
    var m2 := TypeMap(b);
    assert z !in m2;
    assert Filter([z], Present(m2)) == [];
    assert Filter([y, z], Present(m2)) == [y];
  }

  lemma {:induction false} SwappedColumnsPositions(x: string, y: string, z: string,
                                                   tx: string, ty: string, tz: string)
    requires x != y && y != z && x != z
    ensures var a, b := [Column(x, tx), Column(y, ty), Column(z, tz)], [Column(y, ty), Column(x, tx)];
      var pos := PositionMap(Names(b), TypeMap(a));
      x in pos && pos[x] == 1 && y in pos && pos[y] == 0
  {
    var a, b := [Column(x, tx), Column(y, ty), Column(z, tz)], [Column(y, ty), Column(x, tx)];
    assert Names(a) == [x, y, z];
    assert Names(b) == [y, x] && Distinct(Names(b));
    PositionMapDistinct(Names(b), TypeMap(a), 0);
    PositionMapDistinct(Names(b), TypeMap(a), 1);
  }

  /** In the same example `x` and `y` are both out of place: `x` is first
      among the common names of file 1 and second in file 2, and the
      reverse for `y`. */
  lemma {:induction false} SwappedColumnsOrder(x: string, y: string, z: string,
                                               tx: string, ty: string, tz: string)
    requires x != y && y != z && x != z
    ensures CompareSchemas([Column(x, tx), Column(y, ty), Column(z, tz)], [Column(y, ty), Column(x, tx)]).orderMismatches
      == [OrderMismatch(x, 0, 1), OrderMismatch(y, 1, 0)]
  {
    var a, b := [Column(x, tx), Column(y, ty), Column(z, tz)], [Column(y, ty), Column(x, tx)];
    SwappedColumnsCommon(x, y, z, tx, ty, tz);
    SwappedColumnsPositions(x, y, z, tx, ty, tz);
    OrderMismatchesOfCompare(a, b);
    OrderMismatchesOfTwo(x, y, PositionMap(Names(b), TypeMap(a)));
  }

  // ---------------------------------------------------------------------------
  //  Order mismatches over the common names of both files
  // ---------------------------------------------------------------------------

  lemma {:induction false} InsertedColumnCommon(x: string, y: string, w: string,
                                                tx: string, ty: string, tw: string)
    requires x != y && y != w && x != w
    ensures var a, b := [Column(x, tx), Column(y, ty)], [Column(w, tw), Column(x, tx), Column(y, ty)];
      CommonNames(a, b) == CommonNames(b, a) == [x, y]
  {
    var a, b := [Column(x, tx), Column(y, ty)], [Column(w, tw), Column(x, tx), Column(y, ty)];
    assert Names(a) == [x, y];
    assert Names(b) == [w, x, y];
    var m1, m2 := TypeMap(a), TypeMap(b);
    assert w !in m1;
    assert Filter([y], Present(m2)) == [y];
    assert Filter([y], Present(m1)) == [y];
    assert Filter([x, y], Present(m1)) == [x, y];
  }

  lemma {:induction false} InsertedColumnPositions(x: string, y: string, w: string,
                                                   tx: string, ty: string, tw: string)
    requires x != y && y != w && x != w
    ensures var a, b := [Column(x, tx), Column(y, ty)], [Column(w, tw), Column(x, tx), Column(y, ty)];
      var pos := PositionMap(Names(b), TypeMap(a));
      x in pos && pos[x] == 1 && y in pos && pos[y] == 2
  {
    var a, b := [Column(x, tx), Column(y, ty)], [Column(w, tw), Column(x, tx), Column(y, ty)];
    assert Names(a) == [x, y];
    assert Names(b) == [w, x, y] && Distinct(Names(b));
    PositionMapDistinct(Names(b), TypeMap(a), 1);
    PositionMapDistinct(Names(b), TypeMap(a), 2);
  }

  /** As written, a column `w` inserted at the front of file 2 moves every
      common column of file 1 out of place, although the common columns
      `x`, `y` are in the same relative order in both files. */
  lemma {:induction false} InsertedColumnFlagsAll(x: string, y: string, w: string,
                                                  tx: string, ty: string, tw: string)
    requires x != y && y != w && x != w
    ensures var a, b := [Column(x, tx), Column(y, ty)], [Column(w, tw), Column(x, tx), Column(y, ty)];
      CommonNames(a, b) == CommonNames(b, a) == [x, y]
      && CompareSchemas(a, b).orderMismatches == [OrderMismatch(x, 0, 1), OrderMismatch(y, 1, 2)]
  {
    var a, b := [Column(x, tx), Column(y, ty)], [Column(w, tw), Column(x, tx), Column(y, ty)];
    InsertedColumnCommon(x, y, w, tx, ty, tw);
    InsertedColumnPositions(x, y, w, tx, ty, tw);
    OrderMismatchesOfCompare(a, b);
    OrderMismatchesOfTwo(x, y, PositionMap(Names(b), TypeMap(a)));
  }

  /** The order check as the comment above the loop describes it: each
      common name's index among the common names of file 1 against its
      index among the common names of file 2. */
  function CommonOrderMismatches(first: seq<Column>, second: seq<Column>): seq<OrderMismatch> {
    OrderMismatchesFrom(CommonNames(first, second), PositionMap(CommonNames(second, first), TypeMap(first)), 0)
  }

  /** `compare_schemas` with the order check over the common names. */
  function CompareSchemasCommonOrder(first: seq<Column>, second: seq<Column>): (r: SchemaComparisonResult)
    ensures r.onlyInFirst == CompareSchemas(first, second).onlyInFirst
      && r.onlyInSecond == CompareSchemas(first, second).onlyInSecond
      && r.typeMismatches == CompareSchemas(first, second).typeMismatches
  {
    CompareSchemas(first, second).(orderMismatches := CommonOrderMismatches(first, second))
  }

  /** With distinct names, the corrected check reports nothing exactly when
      the common columns come in the same relative order in both files. */
  lemma {:induction false} CommonOrderMismatchesIffReordered(a: seq<Column>, b: seq<Column>)
    requires Distinct(Names(a)) && Distinct(Names(b))
    ensures CompareSchemasCommonOrder(a, b).orderMismatches == [] <==> CommonNames(a, b) == CommonNames(b, a)
  {
    if CommonNames(a, b) == CommonNames(b, a) {
      SameRelativeOrderNoMismatch(a, b);
    }
    if CommonOrderMismatches(a, b) == [] {
      NoMismatchSameRelativeOrder(a, b);
    }
  }

  lemma {:induction false} SameRelativeOrderNoMismatch(a: seq<Column>, b: seq<Column>)
    requires Distinct(Names(b))
    requires CommonNames(a, b) == CommonNames(b, a)
    ensures CommonOrderMismatches(a, b) == []
  {
    var c := CommonNames(b, a);
    var m1 := TypeMap(a);
    var pos := PositionMap(c, m1);
    FilterDistinct(Names(b), Present(m1));
    forall i | 0 <= i < |c| && c[i] in pos ensures pos[c[i]] == i {
      PositionMapDistinct(c, m1, i);
    }
    NoOrderMismatches(c, pos, 0);
  }

  lemma {:induction false} NoMismatchSameRelativeOrder(a: seq<Column>, b: seq<Column>)
    requires Distinct(Names(a)) && Distinct(Names(b))
    requires CommonOrderMismatches(a, b) == []
    ensures CommonNames(a, b) == CommonNames(b, a)
  {
    var c1, c2 := CommonNames(a, b), CommonNames(b, a);
    FilterDistinct(Names(b), Present(TypeMap(a)));
    forall i | 0 <= i < |c1| ensures i < |c2| && c2[i] == c1[i] {
      CommonAtSameIndex(a, b, i);
    }
    forall n | n in c2 ensures n in c1 {
      assert n in Names(b) && n in TypeMap(a);
      assert n in Names(a) && n in TypeMap(b);
    }
    if c1 != [] {
      CommonAtSameIndex(a, b, |c1| - 1);
    }
    CoveredByPrefix(c1, c2);
  }

  /** With no corrected order mismatch, the common name at index `i` of file
      1 is at index `i` among the common names of file 2. */
  lemma {:induction false} CommonAtSameIndex(a: seq<Column>, b: seq<Column>, i: nat)
    requires Distinct(Names(b))
    requires CommonOrderMismatches(a, b) == []
    requires i < |CommonNames(a, b)|
    ensures i < |CommonNames(b, a)| && CommonNames(b, a)[i] == CommonNames(a, b)[i]
  {
    var c1, c2 := CommonNames(a, b), CommonNames(b, a);
    var m1 := TypeMap(a);
    var n := c1[i];
    assert n in Names(a) && n in TypeMap(b);
    assert n in Names(b) && n in m1;
    assert n in c2;
    var k :| 0 <= k < |c2| && c2[k] == n;
    FilterDistinct(Names(b), Present(m1));
    PositionMapDistinct(c2, m1, k);
    NoMismatchAt(c1, PositionMap(c2, m1), i, k);
  }

  /** With no order mismatch, a name of `common` found in `pos` is at its
      own index there. */
  lemma NoMismatchAt(common: seq<string>, pos: map<string, nat>, i: nat, k: nat)
    requires OrderMismatchesFrom(common, pos, 0) == []
    requires i < |common| && common[i] in pos && pos[common[i]] == k
    ensures k == i
  {
    OrderMismatchesFromMembers(common, pos, 0, OrderMismatch(common[i], i, k));
  }
}
