/** The per-row mapping inside `FormatProvider.getTableData` and `H2Format.getTableData`:
    catalog rows become `ColumnData`, grouped into tables by table name. The query and the
    JDBC result-set handling around it are not modelled; a row is a record of the values the
    loop reads, with `None` for SQL NULL. */
module Introspection {
  import opened Optional
  import opened Strings
  import opened Translator
  import opened Schema

  // ---------------------------------------------------------------------------
  // Grouping, shared by both dialects

  /** `tables.getOrDefault(key, new TableData(key)).addColumn(c)` then `tables.put(key, ...)`,
      once per row in result order. */
  function Group(entries: seq<(string, Column)>): map<string, Table>
    decreases |entries|
  {
    if |entries| == 0 then map[]
    else
      var tables := Group(entries[..|entries| - 1]);
      var key := entries[|entries| - 1].0;
      var c := entries[|entries| - 1].1;
      var t := if key in tables then tables[key] else NewTable(key);
      tables[key := t.AddColumn(c)]
  }

  /** Entry `i` is the last one for its table and column name. */
  predicate IsLastFor(entries: seq<(string, Column)>, i: int)
    requires 0 <= i < |entries|
  {
    forall j :: i < j < |entries| ==> !(entries[j].0 == entries[i].0 && entries[j].1.name == entries[i].1.name)
  }

  /** One table per distinct key, named by its key, with no table-level settings. */
  lemma {:induction false} GroupKeys(entries: seq<(string, Column)>)
    ensures forall k :: k in Group(entries) <==> exists i :: 0 <= i < |entries| && entries[i].0 == k
    ensures forall k :: k in Group(entries) ==>
              Group(entries)[k].name == k && Group(entries)[k].characterSet == ""
              && Group(entries)[k].collate == "" && Group(entries)[k].engine == ""
    decreases |entries|
  {
    if |entries| > 0 {
      var last := |entries| - 1;
      var front := entries[..last];
      GroupKeys(front);
      var key := entries[last].0;
      forall k ensures k in Group(entries) <==> exists i :: 0 <= i < |entries| && entries[i].0 == k {
        if k in Group(front) {
          var i :| 0 <= i < |front| && front[i].0 == k;
          assert entries[i] == front[i];
        }
        if exists i :: 0 <= i < |entries| && entries[i].0 == k {
          var i :| 0 <= i < |entries| && entries[i].0 == k;
          if i < last {
            assert front[i] == entries[i];
          }
        }
      }
    }
  }

  /** A table holds a column for every name some entry for that table carried, and no other. */
  lemma {:induction false} GroupColumnNames(entries: seq<(string, Column)>, k: string, n: string)
    requires k in Group(entries)
    ensures n in Group(entries)[k].columns <==>
              exists i :: 0 <= i < |entries| && entries[i].0 == k && entries[i].1.name == n
    decreases |entries|
  {
    var last := |entries| - 1;
    var front := entries[..last];
    var key := entries[last].0;
    var c := entries[last].1;
    if k in Group(front) {
      GroupColumnNames(front, k, n);
    }
    if exists i :: 0 <= i < |entries| && entries[i].0 == k && entries[i].1.name == n {
      var i :| 0 <= i < |entries| && entries[i].0 == k && entries[i].1.name == n;
      if i < last {
        assert front[i] == entries[i];
        GroupKeys(front);
      }
    }
    if n in Group(entries)[k].columns && !(k == key && n == c.name) {
      assert k in Group(front) && n in Group(front)[k].columns;
      var i :| 0 <= i < |front| && front[i].0 == k && front[i].1.name == n;
      assert entries[i] == front[i];
    }
  }

  /** The column under a name is the one the last entry for that table and name carried. */
  lemma {:induction false} GroupLastWins(entries: seq<(string, Column)>, i: int)
    requires 0 <= i < |entries| && IsLastFor(entries, i)
    ensures entries[i].0 in Group(entries)
    ensures entries[i].1.name in Group(entries)[entries[i].0].columns
    ensures Group(entries)[entries[i].0].columns[entries[i].1.name] == entries[i].1
    decreases |entries|
  {
    var last := |entries| - 1;
    if i < last {
      var front := entries[..last];
      assert front[i] == entries[i];
      assert IsLastFor(front, i) by {
        forall j | i < j < |front|
          ensures !(front[j].0 == front[i].0 && front[j].1.name == front[i].1.name)
        {
          assert front[j] == entries[j];
        }
      }
      GroupLastWins(front, i);
      assert !(entries[last].0 == entries[i].0 && entries[last].1.name == entries[i].1.name);
    }
  }

  // ---------------------------------------------------------------------------
  // The default mapping (information_schema.COLUMNS)

  datatype InfoSchemaRow = InfoSchemaRow(
    tableName: string,
    columnName: string,
    columnDefault: Option<string>,
    isNullable: string,
    dataType: Option<string>,
    characterMaximumLength: Option<int>,
    numericPrecision: Option<int>,
    numericScale: Option<int>,
    characterSetName: Option<string>,
    collationName: Option<string>,
    columnKey: string,
    extra: string)

  /** The setter calls of the default loop body, in source order. */
  function DefaultRowColumn(row: InfoSchemaRow): (c: Column)
    ensures c.name == row.columnName
    ensures c.defaultValue == row.columnDefault
    ensures c.nullable <==> EqualsIgnoreCase(row.isNullable, "yes")
    ensures c.typeName == row.dataType
    ensures c.length == (if row.characterMaximumLength.None? then -1 else row.characterMaximumLength.value)
    ensures c.precision == (if row.numericPrecision.None? then -1 else row.numericPrecision.value)
    ensures c.scale == (if row.numericScale.None? then -1 else row.numericScale.value)
    ensures c.characterSet == row.characterSetName && c.collate == row.collationName
    ensures c.unique <==> Contains(Lower(row.columnKey), "uni")
    ensures c.primary <==> Contains(Lower(row.columnKey), "pri")
    ensures c.increment <==> Contains(row.extra, "auto_increment")
  {
    NewColumn(row.columnName)
      .SetDefaultValue(row.columnDefault)
      .SetNullable(EqualsIgnoreCase(row.isNullable, "yes"))
      .SetType(row.dataType)
      .SetLength(row.characterMaximumLength.GetOr(-1))
      .SetPrecision(row.numericPrecision.GetOr(-1))
      .SetScale(row.numericScale.GetOr(-1))
      .SetCharacterSet(row.characterSetName)
      .SetCollate(row.collationName)
      .SetUnique(Contains(Lower(row.columnKey), "uni"))
      .SetPrimary(Contains(Lower(row.columnKey), "pri"))
      .SetIncrement(Contains(row.extra, "auto_increment"))
  }

  function DefaultEntries(rows: seq<InfoSchemaRow>): (r: seq<(string, Column)>)
    ensures |r| == |rows|
    ensures forall i :: 0 <= i < |rows| ==> r[i] == (rows[i].tableName, DefaultRowColumn(rows[i]))
  {
    seq(|rows|, i requires 0 <= i < |rows| => (rows[i].tableName, DefaultRowColumn(rows[i])))
  }

  /** `FormatProvider.getTableData` over the rows the query returned. */
  function DefaultTableData(rows: seq<InfoSchemaRow>): map<string, Table> {
    Group(DefaultEntries(rows))
  }

  /** Tables are keyed by the reported table name as is. */
  lemma DefaultTableKeys(rows: seq<InfoSchemaRow>)
    ensures forall k :: k in DefaultTableData(rows) <==> exists i :: 0 <= i < |rows| && rows[i].tableName == k
  {
    var entries := DefaultEntries(rows);
    GroupKeys(entries);
    forall k | exists i :: 0 <= i < |rows| && rows[i].tableName == k
      ensures k in DefaultTableData(rows)
    {
      var i :| 0 <= i < |rows| && rows[i].tableName == k;
      assert entries[i].0 == k;
    }
  }

  /** Each column comes from the last row for its table and name, type stored untranslated. */
  lemma DefaultLastRowWins(rows: seq<InfoSchemaRow>, i: int)
    requires 0 <= i < |rows|
    requires forall j :: i < j < |rows| ==>
               !(rows[j].tableName == rows[i].tableName && rows[j].columnName == rows[i].columnName)
    ensures rows[i].tableName in DefaultTableData(rows)
    ensures rows[i].columnName in DefaultTableData(rows)[rows[i].tableName].columns
    ensures DefaultTableData(rows)[rows[i].tableName].columns[rows[i].columnName] == DefaultRowColumn(rows[i])
  {
    var entries := DefaultEntries(rows);
    forall j | i < j < |entries| ensures !(entries[j].0 == entries[i].0 && entries[j].1.name == entries[i].1.name) {
      assert entries[j].1.name == rows[j].columnName;
    }
    GroupLastWins(entries, i);
  }

  // ---------------------------------------------------------------------------
  // The H2 mapping (COLUMNS joined to CONSTRAINTS, one row per constraint of the table)

  datatype H2Row = H2Row(
    tableName: string,
    columnName: string,
    columnDefault: Option<string>,
    isNullable: string,
    typeName: string,
    characterMaximumLength: Option<int>,
    numericPrecision: Option<int>,
    numericScale: Option<int>,
    constraintType: Option<string>,
    columnList: Option<string>)

  const SystemSequence: string := "PUBLIC.SYSTEM_SEQUENCE"

  /** The default with every single quote removed, or null. */
  function StrippedDefault(row: H2Row): (r: Option<string>)
    ensures r.None? <==> row.columnDefault.None?
    ensures r.Some? ==> r.value == RemoveAll(row.columnDefault.value, '\'')
  {
    match row.columnDefault
    case Some(d) => Some(RemoveAll(d, '\''))
    case None => None
  }

  predicate IsSequenceDefault(row: H2Row) {
    var d := StrippedDefault(row);
    d.Some? && Contains(d.value, SystemSequence)
  }

  /** The guard of the key flags: `column_list` is present and not blank. */
  predicate KeyListGiven(row: H2Row) {
    row.columnList.Some? && !IsBlank(row.columnList.value)
  }

  /** `constraint_type` is dereferenced only under the guard, so a SQL NULL there throws a
      `NullPointerException` exactly when the guard holds. */
  predicate H2RowReadable(row: H2Row) {
    KeyListGiven(row) ==> row.constraintType.Some?
  }

  /** Whether the constraint row names the column: the guard holds, and the lower-cased name
      is one of the comma-separated pieces of `column_list` (pieces are not trimmed). */
  predicate ListsColumn(row: H2Row) {
    KeyListGiven(row) && Lower(row.columnName) in JavaSplit(Lower(row.columnList.value), ',')
  }

  /** The setter calls of the H2 loop body, in source order. */
  function H2RowColumn(row: H2Row): (c: Column)
    requires H2RowReadable(row)
    ensures c.name == row.columnName
    ensures c.characterSet == Some("") && c.collate == Some("")
    ensures c.primary <==> ListsColumn(row) && Contains(Lower(row.constraintType.value), "primary")
    ensures c.unique <==> ListsColumn(row) && Contains(Lower(row.constraintType.value), "unique")
  {
    var stripped := StrippedDefault(row);
    var c :=
      NewColumn(row.columnName)
        .SetDefaultValue(if stripped.None? || Contains(stripped.value, SystemSequence) then None else stripped)
        .SetNullable(EqualsIgnoreCase(row.isNullable, "yes"))
        .SetType(Some(Translate(Upper(row.typeName))))
        .SetLength(row.characterMaximumLength.GetOr(-1))
        .SetPrecision(row.numericPrecision.GetOr(-1))
        .SetScale(row.numericScale.GetOr(-1));
    var keyed :=
      if KeyListGiven(row) then
        var columnList := JavaSplit(Lower(row.columnList.value), ',');
        var constraintType := Lower(row.constraintType.value);
        c.SetUnique(Contains(constraintType, "unique") && Lower(c.name) in columnList)
         .SetPrimary(Contains(constraintType, "primary") && Lower(c.name) in columnList)
      else c;
    keyed.SetIncrement(stripped.Some? && Contains(stripped.value, SystemSequence))
  }

  /** The reported values of an H2 row: a sequence default becomes the auto-increment flag
      rather than a default, any other default loses its quotes, "YES" in any case means
      nullable, the upper-cased type is translated, and a null size becomes -1. */
  lemma H2RowColumnValues(row: H2Row)
    requires H2RowReadable(row)
    ensures var c := H2RowColumn(row);
            && (c.defaultValue == if IsSequenceDefault(row) then None else StrippedDefault(row))
            && (c.increment <==> IsSequenceDefault(row))
            && (c.defaultValue.Some? ==> '\'' !in c.defaultValue.value)
            && (c.nullable <==> EqualsIgnoreCase(row.isNullable, "yes"))
            && c.typeName == Some(Translate(Upper(row.typeName)))
            && c.length == (if row.characterMaximumLength.None? then -1 else row.characterMaximumLength.value)
            && c.precision == (if row.numericPrecision.None? then -1 else row.numericPrecision.value)
            && c.scale == (if row.numericScale.None? then -1 else row.numericScale.value)
  {
  }

  function H2Entries(rows: seq<H2Row>): (r: seq<(string, Column)>)
    requires forall i :: 0 <= i < |rows| ==> H2RowReadable(rows[i])
    ensures |r| == |rows|
    ensures forall i :: 0 <= i < |rows| ==> r[i] == (Lower(rows[i].tableName), H2RowColumn(rows[i]))
  {
    seq(|rows|, i requires 0 <= i < |rows| => (Lower(rows[i].tableName), H2RowColumn(rows[i])))
  }

  /** `H2Format.getTableData` over rows it reads without throwing. */
  function H2TableData(rows: seq<H2Row>): map<string, Table>
    requires forall i :: 0 <= i < |rows| ==> H2RowReadable(rows[i])
  {
    Group(H2Entries(rows))
  }

  /** How many rows the loop reads before the first one that throws. */
  function ReadableCount(rows: seq<H2Row>): (n: nat)
    ensures n <= |rows|
    ensures forall i :: 0 <= i < n ==> H2RowReadable(rows[i])
    ensures n < |rows| ==> !H2RowReadable(rows[n])
    decreases |rows|
  {
    if |rows| == 0 || !H2RowReadable(rows[0]) then 0
    else
      var n := 1 + ReadableCount(rows[1..]);
      assert forall i :: 1 <= i < n ==> rows[i] == rows[1..][i - 1];
      n
  }

  /** `H2Format.getTableData` with its failure path: the `NullPointerException` of a row with a
      NULL constraint type and a non-blank column list is swallowed by the `catch (Exception)`
      around the loop, so the map holds what the rows before that one put there. */
  function H2ReadTables(rows: seq<H2Row>): (r: map<string, Table>)
    ensures forall k :: k in r <==> exists i :: 0 <= i < ReadableCount(rows) && Lower(rows[i].tableName) == k
  {
    var n := ReadableCount(rows);
    var read := rows[..n];
    H2TableKeys(read);
    assert forall i :: 0 <= i < n ==> read[i] == rows[i];
    H2TableData(read)
  }

  /** A NULL constraint type under a non-blank column list ends the read at that row; when no
      row has one, every row is read. */
  lemma H2NullConstraintStops(rows: seq<H2Row>, i: int)
    requires 0 <= i <= |rows|
    requires forall j :: 0 <= j < i ==> H2RowReadable(rows[j])
    requires i < |rows| ==> KeyListGiven(rows[i]) && rows[i].constraintType.None?
    ensures H2ReadTables(rows) == H2TableData(rows[..i])
  {
    var n := ReadableCount(rows);
    assert n == i;
  }

  /** H2 keys, and the names of the tables under them, are the lower-cased reported table names. */
  lemma H2TableKeys(rows: seq<H2Row>)
    requires forall i :: 0 <= i < |rows| ==> H2RowReadable(rows[i])
    ensures forall k :: k in H2TableData(rows) <==> exists i :: 0 <= i < |rows| && Lower(rows[i].tableName) == k
    ensures forall k :: k in H2TableData(rows) ==> IsLower(k) && H2TableData(rows)[k].name == k
  {
    var entries := H2Entries(rows);
    GroupKeys(entries);
    forall k | exists i :: 0 <= i < |rows| && Lower(rows[i].tableName) == k
      ensures k in H2TableData(rows)
    {
      var i :| 0 <= i < |rows| && Lower(rows[i].tableName) == k;
      assert entries[i].0 == k;
    }
    forall k | k in H2TableData(rows) ensures IsLower(k) {
      var i :| 0 <= i < |entries| && entries[i].0 == k;
      LowerIsLower(rows[i].tableName);
    }
  }

  /** Each column comes from the last row for its table and name, so with one row per joined
      constraint, the last constraint row decides the primary and unique flags. */
  lemma H2LastRowWins(rows: seq<H2Row>, i: int)
    requires forall j :: 0 <= j < |rows| ==> H2RowReadable(rows[j])
    requires 0 <= i < |rows|
    requires forall j :: i < j < |rows| ==>
               !(Lower(rows[j].tableName) == Lower(rows[i].tableName) && rows[j].columnName == rows[i].columnName)
    ensures Lower(rows[i].tableName) in H2TableData(rows)
    ensures rows[i].columnName in H2TableData(rows)[Lower(rows[i].tableName)].columns
    ensures H2TableData(rows)[Lower(rows[i].tableName)].columns[rows[i].columnName] == H2RowColumn(rows[i])
  {
    var entries := H2Entries(rows);
    forall j | i < j < |entries| ensures !(entries[j].0 == entries[i].0 && entries[j].1.name == entries[i].1.name) {
      assert entries[j].1.name == rows[j].columnName;
    }
    GroupLastWins(entries, i);
  }

  /** A null or blank column list leaves both flags false, whatever the constraint type, and
      reads the row without throwing even when the constraint type is NULL. */
  lemma H2BlankListNoKeys(row: H2Row)
    requires row.columnList.None? || IsBlank(row.columnList.value)
    ensures H2RowReadable(row)
    ensures !H2RowColumn(row).primary && !H2RowColumn(row).unique
  {
  }

  lemma SplitSpaced()
    ensures "name" !in JavaSplit("id, name", ',')
  {
    assert Join(["id", " name"], [',']) == "id, name";
    SplitAllJoin(["id", " name"], ',');
    JavaSplitMembership("id, name", ',', "name");
  }

  lemma SplitTight()
    ensures "name" in JavaSplit("id,name", ',')
  {
    assert Join(["id", "name"], [',']) == "id,name";
    SplitAllJoin(["id", "name"], ',');
    JavaSplitMembership("id,name", ',', "name");
  }

  lemma TextExamples()
    ensures Contains(Lower("PRIMARY KEY"), "primary")
    ensures Lower("id, name") == "id, name" && Lower("id,name") == "id,name" && Lower("name") == "name"
    ensures !IsBlank("id, name") && !IsBlank("id,name")
  {
    assert Lower("PRIMARY KEY") == "primary key";
    assert StartsWith("primary key", "primary");
    assert "id, name"[0] == 'i';
    assert "id,name"[0] == 'i';
  }

  /** Pieces are not trimmed: "id, name" lists " name", so column "name" is not matched. */
  lemma H2UntrimmedList(row: H2Row)
    requires row.columnName == "name"
    requires row.constraintType == Some("PRIMARY KEY")
    requires row.columnList == Some("id, name")
    ensures !H2RowColumn(row).primary
    ensures H2RowColumn(row.(columnList := Some("id,name"))).primary
  {
    SplitSpaced();
    SplitTight();
    TextExamples();
    assert !ListsColumn(row);
    assert ListsColumn(row.(columnList := Some("id,name")));
  }
}
