/** `TableManager.generateConfigurationTables`: the desired schema read from the YAML schema file.
    The file is given already parsed: every key lookup the loader makes is one `Option` field,
    `None` when the key is absent. */
module Configuration {
  import opened Optional
  import opened Strings
  import opened Translator
  import opened Schema
  import opened Provider

  /** The keys under `Tables.<table>.Columns.<column>`. `length` and `scale` hold the value
      `Long.valueOf` makes of the key's text. */
  datatype ColumnNode = ColumnNode(
    typeName: Option<string>,
    primary: Option<bool>,
    unique: Option<bool>,
    length: Option<int>,
    scale: Option<int>,
    defaultValue: Option<string>,
    characterSet: Option<string>,
    collate: Option<string>,
    nullable: Option<bool>,
    increment: Option<bool>)

  /** The keys under `Tables.<table>`: its `Settings` and its `Columns` section. */
  datatype TableNode = TableNode(
    engine: Option<string>,
    characterSet: Option<string>,
    collate: Option<string>,
    columns: map<string, ColumnNode>)

  /** The whole file: `Settings.Prefix` and the `Tables` section. */
  datatype Document = Document(prefix: Option<string>, tables: map<string, TableNode>)

  /** The table record before any column is added: name and settings, missing settings empty. */
  function TableShell(name: string, node: TableNode): (t: Table)
    ensures t.name == name && t.columns == map[]
    ensures t.engine == node.engine.GetOr("")
    ensures t.characterSet == node.characterSet.GetOr("")
    ensures t.collate == node.collate.GetOr("")
  {
    NewTable(name)
      .(engine := node.engine.GetOr(""))
      .(characterSet := node.characterSet.GetOr(""))
      .(collate := node.collate.GetOr(""))
  }

  /** One configured column, built by the loader's setter chain. The type is translated, with
      "VARCHAR" when absent; `Length` goes to the precision of a numeric type and to the length
      of any other; the table's character set and collation are set and then overwritten by the
      column's own keys, so they never reach the column. */
  function ConfigColumn(table: Table, name: string, node: ColumnNode): (c: Column)
    ensures c.name == name
    ensures Renderable(c)
  {
    var typed := NewColumn(name)
      .SetType(Some(Translate(node.typeName.GetOr("VARCHAR"))))
      .SetPrimary(node.primary.GetOr(false))
      .SetUnique(node.unique.GetOr(false));
    var sized :=
      if IsNumericType(typed.typeName) then typed.SetPrecision(node.length.GetOr(-1))
      else typed.SetLength(node.length.GetOr(-1));
    sized
      .SetScale(node.scale.GetOr(-1))
      .SetDefaultValue(node.defaultValue)
      .SetCharacterSet(Some(table.characterSet))
      .SetCharacterSet(Some(node.characterSet.GetOr("")))
      .SetCollate(Some(table.collate))
      .SetCollate(Some(node.collate.GetOr("")))
      .SetNullable(node.nullable.GetOr(true))
      .SetIncrement(node.increment.GetOr(false))
  }

  /** Every field of a configured column, key by key. */
  lemma ConfigColumnFields(table: Table, name: string, node: ColumnNode)
    ensures var c := ConfigColumn(table, name, node);
            c.name == name
            && c.typeName == Some(Translate(node.typeName.GetOr("VARCHAR")))
            && c.primary == node.primary.GetOr(false) && c.unique == node.unique.GetOr(false)
            && (IsNumericType(c.typeName) ==> c.precision == node.length.GetOr(-1) && c.length == -1)
            && (!IsNumericType(c.typeName) ==> c.length == node.length.GetOr(-1) && c.precision == -1)
            && c.scale == node.scale.GetOr(-1)
            && c.defaultValue == node.defaultValue
            && c.characterSet == Some(node.characterSet.GetOr(""))
            && c.collate == Some(node.collate.GetOr(""))
            && c.nullable == node.nullable.GetOr(true) && c.increment == node.increment.GetOr(false)
  {
  }

  /** The table's own settings never reach its columns. */
  lemma TableSettingsNotInherited(t: Table, u: Table, name: string, node: ColumnNode)
    ensures ConfigColumn(t, name, node) == ConfigColumn(u, name, node)
  {
  }

  /** Every configured column can be rendered: its character set and collation are never null. */
  lemma ConfigColumnRenderable(t: Table, name: string, node: ColumnNode)
    ensures Renderable(ConfigColumn(t, name, node))
    ensures ConfigColumn(t, name, node).typeName.Some?
  {
  }

  /** With every key absent the column is a nullable VARCHAR with no length. */
  lemma EmptyColumnNode(t: Table, name: string)
    ensures var c := ConfigColumn(t, name, ColumnNode(None, None, None, None, None, None, None, None, None, None));
            c == NewColumn(name).(typeName := Some("VARCHAR"), nullable := true)
  {
  }

  /** A numeric column without a `Length` key keeps precision -1, which renders as "(-1)". */
  lemma NumericWithoutLength(t: Table, name: string, node: ColumnNode)
    requires node.length.None?
    requires IsNumericType(Some(Translate(node.typeName.GetOr("VARCHAR"))))
    requires !IsScaleType(Some(Translate(node.typeName.GetOr("VARCHAR"))))
    ensures var c := ConfigColumn(t, name, node);
            LengthSpec(c.typeName, c.length, c.precision, c.scale) == "(-1)"
  {
    NumericWithoutPrecision(ConfigColumn(t, name, node));
  }

  /** The columns the schema file can describe: a type that is already canonical, a character
      set and collation, and a size in the field the loader routes `Length` to. */
  predicate Describable(c: Column) {
    && c.typeName.Some? && Translate(c.typeName.value) == c.typeName.value
    && c.characterSet.Some? && c.collate.Some?
    && (IsNumericType(c.typeName) ==> c.length == -1)
    && (!IsNumericType(c.typeName) ==> c.precision == -1)
  }

  /** The schema-file entry that spells out every field of a column. */
  function NodeOf(c: Column): (node: ColumnNode)
    requires Describable(c)
    ensures node.typeName == c.typeName && node.defaultValue == c.defaultValue
    ensures node.length == Some(if IsNumericType(c.typeName) then c.precision else c.length)
  {
    ColumnNode(
      c.typeName, Some(c.primary), Some(c.unique),
      Some(if IsNumericType(c.typeName) then c.precision else c.length),
      Some(c.scale), c.defaultValue, c.characterSet, c.collate,
      Some(c.nullable), Some(c.increment))
  }

  /** Loading the entry written for a describable column gives the column back. */
  lemma ConfigColumnRoundTrip(t: Table, c: Column)
    requires Describable(c)
    ensures ConfigColumn(t, c.name, NodeOf(c)) == c
  {
  }

  /** The column loop: `addColumn` of the column built for each key, in the section's key order. */
  function AddColumns(t: Table, names: seq<string>, built: map<string, Column>): Table
    requires forall i :: 0 <= i < |names| ==> names[i] in built
    decreases |names|
  {
    if |names| == 0 then t
    else AddColumns(t.AddColumn(built[names[0]]), names[1..], built)
  }

  /** The column loop keeps the table's settings and puts each visited column under its key. */
  lemma {:induction false} AddColumnsSpec(t: Table, names: seq<string>, built: map<string, Column>)
    requires forall i :: 0 <= i < |names| ==> names[i] in built && built[names[i]].name == names[i]
    ensures var r := AddColumns(t, names, built);
            && r.name == t.name && r.engine == t.engine
            && r.characterSet == t.characterSet && r.collate == t.collate
            && (forall k :: k in r.columns <==> k in t.columns || k in names)
            && (forall k :: k in names ==> r.columns[k] == built[k])
            && (forall k :: k in t.columns && k !in names ==> r.columns[k] == t.columns[k])
    decreases |names|
  {
    if |names| > 0 {
      var n := names[0];
      AddColumnsSpec(t.AddColumn(built[n]), names[1..], built);
      assert names == [n] + names[1..];
    }
  }

  /** Starting from no columns, a loop over an enumeration of `built` produces exactly `built`. */
  lemma AddColumnsFromEmpty(t: Table, names: seq<string>, built: map<string, Column>)
    requires t.columns == map[]
    requires Enumerates(names, built)
    requires forall k :: k in built ==> built[k].name == k
    ensures AddColumns(t, names, built) == t.(columns := built)
  {
    AddColumnsSpec(t, names, built);
    var r := AddColumns(t, names, built);
    assert forall k :: k in r.columns <==> k in built;
    assert r.columns == built;
  }

  /** The column each entry of a table's `Columns` section is loaded as. The loop never changes
      the table's settings, so every column sees the settings of the table as first created. */
  function ConfigColumns(shell: Table, node: TableNode): (built: map<string, Column>)
    ensures forall k :: k in built <==> k in node.columns
    ensures forall k :: k in built ==> built[k] == ConfigColumn(shell, k, node.columns[k]) && built[k].name == k
  {
    map k | k in node.columns :: ConfigColumn(shell, k, node.columns[k])
  }

  /** One configured table: its `Settings` and every entry of its `Columns` section. Whatever
      the key order, the loop yields the table record holding exactly the loaded columns. */
  function ConfigTable(name: string, node: TableNode, order: seq<string>): (t: Table)
    requires Enumerates(order, node.columns)
    ensures t == TableShell(name, node).(columns := ConfigColumns(TableShell(name, node), node))
  {
    var shell := TableShell(name, node);
    var built := ConfigColumns(shell, node);
    AddColumnsFromEmpty(shell, order, built);
    AddColumns(shell, order, built)
  }

  /** The key order of the columns section does not matter. */
  lemma ConfigTableOrderIrrelevant(name: string, node: TableNode, a: seq<string>, b: seq<string>)
    requires Enumerates(a, node.columns) && Enumerates(b, node.columns)
    ensures ConfigTable(name, node, a) == ConfigTable(name, node, b)
  {
  }

  /** Every configured table can be handed to the statement generators. */
  lemma ConfigTableRenderable(name: string, node: TableNode, order: seq<string>)
    requires Enumerates(order, node.columns)
    ensures AllRenderable(ConfigTable(name, node, order))
  {
    var t := ConfigTable(name, node, order);
    forall k | k in t.columns ensures Renderable(t.columns[k]) {
      ConfigColumnRenderable(t, k, node.columns[k]);
    }
  }

  function Prefix(doc: Document): string {
    doc.prefix.GetOr("")
  }

  /** A key order for every hash map the loader walks. */
  datatype DocumentOrder = DocumentOrder(tables: seq<string>, columns: map<string, seq<string>>)

  predicate ValidOrder(doc: Document, order: DocumentOrder) {
    && Enumerates(order.tables, doc.tables)
    && forall n :: n in doc.tables ==> n in order.columns && Enumerates(order.columns[n], doc.tables[n].columns)
  }

  lemma PrefixCancels(prefix: string, a: string, b: string)
    ensures prefix + a == prefix + b <==> a == b
  {
    if prefix + a == prefix + b {
      assert a == (prefix + a)[|prefix|..];
      assert b == (prefix + b)[|prefix|..];
    }
  }

  /** The table loop: `put(prefix + name, table)` for each name, in the section's key order. */
  function PutAll<V>(acc: map<string, V>, prefix: string, names: seq<string>, built: map<string, V>): map<string, V>
    requires forall i :: 0 <= i < |names| ==> names[i] in built
    decreases |names|
  {
    if |names| == 0 then acc
    else PutAll(acc[prefix + names[0] := built[names[0]]], prefix, names[1..], built)
  }

  /** No visited name is put under `k`. */
  predicate NotPut(prefix: string, names: seq<string>, k: string) {
    forall i :: 0 <= i < |names| ==> prefix + names[i] != k
  }

  /** Every visited name ends up under its prefixed key; nothing else is added or changed. */
  lemma {:induction false} PutAllSpec<V>(acc: map<string, V>, prefix: string, names: seq<string>, built: map<string, V>)
    requires forall i :: 0 <= i < |names| ==> names[i] in built
    ensures var r := PutAll(acc, prefix, names, built);
            && (forall n :: n in names ==> prefix + n in r && r[prefix + n] == built[n])
            && (forall k :: k in r ==> k in acc || exists n :: n in names && k == prefix + n)
            && (forall k :: k in acc && NotPut(prefix, names, k) ==> k in r && r[k] == acc[k])
    decreases |names|
  {
    if |names| > 0 {
      var n := names[0];
      var acc' := acc[prefix + n := built[n]];
      PutAllSpec(acc', prefix, names[1..], built);
      assert names == [n] + names[1..];
      var r := PutAll(acc', prefix, names[1..], built);
      forall m | m in names ensures prefix + m in r && r[prefix + m] == built[m] {
        if m !in names[1..] {
          assert m == n;
          forall i | 0 <= i < |names[1..]| ensures prefix + names[1..][i] != prefix + n {
            PrefixCancels(prefix, names[1..][i], n);
          }
          assert NotPut(prefix, names[1..], prefix + n);
        }
      }
      forall k | k in acc && NotPut(prefix, names, k) ensures k in r && r[k] == acc[k] {
        assert prefix + names[0] != k;
        assert NotPut(prefix, names[1..], k) by {
          forall i | 0 <= i < |names[1..]| ensures prefix + names[1..][i] != k {
            assert names[1..][i] == names[i + 1];
          }
        }
      }
    }
  }

  /** The table each entry of the `Tables` section is loaded as. */
  function LoadedTables(doc: Document, order: DocumentOrder): (built: map<string, Table>)
    requires ValidOrder(doc, order)
    ensures forall n :: n in built <==> n in doc.tables
    ensures forall n :: n in built ==> built[n] == ConfigTable(n, doc.tables[n], order.columns[n])
  {
    map n | n in doc.tables :: ConfigTable(n, doc.tables[n], order.columns[n])
  }

  /** `generateConfigurationTables`: each configured table under its prefixed name, while the
      table record keeps the bare name. */
  function ConfigTables(doc: Document, order: DocumentOrder): (r: map<string, Table>)
    requires ValidOrder(doc, order)
    ensures forall n :: n in doc.tables ==>
              Prefix(doc) + n in r && r[Prefix(doc) + n] == ConfigTable(n, doc.tables[n], order.columns[n])
    ensures forall k :: k in r ==> exists n :: n in doc.tables && k == Prefix(doc) + n
  {
    var built := LoadedTables(doc, order);
    PutAllSpec(map[], Prefix(doc), order.tables, built);
    PutAll(map[], Prefix(doc), order.tables, built)
  }
}
