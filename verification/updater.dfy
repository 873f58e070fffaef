/** `TableManager.generateQueriesAndRun` without the connection: the configured schema, the
    schema the database reports, and the statements the diff renders from the two. */
module Updater {
  import opened Strings
  import opened Schema
  import opened Provider
  import opened Introspection
  import opened Configuration
  import opened Diff

  /** One run: the schema file, the database's tables, and a key order for every hash map walked. */
  datatype Run = Run(
    doc: Document,
    docOrder: DocumentOrder,
    database: map<string, Table>,
    tableOrder: seq<string>,
    desiredOrders: map<string, seq<string>>,
    actualOrders: map<string, seq<string>>)

  predicate ValidRun(run: Run) {
    && ValidOrder(run.doc, run.docOrder)
    && DiffInput(ConfigTables(run.doc, run.docOrder), run.database,
                 run.tableOrder, run.desiredOrders, run.actualOrders).Valid()
  }

  /** The diff's input: `configurationTables` from the schema file, `dataBase` from introspection. */
  function Input(run: Run): (input: DiffInput)
    requires ValidRun(run)
    ensures input.Valid()
    ensures input.desired == ConfigTables(run.doc, run.docOrder) && input.actual == run.database
  {
    DiffInput(ConfigTables(run.doc, run.docOrder), run.database,
              run.tableOrder, run.desiredOrders, run.actualOrders)
  }

  /** Every table the schema file yields can be rendered, so the diff never meets a null
      character set or collation. */
  lemma ConfiguredTablesRenderable(doc: Document, order: DocumentOrder)
    requires ValidOrder(doc, order)
    ensures AllTablesRenderable(ConfigTables(doc, order))
  {
    var tables := ConfigTables(doc, order);
    forall k | k in tables ensures AllRenderable(tables[k]) {
      var n :| n in doc.tables && k == Prefix(doc) + n;
      ConfigTableRenderable(n, doc.tables[n], order.columns[n]);
    }
  }

  /** `generateQueries` after `generateConfigurationTables`: one rendered statement per diff
      statement, in the diff's order. */
  function Plan(p: Format, run: Run, differs: (Column, Column) -> bool): (r: seq<string>)
    requires ValidRun(run)
    ensures |r| == |Statements(Input(run), differs)|
    ensures forall i :: 0 <= i < |r| ==> RendersAs(p, Statements(Input(run), differs)[i], r[i])
  {
    ConfiguredTablesRenderable(run.doc, run.docOrder);
    GenerateQueries(p, Input(run), differs)
  }

  /** Every ALTER form names the table by its configuration key. */
  lemma AlterFormsUseKey(p: Format, st: Statement, text: string)
    requires RendersAs(p, st, text) && !st.Create?
    ensures StartsWith(text, "ALTER TABLE " + st.key)
  {
    match st
    case Add(k, _, c) => StartsWithLeft3("ALTER TABLE " + k, ", ADD COLUMN ", GenerateColumn(p, c));
    case Alter(k, _, c) => StartsWithLeft3("ALTER TABLE " + k, " MODIFY ", GenerateColumn(p, c));
    case Drop(k, c) => StartsWithLeft3("ALTER TABLE " + k, ", DROP COLUMN ", c);
  }

  /** A configured table the database lacks is created under its bare name, while its map key,
      the one every ALTER uses, carries the prefix. */
  lemma NewTableCreatedUnderBareName(p: Format, run: Run, differs: (Column, Column) -> bool, n: string)
    requires ValidRun(run)
    requires n in run.doc.tables && Prefix(run.doc) + n !in run.database
    ensures var s := Statements(Input(run), differs);
            var r := Plan(p, run, differs);
            exists i :: 0 <= i < |s| && s[i].Create? && s[i].key == Prefix(run.doc) + n
                        && StartsWith(r[i], "CREATE TABLE IF NOT EXISTS `" + n + "` (")
  {
    var input := Input(run);
    var k := Prefix(run.doc) + n;
    var s := Statements(input, differs);
    var r := Plan(p, run, differs);
    NewTableOnlyCreated(input, differs, k);
    var i :| 0 <= i < |s| && s[i] == Create(k, input.desired[k], input.desiredOrders[k]);
    assert RendersAs(p, s[i], r[i]);
    TableCreateStartsWithHead(p, input.desired[k], input.desiredOrders[k]);
    assert input.desired[k].name == n;
  }

  /** Every statement other than a create names its table by a prefixed configuration key. */
  lemma AltersUsePrefixedKey(p: Format, run: Run, differs: (Column, Column) -> bool, i: int)
    requires ValidRun(run)
    requires 0 <= i < |Statements(Input(run), differs)|
    requires !Statements(Input(run), differs)[i].Create?
    ensures exists n :: n in run.doc.tables && StartsWith(Plan(p, run, differs)[i], "ALTER TABLE " + Prefix(run.doc) + n)
  {
    var s := Statements(Input(run), differs);
    var r := Plan(p, run, differs);
    var key := s[i].key;
    assert key in ConfigTables(run.doc, run.docOrder) by {
      assert s[i] in s;
      StatementKeyConfigured(Input(run), differs, s[i]);
    }
    var n :| n in run.doc.tables && key == Prefix(run.doc) + n;
    AlterFormsUseKey(p, s[i], r[i]);
    StartsWithRegroup(r[i], "ALTER TABLE ", Prefix(run.doc), n);
  }

  lemma StartsWithRegroup(text: string, a: string, b: string, c: string)
    requires StartsWith(text, a + (b + c))
    ensures StartsWith(text, a + b + c)
  {
    assert a + (b + c) == a + b + c;
  }

  lemma IsLowerPrefix(a: string, b: string)
    requires IsLower(a + b)
    ensures IsLower(a)
  {
    forall i | 0 <= i < |a| ensures Lower(a)[i] == a[i] {
      assert (a + b)[i] == a[i];
    }
  }

  /** H2 reports every table under its lower-cased name, so a configured key with an upper-case
      letter is never found: every run emits its create and nothing else for it. */
  lemma H2MixedCaseKeyAlwaysCreated(run: Run, differs: (Column, Column) -> bool, rows: seq<H2Row>, k: string)
    requires forall i :: 0 <= i < |rows| ==> H2RowReadable(rows[i])
    requires ValidRun(run) && run.database == H2TableData(rows)
    requires k in Input(run).desired && !IsLower(k)
    ensures var s := Statements(Input(run), differs);
            exists i :: 0 <= i < |s| && s[i].Create? && s[i].key == k
                        && forall j :: 0 <= j < |s| && s[j].key == k ==> j == i
  {
    H2TableKeys(rows);
    NewTableOnlyCreated(Input(run), differs, k);
  }

  /** Under H2, a prefix with an upper-case letter makes every configured table look new. */
  lemma H2UpperCasePrefixRecreatesAll(run: Run, differs: (Column, Column) -> bool, rows: seq<H2Row>, n: string)
    requires forall i :: 0 <= i < |rows| ==> H2RowReadable(rows[i])
    requires ValidRun(run) && run.database == H2TableData(rows)
    requires !IsLower(Prefix(run.doc)) && n in run.doc.tables
    ensures Create(Prefix(run.doc) + n, Input(run).desired[Prefix(run.doc) + n],
                   run.desiredOrders[Prefix(run.doc) + n]) in Statements(Input(run), differs)
  {
    var k := Prefix(run.doc) + n;
    if IsLower(k) {
      IsLowerPrefix(Prefix(run.doc), n);
    }
    H2TableKeys(rows);
    StatementsMembers(Input(run), differs,
                      Create(k, Input(run).desired[k], run.desiredOrders[k]));
  }
}
