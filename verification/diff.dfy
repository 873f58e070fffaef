/** `TableManager.generateQueries`: the statements that bring the database tables in line with
    the configured ones. The statement list is built as data first and rendered afterwards. */
module Diff {
  import opened Strings
  import opened Schema
  import opened Provider

  /** One statement the diff emits, before rendering. `key` is the configuration map key. */
  datatype Statement =
    | Create(key: string, table: Table, order: seq<string>)
    | Add(key: string, column: string, data: Column)
    | Alter(key: string, column: string, data: Column)
    | Drop(key: string, column: string)

  /** The two table maps and one iteration order for each hash map the diff walks. */
  datatype DiffInput = DiffInput(
    desired: map<string, Table>,
    actual: map<string, Table>,
    tableOrder: seq<string>,
    desiredOrders: map<string, seq<string>>,
    actualOrders: map<string, seq<string>>)
  {
    predicate Valid() {
      && Enumerates(tableOrder, desired)
      && (forall k :: k in desired ==> k in desiredOrders && Enumerates(desiredOrders[k], desired[k].columns))
      && (forall k :: k in desired && k in actual ==> k in actualOrders && Enumerates(actualOrders[k], actual[k].columns))
    }
  }

  ghost predicate NoDuplicates<T>(s: seq<T>) {
    forall i, j :: 0 <= i < j < |s| ==> s[i] != s[j]
  }

  lemma NoDuplicatesConcat<T>(a: seq<T>, b: seq<T>)
    requires NoDuplicates(a) && NoDuplicates(b)
    requires forall x :: x in a ==> x !in b
    ensures NoDuplicates(a + b)
  {
    forall i, j | 0 <= i < j < |a + b| ensures (a + b)[i] != (a + b)[j] {
      if i < |a| && j >= |a| {
        assert (a + b)[i] in a && (a + b)[j] in b;
      }
    }
  }

  // ---------------------------------------------------------------------------
  // The first loop: a create for every configured table the database lacks

  function CreatePass(input: DiffInput, tables: seq<string>): seq<Statement>
    requires forall i :: 0 <= i < |tables| ==> tables[i] in input.desired && tables[i] in input.desiredOrders
    decreases |tables|
  {
    if |tables| == 0 then []
    else
      var k := tables[0];
      (if k !in input.actual then [Create(k, input.desired[k], input.desiredOrders[k])] else [])
      + CreatePass(input, tables[1..])
  }

  lemma {:induction false} CreatePassMembers(input: DiffInput, tables: seq<string>, st: Statement)
    requires forall i :: 0 <= i < |tables| ==> tables[i] in input.desired && tables[i] in input.desiredOrders
    ensures st in CreatePass(input, tables) <==>
              st.Create? && st.key in tables && st.key !in input.actual
              && st.table == input.desired[st.key] && st.order == input.desiredOrders[st.key]
    decreases |tables|
  {
    if |tables| > 0 {
      CreatePassMembers(input, tables[1..], st);
      assert tables == [tables[0]] + tables[1..];
    }
  }

  lemma {:induction false} CreatePassNoDuplicates(input: DiffInput, tables: seq<string>)
    requires forall i :: 0 <= i < |tables| ==> tables[i] in input.desired && tables[i] in input.desiredOrders
    requires NoDuplicates(tables)
    ensures NoDuplicates(CreatePass(input, tables))
    decreases |tables|
  {
    if |tables| > 0 {
      var rest := tables[1..];
      assert NoDuplicates(rest) by {
        forall i, j | 0 <= i < j < |rest| ensures rest[i] != rest[j] {
          assert rest[i] == tables[i + 1] && rest[j] == tables[j + 1];
        }
      }
      CreatePassNoDuplicates(input, rest);
      forall x | x in CreatePass(input, rest) ensures x.key != tables[0] {
        CreatePassMembers(input, rest, x);
        var i :| 0 <= i < |rest| && rest[i] == x.key;
        assert tables[i + 1] == x.key;
      }
      NoDuplicatesConcat(
        (if tables[0] !in input.actual then [Create(tables[0], input.desired[tables[0]], input.desiredOrders[tables[0]])] else []),
        CreatePass(input, rest));
    }
  }

  // ---------------------------------------------------------------------------
  // The second loop, per table present on both sides

  /** Configured columns: add the missing ones, modify the ones the comparison flags. */
  function ColumnPass(key: string, desired: Table, actual: Table, order: seq<string>,
                      differs: (Column, Column) -> bool): seq<Statement>
    requires forall i :: 0 <= i < |order| ==> order[i] in desired.columns
    decreases |order|
  {
    if |order| == 0 then []
    else
      var c := order[0];
      (if c !in actual.columns then [Add(key, c, desired.columns[c])]
       else if differs(actual.columns[c], desired.columns[c]) then [Alter(key, c, desired.columns[c])]
       else [])
      + ColumnPass(key, desired, actual, order[1..], differs)
  }

  lemma {:induction false} ColumnPassMembers(key: string, desired: Table, actual: Table, order: seq<string>,
                                             differs: (Column, Column) -> bool, st: Statement)
    requires forall i :: 0 <= i < |order| ==> order[i] in desired.columns
    ensures st in ColumnPass(key, desired, actual, order, differs) <==>
              || (st.Add? && st.key == key && st.column in order && st.column !in actual.columns
                  && st.data == desired.columns[st.column])
              || (st.Alter? && st.key == key && st.column in order && st.column in actual.columns
                  && differs(actual.columns[st.column], desired.columns[st.column])
                  && st.data == desired.columns[st.column])
    decreases |order|
  {
    if |order| > 0 {
      ColumnPassMembers(key, desired, actual, order[1..], differs, st);
      assert order == [order[0]] + order[1..];
    }
  }

  lemma {:induction false} ColumnPassNoDuplicates(key: string, desired: Table, actual: Table, order: seq<string>,
                                                  differs: (Column, Column) -> bool)
    requires forall i :: 0 <= i < |order| ==> order[i] in desired.columns
    requires NoDuplicates(order)
    ensures NoDuplicates(ColumnPass(key, desired, actual, order, differs))
    decreases |order|
  {
    if |order| > 0 {
      var rest := order[1..];
      assert NoDuplicates(rest) by {
        forall i, j | 0 <= i < j < |rest| ensures rest[i] != rest[j] {
          assert rest[i] == order[i + 1] && rest[j] == order[j + 1];
        }
      }
      ColumnPassNoDuplicates(key, desired, actual, rest, differs);
      forall x | x in ColumnPass(key, desired, actual, rest, differs) ensures (x.Add? || x.Alter?) && x.column != order[0] {
        ColumnPassMembers(key, desired, actual, rest, differs, x);
        var i :| 0 <= i < |rest| && rest[i] == x.column;
        assert order[i + 1] == x.column;
      }
      var c := order[0];
      NoDuplicatesConcat(
        (if c !in actual.columns then [Add(key, c, desired.columns[c])]
         else if differs(actual.columns[c], desired.columns[c]) then [Alter(key, c, desired.columns[c])]
         else []),
        ColumnPass(key, desired, actual, rest, differs));
    }
  }

  /** Database columns the configuration no longer has: drop them. */
  function DropPass(key: string, desired: Table, order: seq<string>): seq<Statement>
    decreases |order|
  {
    if |order| == 0 then []
    else
      (if order[0] !in desired.columns then [Drop(key, order[0])] else [])
      + DropPass(key, desired, order[1..])
  }

  lemma {:induction false} DropPassMembers(key: string, desired: Table, order: seq<string>, st: Statement)
    ensures st in DropPass(key, desired, order) <==>
              st.Drop? && st.key == key && st.column in order && st.column !in desired.columns
    decreases |order|
  {
    if |order| > 0 {
      DropPassMembers(key, desired, order[1..], st);
      assert order == [order[0]] + order[1..];
    }
  }

  lemma {:induction false} DropPassNoDuplicates(key: string, desired: Table, order: seq<string>)
    requires NoDuplicates(order)
    ensures NoDuplicates(DropPass(key, desired, order))
    decreases |order|
  {
    if |order| > 0 {
      var rest := order[1..];
      assert NoDuplicates(rest) by {
        forall i, j | 0 <= i < j < |rest| ensures rest[i] != rest[j] {
          assert rest[i] == order[i + 1] && rest[j] == order[j + 1];
        }
      }
      DropPassNoDuplicates(key, desired, rest);
      forall x | x in DropPass(key, desired, rest) ensures x.Drop? && x.column != order[0] {
        DropPassMembers(key, desired, rest, x);
        var i :| 0 <= i < |rest| && rest[i] == x.column;
        assert order[i + 1] == x.column;
      }
      NoDuplicatesConcat(
        (if order[0] !in desired.columns then [Drop(key, order[0])] else []),
        DropPass(key, desired, rest));
    }
  }

  /** What the second loop emits for one table: its adds and alters, then its drops. */
  function TableBlock(input: DiffInput, k: string, differs: (Column, Column) -> bool): seq<Statement>
    requires input.Valid() && k in input.desired && k in input.actual
  {
    ColumnPass(k, input.desired[k], input.actual[k], input.desiredOrders[k], differs)
    + DropPass(k, input.desired[k], input.actualOrders[k])
  }

  /** The second loop: tables created by the first loop are skipped. */
  function AlterPass(input: DiffInput, tables: seq<string>, differs: (Column, Column) -> bool): seq<Statement>
    requires input.Valid()
    requires forall i :: 0 <= i < |tables| ==> tables[i] in input.desired
    decreases |tables|
  {
    if |tables| == 0 then []
    else
      var k := tables[0];
      (if k in input.actual then TableBlock(input, k, differs) else [])
      + AlterPass(input, tables[1..], differs)
  }

  /** Membership in one table's block. */
  lemma TableBlockMembers(input: DiffInput, k: string, differs: (Column, Column) -> bool, st: Statement)
    requires input.Valid() && k in input.desired && k in input.actual
    ensures st in TableBlock(input, k, differs) <==>
              || (st.Add? && st.key == k && st.column in input.desired[k].columns
                  && st.column !in input.actual[k].columns && st.data == input.desired[k].columns[st.column])
              || (st.Alter? && st.key == k && st.column in input.desired[k].columns
                  && st.column in input.actual[k].columns
                  && differs(input.actual[k].columns[st.column], input.desired[k].columns[st.column])
                  && st.data == input.desired[k].columns[st.column])
              || (st.Drop? && st.key == k && st.column in input.actual[k].columns
                  && st.column !in input.desired[k].columns)
  {
    ColumnPassMembers(k, input.desired[k], input.actual[k], input.desiredOrders[k], differs, st);
    DropPassMembers(k, input.desired[k], input.actualOrders[k], st);
  }

  lemma {:induction false} AlterPassMembers(input: DiffInput, tables: seq<string>, differs: (Column, Column) -> bool,
                                            st: Statement)
    requires input.Valid()
    requires forall i :: 0 <= i < |tables| ==> tables[i] in input.desired
    ensures st in AlterPass(input, tables, differs) <==>
              !st.Create? && st.key in tables && st.key in input.actual && st in TableBlock(input, st.key, differs)
    decreases |tables|
  {
    if |tables| > 0 {
      AlterPassMembers(input, tables[1..], differs, st);
      assert tables == [tables[0]] + tables[1..];
      var k := tables[0];
      if k in input.actual && st in TableBlock(input, k, differs) {
        TableBlockMembers(input, k, differs, st);
      }
    }
  }

  lemma TableBlockNoDuplicates(input: DiffInput, k: string, differs: (Column, Column) -> bool)
    requires input.Valid() && k in input.desired && k in input.actual
    ensures NoDuplicates(TableBlock(input, k, differs))
  {
    var cp := ColumnPass(k, input.desired[k], input.actual[k], input.desiredOrders[k], differs);
    var dp := DropPass(k, input.desired[k], input.actualOrders[k]);
    ColumnPassNoDuplicates(k, input.desired[k], input.actual[k], input.desiredOrders[k], differs);
    DropPassNoDuplicates(k, input.desired[k], input.actualOrders[k]);
    forall x | x in cp ensures x !in dp {
      ColumnPassMembers(k, input.desired[k], input.actual[k], input.desiredOrders[k], differs, x);
      DropPassMembers(k, input.desired[k], input.actualOrders[k], x);
    }
    NoDuplicatesConcat(cp, dp);
  }

  lemma {:induction false} AlterPassNoDuplicates(input: DiffInput, tables: seq<string>, differs: (Column, Column) -> bool)
    requires input.Valid()
    requires forall i :: 0 <= i < |tables| ==> tables[i] in input.desired
    requires NoDuplicates(tables)
    ensures NoDuplicates(AlterPass(input, tables, differs))
    decreases |tables|
  {
    if |tables| > 0 {
      var k := tables[0];
      var rest := tables[1..];
      assert NoDuplicates(rest) by {
        forall i, j | 0 <= i < j < |rest| ensures rest[i] != rest[j] {
          assert rest[i] == tables[i + 1] && rest[j] == tables[j + 1];
        }
      }
      AlterPassNoDuplicates(input, rest, differs);
      var block := if k in input.actual then TableBlock(input, k, differs) else [];
      if k in input.actual {
        TableBlockNoDuplicates(input, k, differs);
      }
      forall x | x in block ensures x !in AlterPass(input, rest, differs) {
        TableBlockMembers(input, k, differs, x);
        AlterPassMembers(input, rest, differs, x);
      }
      NoDuplicatesConcat(block, AlterPass(input, rest, differs));
    }
  }

  /** Every drop follows every other statement of the same table. */
  ghost predicate DropsLast(s: seq<Statement>) {
    forall i, j :: 0 <= i < |s| && 0 <= j < |s| && s[i].Drop? && !s[j].Drop? && s[i].key == s[j].key ==> j < i
  }

  /** Within the second loop, every drop for a table follows every add and alter for it. */
  lemma {:induction false} AlterPassDropsLast(input: DiffInput, tables: seq<string>, differs: (Column, Column) -> bool)
    requires input.Valid()
    requires forall i :: 0 <= i < |tables| ==> tables[i] in input.desired
    requires NoDuplicates(tables)
    ensures DropsLast(AlterPass(input, tables, differs))
    decreases |tables|
  {
    var s := AlterPass(input, tables, differs);
    if |tables| > 0 {
      var k := tables[0];
      var rest := tables[1..];
      assert NoDuplicates(rest) by {
        forall i, j | 0 <= i < j < |rest| ensures rest[i] != rest[j] {
          assert rest[i] == tables[i + 1] && rest[j] == tables[j + 1];
        }
      }
      AlterPassDropsLast(input, rest, differs);
      assert k !in rest by {
        forall m | 0 <= m < |rest| ensures rest[m] != k {
          assert rest[m] == tables[m + 1];
        }
      }
      var block := if k in input.actual then TableBlock(input, k, differs) else [];
      var tail := AlterPass(input, rest, differs);
      assert s == block + tail;
      forall i, j | 0 <= i < |s| && 0 <= j < |s| && s[i].Drop? && !s[j].Drop? && s[i].key == s[j].key
        ensures j < i
      {
        if i < |block| && j < |block| {
          var cp := ColumnPass(k, input.desired[k], input.actual[k], input.desiredOrders[k], differs);
          var dp := DropPass(k, input.desired[k], input.actualOrders[k]);
          assert block == cp + dp;
          assert s[i] == block[i] && s[j] == block[j];
          if i < |cp| {
            assert s[i] == cp[i];
            ColumnPassMembers(k, input.desired[k], input.actual[k], input.desiredOrders[k], differs, s[i]);
          }
          if j >= |cp| {
            assert s[j] == dp[j - |cp|];
            DropPassMembers(k, input.desired[k], input.actualOrders[k], s[j]);
          }
          assert j < i;
        } else if i < |block| && j >= |block| {
          assert s[i] == block[i];
          TableBlockMembers(input, k, differs, s[i]);
          assert s[j] == tail[j - |block|];
          AlterPassMembers(input, rest, differs, s[j]);
          assert false;
        } else if i >= |block| && j < |block| {
        } else {
          var i', j' := i - |block|, j - |block|;
          assert s[i] == tail[i'] && s[j] == tail[j'];
          assert DropsLast(tail);
          assert j' < i';
        }
      }
    }
  }

  // ---------------------------------------------------------------------------
  // The whole diff

  /** `generateQueries`, as statements: every create, then every table's adds, alters and drops. */
  function Statements(input: DiffInput, differs: (Column, Column) -> bool): seq<Statement>
    requires input.Valid()
  {
    CreatePass(input, input.tableOrder) + AlterPass(input, input.tableOrder, differs)
  }

  /** The statements, kind by kind: exactly which creates, adds, alters and drops appear. */
  lemma StatementsMembers(input: DiffInput, differs: (Column, Column) -> bool, st: Statement)
    requires input.Valid()
    ensures st in Statements(input, differs) <==>
              || (st.Create? && st.key in input.desired && st.key !in input.actual
                  && st.table == input.desired[st.key] && st.order == input.desiredOrders[st.key])
              || (st.Add? && st.key in input.desired && st.key in input.actual
                  && st.column in input.desired[st.key].columns && st.column !in input.actual[st.key].columns
                  && st.data == input.desired[st.key].columns[st.column])
              || (st.Alter? && st.key in input.desired && st.key in input.actual
                  && st.column in input.desired[st.key].columns && st.column in input.actual[st.key].columns
                  && differs(input.actual[st.key].columns[st.column], input.desired[st.key].columns[st.column])
                  && st.data == input.desired[st.key].columns[st.column])
              || (st.Drop? && st.key in input.desired && st.key in input.actual
                  && st.column in input.actual[st.key].columns && st.column !in input.desired[st.key].columns)
  {
    CreatePassMembers(input, input.tableOrder, st);
    AlterPassMembers(input, input.tableOrder, differs, st);
    if !st.Create? && st.key in input.desired && st.key in input.actual {
      TableBlockMembers(input, st.key, differs, st);
    }
  }

  /** Every statement concerns a configured table. */
  lemma StatementKeyConfigured(input: DiffInput, differs: (Column, Column) -> bool, st: Statement)
    requires input.Valid() && st in Statements(input, differs)
    ensures st.key in input.desired
  {
    StatementsMembers(input, differs, st);
  }

  /** No statement appears twice. */
  lemma StatementsNoDuplicates(input: DiffInput, differs: (Column, Column) -> bool)
    requires input.Valid()
    ensures NoDuplicates(Statements(input, differs))
  {
    CreatePassNoDuplicates(input, input.tableOrder);
    AlterPassNoDuplicates(input, input.tableOrder, differs);
    forall x | x in CreatePass(input, input.tableOrder) ensures x !in AlterPass(input, input.tableOrder, differs) {
      CreatePassMembers(input, input.tableOrder, x);
      AlterPassMembers(input, input.tableOrder, differs, x);
    }
    NoDuplicatesConcat(CreatePass(input, input.tableOrder), AlterPass(input, input.tableOrder, differs));
  }

  /** Every create precedes every add, alter and drop; within a table, drops come last. */
  lemma StatementsOrder(input: DiffInput, differs: (Column, Column) -> bool)
    requires input.Valid()
    ensures var s := Statements(input, differs);
            forall i, j :: 0 <= i < j < |s| && s[j].Create? ==> s[i].Create?
    ensures var s := Statements(input, differs);
            forall i, j ::
              0 <= i < |s| && 0 <= j < |s| && s[i].Drop? && !s[j].Drop? && !s[j].Create? && s[i].key == s[j].key
              ==> j < i
  {
    var creates := CreatePass(input, input.tableOrder);
    var rest := AlterPass(input, input.tableOrder, differs);
    var s := creates + rest;
    AlterPassDropsLast(input, input.tableOrder, differs);
    forall i, j | 0 <= i < j < |s| && s[j].Create? ensures s[i].Create? {
      if j >= |creates| {
        assert s[j] == rest[j - |creates|];
        AlterPassMembers(input, input.tableOrder, differs, s[j]);
      } else {
        assert s[i] in creates;
        CreatePassMembers(input, input.tableOrder, s[i]);
      }
    }
    forall i, j | 0 <= i < |s| && 0 <= j < |s| && s[i].Drop? && !s[j].Drop? && !s[j].Create? && s[i].key == s[j].key
      ensures j < i
    {
      if i < |creates| {
        assert s[i] in creates;
        CreatePassMembers(input, input.tableOrder, s[i]);
      } else if j < |creates| {
        assert s[j] in creates;
        CreatePassMembers(input, input.tableOrder, s[j]);
      } else {
        assert s[i] == rest[i - |creates|] && s[j] == rest[j - |creates|];
      }
    }
  }

  /** A configured table the database lacks gets exactly one statement, its create. */
  lemma NewTableOnlyCreated(input: DiffInput, differs: (Column, Column) -> bool, k: string)
    requires input.Valid()
    requires k in input.desired && k !in input.actual
    ensures var s := Statements(input, differs);
            exists i :: 0 <= i < |s| && s[i] == Create(k, input.desired[k], input.desiredOrders[k])
                        && forall j :: 0 <= j < |s| && s[j].key == k ==> j == i
  {
    var s := Statements(input, differs);
    var st := Create(k, input.desired[k], input.desiredOrders[k]);
    StatementsMembers(input, differs, st);
    StatementsNoDuplicates(input, differs);
    var i :| 0 <= i < |s| && s[i] == st;
    forall j | 0 <= j < |s| && s[j].key == k ensures j == i {
      StatementsMembers(input, differs, s[j]);
    }
  }

  /** A configured column the database table lacks gets exactly one statement, its add. */
  lemma MissingColumnAdded(input: DiffInput, differs: (Column, Column) -> bool, k: string, c: string)
    requires input.Valid()
    requires k in input.desired && k in input.actual
    requires c in input.desired[k].columns && c !in input.actual[k].columns
    ensures var s := Statements(input, differs);
            exists i :: 0 <= i < |s| && s[i] == Add(k, c, input.desired[k].columns[c])
                        && forall j :: 0 <= j < |s| && !s[j].Create? && s[j].key == k && s[j].column == c ==> j == i
  {
    var s := Statements(input, differs);
    var st := Add(k, c, input.desired[k].columns[c]);
    StatementsMembers(input, differs, st);
    StatementsNoDuplicates(input, differs);
    var i :| 0 <= i < |s| && s[i] == st;
    forall j | 0 <= j < |s| && !s[j].Create? && s[j].key == k && s[j].column == c ensures j == i {
      StatementsMembers(input, differs, s[j]);
    }
  }

  /** A column on both sides gets an alter exactly when the comparison reports a difference,
      and never an add or a drop. */
  lemma SharedColumnAlteredIffDiffers(input: DiffInput, differs: (Column, Column) -> bool, k: string, c: string)
    requires input.Valid()
    requires k in input.desired && k in input.actual
    requires c in input.desired[k].columns && c in input.actual[k].columns
    ensures Alter(k, c, input.desired[k].columns[c]) in Statements(input, differs)
            <==> differs(input.actual[k].columns[c], input.desired[k].columns[c])
    ensures var s := Statements(input, differs);
            forall j :: 0 <= j < |s| && !s[j].Create? && s[j].key == k && s[j].column == c ==> s[j].Alter?
  {
    var s := Statements(input, differs);
    StatementsMembers(input, differs, Alter(k, c, input.desired[k].columns[c]));
    forall j | 0 <= j < |s| && !s[j].Create? && s[j].key == k && s[j].column == c ensures s[j].Alter? {
      StatementsMembers(input, differs, s[j]);
    }
  }

  /** A database column the configuration lacks gets exactly one statement, its drop, placed
      after every add and alter of that table. */
  lemma RemovedColumnDropped(input: DiffInput, differs: (Column, Column) -> bool, k: string, c: string)
    requires input.Valid()
    requires k in input.desired && k in input.actual
    requires c in input.actual[k].columns && c !in input.desired[k].columns
    ensures var s := Statements(input, differs);
            exists i :: 0 <= i < |s| && s[i] == Drop(k, c)
                        && (forall j :: 0 <= j < |s| && !s[j].Create? && s[j].key == k && s[j].column == c ==> j == i)
                        && (forall j :: 0 <= j < |s| && (s[j].Add? || s[j].Alter?) && s[j].key == k ==> j < i)
  {
    var s := Statements(input, differs);
    StatementsMembers(input, differs, Drop(k, c));
    StatementsNoDuplicates(input, differs);
    StatementsOrder(input, differs);
    var i :| 0 <= i < |s| && s[i] == Drop(k, c);
    forall j | 0 <= j < |s| && !s[j].Create? && s[j].key == k && s[j].column == c ensures j == i {
      StatementsMembers(input, differs, s[j]);
    }
  }

  /** Tables only the database has are left alone. */
  lemma DatabaseOnlyTablesUntouched(input: DiffInput, differs: (Column, Column) -> bool, k: string)
    requires input.Valid()
    requires k !in input.desired
    ensures forall st :: st in Statements(input, differs) ==> st.key != k
  {
    forall st | st in Statements(input, differs) ensures st.key != k {
      StatementsMembers(input, differs, st);
    }
  }

  /** When every configured table and column exists and the comparison reports no difference,
      nothing is emitted. */
  lemma ConvergedIsEmpty(input: DiffInput, differs: (Column, Column) -> bool)
    requires input.Valid()
    requires forall k :: k in input.desired ==>
               k in input.actual && input.desired[k].columns.Keys == input.actual[k].columns.Keys
    requires forall k, c :: k in input.desired && c in input.desired[k].columns ==>
                              !differs(input.actual[k].columns[c], input.desired[k].columns[c])
    ensures Statements(input, differs) == []
  {
    var s := Statements(input, differs);
    if |s| > 0 {
      StatementsMembers(input, differs, s[0]);
      assert false;
    }
  }

  /** With the source's identity comparison every shared column differs, so even a database
      already matching the configuration gets one alter per configured column. */
  lemma IdentityComparisonAltersEverything(input: DiffInput, k: string, c: string)
    requires input.Valid()
    requires k in input.desired && k in input.actual
    requires c in input.desired[k].columns && c in input.actual[k].columns
    ensures Alter(k, c, input.desired[k].columns[c]) in Statements(input, (a: Column, b: Column) => true)
  {
    SharedColumnAlteredIffDiffers(input, (a: Column, b: Column) => true, k, c);
  }

  // ---------------------------------------------------------------------------
  // Rendering

  predicate Printable(st: Statement) {
    match st
    case Create(_, t, order) => Enumerates(order, t.columns) && AllRenderable(t)
    case Add(_, _, c) => Renderable(c)
    case Alter(_, _, c) => Renderable(c)
    case Drop(_, _) => true
  }

  /** The provider call each statement stands for. */
  function Render(p: Format, st: Statement): string
    requires Printable(st)
  {
    match st
    case Create(_, t, order) => GenerateTableCreate(p, t, order)
    case Add(k, _, c) => GenerateAddColumn(p, k, [c])
    case Alter(k, _, c) => GenerateAlterColumn(p, k, c)
    case Drop(k, c) => GenerateDropColumn(k, [c])
  }

  predicate AllTablesRenderable(tables: map<string, Table>) {
    forall k :: k in tables ==> AllRenderable(tables[k])
  }

  lemma StatementsPrintable(input: DiffInput, differs: (Column, Column) -> bool)
    requires input.Valid() && AllTablesRenderable(input.desired)
    ensures forall st :: st in Statements(input, differs) ==> Printable(st)
  {
    forall st | st in Statements(input, differs) ensures Printable(st) {
      StatementsMembers(input, differs, st);
    }
  }

  /** The SQL text each statement kind renders to, in the provider's own words. */
  predicate RendersAs(p: Format, st: Statement, text: string) {
    match st
    case Create(_, t, order) =>
      Enumerates(order, t.columns) && AllRenderable(t) && text == GenerateTableCreate(p, t, order)
    case Add(k, _, c) => Renderable(c) && text == "ALTER TABLE " + k + ", ADD COLUMN " + GenerateColumn(p, c)
    case Alter(k, _, c) => Renderable(c) && text == "ALTER TABLE " + k + " MODIFY " + GenerateColumn(p, c)
    case Drop(k, c) => text == "ALTER TABLE " + k + ", DROP COLUMN " + c
  }

  /** Each printable statement renders to its kind's SQL form. */
  lemma RenderForms(p: Format, st: Statement)
    requires Printable(st)
    ensures RendersAs(p, st, Render(p, st))
  {
    match st
    case Create(_, _, _) =>
    case Add(k, _, c) => AddSingleColumn(p, k, c);
    case Alter(k, _, c) => AlterColumnForm(p, k, c);
    case Drop(k, c) => DropSingleColumn(k, c);
  }

  /** `generateQueries`: the rendered statement list. Creates name the table by its
      `TableData` name; the ALTER forms name it by its configuration key. */
  function GenerateQueries(p: Format, input: DiffInput, differs: (Column, Column) -> bool): (r: seq<string>)
    requires input.Valid() && AllTablesRenderable(input.desired)
    ensures |r| == |Statements(input, differs)|
    ensures forall i :: 0 <= i < |r| ==> RendersAs(p, Statements(input, differs)[i], r[i])
  {
    StatementsPrintable(input, differs);
    var s := Statements(input, differs);
    seq(|s|, i requires 0 <= i < |s| => RenderAt(p, s, i))
  }

  /** The rendering of `s[i]`, carrying its form. */
  function RenderAt(p: Format, s: seq<Statement>, i: nat): (text: string)
    requires i < |s| && Printable(s[i])
    ensures RendersAs(p, s[i], text)
  {
    RenderForms(p, s[i]);
    Render(p, s[i])
  }
}
