# TheNewDBUpdater: schema diff and DDL rendering, in Dafny

TheNewDBUpdater keeps a SQL database in step with a YAML schema file. It reads the desired
tables from the file (`TableManager.generateConfigurationTables`). It reads the tables the
database has from its catalog (`FormatProvider.getTableData`, `H2Format.getTableData`). It then
emits DDL that creates the missing tables, adds the missing columns, modifies the columns that
compare different and drops the columns the file no longer lists (`TableManager.generateQueries`).

This project models that core as pure functions over immutable records:

| module | file | models |
|---|---|---|
| `Optional` | `optional.dfy` | Java `null` as `Option` |
| `Strings` | `strings.dfy` | the `String`/`StringBuilder` behaviour the renderers use: ASCII case mapping, `contains`, `replace`, `split(",")`, `String.join`, the append-with-separator loop, `long` to text |
| `Translator` | `translator.dfy` | `BasicTypeTranslator` and the two classification lists of `FormatTypeTranslator` |
| `Schema` | `schema.dfy` | `ColumnData` (defaults and setters), `TableData` (`addColumn`, `primaryKeys`), and key enumerations standing for `HashMap` iteration order |
| `Provider` | `provider.dfy` | the rendering defaults of `FormatProvider` and the H2 overrides |
| `Introspection` | `introspection.dfy` | the per-row mapping and grouping of both `getTableData` implementations, over abstract catalog rows |
| `Configuration` | `configuration.dfy` | the field routing of `generateConfigurationTables`, over an already-parsed schema document |
| `Diff` | `diff.dfy` | `generateQueries`, first as a list of structured statements and then rendered |
| `Updater` | `updater.dfy` | the composition in `generateQueriesAndRun`, without the connection |
| `Scenario` | `scenario.dfy` | a worked `Users` table: what the loader builds and how its columns render |

Java's `HashMap` iteration order is unspecified. Wherever the source iterates a map, the model
takes a sequence that lists the map's keys once each (`Schema.Enumerates`). Properties are stated
for every such sequence. The diff's "changed column" test compares `ColumnData.toString()`, and
`ColumnData` does not override it, so the test compares object identities. The model takes that
test as a parameter `differs`. `Diff.IdentityComparisonAltersEverything` states what the source's
own test does: with fresh objects on both sides, every shared column is modified.

Behaviour modelled as written, where the code departs from what a reader might expect:
- A new `ColumnData` is not nullable. The schema file's `Null` key defaults to true, so a
  configured column is nullable unless the file says otherwise.
- A column's character set and collation are first set from the table and then overwritten by
  the column's own keys, which default to "". The table's settings never reach its columns.
- `generateColumn` writes no DEFAULT clause.
- A numeric column with precision -1 is written with the size "(-1)".
- `generateTableCreate`, `generateAddColumn` and `generateDropColumn` put ", " before the first
  item as well, because the builder already holds the head.
- `PRIMARY KEY(...)` follows the last column fragment with no separator.
- The default dialect stores the reported type untranslated; H2 upper-cases and translates it.
- H2 keys tables by the lower-cased reported name, while configured tables are keyed by prefix
  plus name as written. A configured key with an upper-case letter is therefore never found, and
  its create is emitted on every run.

## Model

| member | source | states |
|---|---|---|
| Translator.Translate | src/net/tnemc/dbupdater/core/translator/impl/BasicTypeTranslator.java:28-30 | a token in the abbreviation table maps to its entry; any other token is returned unchanged |
| Translator.TranslationTable | src/net/tnemc/dbupdater/core/translator/impl/BasicTypeTranslator.java:13-18 | TI, SI, I, INT, BI and BOOLEAN map to TINYINT, SMALLINT, INTEGER, INTEGER, BIGINT and TINYINT, and no other token is mapped |
| Translator.TranslateIdempotent | src/net/tnemc/dbupdater/core/translator/impl/BasicTypeTranslator.java:13-30 | translating twice gives the same token as translating once |
| Translator.IntAndIntegerAgree | src/net/tnemc/dbupdater/core/translator/impl/BasicTypeTranslator.java:15-16 | "INT" and "INTEGER" both end up as "INTEGER" |
| Translator.TranslateCaseSensitive | src/net/tnemc/dbupdater/core/translator/impl/BasicTypeTranslator.java:28-30 | the lookup is case-sensitive: "int", "ti" and "boolean" pass through |
| Translator.Classification | src/net/tnemc/dbupdater/core/translator/FormatTypeTranslator.java:17-28 | the numeric list has 11 distinct tokens and holds "B" but not BOOLEAN or VARCHAR; the scale list is exactly DECIMAL, NUMERIC, and it lies inside the numeric list |
| Translator.TranslatedValuesAreNumeric | src/net/tnemc/dbupdater/core/translator/FormatTypeTranslator.java:17-20 | whatever an abbreviation translates to is numeric and carries no scale |
| Schema.NewColumn | src/net/tnemc/dbupdater/core/data/ColumnData.java:7-28 | a new column has the given name, no type, sizes -1, no default, "" character set and collation, and all four flags false |
| Schema.SettersChangeOneField | src/net/tnemc/dbupdater/core/data/ColumnData.java:34-124 | each setter changes its own field and leaves every other field as it was |
| Schema.NewTable | src/net/tnemc/dbupdater/core/data/TableData.java:9-18 | a new table has the given name, no columns, and "" character set, collation and engine |
| Schema.Table.AddColumn | src/net/tnemc/dbupdater/core/data/TableData.java:29-31 | the column is stored under its own name; every other entry and every setting is unchanged |
| Schema.AddColumnReplaces | src/net/tnemc/dbupdater/core/data/TableData.java:29-31 | adding under an existing name replaces it, so the count does not grow; a new name adds one |
| Schema.PrimaryKeys | src/net/tnemc/dbupdater/core/data/TableData.java:20-27 | `primaryKeys()` over an enumeration of the columns; what it returns is stated by `Schema.PrimaryKeysVisited` and `Schema.PrimaryKeysExact` |
| Schema.PrimaryKeysVisited | src/net/tnemc/dbupdater/core/data/TableData.java:20-27 | over any walk of the columns, the list holds exactly the names of the primary columns visited; it is empty iff none of them is primary |
| Schema.PrimaryKeysExact | src/net/tnemc/dbupdater/core/data/TableData.java:20-27 | over any enumeration, the list holds exactly the names of the primary columns, so unique-only columns never appear; it is empty iff no column is primary; it is no longer than the column map |
| Provider.H2Identity | src/net/tnemc/dbupdater/core/providers/impl/H2Format.java:17-25 | H2 is named "h2" and lacks collation support; every other dialect keeps the default support |
| Provider.AlterTable | src/net/tnemc/dbupdater/core/providers/FormatProvider.java:33-35 | "ALTER TABLE " and the name; the statements built on it are stated by `Provider.GenerateAddColumn`, `Provider.GenerateDropColumn` and `Provider.AlterColumnForm` |
| Provider.CharacterSet | src/net/tnemc/dbupdater/core/providers/FormatProvider.java:37-42 | the clause is empty exactly when the value is empty or the dialect lacks collation support; otherwise it is " CHARACTER SET " and the value |
| Provider.Collation | src/net/tnemc/dbupdater/core/providers/FormatProvider.java:44-49 | the clause is empty exactly when the value is empty or the dialect lacks collation support; otherwise it is " COLLATE " and the value |
| Provider.Engine | src/net/tnemc/dbupdater/core/providers/FormatProvider.java:51-56 | the clause is empty exactly when the engine is empty; otherwise it is " ENGINE = " and the engine |
| Provider.LengthSpec | src/net/tnemc/dbupdater/core/providers/FormatProvider.java:76-85 | "(p, s)" for a scale type with scale above -1; otherwise "(p)" for any numeric type; otherwise "(len)" when the length is above -1; it is empty exactly when the type is not numeric and the length is at most -1 |
| Provider.NumericWithoutPrecision | src/net/tnemc/dbupdater/core/providers/FormatProvider.java:79-85 | a numeric, non-scale type with precision -1 gets the size "(-1)" |
| Provider.GenerateColumn | src/net/tnemc/dbupdater/core/providers/FormatProvider.java:74-96 | every column fragment opens with the back-quoted name, the translated type and the size |
| Provider.TailStartsNotNull | src/net/tnemc/dbupdater/core/providers/FormatProvider.java:87-93 | the clauses after the size open with " NOT NULL" exactly when the column is not nullable: " UNIQUE", " AUTO_INCREMENT" and the collation clauses never do |
| Provider.NotNullIffNotNullable | src/net/tnemc/dbupdater/core/providers/FormatProvider.java:87-93 | in the rendered fragment, " NOT NULL" follows the head exactly when the column is not nullable |
| Provider.UniqueIffUnique | src/net/tnemc/dbupdater/core/providers/FormatProvider.java:88-93 | after the head and the NOT NULL flag, the fragment goes on with " UNIQUE" exactly when the column is unique |
| Provider.IncrementIffIncrement | src/net/tnemc/dbupdater/core/providers/FormatProvider.java:89-93 | after the head, NOT NULL and UNIQUE, the fragment goes on with " AUTO_INCREMENT" exactly when the column is auto-incremented |
| Provider.CollationClausesLast | src/net/tnemc/dbupdater/core/providers/FormatProvider.java:91-93 | after the head and the flags, the fragment ends with the character set clause and then the collation clause |
| Provider.ColumnIgnoresDefaultAndPrimary | src/net/tnemc/dbupdater/core/providers/FormatProvider.java:93 | the default value and the primary flag do not affect the fragment: there is no DEFAULT clause, and keys are declared only at table level |
| Provider.H2ColumnOmitsCollation | src/net/tnemc/dbupdater/core/providers/impl/H2Format.java:22-25 | the H2 fragment is the same whatever the column's character set and collation; the default dialect's fragment is the H2 one followed by the collation clauses |
| Provider.Fragments | src/net/tnemc/dbupdater/core/providers/FormatProvider.java:103-106 | one fragment per enumerated column, in enumeration order |
| Provider.GenerateTableCreate | src/net/tnemc/dbupdater/core/providers/FormatProvider.java:98-114 | the statement is the head, every fragment preceded by ", ", the key clause, then ")" with engine, character set and collation |
| Provider.TableCreateLeadingSeparator | src/net/tnemc/dbupdater/core/providers/FormatProvider.java:101-106 | with at least one column, ", " comes straight after the opening parenthesis, before the first fragment |
| Provider.TableCreateKeyClause | src/net/tnemc/dbupdater/core/providers/FormatProvider.java:108-110 | the PRIMARY KEY clause is present exactly when some column is primary, and then it lists the primary names joined by ", " |
| Provider.TableCreateStartsWithHead | src/net/tnemc/dbupdater/core/providers/FormatProvider.java:101 | every create statement opens with "CREATE TABLE IF NOT EXISTS `name` (" for the table record's name |
| Provider.H2TableSuffix | src/net/tnemc/dbupdater/core/providers/FormatProvider.java:111 | under H2 only the engine follows the closing parenthesis |
| Provider.AddColumnClause | src/net/tnemc/dbupdater/core/providers/FormatProvider.java:66-68 | "ADD COLUMN " and the column fragment; stated per list item by `Provider.AddColumnClauses` |
| Provider.DropColumnClause | src/net/tnemc/dbupdater/core/providers/FormatProvider.java:70-72 | "DROP COLUMN " and the name; stated per list item by `Provider.DropColumnClauses` |
| Provider.AddColumnClauses | src/net/tnemc/dbupdater/core/providers/FormatProvider.java:66-68 | one "ADD COLUMN" clause per column, in list order, each carrying that column's fragment |
| Provider.DropColumnClauses | src/net/tnemc/dbupdater/core/providers/FormatProvider.java:70-72 | one "DROP COLUMN" clause per name, in list order |
| Provider.GenerateAddColumn | src/net/tnemc/dbupdater/core/providers/FormatProvider.java:120-131 | "ALTER TABLE t", then every add clause preceded by ", ", the first included |
| Provider.GenerateDropColumn | src/net/tnemc/dbupdater/core/providers/FormatProvider.java:133-144 | "ALTER TABLE t", then every drop clause preceded by ", ", the first included |
| Provider.AddSingleColumn | src/net/tnemc/dbupdater/core/providers/FormatProvider.java:120-131 | adding one column gives "ALTER TABLE t, ADD COLUMN " and the fragment |
| Provider.GenerateAlterColumn | src/net/tnemc/dbupdater/core/providers/FormatProvider.java:116-118 | `generateAlterColumn`; its text is stated by `Provider.AlterColumnForm` |
| Provider.AlterColumnForm | src/net/tnemc/dbupdater/core/providers/FormatProvider.java:116-118 | modifying a column gives "ALTER TABLE t MODIFY " and the same fragment an add would carry |
| Provider.DropSingleColumn | src/net/tnemc/dbupdater/core/providers/FormatProvider.java:133-144 | dropping one column gives "ALTER TABLE t, DROP COLUMN " and the name |
| Provider.EmptyColumnLists | src/net/tnemc/dbupdater/core/providers/FormatProvider.java:120-144 | with an empty list, either generator yields just "ALTER TABLE t" |
| Provider.LikeClause | src/net/tnemc/dbupdater/core/providers/FormatProvider.java:159-161 | a single LIKE clause is never empty |
| Provider.GenerateLike | src/net/tnemc/dbupdater/core/providers/FormatProvider.java:152-165 | one "col [NOT ]LIKE 'p'" per pattern with no wildcard added, joined by " AND ", then a space; an empty list gives " "; the result always ends in a space |
| Strings.AppendEachNonEmpty | src/net/tnemc/dbupdater/core/providers/FormatProvider.java:123-128 | once the builder holds text, the separator goes before every item, the first included |
| Strings.AppendEachFromEmpty | src/net/tnemc/dbupdater/core/providers/FormatProvider.java:155-162 | from an empty builder with non-empty items, the loop is `String.join` |
| Strings.JoinSplitAll | src/net/tnemc/dbupdater/core/providers/impl/H2Format.java:75 | joining the comma-split pieces with commas gives back the list text, so splitting loses no character |
| Strings.SplitAllJoin | src/net/tnemc/dbupdater/core/providers/impl/H2Format.java:75 | splitting a comma-joined list of comma-free pieces gives back the pieces |
| Strings.JavaSplitMembership | src/net/tnemc/dbupdater/core/providers/impl/H2Format.java:75 | dropping trailing empty pieces does not affect whether a non-empty name is listed |
| Introspection.Group | src/net/tnemc/dbupdater/core/providers/FormatProvider.java:199-203 | the `getOrDefault`, `addColumn`, `put` step over the rows in order; stated by `Introspection.GroupKeys`, `Introspection.GroupColumnNames` and `Introspection.GroupLastWins` |
| Introspection.GroupKeys | src/net/tnemc/dbupdater/core/providers/FormatProvider.java:199-203 | one table per distinct reported key, named by that key, with empty settings |
| Introspection.GroupColumnNames | src/net/tnemc/dbupdater/core/providers/FormatProvider.java:199-203 | a table holds a column for exactly the names some row for that table carried |
| Introspection.GroupLastWins | src/net/tnemc/dbupdater/core/providers/FormatProvider.java:199-203 | the column under a name is the one from the last row for that table and name |
| Introspection.DefaultRowColumn | src/net/tnemc/dbupdater/core/providers/FormatProvider.java:177-196 | a SQL NULL size becomes -1; nullable iff is_nullable equals "yes" in any case; the type is stored untranslated, and a SQL NULL type stays null; unique iff the lower-cased column_key contains "uni", primary iff it contains "pri"; increment iff extra contains "auto_increment", case-sensitively |
| Introspection.DefaultTableData | src/net/tnemc/dbupdater/core/providers/FormatProvider.java:167-213 | `FormatProvider.getTableData` over the rows the query returns; stated by `Introspection.DefaultTableKeys` and `Introspection.DefaultLastRowWins` |
| Introspection.DefaultTableKeys | src/net/tnemc/dbupdater/core/providers/FormatProvider.java:175-203 | the default dialect keys tables by the reported name as is |
| Introspection.DefaultLastRowWins | src/net/tnemc/dbupdater/core/providers/FormatProvider.java:177-203 | each column is the mapping of the last row reported for its table and name |
| Introspection.StrippedDefault | src/net/tnemc/dbupdater/core/providers/impl/H2Format.java:48-51 | a null default stays null; any other loses every single quote |
| Introspection.H2RowColumn | src/net/tnemc/dbupdater/core/providers/impl/H2Format.java:67-83 | for a row read without an exception: primary iff the lower-cased constraint_type contains "primary" and the lower-cased name is one of the untrimmed comma-separated pieces of a non-blank column_list; likewise for unique |
| Introspection.H2RowColumnValues | src/net/tnemc/dbupdater/core/providers/impl/H2Format.java:48-65 | a default naming PUBLIC.SYSTEM_SEQUENCE becomes null and sets the increment flag, which is set in no other case; a kept default holds no quote; the type is the upper-cased reported type, translated; a SQL NULL size becomes -1 |
| Introspection.H2TableData | src/net/tnemc/dbupdater/core/providers/impl/H2Format.java:35-107 | `H2Format.getTableData` over rows it reads without an exception; stated by `Introspection.H2TableKeys` and `Introspection.H2LastRowWins` |
| Introspection.ReadableCount | src/net/tnemc/dbupdater/core/providers/impl/H2Format.java:67-81 | the loop reads every row before the first whose constraint_type is NULL under a non-blank column_list, and stops there |
| Introspection.H2ReadTables | src/net/tnemc/dbupdater/core/providers/impl/H2Format.java:35-107 | the tables hold exactly the lower-cased names of the rows read before the first row that throws, because the `catch (Exception)` swallows the exception and the map built so far is returned |
| Introspection.H2NullConstraintStops | src/net/tnemc/dbupdater/core/providers/impl/H2Format.java:74-81 | a NULL constraint_type under a non-blank column_list ends the read at its row; with no such row every row is read |
| Introspection.H2TableKeys | src/net/tnemc/dbupdater/core/providers/impl/H2Format.java:44 | H2 keys tables by the lower-cased reported name, so every key is lower case and names its table |
| Introspection.H2LastRowWins | src/net/tnemc/dbupdater/core/providers/impl/H2Format.java:95-99 | with one row per joined constraint, the last row for a column decides its flags |
| Introspection.H2BlankListNoKeys | src/net/tnemc/dbupdater/core/providers/impl/H2Format.java:74 | a null or blank column_list leaves primary and unique false, and the row is read even when constraint_type is NULL |
| Introspection.H2UntrimmedList | src/net/tnemc/dbupdater/core/providers/impl/H2Format.java:74-82 | the pieces are not trimmed: "id, name" does not make "name" primary, while "id,name" does |
| Configuration.TableShell | src/net/tnemc/dbupdater/core/TableManager.java:118-123 | a configured table starts with the bare name, no columns, and its engine, character set and collation settings, "" when absent |
| Configuration.ConfigColumn | src/net/tnemc/dbupdater/core/TableManager.java:127-154 | the configured column carries the entry's name and can always be rendered |
| Configuration.ConfigColumnFields | src/net/tnemc/dbupdater/core/TableManager.java:129-153 | the type is the translated Type, "VARCHAR" when absent; Length goes to the precision of a numeric type and to the length of any other, with -1 left in the other field; Scale is always stored; character set and collation come from the column's own keys; Null defaults to true and the other flags to false |
| Configuration.TableSettingsNotInherited | src/net/tnemc/dbupdater/core/TableManager.java:146-149 | the column built does not depend on its table's settings |
| Configuration.ConfigColumnRenderable | src/net/tnemc/dbupdater/core/TableManager.java:146-149 | a configured column always has a type, a character set and a collation |
| Configuration.EmptyColumnNode | src/net/tnemc/dbupdater/core/TableManager.java:129-153 | an entry with no keys gives a nullable VARCHAR with every other field at its initial value |
| Configuration.NumericWithoutLength | src/net/tnemc/dbupdater/core/TableManager.java:137-142 | a numeric, non-scale column without Length keeps precision -1 and so renders as "(-1)" |
| Configuration.NodeOf | src/net/tnemc/dbupdater/core/TableManager.java:132-145 | the entry written for a column has its type and default, and its Length is the field the loader routes Length to |
| Configuration.ConfigColumnRoundTrip | src/net/tnemc/dbupdater/core/TableManager.java:129-153 | loading the entry written for a describable column gives that column back |
| Configuration.AddColumns | src/net/tnemc/dbupdater/core/TableManager.java:127-156 | the column loop, one `addColumn` per key; stated by `Configuration.AddColumnsSpec` and `Configuration.AddColumnsFromEmpty` |
| Configuration.AddColumnsSpec | src/net/tnemc/dbupdater/core/TableManager.java:127-156 | the column loop keeps the settings, adds exactly the visited names, stores the column built for each, and leaves other columns alone |
| Configuration.AddColumnsFromEmpty | src/net/tnemc/dbupdater/core/TableManager.java:125-156 | from an empty table, a walk over every key yields exactly the built columns |
| Configuration.ConfigColumns | src/net/tnemc/dbupdater/core/TableManager.java:125-156 | one column per entry of the Columns section, under its own name |
| Configuration.ConfigTable | src/net/tnemc/dbupdater/core/TableManager.java:116-156 | whatever the key order, the table is the shell holding exactly the configured columns |
| Configuration.ConfigTableOrderIrrelevant | src/net/tnemc/dbupdater/core/TableManager.java:125-156 | two key orders of the Columns section give the same table |
| Configuration.ConfigTableRenderable | src/net/tnemc/dbupdater/core/TableManager.java:127-155 | every column of a configured table can be rendered |
| Configuration.PrefixCancels | src/net/tnemc/dbupdater/core/TableManager.java:157 | prefixed keys are equal exactly when the names are, so no two tables collide |
| Configuration.PutAll | src/net/tnemc/dbupdater/core/TableManager.java:116-158 | the table loop, one `put(prefix + name, ...)` per key; stated by `Configuration.PutAllSpec` |
| Configuration.PutAllSpec | src/net/tnemc/dbupdater/core/TableManager.java:116-158 | every visited name ends up under prefix plus name, nothing else is added, and unvisited keys keep their values |
| Configuration.LoadedTables | src/net/tnemc/dbupdater/core/TableManager.java:116-156 | one loaded table per entry of the Tables section |
| Configuration.ConfigTables | src/net/tnemc/dbupdater/core/TableManager.java:108-160 | each table is stored under prefix plus its name while the record keeps the bare name, and every key has that form |
| Diff.Statements | src/net/tnemc/dbupdater/core/TableManager.java:76-106 | `generateQueries` as a list of statements: the create loop, then the alter loop; stated by `Diff.StatementsMembers`, `Diff.StatementsNoDuplicates` and `Diff.StatementsOrder` |
| Diff.CreatePass | src/net/tnemc/dbupdater/core/TableManager.java:79-84 | the first loop; stated by `Diff.CreatePassMembers` and `Diff.CreatePassNoDuplicates` |
| Diff.CreatePassMembers | src/net/tnemc/dbupdater/core/TableManager.java:79-84 | the first loop emits a create exactly for the visited configured tables the database lacks |
| Diff.CreatePassNoDuplicates | src/net/tnemc/dbupdater/core/TableManager.java:79-84 | the first loop emits no statement twice |
| Diff.ColumnPass | src/net/tnemc/dbupdater/core/TableManager.java:89-98 | the column loop of one table; stated by `Diff.ColumnPassMembers` |
| Diff.ColumnPassMembers | src/net/tnemc/dbupdater/core/TableManager.java:89-98 | a configured column the database table lacks is added; one present on both sides is modified exactly when the comparison reports a difference |
| Diff.DropPass | src/net/tnemc/dbupdater/core/TableManager.java:100-104 | the drop loop of one table; stated by `Diff.DropPassMembers` |
| Diff.DropPassMembers | src/net/tnemc/dbupdater/core/TableManager.java:100-104 | a database column the configuration lacks is dropped |
| Diff.TableBlock | src/net/tnemc/dbupdater/core/TableManager.java:89-104 | one table's column loop followed by its drop loop; stated by `Diff.TableBlockMembers` |
| Diff.TableBlockMembers | src/net/tnemc/dbupdater/core/TableManager.java:89-104 | a table's block holds exactly its adds, alters and drops |
| Diff.AlterPass | src/net/tnemc/dbupdater/core/TableManager.java:86-105 | the second loop; stated by `Diff.AlterPassMembers` and `Diff.AlterPassDropsLast` |
| Diff.AlterPassMembers | src/net/tnemc/dbupdater/core/TableManager.java:86-105 | the second loop skips tables the first loop created and emits each remaining table's block |
| Diff.AlterPassDropsLast | src/net/tnemc/dbupdater/core/TableManager.java:86-105 | in the second loop, every drop for a table follows every add and alter for it |
| Diff.StatementsMembers | src/net/tnemc/dbupdater/core/TableManager.java:76-106 | a statement is in the diff exactly when it is the create of a configured table the database lacks, the add of a configured column its database table lacks, the alter of a shared column the comparison flags, or the drop of a database column the configuration lacks |
| Diff.StatementKeyConfigured | src/net/tnemc/dbupdater/core/TableManager.java:79-105 | every statement concerns a configured table |
| Diff.StatementsNoDuplicates | src/net/tnemc/dbupdater/core/TableManager.java:76-106 | no statement appears twice |
| Diff.StatementsOrder | src/net/tnemc/dbupdater/core/TableManager.java:79-105 | every create precedes every add, alter and drop; within a table, drops come after its adds and alters |
| Diff.NewTableOnlyCreated | src/net/tnemc/dbupdater/core/TableManager.java:79-88 | a configured table the database lacks gets exactly one statement, its create |
| Diff.MissingColumnAdded | src/net/tnemc/dbupdater/core/TableManager.java:90-93 | a configured column the database table lacks gets exactly one statement, its add |
| Diff.SharedColumnAlteredIffDiffers | src/net/tnemc/dbupdater/core/TableManager.java:95-97 | a column on both sides is modified exactly when the comparison reports a difference, and never added or dropped |
| Diff.RemovedColumnDropped | src/net/tnemc/dbupdater/core/TableManager.java:100-104 | a removed column gets exactly one statement, its drop, after every add and alter of that table |
| Diff.DatabaseOnlyTablesUntouched | src/net/tnemc/dbupdater/core/TableManager.java:79-86 | tables only the database has get no statement |
| Diff.ConvergedIsEmpty | src/net/tnemc/dbupdater/core/TableManager.java:76-106 | when every configured table and column exists and nothing compares different, nothing is emitted |
| Diff.IdentityComparisonAltersEverything | src/net/tnemc/dbupdater/core/TableManager.java:95 | with the identity comparison, every shared column is modified on every run |
| Diff.StatementsPrintable | src/net/tnemc/dbupdater/core/TableManager.java:81-102 | when every configured column can be rendered, so can every statement |
| Diff.RenderForms | src/net/tnemc/dbupdater/core/TableManager.java:81-102 | a create renders through `generateTableCreate`; an add, alter or drop renders as "ALTER TABLE key" with ", ADD COLUMN ", " MODIFY " or ", DROP COLUMN " |
| Diff.GenerateQueries | src/net/tnemc/dbupdater/core/TableManager.java:76-106 | one query per statement, in order, each in its kind's form |
| Updater.Input | src/net/tnemc/dbupdater/core/TableManager.java:59-62 | the diff compares the tables loaded from the schema file with the tables the database reports |
| Updater.ConfiguredTablesRenderable | src/net/tnemc/dbupdater/core/TableManager.java:108-160 | every table the schema file yields can be rendered |
| Updater.Plan | src/net/tnemc/dbupdater/core/TableManager.java:59-62 | one query per diff statement, in order, each in its kind's form |
| Updater.AlterFormsUseKey | src/net/tnemc/dbupdater/core/TableManager.java:91-102 | every ALTER names the table by its configuration key |
| Updater.NewTableCreatedUnderBareName | src/net/tnemc/dbupdater/core/TableManager.java:157 | a configured table the database lacks is created under its bare name, while its key carries the prefix |
| Updater.AltersUsePrefixedKey | src/net/tnemc/dbupdater/core/TableManager.java:157 | every statement other than a create names its table by prefix plus name |
| Updater.H2MixedCaseKeyAlwaysCreated | src/net/tnemc/dbupdater/core/providers/impl/H2Format.java:44 | under H2, a configured key with an upper-case letter is never found, so it gets its create and nothing else on every run |
| Updater.H2UpperCasePrefixRecreatesAll | src/net/tnemc/dbupdater/core/TableManager.java:113 | under H2, a prefix with an upper-case letter makes every configured table look new |
| Scenario.LoadedColumns | src/net/tnemc/dbupdater/core/TableManager.java:129-153 | "INT" is stored as INTEGER with precision -1 for want of a Length; both example columns are nullable |
| Scenario.IdFragment | src/net/tnemc/dbupdater/core/providers/FormatProvider.java:74-96 | the auto-increment primary column renders as "`id` INTEGER(-1) AUTO_INCREMENT", with no NOT NULL |
| Scenario.NameFragment | src/net/tnemc/dbupdater/core/providers/FormatProvider.java:74-96 | the VARCHAR column of length 100 renders as "`name` VARCHAR(100)" |
| Scenario.UsersKeys | src/net/tnemc/dbupdater/core/providers/FormatProvider.java:108-110 | the example table's key clause is "PRIMARY KEY(id)" |

## Left out

- JDBC plumbing (connection, statement, result set, `wasNull`, closing) is not modelled. A catalog row is a record of the values the loop reads, with `None` for SQL NULL.
- The row fields table_name, column_name, is_nullable, column_key, extra and H2's type_name are taken as non-null strings. A SQL NULL in is_nullable, column_key, extra, type_name or H2's table_name raises a `NullPointerException` that the `catch (Exception)` around the loop swallows, ending the read at that row; that path is modelled only for H2's constraint_type (`Introspection.H2ReadTables`). The catalog reports table and column names as non-null.
- The text of both `metaQuery` constants is left out: it is opaque to the model.
- `runQueries` is left out. It is I/O, and it prints and swallows exceptions.
- YAML loading (`CommentedConfiguration`) and `Long.valueOf` are left out. The schema file is given as records whose `Option` fields hold the already-parsed values. A `Length` or `Scale` that is not a number, which throws in the source, is not modelled.
- The `queries` and `prefixes` lists of `TableManager` grow across calls. The model computes one run's statement list from an empty list.
- `MySQLFormat` and `dropTable` are left out. The class is not part of this model, and the diff never calls `dropTable`.
- The provider registry lookup is left out. A dialect is passed directly, so an unknown name, which gives a null provider in the source, cannot occur.
- `HashMap` iteration order is not modelled. Every iteration takes an explicit enumeration of the keys, and properties hold for all of them.
- The "changed column" test is a parameter, `differs`, not `Object.toString` identity. Reference identity is not modelled.
- Case mapping covers ASCII only. Java's `toLowerCase` and `toUpperCase` follow Unicode and the default locale.
- Integers are unbounded. The source's sizes are 64-bit `long`s read from the catalog or the file, and no arithmetic is done on them.
- Provider.GenerateColumn: the contract states only the opening of the fragment. The rest is stated clause by clause: NOT NULL by `Provider.NotNullIffNotNullable`, UNIQUE by `Provider.UniqueIffUnique`, AUTO_INCREMENT by `Provider.IncrementIffIncrement`, the character set and collation by `Provider.CollationClausesLast`, and the absence of a DEFAULT clause by `Provider.ColumnIgnoresDefaultAndPrimary`.
- Rendering requires a non-null character set and collation (`Provider.Renderable`), because the source throws a NullPointerException on null. Columns read with the default dialect can carry a null there, but the diff renders only configured columns, and those never do.
- The complete create statement of the worked `Users` table is not stated as one literal. Its parts are: the fragments, the key clause, and the general shape in `Provider.GenerateTableCreate`.
