/** The DDL rendering defaults of `FormatProvider`, and the two overrides `H2Format` makes. */
module Provider {
  import opened Optional
  import opened Strings
  import opened Translator
  import opened Schema

  /** A dialect. `DefaultFormat` stands for a provider that keeps every default method. */
  datatype Format = H2Format | DefaultFormat(formatName: string)

  function Name(p: Format): string {
    match p
    case H2Format => "h2"
    case DefaultFormat(n) => n
  }

  predicate SupportsDefaultCollation(p: Format) {
    !p.H2Format?
  }

  /** H2 identifies itself as "h2" and has no character-set or collation clauses. */
  lemma H2Identity()
    ensures Name(H2Format) == "h2"
    ensures !SupportsDefaultCollation(H2Format)
    ensures forall n :: SupportsDefaultCollation(DefaultFormat(n))
  {
  }

  function AlterTable(table: string): string {
    "ALTER TABLE " + table
  }

  const Modify: string := "MODIFY"

  // ---------------------------------------------------------------------------
  // Optional suffixes (`equalsIgnoreCase("")` holds of the empty string only)

  function CharacterSet(p: Format, characterSet: string): (r: string)
    ensures r == "" <==> characterSet == "" || !SupportsDefaultCollation(p)
    ensures r != "" ==> r == " CHARACTER SET " + characterSet
  {
    if characterSet == "" || !SupportsDefaultCollation(p) then "" else " CHARACTER SET " + characterSet
  }

  function Collation(p: Format, collation: string): (r: string)
    ensures r == "" <==> collation == "" || !SupportsDefaultCollation(p)
    ensures r != "" ==> r == " COLLATE " + collation
  {
    if collation == "" || !SupportsDefaultCollation(p) then "" else " COLLATE " + collation
  }

  function Engine(engine: string): (r: string)
    ensures r == "" <==> engine == ""
    ensures r != "" ==> r == " ENGINE = " + engine
  {
    if engine == "" then "" else " ENGINE = " + engine
  }

  // ---------------------------------------------------------------------------
  // Columns

  /** `numericTypes().contains(type)`; a null type is in neither list. */
  predicate IsNumericType(t: Option<string>) {
    t.Some? && t.value in NumericTypes
  }

  predicate IsScaleType(t: Option<string>) {
    t.Some? && t.value in ScaleTypes
  }

  /** `translator().translate(type)` concatenated into the text: a null type prints as "null". */
  function TypeText(t: Option<string>): string {
    match t
    case Some(s) => Translate(s)
    case None => "null"
  }

  /** The parenthesised size after the type. Classification looks at the stored type, not
      the translated one. */
  function LengthSpec(typeName: Option<string>, length: int, precision: int, scale: int): (r: string)
    ensures IsScaleType(typeName) && scale > -1 ==>
              r == "(" + IntToString(precision) + ", " + IntToString(scale) + ")"
    ensures !(IsScaleType(typeName) && scale > -1) && IsNumericType(typeName) ==>
              r == "(" + IntToString(precision) + ")"
    ensures !IsNumericType(typeName) && length > -1 ==> r == "(" + IntToString(length) + ")"
    ensures r == "" <==> !IsNumericType(typeName) && length <= -1
  {
    var spec :=
      if IsScaleType(typeName) && scale > -1 then IntToString(precision) + ", " + IntToString(scale)
      else if IsNumericType(typeName) then IntToString(precision)
      else if length > -1 then IntToString(length)
      else "";
    if spec != "" then "(" + spec + ")" else spec
  }

  /** A numeric type with no precision still gets parentheses: "(-1)". */
  lemma NumericWithoutPrecision(c: Column)
    requires IsNumericType(c.typeName) && !IsScaleType(c.typeName)
    requires c.precision == -1
    ensures LengthSpec(c.typeName, c.length, c.precision, c.scale) == "(-1)"
  {
    assert IntToString(-1) == "-1";
  }

  /** A column can be rendered only when its character set and collation are not null:
      otherwise `characterSet(null)` throws. */
  predicate Renderable(c: Column) {
    c.characterSet.Some? && c.collate.Some?
  }

  /** The name, type and size that open every column fragment. */
  function ColumnHead(c: Column): string {
    "`" + c.name + "` " + TypeText(c.typeName) + LengthSpec(c.typeName, c.length, c.precision, c.scale)
  }

  function NotNullFlag(c: Column): string {
    if !c.nullable then " NOT NULL" else ""
  }

  function UniqueFlag(c: Column): string {
    if c.unique then " UNIQUE" else ""
  }

  function IncrementFlag(c: Column): string {
    if c.increment then " AUTO_INCREMENT" else ""
  }

  /** " NOT NULL", " UNIQUE" and " AUTO_INCREMENT", in that order, each when its flag calls for it. */
  function Flags(c: Column): string {
    NotNullFlag(c) + UniqueFlag(c) + IncrementFlag(c)
  }

  function ColumnCollation(p: Format, c: Column): string
    requires Renderable(c)
  {
    CharacterSet(p, c.characterSet.value) + Collation(p, c.collate.value)
  }

  /** `generateColumn`. There is no DEFAULT clause. */
  function GenerateColumn(p: Format, c: Column): (r: string)
    requires Renderable(c)
    ensures StartsWith(r, ColumnHead(c))
  {
    var head := ColumnHead(c);
    var r := head + Flags(c) + ColumnCollation(p, c);
    assert r[..|head|] == (head + Flags(c))[..|head|] == head;
    r
  }

  /** Empty, or a clause whose second character is not `ch`. Every clause of a column fragment
      is a space followed by its first word, so the second character tells the clauses apart. */
  predicate OpensOtherThan(s: string, ch: char) {
    s == "" || (|s| >= 2 && s[1] != ch)
  }

  lemma OpensOtherThanConcat(a: string, b: string, ch: char)
    requires OpensOtherThan(a, ch) && OpensOtherThan(b, ch)
    ensures OpensOtherThan(a + b, ch)
  {
    if a == "" {
      assert a + b == b;
    } else {
      assert (a + b)[1] == a[1];
    }
  }

  lemma SecondOfOpening(opening: string, v: string)
    requires |opening| >= 2
    ensures (opening + v)[1] == opening[1]
  {
  }

  lemma OpensOtherThanExcludes(s: string, w: string)
    requires |w| >= 2 && OpensOtherThan(s, w[1])
    ensures !StartsWith(s, w)
  {
    if |s| >= |w| {
      assert s[..|w|][1] == s[1];
    }
  }

  /** A clause that is `word` when `present` and empty otherwise, followed by text that opens
      with some other word, starts with `word` exactly when `present`. */
  lemma FlagOpening(present: bool, word: string, rest: string)
    requires |word| >= 2 && OpensOtherThan(rest, word[1])
    ensures StartsWith((if present then word else "") + rest, word) <==> present
  {
    if present {
      StartsWithConcat(word, rest);
    } else {
      assert "" + rest == rest;
      OpensOtherThanExcludes(rest, word);
    }
  }

  /** The second characters that tell the flag words apart. */
  lemma FlagWords()
    ensures |" NOT NULL"| >= 2 && " NOT NULL"[1] == 'N'
    ensures |" UNIQUE"| >= 2 && " UNIQUE"[1] == 'U'
    ensures |" AUTO_INCREMENT"| >= 2 && " AUTO_INCREMENT"[1] == 'A'
  {
  }

  /** The same, for the clause that follows a prefix `pre`. */
  lemma FlagAfter(pre: string, present: bool, word: string, rest: string)
    requires |word| >= 2 && OpensOtherThan(rest, word[1])
    ensures StartsWith((pre + ((if present then word else "") + rest))[|pre|..], word) <==> present
  {
    DropPrefix(pre, (if present then word else "") + rest);
    FlagOpening(present, word, rest);
  }

  /** The character set and collation clauses are empty or open with " C". */
  lemma CollationOpening(p: Format, c: Column)
    requires Renderable(c)
    ensures ColumnCollation(p, c) == "" || (|ColumnCollation(p, c)| >= 2 && ColumnCollation(p, c)[1] == 'C')
  {
    var cs := CharacterSet(p, c.characterSet.value);
    var co := Collation(p, c.collate.value);
    if cs != "" {
      SecondOfOpening(" CHARACTER SET ", c.characterSet.value);
      assert (cs + co)[1] == cs[1];
    } else if co != "" {
      SecondOfOpening(" COLLATE ", c.collate.value);
      assert cs + co == co;
    } else {
      assert cs + co == "";
    }
  }

  /** Every clause after a flag opens with a word other than that flag's. */
  lemma ClausesOpenOtherwise(p: Format, c: Column)
    requires Renderable(c)
    ensures OpensOtherThan(UniqueFlag(c) + IncrementFlag(c) + ColumnCollation(p, c), 'N')
    ensures OpensOtherThan(IncrementFlag(c) + ColumnCollation(p, c), 'U')
    ensures OpensOtherThan(ColumnCollation(p, c), 'A')
  {
    FlagWords();
    var u := UniqueFlag(c);
    var a := IncrementFlag(c);
    var col := ColumnCollation(p, c);
    CollationOpening(p, c);
    OpensOtherThanConcat(u, a, 'N');
    OpensOtherThanConcat(u + a, col, 'N');
    OpensOtherThanConcat(a, col, 'U');
  }

  /** The flags and collation clauses start with " NOT NULL" exactly when the column is not nullable. */
  lemma TailStartsNotNull(p: Format, c: Column)
    requires Renderable(c)
    ensures StartsWith(Flags(c) + ColumnCollation(p, c), " NOT NULL") <==> !c.nullable
  {
    var u := UniqueFlag(c);
    var a := IncrementFlag(c);
    var col := ColumnCollation(p, c);
    ConcatAssoc(NotNullFlag(c), u, a);
    ConcatAssoc(NotNullFlag(c), u + a, col);
    ClausesOpenOtherwise(p, c);
    FlagOpening(!c.nullable, " NOT NULL", u + a + col);
  }

  /** What follows the head starts with " NOT NULL" exactly when the column is not nullable. */
  lemma NotNullIffNotNullable(p: Format, c: Column)
    requires Renderable(c)
    ensures StartsWith(GenerateColumn(p, c)[|ColumnHead(c)|..], " NOT NULL") <==> !c.nullable
  {
    var head := ColumnHead(c);
    var rest := Flags(c) + ColumnCollation(p, c);
    ConcatAssoc(head, Flags(c), ColumnCollation(p, c));
    DropPrefix(head, rest);
    TailStartsNotNull(p, c);
  }

  /** After the head and the NOT NULL flag, the fragment goes on with " UNIQUE" exactly when
      the column is unique. */
  lemma UniqueIffUnique(p: Format, c: Column)
    requires Renderable(c)
    ensures StartsWith(GenerateColumn(p, c)[|ColumnHead(c)| + |NotNullFlag(c)|..], " UNIQUE") <==> c.unique
  {
    var head := ColumnHead(c);
    var n := NotNullFlag(c);
    var u := UniqueFlag(c);
    var a := IncrementFlag(c);
    var col := ColumnCollation(p, c);
    Regroup(head, n, u, a, col);
    assert GenerateColumn(p, c) == (head + n) + (u + (a + col));
    ClausesOpenOtherwise(p, c);
    FlagWords();
    FlagAfter(head + n, c.unique, " UNIQUE", a + col);
  }

  /** After the head, the NOT NULL flag and the UNIQUE flag, the fragment goes on with
      " AUTO_INCREMENT" exactly when the column is auto-incremented. */
  lemma IncrementIffIncrement(p: Format, c: Column)
    requires Renderable(c)
    ensures StartsWith(GenerateColumn(p, c)[|ColumnHead(c)| + |NotNullFlag(c)| + |UniqueFlag(c)|..], " AUTO_INCREMENT")
        <==> c.increment
  {
    var head := ColumnHead(c);
    var n := NotNullFlag(c);
    var u := UniqueFlag(c);
    var a := IncrementFlag(c);
    var col := ColumnCollation(p, c);
    Regroup(head, n, u, a, col);
    assert GenerateColumn(p, c) == (head + n + u) + (a + col);
    ClausesOpenOtherwise(p, c);
    FlagWords();
    FlagAfter(head + n + u, c.increment, " AUTO_INCREMENT", col);
  }

  /** After the head and the three flags, the fragment ends with the character set clause and
      then the collation clause. */
  lemma CollationClausesLast(p: Format, c: Column)
    requires Renderable(c)
    ensures GenerateColumn(p, c)[|ColumnHead(c)| + |Flags(c)|..]
         == CharacterSet(p, c.characterSet.value) + Collation(p, c.collate.value)
  {
    DropPrefix(ColumnHead(c) + Flags(c), ColumnCollation(p, c));
  }

  /** Neither the default value nor the primary flag reaches the column text. */
  lemma ColumnIgnoresDefaultAndPrimary(p: Format, c: Column, d: Option<string>, primary: bool)
    requires Renderable(c)
    ensures GenerateColumn(p, c.(defaultValue := d, primary := primary)) == GenerateColumn(p, c)
  {
  }

  /** The H2 rendering does not depend on the column's character set or collation, and the
      default rendering is the H2 one followed by those two clauses. */
  lemma H2ColumnOmitsCollation(c: Column, cs: string, co: string, n: string)
    requires Renderable(c)
    ensures GenerateColumn(H2Format, c.(characterSet := Some(cs), collate := Some(co)))
         == GenerateColumn(H2Format, c)
    ensures GenerateColumn(DefaultFormat(n), c) == GenerateColumn(H2Format, c) + ColumnCollation(DefaultFormat(n), c)
  {
    var c' := c.(characterSet := Some(cs), collate := Some(co));
    assert ColumnHead(c') == ColumnHead(c);
    assert Flags(c') == Flags(c);
    assert ColumnCollation(H2Format, c') == "";
    assert ColumnCollation(H2Format, c) == "";
    var hf := ColumnHead(c) + Flags(c);
    assert hf + "" == hf;
  }

  function AddColumnClause(p: Format, c: Column): string
    requires Renderable(c)
  {
    "ADD COLUMN " + GenerateColumn(p, c)
  }

  function DropColumnClause(column: string): string {
    "DROP COLUMN " + column
  }

  // ---------------------------------------------------------------------------
  // Statements

  predicate AllRenderable(t: Table) {
    forall k :: k in t.columns ==> Renderable(t.columns[k])
  }

  function CreateHead(t: Table): string {
    "CREATE TABLE IF NOT EXISTS `" + t.name + "` ("
  }

  /** The column fragments of a table, in the given iteration order. */
  function Fragments(p: Format, t: Table, order: seq<string>): (r: seq<string>)
    requires forall i :: 0 <= i < |order| ==> order[i] in t.columns
    requires AllRenderable(t)
    ensures |r| == |order|
    ensures forall i :: 0 <= i < |order| ==> r[i] == GenerateColumn(p, t.columns[order[i]])
  {
    seq(|order|, i requires 0 <= i < |order| => GenerateColumn(p, t.columns[order[i]]))
  }

  /** "PRIMARY KEY(k1, k2, ...)", present only when some column is primary. */
  function KeyClause(t: Table, order: seq<string>): string
    requires forall i :: 0 <= i < |order| ==> order[i] in t.columns
  {
    var keys := PrimaryKeys(t, order);
    if |keys| > 0 then "PRIMARY KEY(" + Join(keys, ", ") + ")" else ""
  }

  function TableSuffix(p: Format, t: Table): string {
    ")" + Engine(t.engine) + CharacterSet(p, t.characterSet) + Collation(p, t.collate)
  }

  /** `generateTableCreate`. The builder already holds the head when the loop starts, so every
      fragment, the first included, is preceded by ", "; the key clause follows the last
      fragment directly. */
  function GenerateTableCreate(p: Format, t: Table, order: seq<string>): (r: string)
    requires Enumerates(order, t.columns)
    requires AllRenderable(t)
    ensures r == CreateHead(t) + PrefixEach(", ", Fragments(p, t, order)) + KeyClause(t, order) + TableSuffix(p, t)
  {
    var body := AppendEach(CreateHead(t), Fragments(p, t, order), ", ");
    AppendEachNonEmpty(CreateHead(t), Fragments(p, t, order), ", ");
    body + KeyClause(t, order) + TableSuffix(p, t)
  }

  /** A table with columns renders with ", " right after the opening parenthesis, before
      the first column's fragment. */
  lemma TableCreateLeadingSeparator(p: Format, t: Table, order: seq<string>)
    requires Enumerates(order, t.columns)
    requires AllRenderable(t)
    requires |order| > 0
    ensures StartsWith(GenerateTableCreate(p, t, order), CreateHead(t) + ", " + GenerateColumn(p, t.columns[order[0]]))
  {
    var frags := Fragments(p, t, order);
    assert PrefixEach(", ", frags) == ", " + frags[0] + PrefixEach(", ", frags[1..]);
    StartsWithOuter(CreateHead(t), ", ", frags[0], PrefixEach(", ", frags[1..]), KeyClause(t, order), TableSuffix(p, t));
  }

  /** The key clause appears exactly when some column is primary, and names only primary columns. */
  lemma TableCreateKeyClause(t: Table, order: seq<string>)
    requires Enumerates(order, t.columns)
    ensures KeyClause(t, order) != "" <==> exists k :: k in t.columns && t.columns[k].primary
    ensures KeyClause(t, order) != "" ==>
              KeyClause(t, order) == "PRIMARY KEY(" + Join(PrimaryKeys(t, order), ", ") + ")"
  {
    PrimaryKeysExact(t, order);
  }

  /** Every create statement opens with the quoted table name from the table record. */
  lemma TableCreateStartsWithHead(p: Format, t: Table, order: seq<string>)
    requires Enumerates(order, t.columns)
    requires AllRenderable(t)
    ensures StartsWith(GenerateTableCreate(p, t, order), CreateHead(t))
  {
    StartsWithLeft4(CreateHead(t), PrefixEach(", ", Fragments(p, t, order)), KeyClause(t, order), TableSuffix(p, t));
  }

  /** Under H2 only the engine follows the closing parenthesis: no table-level character set
      or collation. */
  lemma H2TableSuffix(t: Table)
    ensures TableSuffix(H2Format, t) == ")" + Engine(t.engine)
  {
  }

  /** `generateAlterColumn`: the dialect's modify verb and the full column fragment. */
  function GenerateAlterColumn(p: Format, table: string, c: Column): string
    requires Renderable(c)
  {
    AlterTable(table) + " " + Modify + " " + GenerateColumn(p, c)
  }

  function AddColumnClauses(p: Format, columns: seq<Column>): (r: seq<string>)
    requires forall i :: 0 <= i < |columns| ==> Renderable(columns[i])
    ensures |r| == |columns|
    ensures forall i :: 0 <= i < |columns| ==> r[i] == AddColumnClause(p, columns[i])
  {
    seq(|columns|, i requires 0 <= i < |columns| => AddColumnClause(p, columns[i]))
  }

  function DropColumnClauses(columns: seq<string>): (r: seq<string>)
    ensures |r| == |columns|
    ensures forall i :: 0 <= i < |columns| ==> r[i] == DropColumnClause(columns[i])
  {
    seq(|columns|, i requires 0 <= i < |columns| => DropColumnClause(columns[i]))
  }

  /** `generateAddColumn`: one ", ADD COLUMN ..." per column, in list order. */
  function GenerateAddColumn(p: Format, table: string, columns: seq<Column>): (r: string)
    requires forall i :: 0 <= i < |columns| ==> Renderable(columns[i])
    ensures r == "ALTER TABLE " + table + PrefixEach(", ", AddColumnClauses(p, columns))
  {
    AppendEachNonEmpty(AlterTable(table), AddColumnClauses(p, columns), ", ");
    AppendEach(AlterTable(table), AddColumnClauses(p, columns), ", ")
  }

  /** `generateDropColumn`: one ", DROP COLUMN c" per name, in list order. */
  function GenerateDropColumn(table: string, columns: seq<string>): (r: string)
    ensures r == "ALTER TABLE " + table + PrefixEach(", ", DropColumnClauses(columns))
  {
    AppendEachNonEmpty(AlterTable(table), DropColumnClauses(columns), ", ");
    AppendEach(AlterTable(table), DropColumnClauses(columns), ", ")
  }

  lemma ClauseWords()
    ensures ", " + "ADD COLUMN " == ", ADD COLUMN "
    ensures ", " + "DROP COLUMN " == ", DROP COLUMN "
  {
  }

  /** Adding one column: the table, ", ADD COLUMN " and the column fragment. */
  lemma AddSingleColumn(p: Format, table: string, c: Column)
    requires Renderable(c)
    ensures GenerateAddColumn(p, table, [c]) == "ALTER TABLE " + table + ", ADD COLUMN " + GenerateColumn(p, c)
  {
    var g := GenerateColumn(p, c);
    assert AddColumnClauses(p, [c]) == ["ADD COLUMN " + g];
    PrefixEachSingle("ALTER TABLE " + table, ", ", "ADD COLUMN ", g);
    ClauseWords();
  }

  /** Modifying a column carries the same fragment as adding it, after " MODIFY ". */
  lemma AlterColumnForm(p: Format, table: string, c: Column)
    requires Renderable(c)
    ensures GenerateAlterColumn(p, table, c) == "ALTER TABLE " + table + " MODIFY " + GenerateColumn(p, c)
  {
    var at := AlterTable(table);
    assert at + " " + Modify + " " == at + " MODIFY ";
  }

  /** Dropping one column: the table, ", DROP COLUMN " and the name. */
  lemma DropSingleColumn(table: string, column: string)
    ensures GenerateDropColumn(table, [column]) == "ALTER TABLE " + table + ", DROP COLUMN " + column
  {
    assert DropColumnClauses([column]) == ["DROP COLUMN " + column];
    PrefixEachSingle("ALTER TABLE " + table, ", ", "DROP COLUMN ", column);
    ClauseWords();
  }

  /** With nothing to add or drop, only the ALTER TABLE head remains. */
  lemma EmptyColumnLists(p: Format, table: string)
    ensures GenerateAddColumn(p, table, []) == "ALTER TABLE " + table
    ensures GenerateDropColumn(table, []) == "ALTER TABLE " + table
  {
  }

  // ---------------------------------------------------------------------------
  // LIKE filter

  function LikeClause(column: string, pattern: string, not: bool): (r: string)
    ensures |r| > 0
  {
    column + " " + (if not then "NOT " else "") + "LIKE '" + pattern + "'"
  }

  /** `generateLike`: the clauses joined with " AND ", no wildcard added, then a space. */
  function GenerateLike(column: string, like: seq<string>, not: bool): (r: string)
    ensures r == Join(seq(|like|, i requires 0 <= i < |like| => LikeClause(column, like[i], not)), " AND ") + " "
    ensures |like| == 0 ==> r == " "
    ensures |r| > 0 && r[|r| - 1] == ' '
  {
    var clauses := seq(|like|, i requires 0 <= i < |like| => LikeClause(column, like[i], not));
    AppendEachFromEmpty(clauses, " AND ");
    AppendEach("", clauses, " AND ") + " "
  }
}
