/** A worked example: a `Users` table with an auto-increment primary `id` of type "INT" and a
    `name` VARCHAR of length 100, as the schema file loads it and the renderer writes it. */
module Scenario {
  import opened Optional
  import opened Strings
  import opened Schema
  import opened Provider
  import opened Configuration

  const IdNode: ColumnNode :=
    ColumnNode(Some("INT"), Some(true), None, None, None, None, None, None, None, Some(true))

  const NameNode: ColumnNode :=
    ColumnNode(Some("VARCHAR"), None, None, Some(100), None, None, None, None, None, None)

  const IdColumn: Column :=
    Column("id", Some("INTEGER"), true, false, -1, -1, -1, None, Some(""), Some(""), true, true)

  const NameColumn: Column :=
    Column("name", Some("VARCHAR"), false, false, 100, -1, -1, None, Some(""), Some(""), true, false)

  /** The loader translates "INT", leaves the precision at -1 for want of a `Length` key, and
      makes both columns nullable, since `Null` defaults to true. */
  lemma LoadedColumns(t: Table)
    ensures ConfigColumn(t, "id", IdNode) == IdColumn
    ensures ConfigColumn(t, "name", NameNode) == NameColumn
  {
    ConfigColumnFields(t, "id", IdNode);
    ConfigColumnFields(t, "name", NameNode);
  }

  /** A fragment from its three parts. */
  lemma FragmentParts(p: Format, c: Column, head: string, flags: string, tail: string)
    requires Renderable(c)
    requires ColumnHead(c) == head && Flags(c) == flags && ColumnCollation(p, c) == tail
    ensures GenerateColumn(p, c) == head + flags + tail
  {
  }

  /** A column head from its type text and size. */
  lemma HeadParts(c: Column, ty: string, size: string)
    requires TypeText(c.typeName) == ty
    requires LengthSpec(c.typeName, c.length, c.precision, c.scale) == size
    ensures ColumnHead(c) == "`" + c.name + "` " + ty + size
  {
  }

  lemma IdText()
    ensures "`" + "id" + "` " + "INTEGER" + "(-1)" == "`id` INTEGER(-1)"
  {
  }

  lemma IdHead()
    ensures ColumnHead(IdColumn) == "`id` INTEGER(-1)"
  {
    NumericWithoutPrecision(IdColumn);
    HeadParts(IdColumn, "INTEGER", "(-1)");
    IdText();
  }

  lemma IdFlags()
    ensures Flags(IdColumn) == " AUTO_INCREMENT"
  {
  }

  /** Empty character set and collation add nothing, whatever the dialect. */
  lemma NoCollation(p: Format, c: Column)
    requires c.characterSet == Some("") && c.collate == Some("")
    ensures ColumnCollation(p, c) == ""
  {
  }

  /** The primary key column renders with "(-1)" and without NOT NULL. */
  lemma IdFragment(p: Format)
    ensures GenerateColumn(p, IdColumn) == "`id` INTEGER(-1)" + " AUTO_INCREMENT"
  {
    IdHead();
    IdFlags();
    NoCollation(p, IdColumn);
    FragmentParts(p, IdColumn, "`id` INTEGER(-1)", " AUTO_INCREMENT", "");
    assert "`id` INTEGER(-1)" + " AUTO_INCREMENT" + "" == "`id` INTEGER(-1)" + " AUTO_INCREMENT";
  }

  lemma Hundred()
    ensures IntToString(100) == "100"
  {
    assert NatToString(1) == "1";
    assert NatToString(10) == "10";
  }

  lemma NameSize()
    ensures LengthSpec(NameColumn.typeName, NameColumn.length, NameColumn.precision, NameColumn.scale) == "(100)"
  {
    Hundred();
  }

  lemma NameText()
    ensures "`" + "name" + "` " + "VARCHAR" + "(100)" == "`name` VARCHAR(100)"
  {
  }

  lemma NameHead()
    ensures ColumnHead(NameColumn) == "`name` VARCHAR(100)"
  {
    NameSize();
    HeadParts(NameColumn, "VARCHAR", "(100)");
    NameText();
  }

  lemma NameFragment(p: Format)
    ensures GenerateColumn(p, NameColumn) == "`name` VARCHAR(100)"
  {
    NameHead();
    NoCollation(p, NameColumn);
    FragmentParts(p, NameColumn, "`name` VARCHAR(100)", "", "");
  }

  const Users: Table :=
    Table("Users", map["id" := IdColumn, "name" := NameColumn], "", "", "")

  lemma UsersKeys()
    ensures KeyClause(Users, ["id", "name"]) == "PRIMARY KEY(id)"
  {
    assert PrimaryKeys(Users, ["name"]) == [];
    assert PrimaryKeys(Users, ["id", "name"]) == ["id"];
  }
}
