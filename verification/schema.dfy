/** `ColumnData` and `TableData`: the schema records both sides of the diff are built from. */
module Schema {
  import opened Optional

  /** One column. `type`, `defaultValue`, `characterSet` and `collate` are Java references
      that may be null. */
  datatype Column = Column(
    name: string,
    typeName: Option<string>,
    primary: bool,
    unique: bool,
    length: int,
    precision: int,
    scale: int,
    defaultValue: Option<string>,
    characterSet: Option<string>,
    collate: Option<string>,
    nullable: bool,
    increment: bool)
  {
    function SetName(n: string): (r: Column)
      ensures r.name == n
    {
      this.(name := n)
    }

    function SetType(t: Option<string>): (r: Column)
      ensures r.typeName == t
    {
      this.(typeName := t)
    }

    function SetPrimary(b: bool): (r: Column)
      ensures r.primary == b
    {
      this.(primary := b)
    }

    function SetUnique(b: bool): (r: Column)
      ensures r.unique == b
    {
      this.(unique := b)
    }

    function SetLength(n: int): (r: Column)
      ensures r.length == n
    {
      this.(length := n)
    }

    function SetPrecision(n: int): (r: Column)
      ensures r.precision == n
    {
      this.(precision := n)
    }

    function SetScale(n: int): (r: Column)
      ensures r.scale == n
    {
      this.(scale := n)
    }

    function SetDefaultValue(v: Option<string>): (r: Column)
      ensures r.defaultValue == v
    {
      this.(defaultValue := v)
    }

    function SetCharacterSet(v: Option<string>): (r: Column)
      ensures r.characterSet == v
    {
      this.(characterSet := v)
    }

    function SetCollate(v: Option<string>): (r: Column)
      ensures r.collate == v
    {
      this.(collate := v)
    }

    function SetNullable(b: bool): (r: Column)
      ensures r.nullable == b
    {
      this.(nullable := b)
    }

    function SetIncrement(b: bool): (r: Column)
      ensures r.increment == b
    {
      this.(increment := b)
    }
  }

  /** Each setter changes its own field and leaves every other field as it was. */
  lemma SettersChangeOneField(c: Column, s: string, t: Option<string>, b: bool, n: int)
    ensures c.SetName(s).(name := c.name) == c
    ensures c.SetType(t).(typeName := c.typeName) == c
    ensures c.SetPrimary(b).(primary := c.primary) == c
    ensures c.SetUnique(b).(unique := c.unique) == c
    ensures c.SetLength(n).(length := c.length) == c
    ensures c.SetPrecision(n).(precision := c.precision) == c
    ensures c.SetScale(n).(scale := c.scale) == c
    ensures c.SetDefaultValue(t).(defaultValue := c.defaultValue) == c
    ensures c.SetCharacterSet(t).(characterSet := c.characterSet) == c
    ensures c.SetCollate(t).(collate := c.collate) == c
    ensures c.SetNullable(b).(nullable := c.nullable) == c
    ensures c.SetIncrement(b).(increment := c.increment) == c
  {
  }

  /** `new ColumnData(name)`: every field but the name at its declared initial value. */
  function NewColumn(name: string): (c: Column)
    ensures c.name == name && c.typeName == None
    ensures c.length == -1 && c.precision == -1 && c.scale == -1
    ensures c.defaultValue == None && c.characterSet == Some("") && c.collate == Some("")
    ensures !c.primary && !c.unique && !c.nullable && !c.increment
  {
    Column(name, None, false, false, -1, -1, -1, None, Some(""), Some(""), false, false)
  }

  /** One table. `columns` is a hash map keyed by column name. */
  datatype Table = Table(
    name: string,
    columns: map<string, Column>,
    characterSet: string,
    collate: string,
    engine: string)
  {
    /** `addColumn`: insert or replace the entry under the column's own name. */
    function AddColumn(c: Column): (r: Table)
      ensures c.name in r.columns && r.columns[c.name] == c
      ensures r.columns.Keys == columns.Keys + {c.name}
      ensures forall k :: k in columns && k != c.name ==> r.columns[k] == columns[k]
      ensures r.name == name && r.characterSet == characterSet && r.collate == collate && r.engine == engine
    {
      this.(columns := columns[c.name := c])
    }
  }

  /** `new TableData(name)`. */
  function NewTable(name: string): (t: Table)
    ensures t.name == name && t.columns == map[]
    ensures t.characterSet == "" && t.collate == "" && t.engine == ""
  {
    Table(name, map[], "", "", "")
  }

  /** `order` lists the keys of a hash map once each: one possible iteration order. */
  predicate Enumerates<V>(order: seq<string>, m: map<string, V>) {
    && (forall i :: 0 <= i < |order| ==> order[i] in m)
    && (forall k :: k in m ==> k in order)
    && (forall i, j :: 0 <= i < j < |order| ==> order[i] != order[j])
  }

  /** An enumeration has exactly as many entries as the map. */
  lemma {:induction false} EnumerationLength<V>(order: seq<string>, m: map<string, V>)
    requires Enumerates(order, m)
    ensures |order| == |m|
    decreases |order|
  {
    if |order| == 0 {
      assert m.Keys == {};
    } else {
      var k := order[|order| - 1];
      var rest := order[..|order| - 1];
      var m' := map x | x in m && x != k :: m[x];
      assert m'.Keys == m.Keys - {k};
      forall x | x in m' ensures x in rest {
        assert x in order;
        var i :| 0 <= i < |order| && order[i] == x;
        assert i != |order| - 1;
      }
      EnumerationLength(rest, m');
    }
  }

  /** `primaryKeys()`: names of the primary columns, in the map's iteration order. */
  function PrimaryKeys(t: Table, order: seq<string>): seq<string>
    requires forall i :: 0 <= i < |order| ==> order[i] in t.columns
    decreases |order|
  {
    if |order| == 0 then []
    else
      var c := t.columns[order[0]];
      (if c.primary then [c.name] else []) + PrimaryKeys(t, order[1..])
  }

  /** The names `PrimaryKeys` collects from the columns `order` visits: exactly the primary ones. */
  lemma {:induction false} PrimaryKeysVisited(t: Table, order: seq<string>)
    requires forall i :: 0 <= i < |order| ==> order[i] in t.columns
    ensures forall n :: n in PrimaryKeys(t, order) <==>
              exists i :: 0 <= i < |order| && t.columns[order[i]].primary && t.columns[order[i]].name == n
    ensures |PrimaryKeys(t, order)| <= |order|
    ensures |PrimaryKeys(t, order)| == 0 <==> forall i :: 0 <= i < |order| ==> !t.columns[order[i]].primary
    decreases |order|
  {
    if |order| > 0 {
      PrimaryKeysVisited(t, order[1..]);
      forall n ensures n in PrimaryKeys(t, order) <==>
        exists i :: 0 <= i < |order| && t.columns[order[i]].primary && t.columns[order[i]].name == n
      {
        if n in PrimaryKeys(t, order[1..]) {
          var i :| 0 <= i < |order| - 1 && t.columns[order[1..][i]].primary && t.columns[order[1..][i]].name == n;
          assert order[1..][i] == order[i + 1];
        }
        if exists i :: 0 <= i < |order| && t.columns[order[i]].primary && t.columns[order[i]].name == n {
          var i :| 0 <= i < |order| && t.columns[order[i]].primary && t.columns[order[i]].name == n;
          if i > 0 {
            assert order[1..][i - 1] == order[i];
          }
        }
      }
      forall i | 1 <= i < |order| ensures order[1..][i - 1] == order[i] { }
    }
  }

  /** Over a full enumeration, the primary-key list holds exactly the names of the primary
      columns: unique-only columns never appear, it is empty iff no column is primary, and it
      is no longer than the column map. */
  lemma PrimaryKeysExact(t: Table, order: seq<string>)
    requires Enumerates(order, t.columns)
    ensures forall n :: n in PrimaryKeys(t, order) <==>
              exists k :: k in t.columns && t.columns[k].primary && t.columns[k].name == n
    ensures |PrimaryKeys(t, order)| == 0 <==> forall k :: k in t.columns ==> !t.columns[k].primary
    ensures |PrimaryKeys(t, order)| <= |t.columns|
  {
    PrimaryKeysVisited(t, order);
    EnumerationLength(order, t.columns);
    forall n | exists k :: k in t.columns && t.columns[k].primary && t.columns[k].name == n
      ensures n in PrimaryKeys(t, order)
    {
      var k :| k in t.columns && t.columns[k].primary && t.columns[k].name == n;
      assert k in order;
      var i :| 0 <= i < |order| && order[i] == k;
    }
    if |PrimaryKeys(t, order)| == 0 {
      forall k | k in t.columns ensures !t.columns[k].primary {
        assert k in order;
        var i :| 0 <= i < |order| && order[i] == k;
      }
    }
  }

  /** Adding a column under a name already present replaces it: the count does not grow. */
  lemma AddColumnReplaces(t: Table, c: Column)
    ensures c.name in t.columns ==> |t.AddColumn(c).columns| == |t.columns|
    ensures c.name !in t.columns ==> |t.AddColumn(c).columns| == |t.columns| + 1
  {
  }
}
