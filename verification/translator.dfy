/** `BasicTypeTranslator` and the classification lists of `FormatTypeTranslator`. */
module Translator {

  /** The abbreviation table installed by the translator's constructor. */
  const Translations: map<string, string> :=
    map[
      "TI" := "TINYINT",
      "SI" := "SMALLINT",
      "I" := "INTEGER",
      "INT" := "INTEGER",
      "BI" := "BIGINT",
      "BOOLEAN" := "TINYINT"
    ]

  /** `translations.getOrDefault(type, type)`: an exact, case-sensitive lookup. */
  function Translate(t: string): (r: string)
    ensures t in Translations ==> r == Translations[t]
    ensures t !in Translations ==> r == t
  {
    if t in Translations then Translations[t] else t
  }

  /** Types whose size is a precision rather than a length, "B" and all. */
  const NumericTypes: seq<string> :=
    ["TINYINT", "SMALLINT", "INT", "INTEGER", "BIGINT", "DECIMAL", "NUMERIC", "FLOAT", "REAL", "DOUBLE", "B"]

  /** Types that also carry a scale. */
  const ScaleTypes: seq<string> := ["DECIMAL", "NUMERIC"]

  /** The abbreviation table, key by key. */
  lemma TranslationTable()
    ensures Translate("TI") == "TINYINT"
    ensures Translate("SI") == "SMALLINT"
    ensures Translate("I") == "INTEGER"
    ensures Translate("INT") == "INTEGER"
    ensures Translate("BI") == "BIGINT"
    ensures Translate("BOOLEAN") == "TINYINT"
    ensures Translations.Keys == {"TI", "SI", "I", "INT", "BI", "BOOLEAN"}
  {
  }

  /** No translated value is itself a key, so translating twice changes nothing. */
  lemma TranslateIdempotent(t: string)
    ensures Translate(Translate(t)) == Translate(t)
  {
    assert forall v :: v in Translations.Values ==> v !in Translations;
  }

  /** "INT" and "INTEGER" meet at the same canonical token. */
  lemma IntAndIntegerAgree()
    ensures Translate("INT") == Translate("INTEGER") == "INTEGER"
  {
  }

  /** Lookup is case-sensitive: lower-case abbreviations pass through. */
  lemma TranslateCaseSensitive()
    ensures Translate("int") == "int"
    ensures Translate("ti") == "ti"
    ensures Translate("boolean") == "boolean"
  {
  }

  /** The classification lists, exactly as written. */
  lemma Classification()
    ensures |NumericTypes| == 11
    ensures forall i, j :: 0 <= i < j < |NumericTypes| ==> NumericTypes[i] != NumericTypes[j]
    ensures "B" in NumericTypes && "BOOLEAN" !in NumericTypes
    ensures "VARCHAR" !in NumericTypes
    ensures ScaleTypes == ["DECIMAL", "NUMERIC"]
    ensures forall t :: t in ScaleTypes ==> t in NumericTypes
  {
  }

  /** Whatever a mapped key translates to is numeric. */
  lemma TranslatedValuesAreNumeric(t: string)
    requires t in Translations
    ensures Translate(t) in NumericTypes
    ensures Translate(t) !in ScaleTypes
  {
  }
}
