// The columns that CREATE TABLE defines (src/query/executor.cpp).
module ColumnDefinitions {
  import opened Common
  import opened ByteFormat
  import opened RecordFormat
  import opened CatalogFormat

  /** A column as CREATE TABLE gives it. */
  datatype ColumnDefinition = ColumnDefinition(name: Bytes, typeName: string, length: UInt32)

  // ---- What a definition means ----

  /** The same letter, small or capital. */
  predicate SameLetter(x: char, y: char) {
    || x == y
    || ('a' <= x <= 'z' && x as int == y as int + 32)
    || ('a' <= y <= 'z' && y as int == x as int + 32)
  }

  /** The same word, whatever the case of its letters. */
  predicate SameWord(text: string, word: string) {
    |text| == |word| && forall i :: 0 <= i < |text| ==> SameLetter(text[i], word[i])
  }

  predicate IntegerType(text: string) {
    SameWord(text, "INT") || SameWord(text, "INTEGER")
  }

  predicate TextType(text: string) {
    SameWord(text, "CHAR") || SameWord(text, "VARCHAR")
  }

  predicate BooleanType(text: string) {
    SameWord(text, "BOOLEAN") || SameWord(text, "BOOL")
  }

  predicate TypeExists(text: string) {
    IntegerType(text) || TextType(text) || BooleanType(text)
  }

  /** How many bytes a text column may hold. */
  function TextLength(d: ColumnDefinition): nat {
    if d.length == 0 then 30 else d.length
  }

  /** `c` is the column that the definition stands for. */
  predicate Declares(d: ColumnDefinition, c: Column) {
    && c.name == d.name
    && match c.kind
       case INTEGER => IntegerType(d.typeName) && c.length == 4
       case VARCHAR => TextType(d.typeName) && c.length == TextLength(d)
       case BOOLEAN => BooleanType(d.typeName) && c.length == 1
  }

  /** The column names are non-empty and unique, and the types exist. */
  ghost predicate Definable(definitions: seq<ColumnDefinition>) {
    && definitions != []
    && (forall k: nat :: k < |definitions| ==> definitions[k].name != [] && TypeExists(definitions[k].typeName))
    && (forall j: nat, k: nat :: j < k < |definitions| ==> definitions[j].name != definitions[k].name)
  }

  /** The columns that the definitions stand for. */
  ghost predicate Defines(definitions: seq<ColumnDefinition>, schema: Schema) {
    |schema| == |definitions| && forall k: nat :: k < |schema| ==> Declares(definitions[k], schema[k])
  }

  // ---- How it is read ----

  function ToUpper(text: string): string {
    seq(|text|, i requires 0 <= i < |text| => if 'a' <= text[i] <= 'z' then text[i] - 'a' + 'A' else text[i])
  }

  function ColumnOf(d: ColumnDefinition): Option<Column> {
    var upper := ToUpper(d.typeName);
    if upper == "INT" || upper == "INTEGER" then Some(Column(d.name, INTEGER, 4))
    else if upper == "CHAR" || upper == "VARCHAR" then Some(Column(d.name, VARCHAR, if d.length == 0 then 30 else d.length))
    else if upper == "BOOLEAN" || upper == "BOOL" then Some(Column(d.name, BOOLEAN, 1))
    else None
  }

  predicate Capitals(word: string) {
    forall i :: 0 <= i < |word| ==> 'A' <= word[i] <= 'Z'
  }

  lemma UpperIsWord(text: string, word: string)
    requires Capitals(word)
    ensures ToUpper(text) == word <==> SameWord(text, word)
  {
    var upper := ToUpper(text);
    forall i | 0 <= i < |text| && i < |word| ensures upper[i] == word[i] <==> SameLetter(text[i], word[i]) {
      assert 'A' <= word[i] <= 'Z';
    }
    if SameWord(text, word) {
      forall i | 0 <= i < |text| ensures upper[i] == word[i] {
        assert SameLetter(text[i], word[i]);
      }
    }
  }

  lemma UpperIsType(text: string)
    ensures IntegerType(text) <==> ToUpper(text) == "INT" || ToUpper(text) == "INTEGER"
    ensures TextType(text) <==> ToUpper(text) == "CHAR" || ToUpper(text) == "VARCHAR"
    ensures BooleanType(text) <==> ToUpper(text) == "BOOLEAN" || ToUpper(text) == "BOOL"
  {
    hide ToUpper, SameWord;
    UpperIsWord(text, "INT");
    UpperIsWord(text, "INTEGER");
    UpperIsWord(text, "CHAR");
    UpperIsWord(text, "VARCHAR");
    UpperIsWord(text, "BOOLEAN");
    UpperIsWord(text, "BOOL");
  }

  lemma DifferentWords(word: string)
    ensures word == "INT" || word == "INTEGER" ==> word[0] == 'I'
    ensures word == "CHAR" || word == "VARCHAR" ==> word[0] == 'C' || word[0] == 'V'
    ensures word == "BOOLEAN" || word == "BOOL" ==> word[0] == 'B'
  {
  }

  /** The type names have different letters in each case. */
  lemma OneKind(text: string)
    ensures !(IntegerType(text) && TextType(text)) && !(IntegerType(text) && BooleanType(text)) && !(TextType(text) && BooleanType(text))
  {
    hide *;
    UpperIsType(text);
    DifferentWords(ToUpper(text));
  }

  /** The type name is read as the definition means it, and no other type exists. */
  lemma ColumnOfIs(d: ColumnDefinition)
    ensures ColumnOf(d).Some? <==> TypeExists(d.typeName)
    ensures forall c: Column :: ColumnOf(d) == Some(c) <==> Declares(d, c)
  {
    UpperIsType(d.typeName);
    OneKind(d.typeName);
    hide ToUpper, IntegerType, TextType, BooleanType;
    ColumnOfCases(d);
    hide ColumnOf;
  }

  lemma ColumnOfCases(d: ColumnDefinition)
    ensures ColumnOf(d) == if IntegerType(d.typeName) then Some(Column(d.name, INTEGER, 4))
                           else if TextType(d.typeName) then Some(Column(d.name, VARCHAR, TextLength(d)))
                           else if BooleanType(d.typeName) then Some(Column(d.name, BOOLEAN, 1)) else None
  {
    UpperIsType(d.typeName);
    hide ToUpper, IntegerType, TextType, BooleanType;
  }

  method BuildColumns(definitions: seq<ColumnDefinition>) returns (ok: bool, schema: Schema)
    requires definitions != []
    ensures ok <==> Definable(definitions)
    ensures ok ==> Defines(definitions, schema)
  {
    hide ColumnOf, Declares, TypeExists;
    var names: set<Bytes> := {};
    schema := [];
    for k := 0 to |definitions|
      invariant forall j: nat :: j < k ==> definitions[j].name != [] && TypeExists(definitions[j].typeName)
      invariant forall i: nat, j: nat :: i < j < k ==> definitions[i].name != definitions[j].name
      invariant forall name :: name in names <==> exists j: nat :: j < k && definitions[j].name == name
      invariant |schema| == k && forall j: nat :: j < k ==> Declares(definitions[j], schema[j])
    {
      var d := definitions[k];
      if d.name == [] || d.name in names {
        return false, schema;
      }
      names := names + {d.name};
      ColumnOfIs(d);
      var column := ColumnOf(d);
      if column.None? {
        return false, schema;
      }
      schema := schema + [column.value];
    }
    ok := true;
  }

  lemma DefinedFits(definitions: seq<ColumnDefinition>, schema: Schema)
    requires Definable(definitions) && Defines(definitions, schema)
    ensures schema != [] && forall k: nat :: k < |schema| ==> ColumnFits(schema[k])
  {
    hide TypeExists, IntegerType, TextType, BooleanType;
    forall k: nat | k < |schema| ensures ColumnFits(schema[k]) {
      assert Declares(definitions[k], schema[k]);
    }
  }

  /** The definitions stand for one schema only. */
  lemma DefinesOnce(definitions: seq<ColumnDefinition>, x: Schema, y: Schema)
    requires Defines(definitions, x) && Defines(definitions, y)
    ensures x == y
  {
    hide Declares, ColumnOf;
    forall k: nat | k < |x| ensures x[k] == y[k] {
      ColumnOfIs(definitions[k]);
      assert Declares(definitions[k], x[k]) && Declares(definitions[k], y[k]);
    }
  }

  // ---- Which values the columns take ----

  /** The values that a column so defined takes: NULL, and those of its type, texts up to its length. */
  predicate Accepts(d: ColumnDefinition, v: Value) {
    match v
    case Null => true
    case Integer(_) => IntegerType(d.typeName)
    case Text(s) => TextType(d.typeName) && |s| <= TextLength(d)
    case Boolean(_) => BooleanType(d.typeName)
  }

  lemma ColumnAccepts(d: ColumnDefinition, c: Column, v: Value)
    requires Declares(d, c)
    ensures Fits(c, v) <==> Accepts(d, v)
  {
    OneKind(d.typeName);
    hide IntegerType, TextType, BooleanType;
  }

  lemma RowAccepted(definitions: seq<ColumnDefinition>, schema: Schema, values: seq<Value>)
    requires Defines(definitions, schema)
    ensures RowFits(schema, values) <==>
              |values| == |definitions| && forall k: nat :: k < |values| ==> Accepts(definitions[k], values[k])
  {
    hide Declares, Fits, Accepts;
    if |values| == |definitions| {
      forall k: nat | k < |values| ensures Fits(schema[k], values[k]) <==> Accepts(definitions[k], values[k]) {
        assert Declares(definitions[k], schema[k]);
        ColumnAccepts(definitions[k], schema[k], values[k]);
      }
    }
  }
}
