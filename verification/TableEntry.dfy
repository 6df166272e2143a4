// What the catalog says of a table: its columns, its first page and its indexes.
module TableEntries {
  import opened Common
  import opened RecordFormat
  import opened CatalogFormat
  import opened Catalogs
  import opened TableStates

  function InfoOf(x: IndexMeta, schema: Schema): IndexInfo {
    IndexInfo(PositionOf(schema, x.column), if x.header > HEADER_PAGE_ID then x.header else 0)
  }

  /** The indexes of one table. */
  ghost function InfosOf(indexes: Indexes, table: Bytes, schema: Schema): set<IndexInfo> {
    set key | key in indexes && indexes[key].table == table :: InfoOf(indexes[key], schema)
  }

  ghost function InfosIn(t: TableInfo): set<IndexInfo> {
    set x | x in t.indexes
  }

  lemma NoInfosNoIndexes(t: TableInfo)
    ensures InfosIn(t) == {} ==> t.indexes == []
  {
    if t.indexes != [] {
      assert t.indexes[0] in InfosIn(t);
    }
  }

  ghost predicate TableIs(m: TableMeta, indexes: Indexes, t: TableInfo) {
    m.schema == t.schema && m.first == t.first && InfosIn(t) == InfosOf(indexes, m.name, m.schema)
  }

  ghost predicate NoIndexTwice(t: TableInfo) {
    forall i: nat, j: nat :: i < j < |t.indexes| ==> t.indexes[i] != t.indexes[j]
  }

  /** The entry of a table in the catalog, with its indexes in any order. */
  ghost predicate Loaded(tables: Tables, indexes: Indexes, name: Bytes, t: TableInfo) {
    name in tables && TableIs(tables[name], indexes, t) && NoIndexTwice(t)
  }

  lemma LoadedParts(tables: Tables, indexes: Indexes, name: Bytes, t: TableInfo)
    requires Loaded(tables, indexes, name, t)
    ensures name in tables && TableIs(tables[name], indexes, t) && NoIndexTwice(t)
  {
    hide TableIs, NoIndexTwice;
  }
}
