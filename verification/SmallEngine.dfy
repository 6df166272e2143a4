// Pages of which small engines can be made: an empty table, an empty index, a catalog.
module SmallEngines {
  import opened Common
  import opened ByteFormat
  import SlottedFormat
  import opened BucketFormat
  import opened RecordFormat
  import opened CatalogFormat
  import opened Catalogs
  import opened CatalogManagers
  import opened PageChains
  import opened HeapStates
  import opened IndexStates
  import opened IndexOutcomes
  import opened IndexHeaders
  import opened TableStates
  import opened IndexBuilds
  import opened ColumnDefinitions
  import opened DataDefinition
  import opened EngineRuns

  // ---- A table ----

  lemma EmptyPageAdded(a: Store, p: nat)
    requires 1 <= p < 0x8000_0000 && p !in a
    ensures EmptyPageStep(a, a[p := SlottedFormat.EmptyPage(p)], p)
  {
    SlottedFormat.EmptyPageIsOk(p);
    hide SlottedFormat.EmptyPage, SlottedFormat.Ok, SlottedFormat.SlotsOf, SlottedFormat.NextPageId;
  }

  /** The state after page 0 has been given the entries `ts` and `xs`. */
  function WithCatalog(s: Store, ts: seq<TableMeta>, xs: seq<IndexMeta>): Store {
    s[0 := CatalogBytes(ts, xs)]
  }

  lemma OtherPagesStay(s: Store, ts: seq<TableMeta>, xs: seq<IndexMeta>)
    ensures forall p: nat :: p in WithCatalog(s, ts, xs) <==> p == 0 || p in s
    ensures forall p: nat :: p in s && p != 0 ==> WithCatalog(s, ts, xs)[p] == s[p]
  {
    hide CatalogBytes;
  }

  lemma CatalogWritten(s: Store, ts: seq<TableMeta>, xs: seq<IndexMeta>, tables: Tables, indexes: Indexes)
    requires 0 in s && UsedBytes(ts, xs) <= PAGE_SIZE && ListsTables(ts, tables) && ListsIndexes(xs, indexes)
    ensures OnPage(WithCatalog(s, ts, xs), tables, indexes) && OnlyHeader(s, WithCatalog(s, ts, xs))
  {
    hide CatalogBytes, UsedBytes, ListsTables, ListsIndexes;
    assert PageHolds0(WithCatalog(s, ts, xs), ts, xs);
  }

  /** CREATE TABLE with one INTEGER column, on page `m.first`. */
  lemma OneColumnTable(e: Engine, f: Engine, m: TableMeta, column: Bytes, ts: seq<TableMeta>, xs: seq<IndexMeta>)
    requires m.name != [] && m.name !in e.tables && m.schema == [Column(column, INTEGER, 4)] && column != []
    requires 0 in e.store && m.first >= 1 && m.first !in e.store
    requires UsedBytes(ts, xs) <= PAGE_SIZE && ListsTables(ts, e.tables[m.name := m]) && ListsIndexes(xs, e.indexes)
    requires f == e.(store := WithCatalog(e.store[m.first := SlottedFormat.EmptyPage(m.first)], ts, xs), tables := e.tables[m.name := m])
    ensures TableStepTo(e, f, m.name, [ColumnDefinition(column, "INT", 4)], m, e.store[m.first := SlottedFormat.EmptyPage(m.first)])
  {
    hide *;
    var s := e.store[m.first := SlottedFormat.EmptyPage(m.first)];
    EmptyPageAdded(e.store, m.first);
    CatalogWritten(s, ts, xs, e.tables[m.name := m], e.indexes);
    OneColumnMade(e.store, s, f.store, e.tables, e.indexes, m, column);
    IntegerColumn(column);
    TableStepIs(e, f, m, [ColumnDefinition(column, "INT", 4)], s);
  }

  lemma OneColumnMade(a: Store, s: Store, b: Store, tables: Tables, indexes: Indexes, m: TableMeta, column: Bytes)
    requires m.name != [] && m.name !in tables && m.schema == [Column(column, INTEGER, 4)] && column != [] && m.first >= 1
    requires EmptyPageStep(a, s, m.first) && OnlyHeader(s, b) && OnPage(b, tables[m.name := m], indexes)
    ensures TableMade(a, s, b, tables, indexes, m)
  {
    hide EmptyPageStep, OnlyHeader, OnPage;
  }

  lemma IntegerColumn(column: Bytes)
    requires column != []
    ensures Definable([ColumnDefinition(column, "INT", 4)]) && Defines([ColumnDefinition(column, "INT", 4)], [Column(column, INTEGER, 4)])
  {
    var d := [ColumnDefinition(column, "INT", 4)];
    assert Declares(d[0], Column(column, INTEGER, 4)) by { assert SameWord("INT", "INT"); }
  }

  lemma TableStepIs(e: Engine, f: Engine, m: TableMeta, definitions: seq<ColumnDefinition>, s: Store)
    requires TableMade(e.store, s, f.store, e.tables, e.indexes, m) && Definable(definitions) && Defines(definitions, m.schema)
    requires f == e.(store := f.store, tables := e.tables[m.name := m])
    ensures TableStepTo(e, f, m.name, definitions, m, s)
  {
    hide TableMade, Definable, Defines;
  }

  // ---- An index ----

  /** The header page of an index without buckets. */
  function HeaderPage(): Bytes {
    seq(PAGE_SIZE, (i: nat) => if i < 16 then IndexHeaders.HeaderFields(64, MAX_KEY_LENGTH)[i] else 255)
  }

  lemma HeaderPageIs()
    ensures HeaderOk(HeaderPage()) && Directory(HeaderPage()) == NoBuckets(64) && MaxKeyLength(HeaderPage()) == MAX_KEY_LENGTH
  {
    var b, c := IndexHeaders.HeaderFields(64, MAX_KEY_LENGTH), HeaderPage();
    HeaderFieldsOk(64, MAX_KEY_LENGTH);
    assert forall i: nat :: i < 16 ==> c[i] == b[i];
    assert forall i: nat :: 16 <= i < PAGE_SIZE ==> c[i] == 255;
    hide IndexHeaders.HeaderFields, HeaderPage, GetU16;
    SameU32(b, c, 0);
    SameU16(b, c, 4);
    SameU16(b, c, 6);
    SameU16(b, c, 8);
    forall i: nat | i < 64 ensures GetI32(c, DirectoryOffset(i)) == INVALID_PAGE_ID {
    }
    hide GetU32, GetI32, DirectoryOffset;
    EmptyDirectory(c, 64);
  }

  /** An index on a column of a table without rows. */
  lemma EmptyIndexAdded(a: Store, b: Store, schema: Schema, first: int, column: nat, h: nat)
    requires h >= 1 && h !in a && b == a[h := HeaderPage()] && HeapRows(a, first) == map[]
    ensures IndexAdded(a, b, schema, first, column, h)
    ensures IndexPages(b, h) == {h} && IndexPairs(b, h) == {}
  {
    hide *;
    HeaderPageIs();
    MakeIndexCreated(a, b, h, HeaderPage(), 64);
    BuildingStart(a, b, h, 64);
    CreatedPages(a, b, h, 64);
    NoRowsNoPairs(schema, column);
    MakeIndexAdded(a, b, schema, first, column, h);
  }

  lemma CreatedPages(a: Store, b: Store, h: nat, n: nat)
    requires IndexCreated(a, b, h, n)
    ensures IndexPages(b, h) == {h}
  {
    hide IndexOk, IndexPairs, IndexPages, Width;
  }

  lemma MakeIndexAdded(a: Store, b: Store, schema: Schema, first: int, column: nat, h: nat)
    requires h >= 1 && Building(a, b, h) && NewOwned(a, b, IndexPages(b, h)) && AllKeyed(HeapRows(a, first), schema, column)
    requires IndexPairs(b, h) == RowPairs(HeapRows(a, first), schema, column)
    ensures IndexAdded(a, b, schema, first, column, h)
  {
    hide Building, NewOwned, IndexPages, IndexPairs, RowPairs, HeapRows, AllKeyed;
  }

  lemma NoRowsNoPairs(schema: Schema, column: nat)
    ensures RowPairs(map[], schema, column) == {} && AllKeyed(map[], schema, column)
  {
    hide RecordKey, RecordPairs;
  }
}
