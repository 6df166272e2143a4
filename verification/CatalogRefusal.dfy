// Which catalogs can be read back: a column without a name is written like any other, but
// refused when the page is read (src/catalog/catalog_manager.cpp).
module CatalogRefusals {
  import opened Common
  import opened ByteFormat
  import opened RecordFormat
  import opened CatalogFormat

  /** What CreateTable checks of an entry, and what the width of a column length implies. */
  predicate TableStorable(t: TableMeta) {
    t.name != [] && t.first > HEADER_PAGE_ID && forall k: nat :: k < |t.schema| ==> t.schema[k].length < 0x1_0000_0000
  }

  predicate AllNamed(columns: seq<Column>) {
    forall k: nat :: k < |columns| ==> columns[k].name != []
  }

  lemma StorableFits(t: TableMeta)
    ensures TableFits(t) <==> TableStorable(t) && AllNamed(t.schema)
  {
    if TableFits(t) {
      assert forall k: nat :: k < |t.schema| ==> ColumnFits(t.schema[k]);
    }
  }

  lemma NamelessIsRefused(b: Bytes, end: nat, cursor: nat, c: Column)
    requires At(b, cursor, ColumnBytes(c)) && c.name == []
    ensures ParseColumn(b, end, cursor).None?
  {
    AtSplit(b, cursor, U16(0) + [TypeCode(c.kind), 0] + U32(c.length), []);
    AtSplit(b, cursor, U16(0) + [TypeCode(c.kind), 0], U32(c.length));
    AtSplit(b, cursor, U16(0), [TypeCode(c.kind), 0]);
    hide At, GetU16, GetU32, U16, U32, KindOf;
    AtU16(b, cursor, 0);
  }

  lemma {:induction false} ColumnsRefused(b: Bytes, end: nat, cursor: nat, columns: seq<Column>, done: seq<Column>)
    requires At(b, cursor, ColumnsBytes(columns)) && cursor + |ColumnsBytes(columns)| <= end <= |b| <= PAGE_SIZE
    requires !AllNamed(columns) && forall k: nat :: k < |columns| ==> columns[k].length < 0x1_0000_0000
    ensures ParseColumns(b, end, cursor, |columns|, done).None?
    decreases |columns|
  {
    hide At, ParseColumn, ColumnBytes;
    AtSplit(b, cursor, ColumnBytes(columns[0]), ColumnsBytes(columns[1..]));
    if columns[0].name == [] {
      NamelessIsRefused(b, end, cursor, columns[0]);
    } else {
      ColumnReadsBack(b, end, cursor, columns[0]);
      RestNotNamed(columns);
      ColumnsRefused(b, end, cursor + |ColumnBytes(columns[0])|, columns[1..], done + [columns[0]]);
    }
  }

  lemma RestNotNamed(columns: seq<Column>)
    requires !AllNamed(columns) && columns != [] && columns[0].name != []
    ensures !AllNamed(columns[1..])
  {
    var k: nat :| k < |columns| && columns[k].name == [];
    assert columns[1..][k - 1] == columns[k];
  }

  /** Every column takes at least 8 bytes. */
  lemma {:induction false} ColumnCountFits(columns: seq<Column>)
    ensures 8 * |columns| <= |ColumnsBytes(columns)|
    decreases |columns|
  {
    if columns != [] {
      assert |ColumnBytes(columns[0])| == 8 + |columns[0].name|;
      hide ColumnBytes;
      ColumnCountFits(columns[1..]);
    }
  }

  lemma TableIsRefused(b: Bytes, limit: nat, cursor: nat, t: TableMeta)
    requires At(b, cursor, TableBytes(t)) && cursor + |TableBytes(t)| <= limit <= |b| <= PAGE_SIZE
    requires TableStorable(t) && !AllNamed(t.schema)
    ensures ParseTable(b, limit, cursor).None?
  {
    TableLayout(t);
    ColumnCountFits(t.schema);
    hide At, AllNamed, GetU16, GetI32, U16, I32, TableBytes, ColumnsBytes, ParseColumns, Slice;
    var size := 12 + |t.name| + |ColumnsBytes(t.schema)|;
    EntryFields(b, cursor, size, |t.name|, |t.schema|, 0, t.first, t.name + ColumnsBytes(t.schema));
    AtSplit(b, cursor + 12, t.name, ColumnsBytes(t.schema));
    ColumnsRefused(b, cursor + size, cursor + 12 + |t.name|, t.schema, []);
  }

  ghost predicate AllTablesNamed(tables: seq<TableMeta>) {
    forall k: nat :: k < |tables| ==> AllNamed(tables[k].schema)
  }

  lemma {:induction false} TablesRefused(b: Bytes, limit: nat, cursor: nat, tables: seq<TableMeta>, done: seq<TableMeta>)
    requires At(b, cursor, TablesBytes(tables)) && cursor + |TablesBytes(tables)| <= limit <= |b| <= PAGE_SIZE
    requires !AllTablesNamed(tables) && forall k: nat :: k < |tables| ==> TableStorable(tables[k])
    ensures ParseTables(b, limit, cursor, |tables|, done).None?
    decreases |tables|
  {
    hide At, ParseTable, TableBytes, TableStorable, TableFits, AllNamed;
    AtSplit(b, cursor, TableBytes(tables[0]), TablesBytes(tables[1..]));
    if AllNamed(tables[0].schema) {
      StorableFits(tables[0]);
      TableReadsBack(b, limit, cursor, tables[0]);
      RestHasNameless(tables);
      TablesRefused(b, limit, cursor + |TableBytes(tables[0])|, tables[1..], done + [tables[0]]);
    } else {
      TableIsRefused(b, limit, cursor, tables[0]);
    }
  }

  lemma RestHasNameless(tables: seq<TableMeta>)
    requires !AllTablesNamed(tables) && tables != [] && AllNamed(tables[0].schema)
    ensures !AllTablesNamed(tables[1..])
  {
    hide AllNamed;
    var k: nat :| k < |tables| && !AllNamed(tables[k].schema);
    assert tables[1..][k - 1] == tables[k];
  }

  lemma {:induction false} TableCountFits(tables: seq<TableMeta>)
    ensures 12 * |tables| <= |TablesBytes(tables)|
    decreases |tables|
  {
    if tables != [] {
      TableLayout(tables[0]);
      hide TableBytes;
      TableCountFits(tables[1..]);
    }
  }

  lemma {:induction false} IndexCountFits(indexes: seq<IndexMeta>)
    ensures 12 * |indexes| <= |IndexesBytes(indexes)|
    decreases |indexes|
  {
    if indexes != [] {
      IndexLayout(indexes[0]);
      hide IndexBytes;
      IndexCountFits(indexes[1..]);
    }
  }

  lemma Refused(tables: seq<TableMeta>, indexes: seq<IndexMeta>)
    requires UsedBytes(tables, indexes) <= PAGE_SIZE && !AllTablesNamed(tables)
    requires forall k: nat :: k < |tables| ==> TableStorable(tables[k])
    ensures ParseCatalog(CatalogBytes(tables, indexes)).None?
  {
    hide *;
    var b, used := CatalogBytes(tables, indexes), UsedBytes(tables, indexes);
    CatalogParts(tables, indexes);
    CatalogBytesAre(tables, indexes);
    TableCountFits(tables);
    IndexCountFits(indexes);
    assert PAGE_SIZE == 4096 by { PageSizeIs(); }
    HeaderFields(b, |tables|, |indexes|, used);
    TablesRefused(b, used, 16, tables, []);
    ParseCatalogFails(b, used, |tables|);
  }

  lemma PageSizeIs()
    ensures PAGE_SIZE == 4096
  {
  }

  lemma ParseCatalogFails(b: Bytes, used: nat, n: nat)
    requires GetU32(b, 0) == CATALOG_MAGIC && GetU16(b, 10) == used && GetU16(b, 6) == n && ParseTables(b, used, 16, n, []).None?
    ensures ParseCatalog(b).None?
  {
    assert CATALOG_MAGIC != 0;
    hide GetU16, GetU32, ParseTables, ParseIndexes;
  }

  /** A catalog page gives back what was written to it exactly if every column has a name,
      and otherwise it cannot be read at all. */
  lemma ReadsBackExactlyIfNamed(tables: seq<TableMeta>, indexes: seq<IndexMeta>)
    requires UsedBytes(tables, indexes) <= PAGE_SIZE
    requires forall k: nat :: k < |tables| ==> TableStorable(tables[k])
    requires forall k: nat :: k < |indexes| ==> IndexFits(indexes[k])
    ensures ParseCatalog(CatalogBytes(tables, indexes)) == (if AllTablesNamed(tables) then Some((tables, indexes)) else None)
  {
    hide TableStorable, AllNamed, TableFits, IndexFits, ParseCatalog, CatalogBytes, UsedBytes;
    if AllTablesNamed(tables) {
      forall k: nat | k < |tables| ensures TableFits(tables[k]) {
        StorableFits(tables[k]);
      }
      CatalogReadsBack(tables, indexes);
    } else {
      Refused(tables, indexes);
    }
  }

  /** The smallest catalog that cannot be read back: one table, one column, no name. */
  lemma NamelessExample()
    ensures var m := TableMeta([116], [Column([], INTEGER, 4)], 1);
            UsedBytes([m], []) == 37 && ParseCatalog(CatalogBytes([m], [])).None?
  {
    var m := TableMeta([116], [Column([], INTEGER, 4)], 1);
    assert |ColumnBytes(m.schema[0])| == 8;
    assert |ColumnsBytes(m.schema)| == 8 by { assert ColumnsBytes(m.schema[1..]) == []; }
    assert |TableBytes(m)| == 21;
    assert [m][1..] == [];
    assert TablesBytes([m]) == TableBytes(m) + TablesBytes([]);
    assert m.schema[0].name == [];
    assert !AllNamed([m][0].schema);
    assert TableStorable(m);
    hide ParseCatalog, CatalogBytes, AllNamed, TableStorable;
    Refused([m], []);
  }
}
