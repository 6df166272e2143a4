// CREATE TABLE and CREATE INDEX (src/query/executor.cpp).
module DataDefinition {
  import opened Common
  import opened ByteFormat
  import opened Disk
  import opened Buffer
  import SlottedFormat
  import opened SlottedPages
  import opened BucketFormat
  import opened RecordFormat
  import opened RecordCodecs
  import opened IndexKeys
  import opened PageChains
  import opened HeapStates
  import opened HeapScans
  import opened HeapFiles
  import opened IndexStates
  import opened IndexOutcomes
  import opened IndexHeaders
  import opened HashIndexes
  import opened TableStates
  import opened TableOutcomes
  import opened TableStorages
  import opened Operators
  import opened ColumnDefinitions
  import opened CatalogFormat
  import opened Catalogs
  import opened CatalogRefusals
  import opened CatalogManagers
  import opened Databases
  import opened IndexBuilds
  import opened TableEntries
  import opened Engines
  import opened TableLoads
  import opened IndexLeaks

  // ---- One row of an index under construction ----

  /** The index key of a column; none if the column is NULL. */
  method EncodeColumn(schema: Schema, record: Bytes, column: nat) returns (status: StatusCode, key: Option<Bytes>)
    ensures status == OK ==> KeyMatches(key, RecordKey(schema, record, column))
    ensures status != OK ==> RecordKey(schema, record, column).BadKey?
    ensures Decode(schema, record).Some? ==> status in {OK, INVALID_ARGUMENT}
  {
    hide *;
    TableStorage.RecordKeyParts(schema, record, column);
    var value, encoded;
    status, value := GetValue(schema, record, column);
    if status != OK {
      return status, None;
    }
    if value.Null? {
      return OK, None;
    }
    status, encoded := Encode(value);
    key := if status == OK then Some(encoded) else None;
  }

  /** The index holds the pairs of the first `k` rows of the scan, all of which have keys. */
  ghost predicate BuiltUpTo(a: Store, s: Store, t: TableInfo, column: nat, h: nat, k: nat) {
    var rows, order := HeapRows(a, t.first), ScanOrder(a, t.first);
    && k <= |order|
    && IndexPairs(s, h) == PairsOfRows(rows, t.schema, column, order[..k])
    && KeyedRows(rows, t.schema, column, order[..k])
  }

  lemma BuiltNothing(a: Store, s: Store, t: TableInfo, column: nat, h: nat)
    requires IndexPairs(s, h) == {}
    ensures BuiltUpTo(a, s, t, column, h, 0)
  {
    NoRowsYet(HeapRows(a, t.first), t.schema, column, ScanOrder(a, t.first));
    hide IndexPairs, HeapRows, ScanOrder, PairsOfRows, KeyedRows;
  }

  lemma BuiltOneMore(a: Store, s: Store, u: Store, t: TableInfo, column: nat, h: nat, k: nat, rid: RecordID, record: Bytes, key: Option<Bytes>)
    requires BuiltUpTo(a, s, t, column, h, k) && RowAtPosition(a, t.first, k, record, rid)
    requires KeyMatches(key, RecordKey(t.schema, record, column))
    requires IndexPairs(u, h) == IndexPairs(s, h) + KeySet(key, rid)
    ensures BuiltUpTo(a, u, t, column, h, k + 1)
  {
    hide IndexPairs, HeapRows, ScanOrder, PairsOfRows, KeyedRows, KeyMatches, RecordKey, KeySet;
    OneMoreRow(HeapRows(a, t.first), t.schema, column, ScanOrder(a, t.first), k, key);
  }

  lemma BuiltAll(a: Store, s: Store, t: TableInfo, column: nat, h: nat)
    requires TableOk(a, t) && BuiltUpTo(a, s, t, column, h, |ScanOrder(a, t.first)|)
    ensures IndexPairs(s, h) == RowPairs(HeapRows(a, t.first), t.schema, column)
    ensures AllKeyed(HeapRows(a, t.first), t.schema, column)
  {
    TableOkParts(a, t);
    hide TableOk, TableShape, Agrees, HeapOk, IndexPairs, HeapRows, ScanOrder, PairsOfRows, KeyedRows, RowPairs, RecordKey;
    var order := ScanOrder(a, t.first);
    assert order[..|order|] == order;
    AllRowsFound(a, t.first, t.schema, column);
  }

  /** The row at one position of the scan, which is the same while the index grows. */
  lemma RowMeanwhile(a: Store, s: Store, t: TableInfo, h: nat, k: nat, record: Bytes, rid: RecordID)
    requires TableOk(a, t) && Building(a, s, h) && RowAtPosition(s, t.first, k, record, rid)
    ensures RowAtPosition(a, t.first, k, record, rid) && rid in HeapRows(a, t.first) && HeapRows(a, t.first)[rid] == record
    ensures k < |ScanOrder(a, t.first)|
    ensures Decode(t.schema, record).Some?
    ensures rid.pageId in a && 0 < rid.pageId && rid.slotId < 1020
  {
    TableMeanwhile(a, s, t, h);
    hide HeapRows, ScanOrder, TableOk, Building, Decode;
    assert RowAtPosition(a, t.first, k, record, rid);
    RowFacts(a, t, rid);
  }

  lemma RowFacts(a: Store, t: TableInfo, rid: RecordID)
    requires TableOk(a, t) && rid in HeapRows(a, t.first)
    ensures Decode(t.schema, HeapRows(a, t.first)[rid]).Some?
    ensures rid.pageId in a && 0 < rid.pageId && rid.slotId < 1020
  {
    hide *;
    TableOkParts(a, t);
    RowOnPage(a, t.first, rid);
    StoredRow(a, t, rid);
  }

  lemma StoredRow(a: Store, t: TableInfo, rid: RecordID)
    requires TableOk(a, t) && rid in HeapRows(a, t.first)
    ensures Decode(t.schema, HeapRows(a, t.first)[rid]).Some?
  {
    hide TableShape, HeapRows, Decode, Keyed, IndexPairs, RowPairs, Rooms, Width;
    assert Stored(ViewOf(a, t).rows[rid], t);
  }

  lemma SameScan(scan: SeqScanOperator, s: Store, u: Store, k: nat)
    requires scan.At(s, k) && ScanOrder(u, scan.heapFile.firstPageId) == ScanOrder(s, scan.heapFile.firstPageId)
    ensures scan.At(u, k)
  {
    hide ScanOrder;
  }

  lemma NotAllKeyed(rows: Rows, schema: Schema, column: nat, rid: RecordID)
    requires rid in rows && RecordKey(schema, rows[rid], column).BadKey?
    ensures !AllKeyed(rows, schema, column)
  {
    hide RecordKey;
  }

  lemma KeyIsIndexable(key: Bytes, result: KeyResult, rid: RecordID)
    requires KeyMatches(Some(key), result) && rid.pageId > 0
    ensures Indexable(Pair(key, rid)) && KeySet(Some(key), rid) == {Pair(key, rid)}
  {
  }

  /** One more pair is in the index, which has just the pages that it needs; or the disk
      cannot hold them. */
  ghost predicate PairCounted(a: Store, s: Store, u: Store, h: nat, pairs: set<Pair>, status: StatusCode, capacity: nat) {
    && (status == OK ==> Counted(a, u, h))
    && (status == OUT_OF_MEMORY ==> |a| + 1 + IndexNeeds(IndexPairs(s, h) + pairs) > capacity)
  }

  lemma PairCountedParts(a: Store, s: Store, u: Store, h: nat, pairs: set<Pair>, status: StatusCode, capacity: nat)
    ensures PairCounted(a, s, u, h, pairs, status, capacity) <==>
              && (status == OK ==> Counted(a, u, h))
              && (status == OUT_OF_MEMORY ==> |a| + 1 + IndexNeeds(IndexPairs(s, h) + pairs) > capacity)
  {
    hide Counted, IndexNeeds, IndexPairs;
  }

  /** If the disk cannot hold what the first rows need, it cannot hold what all rows need. */
  lemma TooManyRows(a: Store, s: Store, t: TableInfo, column: nat, h: nat, k: nat, rid: RecordID, record: Bytes, key: Option<Bytes>, capacity: nat)
    requires BuiltUpTo(a, s, t, column, h, k) && RowAtPosition(a, t.first, k, record, rid)
    requires KeyMatches(key, RecordKey(t.schema, record, column))
    requires |a| + 1 + IndexNeeds(IndexPairs(s, h) + KeySet(key, rid)) > capacity
    ensures |a| + 1 + IndexNeeds(RowPairs(HeapRows(a, t.first), t.schema, column)) > capacity
  {
    hide IndexPairs, HeapRows, ScanOrder, PairsOfRows, KeyedRows, KeyMatches, RecordKey, KeySet, RowPairs, IndexNeeds;
    OneMoreRow(HeapRows(a, t.first), t.schema, column, ScanOrder(a, t.first), k, key);
    SomeRowsNeed(HeapRows(a, t.first), t.schema, column, ScanOrder(a, t.first)[..k + 1]);
  }

  lemma NoKeyNoPair(rid: RecordID)
    ensures forall pairs: set<Pair> :: pairs == pairs + KeySet(None, rid)
  {
  }

  /** The index at `h` has been built on pages of its own and is an index of the table. */
  ghost predicate IndexReady(a: Store, s: Store, t: TableInfo, column: nat, h: nat) {
    && Building(a, s, h) && AllKeyed(HeapRows(a, t.first), t.schema, column)
    && IndexPairs(s, h) == RowPairs(HeapRows(a, t.first), t.schema, column)
    && TableOk(s, WithIndex(t, column, h)) && TablePages(s, WithIndex(t, column, h)) == TablePages(a, t) + IndexPages(s, h)
    && HeapRows(s, t.first) == HeapRows(a, t.first)
  }

  /** The statement names a table and a column that has no index yet, and every value of
      the column has a key. */
  ghost predicate Buildable(s: Store, tables: Tables, indexes: Indexes, table: Bytes, column: Bytes) {
    && table in tables && HasColumn(tables[table].schema, column) && MakeIndexKey(table, column) !in indexes
    && AllKeyed(HeapRows(s, tables[table].first), tables[table].schema, PositionOf(tables[table].schema, column))
  }

  lemma BuildableIs(s: Store, tables: Tables, indexes: Indexes, table: Bytes, column: Bytes)
    ensures Buildable(s, tables, indexes, table, column) <==>
              && table in tables && HasColumn(tables[table].schema, column) && MakeIndexKey(table, column) !in indexes
              && AllKeyed(HeapRows(s, tables[table].first), tables[table].schema, PositionOf(tables[table].schema, column))
  {
    hide HasColumn, AllKeyed, HeapRows, PositionOf, MakeIndexKey;
  }

  /** The table has the new index, which agrees with its rows, and the catalog names it. */
  ghost predicate IndexDefined(a: Store, b: Store, tables: Tables, before: Indexes, after: Indexes, names: Names, namesAfter: Names,
                               db: seq<TableInfo>, k: nat, t: TableInfo, name: Bytes, table: Bytes, column: Bytes) {
    var key := MakeIndexKey(table, column);
    && k < |db| && table in tables && HasColumn(tables[table].schema, column) && key !in before && name !in names && name != []
    && TableOk(b, t) && HeapRows(b, t.first) == HeapRows(a, t.first)
    && key in after && after[key].header > 0 && t == WithIndex(db[k], PositionOf(db[k].schema, column), after[key].header)
    && after == before[key := IndexMeta(name, table, column, after[key].header)] && namesAfter == names[name := key]
  }

  // ---- When CREATE TABLE and CREATE INDEX succeed ----

  /** The disk has a page for the table, and page 0 room for its entry. */
  ghost predicate RoomForTable(s: Store, tables: Tables, indexes: Indexes, name: Bytes, schema: Schema, capacity: nat) {
    |s| < capacity && CatalogSize(tables[name := TableMeta(name, schema, 0)], indexes) <= PAGE_SIZE
  }

  /** What CREATE TABLE returns on a working disk. */
  ghost predicate TableStatusIs(s: Store, tables: Tables, indexes: Indexes, name: Bytes, definitions: seq<ColumnDefinition>, status: StatusCode,
                                capacity: nat) {
    if name != [] && name !in tables && Definable(definitions) then
      exists schema: Schema :: Defines(definitions, schema)
                               && status == if RoomForTable(s, tables, indexes, name, schema, capacity) then OK else OUT_OF_MEMORY
    else
      status == INVALID_ARGUMENT
  }

  lemma TableNotAccepted(s: Store, tables: Tables, indexes: Indexes, name: Bytes, definitions: seq<ColumnDefinition>, capacity: nat)
    ensures name == [] || name in tables || !Definable(definitions) ==>
              TableStatusIs(s, tables, indexes, name, definitions, INVALID_ARGUMENT, capacity)
  {
    hide Definable, Defines, RoomForTable;
  }

  lemma TableAcceptedStatus(s: Store, tables: Tables, indexes: Indexes, name: Bytes, definitions: seq<ColumnDefinition>, schema: Schema, capacity: nat)
    requires name != [] && name !in tables && Definable(definitions) && Defines(definitions, schema)
    ensures |s| >= capacity ==> TableStatusIs(s, tables, indexes, name, definitions, OUT_OF_MEMORY, capacity)
    ensures |s| < capacity ==>
              forall status: StatusCode ::
                status == (if CatalogSize(tables[name := TableMeta(name, schema, 0)], indexes) <= PAGE_SIZE then OK else OUT_OF_MEMORY) ==>
                  TableStatusIs(s, tables, indexes, name, definitions, status, capacity)
  {
    hide Definable, Defines, CatalogSize;
  }

  /** The space of an entry does not depend on the page that it names. */
  lemma TableRoomIs(s: Store, tables: Tables, indexes: Indexes, name: Bytes, schema: Schema, first: Int32, capacity: nat)
    ensures CatalogSize(tables[name := TableMeta(name, schema, first)], indexes) == CatalogSize(tables[name := TableMeta(name, schema, 0)], indexes)
  {
    var x, y := tables[name := TableMeta(name, schema, first)], tables[name := TableMeta(name, schema, 0)];
    SameTableBytes(name, schema, first);
    hide TableBytes;
    assert TableSizes(x) == TableSizes(y);
    hide Total, TableSizes, IndexSizes;
  }

  lemma SameTableBytes(name: Bytes, schema: Schema, first: Int32)
    ensures |TableBytes(TableMeta(name, schema, first))| == |TableBytes(TableMeta(name, schema, 0))|
  {
    hide ColumnsBytes;
  }

  lemma SizeOfIndex(tables: Tables, indexes: Indexes, name: Bytes, table: Bytes, column: Bytes, header: Int32)
    ensures CatalogSize(tables, indexes[MakeIndexKey(table, column) := IndexMeta(name, table, column, header)])
         == CatalogSize(tables, indexes[MakeIndexKey(table, column) := IndexMeta(name, table, column, 0)])
  {
    var key := MakeIndexKey(table, column);
    var x, y := indexes[key := IndexMeta(name, table, column, header)], indexes[key := IndexMeta(name, table, column, 0)];
    assert |IndexBytes(IndexMeta(name, table, column, header))| == |IndexBytes(IndexMeta(name, table, column, 0))|;
    hide IndexBytes, MakeIndexKey;
    assert IndexSizes(x) == IndexSizes(y);
    hide Total, TableSizes, IndexSizes;
  }

  /** The disk has the pages that an index of the rows needs, its header page and those of
      the buckets. */
  ghost predicate RoomForIndex(s: Store, m: TableMeta, column: Bytes, capacity: nat) {
    |s| + 1 + IndexNeeds(RowPairs(HeapRows(s, m.first), m.schema, PositionOf(m.schema, column))) <= capacity
  }

  ghost predicate ColumnKeyed(s: Store, m: TableMeta, column: Bytes) {
    AllKeyed(HeapRows(s, m.first), m.schema, PositionOf(m.schema, column))
  }

  /** Page 0 has room for the entry of the index. */
  ghost predicate EntryFits(tables: Tables, indexes: Indexes, name: Bytes, table: Bytes, column: Bytes) {
    CatalogSize(tables, indexes[MakeIndexKey(table, column) := IndexMeta(name, table, column, 0)]) <= PAGE_SIZE
  }

  /** What CREATE INDEX returns on a working disk, by its checks in turn. If some value has no
      key, it depends on what the rows before it need whether the disk is full before. */
  ghost predicate IndexStatusIs(s: Store, tables: Tables, indexes: Indexes, names: Names, name: Bytes, table: Bytes, column: Bytes,
                                status: StatusCode, capacity: nat) {
    if MakeIndexKey(table, column) in indexes || name in names then status == INVALID_ARGUMENT
    else if table !in tables || !HasColumn(tables[table].schema, column) then status == NOT_FOUND
    else if !ColumnKeyed(s, tables[table], column) then
      status == INVALID_ARGUMENT || (status == OUT_OF_MEMORY && !RoomForIndex(s, tables[table], column, capacity))
    else if !RoomForIndex(s, tables[table], column, capacity) then status == OUT_OF_MEMORY
    else if name == [] then status == INVALID_ARGUMENT
    else status == if EntryFits(tables, indexes, name, table, column) then OK else OUT_OF_MEMORY
  }

  lemma IndexStatusMeans(s: Store, tables: Tables, indexes: Indexes, names: Names, name: Bytes, table: Bytes, column: Bytes, status: StatusCode,
                         capacity: nat)
    ensures MakeIndexKey(table, column) in indexes || name in names ==>
              (IndexStatusIs(s, tables, indexes, names, name, table, column, status, capacity) <==> status == INVALID_ARGUMENT)
    ensures MakeIndexKey(table, column) !in indexes && name !in names ==>
              (IndexStatusIs(s, tables, indexes, names, name, table, column, status, capacity) <==>
                 if table !in tables || !HasColumn(tables[table].schema, column) then status == NOT_FOUND
                 else if !ColumnKeyed(s, tables[table], column) then
                   status == INVALID_ARGUMENT || (status == OUT_OF_MEMORY && !RoomForIndex(s, tables[table], column, capacity))
                 else if !RoomForIndex(s, tables[table], column, capacity) then status == OUT_OF_MEMORY
                 else if name == [] then status == INVALID_ARGUMENT
                 else status == if EntryFits(tables, indexes, name, table, column) then OK else OUT_OF_MEMORY)
  {
    hide HasColumn, ColumnKeyed, RoomForIndex, EntryFits, MakeIndexKey;
  }

  lemma IndexConditions(s: Store, m: TableMeta, tables: Tables, indexes: Indexes, name: Bytes, table: Bytes, column: Bytes, capacity: nat)
    ensures ColumnKeyed(s, m, column) <==> AllKeyed(HeapRows(s, m.first), m.schema, PositionOf(m.schema, column))
    ensures RoomForIndex(s, m, column, capacity) <==>
              |s| + 1 + IndexNeeds(RowPairs(HeapRows(s, m.first), m.schema, PositionOf(m.schema, column))) <= capacity
    ensures EntryFits(tables, indexes, name, table, column) <==>
              CatalogSize(tables, indexes[MakeIndexKey(table, column) := IndexMeta(name, table, column, 0)]) <= PAGE_SIZE
  {
    hide AllKeyed, HeapRows, PositionOf, IndexNeeds, RowPairs, CatalogSize, MakeIndexKey;
  }

  lemma NoEmptyIndexName(tables: Tables, indexes: Indexes, names: Names)
    requires WellFormed(tables, indexes, names)
    ensures [] !in names
  {
    hide TableFits, KeyOfIndex, HasColumn;
    assert forall name :: name in names ==> indexes[names[name]].name == name && IndexFits(indexes[names[name]]);
  }

  lemma NamedTable(s: Store, tables: Tables, indexes: Indexes, indexNames: Names, names: seq<Bytes>, db: seq<TableInfo>, lost: set<nat>, k: nat, table: Bytes)
    requires EngineOk(s, tables, indexes, indexNames, names, db, lost)
    requires table in tables && k < |names| && k < |db| && names[k] == table
    ensures TableOk(s, db[k]) && tables[table].schema == db[k].schema && tables[table].first == db[k].first
  {
    EngineParts(s, tables, indexes, indexNames, names, db, lost);
    hide EngineOk, DbOk, WellFormed, TableOk, InfosOf, InfosIn, AllDifferent, Named, PageSays;
    assert TableIs(tables[names[k]], indexes, db[k]);
    DbTable(s, db, lost, k);
  }

  lemma ReadyIsAdded(a: Store, s: Store, t: TableInfo, column: nat, h: nat)
    requires IndexReady(a, s, t, column, h) && h >= 1 && NewOwned(a, s, IndexPages(s, h))
    ensures IndexAdded(a, s, t.schema, t.first, column, h)
  {
    hide Building, AllKeyed, HeapRows, IndexPairs, RowPairs, TableOk, TablePages, IndexPages, NewOwned;
  }

  // ---- The first page of a table ----

  /** Page `p` has been allocated and formatted as a heap page without records. */
  ghost predicate EmptyPageStep(a: Store, b: Store, p: nat) {
    && p >= 1 && p !in a && p in b && b == a[p := b[p]]
    && SlottedFormat.Ok(b[p], p) && SlottedFormat.SlotsOf(b[p]) == [] && SlottedFormat.NextPageId(b[p]) == INVALID_PAGE_ID
  }

  lemma MakeEmptyPageStep(a: Store, b: Store, p: nat)
    requires p >= 1 && p !in a && p in b && b - {p} == a
    requires SlottedFormat.Ok(b[p], p) && SlottedFormat.SlotsOf(b[p]) == [] && SlottedFormat.NextPageId(b[p]) == INVALID_PAGE_ID
    ensures EmptyPageStep(a, b, p)
  {
    hide SlottedFormat.Ok, SlottedFormat.SlotsOf, SlottedFormat.NextPageId;
    assert b == (b - {p})[p := b[p]];
  }

  lemma EmptyPageParts(a: Store, b: Store, p: nat)
    requires EmptyPageStep(a, b, p)
    ensures p >= 1 && p !in a && p in b && b == a[p := b[p]] && b - {p} == a
    ensures forall schema: Schema :: TableOk(b, TableInfo(schema, p, [])) && TablePages(b, TableInfo(schema, p, [])) == {p}
    ensures HeapRows(b, p) == map[] && HeapOk(b, p) && HeapPages(b, p) == {p}
  {
    hide SlottedFormat.Ok, SlottedFormat.SlotsOf, SlottedFormat.NextPageId, HeapOk, HeapRows, HeapPages, TableOk, TablePages;
    EmptyHeap(b, p);
    forall schema: Schema ensures TableOk(b, TableInfo(schema, p, [])) && TablePages(b, TableInfo(schema, p, [])) == {p} {
      EmptyTable(b, schema, p);
    }
  }

  // ---- What the statements do ----

  /** A table has been made: its first page in `s`, and then its entry in the catalog. */
  ghost predicate TableMade(a: Store, s: Store, b: Store, tables: Tables, indexes: Indexes, m: TableMeta) {
    && TableAccepted(tables, m) && EmptyPageStep(a, s, m.first) && (forall k: nat :: k < |m.schema| ==> ColumnFits(m.schema[k]))
    && OnlyHeader(s, b) && OnPage(b, tables[m.name := m], indexes)
  }

  lemma MadeParts(a: Store, s: Store, b: Store, tables: Tables, indexes: Indexes, m: TableMeta)
    requires TableMade(a, s, b, tables, indexes, m)
    ensures TableAccepted(tables, m) && m.first >= 1 && m.name !in tables && EmptyPageStep(a, s, m.first)
    ensures forall k: nat :: k < |m.schema| ==> ColumnFits(m.schema[k])
    ensures OnlyHeader(s, b) && OnPage(b, tables[m.name := m], indexes)
  {
    hide EmptyPageStep, ColumnFits, OnlyHeader, OnPage;
  }

  /** A table that has been made leaves the engine in order and is empty; the other tables
      have the rows that they had. */
  lemma TableMadeKeepsEngine(a: Store, s: Store, b: Store, tables: Tables, indexes: Indexes, indexNames: Names, names: seq<Bytes>,
                             db: seq<TableInfo>, lost: set<nat>, m: TableMeta)
    requires EngineOk(a, tables, indexes, indexNames, names, db, lost) && TableMade(a, s, b, tables, indexes, m)
    ensures EngineOk(b, tables[m.name := m], indexes, indexNames, names + [m.name], db + [TableInfo(m.schema, m.first, [])], lost)
    ensures HeapRows(b, m.first) == map[]
    ensures forall j: nat :: j < |db| ==> HeapRows(b, db[j].first) == HeapRows(a, db[j].first)
  {
    hide *;
    EngineParts(a, tables, indexes, indexNames, names, db, lost);
    MadeParts(a, s, b, tables, indexes, m);
    EmptyPageParts(a, s, m.first);
    AcceptedFits(tables, indexes, indexNames, m);
    TableAddedKeepsEngine(a, s, b, tables, indexes, indexNames, names, db, lost, m, m.first);
    StillEmpty(s, b, m.first);
  }

  lemma StillEmpty(s: Store, b: Store, p: nat)
    requires OnlyHeader(s, b) && p >= 1 && p in s && HeapOk(s, p) && HeapPages(s, p) == {p} && HeapRows(s, p) == map[]
    ensures HeapRows(b, p) == map[]
  {
    hide HeapOk, HeapPages, HeapRows;
    HeapFrame(s, b, p);
  }

  /** An index has been made: complete in `s`, and then its entry in the catalog. */
  ghost predicate IndexMade(a: Store, s: Store, b: Store, tables: Tables, indexes: Indexes, indexNames: Names, x: IndexMeta) {
    && IndexAccepted(tables, indexes, indexNames, x) && x.header >= 1
    && var m := tables[x.table];
       && IndexAdded(a, s, m.schema, m.first, PositionOf(m.schema, x.column), x.header)
       && OnlyHeader(s, b) && OnPage(b, tables, indexes[KeyOfIndex(x) := x])
  }

  lemma MadeIndexParts(a: Store, s: Store, b: Store, tables: Tables, indexes: Indexes, indexNames: Names, x: IndexMeta)
    requires IndexMade(a, s, b, tables, indexes, indexNames, x)
    ensures IndexAccepted(tables, indexes, indexNames, x) && x.header >= 1 && x.table in tables && KeyOfIndex(x) !in indexes
    ensures IndexAdded(a, s, tables[x.table].schema, tables[x.table].first, PositionOf(tables[x.table].schema, x.column), x.header)
    ensures OnlyHeader(s, b) && OnPage(b, tables, indexes[KeyOfIndex(x) := x])
  {
    hide IndexAdded, PositionOf, KeyOfIndex, OnlyHeader, OnPage, HasColumn;
  }

  /** An index that has been made leaves the engine in order, and all tables have the rows
      that they had. */
  lemma IndexMadeKeepsEngine(a: Store, s: Store, b: Store, tables: Tables, indexes: Indexes, indexNames: Names, names: seq<Bytes>,
                             db: seq<TableInfo>, lost: set<nat>, x: IndexMeta, k: nat)
    requires EngineOk(a, tables, indexes, indexNames, names, db, lost) && IndexMade(a, s, b, tables, indexes, indexNames, x)
    requires k < |names| && k < |db| && names[k] == x.table
    ensures EngineOk(b, tables, indexes[KeyOfIndex(x) := x], indexNames[x.name := KeyOfIndex(x)], names,
                     db[k := WithIndex(db[k], PositionOf(db[k].schema, x.column), x.header)], lost)
    ensures forall j: nat :: j < |db| ==> HeapRows(b, db[j].first) == HeapRows(a, db[j].first)
  {
    hide *;
    EngineParts(a, tables, indexes, indexNames, names, db, lost);
    MadeIndexParts(a, s, b, tables, indexes, indexNames, x);
    NamedTable(a, tables, indexes, indexNames, names, db, lost, k, x.table);
    var column := PositionOf(db[k].schema, x.column);
    AddedParts(a, s, db[k].schema, db[k].first, column, x.header);
    IndexBuilt(a, s, db[k], column, x.header);
    HeaderIsZero();
    AcceptedIndexFits(tables, indexes, indexNames, x);
    IndexAddedKeepsEngine(a, s, b, tables, indexes, indexNames, names, db, lost, k, x, x.header);
  }

  lemma HeaderIsZero()
    ensures HEADER_PAGE_ID == 0
  {
  }

  /** The statements that change the schema. */
  class DefinitionExecutor {
    const bpm: BufferPoolManager
    const catalog: CatalogManager

    constructor (bpm: BufferPoolManager, catalog: CatalogManager)
      ensures this.bpm == bpm && this.catalog == catalog
    {
      this.bpm := bpm;
      this.catalog := catalog;
    }

    // ---- The loop of CREATE INDEX ----

    /** `scan` reads table `t`, and `index` is to be an index of it. */
    ghost predicate Wired(scan: SeqScanOperator, index: HashIndex, a: Store, t: TableInfo) {
      && index.bpm == bpm && scan.heapFile.bpm == bpm && scan !in bpm.Repr
      && scan.heapFile.firstPageId == t.first && TableOk(a, t)
    }

    lemma WiredParts(scan: SeqScanOperator, index: HashIndex, a: Store, t: TableInfo)
      requires Wired(scan, index, a, t)
      ensures index.bpm == bpm && scan.heapFile.bpm == bpm && scan !in bpm.Repr
      ensures scan.heapFile.firstPageId == t.first && TableOk(a, t)
      ensures HEADER_PAGE_ID == 0
    {
      hide TableOk;
    }

    /** The state of the construction after `k` rows. */
    ghost predicate Progress(scan: SeqScanOperator, index: HashIndex, a: Store, t: TableInfo, column: nat, k: nat)
      reads bpm.Repr, scan
    {
      && bpm.Valid() && Building(a, bpm.Store(), index.headerPageId)
      && BuiltUpTo(a, bpm.Store(), t, column, index.headerPageId, k)
      && scan.At(bpm.Store(), k)
    }

    lemma ProgressParts(scan: SeqScanOperator, index: HashIndex, a: Store, t: TableInfo, column: nat, k: nat)
      requires Progress(scan, index, a, t, column, k)
      ensures bpm.Valid() && Building(a, bpm.Store(), index.headerPageId)
      ensures BuiltUpTo(a, bpm.Store(), t, column, index.headerPageId, k)
      ensures scan.At(bpm.Store(), k)
    {
      hide Building, BuiltUpTo;
    }

    lemma MakeProgress(scan: SeqScanOperator, index: HashIndex, a: Store, t: TableInfo, column: nat, k: nat)
      requires bpm.Valid() && Building(a, bpm.Store(), index.headerPageId)
      requires BuiltUpTo(a, bpm.Store(), t, column, index.headerPageId, k) && scan.At(bpm.Store(), k)
      ensures Progress(scan, index, a, t, column, k)
    {
      hide Building, BuiltUpTo;
    }

    /** Puts a pair into the index under construction. */
    method InsertPair(index: HashIndex, key: Bytes, rid: RecordID, ghost a: Store, ghost result: KeyResult) returns (status: StatusCode)
      requires bpm.Valid() && index.bpm == bpm && Building(a, bpm.Store(), index.headerPageId)
      requires KeyMatches(Some(key), result) && rid.pageId in a && 0 < rid.pageId && rid.slotId < 1020
      modifies bpm.Repr
      ensures bpm.Valid() && bpm.Pins() == old(bpm.Pins()) && Building(a, bpm.Store(), index.headerPageId)
      ensures IndexPairs(bpm.Store(), index.headerPageId)
           == IndexPairs(old(bpm.Store()), index.headerPageId) + if status == OK then KeySet(Some(key), rid) else {}
      ensures old(bpm.Ready()) ==> status in {OK, OUT_OF_MEMORY}
      ensures old(bpm.Ready()) && NewOwned(a, old(bpm.Store()), IndexPages(old(bpm.Store()), index.headerPageId)) && Counted(a, old(bpm.Store()), index.headerPageId) ==>
                PairCounted(a, old(bpm.Store()), bpm.Store(), index.headerPageId, KeySet(Some(key), rid), status, bpm.disk.capacity)
      ensures old(bpm.Ready()) && NewOwned(a, old(bpm.Store()), IndexPages(old(bpm.Store()), index.headerPageId)) ==>
                NewOwned(a, bpm.Store(), IndexPages(bpm.Store(), index.headerPageId))
    {
      hide *;
      ghost var s, h := bpm.Store(), index.headerPageId;
      BuildingPages(a, s, h);
      KeyIsIndexable(key, result, rid);
      bpm.InStore(rid.pageId);
      SmallPage(rid.pageId);
      bpm.ReadyParts();
      status := index.Insert(key, rid);
      BuildingStep(a, s, bpm.Store(), h, Pair(key, rid), status);
      if old(bpm.Ready()) {
        ReliableStep(s, bpm.Store(), h, Pair(key, rid), status);
        if NewOwned(a, s, IndexPages(s, h)) && Counted(a, s, h) {
          CountedStep(a, s, bpm.Store(), h, Pair(key, rid), status, bpm.disk.capacity);
        }
        PairCountedParts(a, s, bpm.Store(), h, KeySet(Some(key), rid), status, bpm.disk.capacity);
      }
    }

    static lemma SmallPage(p: int)
      ensures p < MAX_PAGES ==> p < 0x8000_0000
    {
    }

    /** Puts the next row of the scan into the index; `more` unless the scan is over or
        something has failed. */
    method IndexNextRow(scan: SeqScanOperator, index: HashIndex, schema: Schema, column: nat, ghost a: Store, ghost t: TableInfo, ghost k: nat)
      returns (more: bool, status: StatusCode)
      requires Wired(scan, index, a, t) && schema == t.schema && Progress(scan, index, a, t, column, k)
      modifies scan, bpm.Repr
      ensures bpm.Valid() && bpm.Pins() == old(bpm.Pins()) && Building(a, bpm.Store(), index.headerPageId)
      ensures more ==> status == OK && k < |ScanOrder(a, t.first)| && Progress(scan, index, a, t, column, k + 1)
      ensures !more && status == OK && scan.scanStatus == OK ==>
                k == |ScanOrder(a, t.first)| && BuiltUpTo(a, bpm.Store(), t, column, index.headerPageId, k)
      ensures old(bpm.Ready()) ==> scan.scanStatus == OK && status in {OK, INVALID_ARGUMENT, OUT_OF_MEMORY}
      ensures old(bpm.Ready()) && status == INVALID_ARGUMENT ==> !AllKeyed(HeapRows(a, t.first), t.schema, column)
      ensures old(bpm.Ready()) && NewOwned(a, old(bpm.Store()), IndexPages(old(bpm.Store()), index.headerPageId)) && Counted(a, old(bpm.Store()), index.headerPageId) ==>
                && (status == OK ==> Counted(a, bpm.Store(), index.headerPageId))
                && (status == OUT_OF_MEMORY ==> |a| + 1 + IndexNeeds(RowPairs(HeapRows(a, t.first), t.schema, column)) > bpm.disk.capacity)
      ensures old(bpm.Ready()) && NewOwned(a, old(bpm.Store()), IndexPages(old(bpm.Store()), index.headerPageId)) ==>
                NewOwned(a, bpm.Store(), IndexPages(bpm.Store(), index.headerPageId))
    {
      hide *;
      WiredParts(scan, index, a, t);
      ProgressParts(scan, index, a, t, column, k);
      bpm.ReadyParts();
      ghost var s, h := bpm.Store(), index.headerPageId;
      TableMeanwhile(a, s, t, h);
      status := OK;
      var found, record, rid := scan.Next(k);
      if !found {
        return false, status;
      }
      RowMeanwhile(a, s, t, h, k, record, rid);
      var key;
      status, key := EncodeColumn(schema, record, column);
      if status != OK {
        NotAllKeyed(HeapRows(a, t.first), t.schema, column, rid);
        return false, status;
      }
      if key.Some? {
        bpm.ReadyParts();
        status := InsertPair(index, key.value, rid, a, RecordKey(t.schema, record, column));
        PairCountedParts(a, s, bpm.Store(), h, KeySet(Some(key.value), rid), status, bpm.disk.capacity);
        if status == OUT_OF_MEMORY && |a| + 1 + IndexNeeds(IndexPairs(s, h) + KeySet(key, rid)) > bpm.disk.capacity {
          TooManyRows(a, s, t, column, h, k, rid, record, key, bpm.disk.capacity);
        }
        if status != OK {
          return false, status;
        }
        TableMeanwhile(a, bpm.Store(), t, h);
        SameScan(scan, s, bpm.Store(), k + 1);
      } else {
        NoKeyNoPair(rid);
      }
      BuiltOneMore(a, s, bpm.Store(), t, column, h, k, rid, record, key);
      MakeProgress(scan, index, a, t, column, k + 1);
      more := true;
    }

    /** Scans the table and puts its rows into an index that has no pairs yet. */
    method FillIndex(index: HashIndex, schema: Schema, first: nat, column: nat, ghost a: Store, ghost t: TableInfo) returns (status: StatusCode)
      requires bpm.Valid() && index.bpm == bpm && TableOk(a, t) && schema == t.schema && first == t.first
      requires Building(a, bpm.Store(), index.headerPageId) && IndexPairs(bpm.Store(), index.headerPageId) == {}
      requires NewOwned(a, bpm.Store(), IndexPages(bpm.Store(), index.headerPageId)) && Counted(a, bpm.Store(), index.headerPageId)
      modifies bpm.Repr
      ensures bpm.Valid() && bpm.Pins() == old(bpm.Pins()) && Building(a, bpm.Store(), index.headerPageId)
      ensures old(bpm.Ready()) ==> NewOwned(a, bpm.Store(), IndexPages(bpm.Store(), index.headerPageId))
      ensures status == OK ==> IndexPairs(bpm.Store(), index.headerPageId) == RowPairs(HeapRows(a, t.first), t.schema, column)
      ensures status == OK ==> AllKeyed(HeapRows(a, t.first), t.schema, column)
      ensures old(bpm.Ready()) ==> status in {OK, INVALID_ARGUMENT, OUT_OF_MEMORY}
      ensures old(bpm.Ready()) && status == INVALID_ARGUMENT ==> !AllKeyed(HeapRows(a, t.first), t.schema, column)
      ensures old(bpm.Ready()) && status == OK ==> Counted(a, bpm.Store(), index.headerPageId)
      ensures old(bpm.Ready()) && status == OUT_OF_MEMORY ==>
                |a| + 1 + IndexNeeds(RowPairs(HeapRows(a, t.first), t.schema, column)) > bpm.disk.capacity
    {
      hide *;
      ghost var h := index.headerPageId;
      var heapFile := new HeapFile(bpm, first);
      var scan := new SeqScanOperator(heapFile);
      status := scan.Open();
      bpm.ReadyParts();
      MakeWired(scan, index, a, t);
      BuiltNothing(a, bpm.Store(), t, column, h);
      MakeProgress(scan, index, a, t, column, 0);
      var more := true;
      ghost var k: nat := 0;
      while more
        invariant fresh(scan) && scan !in bpm.Repr
        invariant bpm.Valid() && bpm.Pins() == old(bpm.Pins()) && Building(a, bpm.Store(), h)
        invariant more ==> status == OK && k <= |ScanOrder(a, t.first)| && Progress(scan, index, a, t, column, k)
        invariant !more && status == OK && scan.scanStatus == OK ==>
                    k == |ScanOrder(a, t.first)| && BuiltUpTo(a, bpm.Store(), t, column, h, k)
        invariant old(bpm.Ready()) ==> (!more ==> scan.scanStatus == OK) && status in {OK, INVALID_ARGUMENT, OUT_OF_MEMORY}
        invariant old(bpm.Ready()) && status == INVALID_ARGUMENT ==> !AllKeyed(HeapRows(a, t.first), t.schema, column)
        invariant old(bpm.Ready()) ==> NewOwned(a, bpm.Store(), IndexPages(bpm.Store(), h))
        invariant old(bpm.Ready()) && status == OK ==> Counted(a, bpm.Store(), h)
        invariant old(bpm.Ready()) && status == OUT_OF_MEMORY ==>
                    |a| + 1 + IndexNeeds(RowPairs(HeapRows(a, t.first), t.schema, column)) > bpm.disk.capacity
        decreases |ScanOrder(a, t.first)| - k, more
        modifies scan, bpm.Repr
      {
        bpm.ReadyParts();
        more, status := IndexNextRow(scan, index, schema, column, a, t, k);
        if more {
          k := k + 1;
        }
      }
      var closed := scan.Close();
      if status == OK {
        status := closed;
        if status == OK {
          BuiltAll(a, bpm.Store(), t, column, h);
        }
      }
    }

    lemma MakeWired(scan: SeqScanOperator, index: HashIndex, a: Store, t: TableInfo)
      requires index.bpm == bpm && scan.heapFile.bpm == bpm && scan !in bpm.Repr
      requires scan.heapFile.firstPageId == t.first && TableOk(a, t)
      ensures Wired(scan, index, a, t)
    {
      hide TableOk;
    }

    // ---- CREATE TABLE ----

    /** Allocates and formats the first page of a table and writes it to the file. */
    method NewTablePage() returns (status: StatusCode, pageId: int)
      requires bpm.Valid()
      modifies bpm.Repr
      ensures bpm.Valid() && bpm.Pins() == old(bpm.Pins())
      ensures status == OK ==> 0 < pageId < MAX_PAGES && EmptyPageStep(old(bpm.Store()), bpm.Store(), pageId)
      ensures status != OK && old(bpm.Ready()) ==> bpm.Store() == old(bpm.Store())
      ensures status in {OK, OUT_OF_MEMORY, IO_ERROR}
      ensures old(bpm.Ready()) ==> status != IO_ERROR && (status == OK <==> |old(bpm.Store())| < bpm.disk.capacity)
    {
      hide *;
      bpm.ReadyParts();
      bpm.PinsInStore();
      ghost var a := bpm.Store();
      var page;
      page, pageId := bpm.NewPage();
      if page == null {
        return OUT_OF_MEMORY, pageId;
      }
      bpm.HoldsParts(page, pageId);
      SmallId(pageId);
      label Allocated:
      var slotted := new SlottedPage(page);
      status := slotted.Init();
      bpm.WroteThrough@Allocated(pageId);
      bpm.HoldsParts(page, pageId);
      MakeEmptyPageStep(a, bpm.Store(), pageId);
      var unpinned := bpm.UnpinPage(pageId, status.OK?);
      assert bpm.Pins() == old(bpm.Pins());
      var flushed := bpm.FlushPage(pageId);
      if !flushed {
        var deleted := bpm.DeletePage(pageId);
        return IO_ERROR, pageId;
      }
    }

    static lemma SmallId(p: int)
      requires 1 <= p < MAX_PAGES || 1 <= p < 0x8000_0000
      ensures IsInt32(p) && p != INVALID_PAGE_ID && p < 0x8000_0000 && HEADER_PAGE_ID == 0
    {
    }

    /** Enters a new table without rows. A name or a column that is not allowed, a page
        that cannot be had or a catalog that is full leaves everything as it was. */
    method ExecuteCreateTable(name: Bytes, definitions: seq<ColumnDefinition>, ghost names: seq<Bytes>, ghost db: seq<TableInfo>,
                              ghost lost: set<nat>)
      returns (status: StatusCode, ghost t: TableInfo, ghost s: Store)
      requires bpm.Valid() && catalog.bpm == bpm && catalog !in bpm.Repr && catalog.status == OK
      requires EngineOk(bpm.Store(), catalog.tables, catalog.indexes, catalog.indexNames, names, db, lost)
      modifies catalog`tables, bpm.Repr
      ensures bpm.Valid() && bpm.Pins() == old(bpm.Pins())
      ensures status == OK ==>
                && name != [] && name !in old(catalog.tables) && Definable(definitions) && Defines(definitions, t.schema)
                && t.indexes == [] && HeapRows(bpm.Store(), t.first) == map[]
                && name in catalog.tables && catalog.tables == old(catalog.tables)[name := catalog.tables[name]]
                && catalog.tables[name].name == name && catalog.tables[name].schema == t.schema && catalog.tables[name].first == t.first
                && EngineOk(bpm.Store(), catalog.tables, catalog.indexes, catalog.indexNames, names + [name], db + [t], lost)
      ensures status == OK ==>
                name in catalog.tables && TableMade(old(bpm.Store()), s, bpm.Store(), old(catalog.tables), catalog.indexes, catalog.tables[name])
      ensures status != OK ==> catalog.tables == old(catalog.tables)
      ensures name == [] || !Definable(definitions) || name in old(catalog.tables) ==> status == INVALID_ARGUMENT && bpm.Store() == old(bpm.Store())
      ensures old(bpm.Ready()) && status != OK ==> bpm.Store() == old(bpm.Store())
      ensures old(bpm.Ready()) ==>
                TableStatusIs(old(bpm.Store()), old(catalog.tables), catalog.indexes, name, definitions, status, bpm.disk.capacity)
    {
      hide *;
      t, s := TableInfo([], 0, []), bpm.Store();
      ghost var a, before := bpm.Store(), catalog.tables;
      EngineParts(a, before, catalog.indexes, catalog.indexNames, names, db, lost);
      NotDefinable(definitions);
      TableNotAccepted(a, before, catalog.indexes, name, definitions, bpm.disk.capacity);
      bpm.ReadyParts();
      bpm.PinsInStore();
      if name == [] || definitions == [] {
        return INVALID_ARGUMENT, t, s;
      }
      if name in catalog.tables {
        return INVALID_ARGUMENT, t, s;
      }
      var ok, schema := BuildColumns(definitions);
      if !ok {
        return INVALID_ARGUMENT, t, s;
      }
      DefinedFits(definitions, schema);
      TableAcceptedStatus(a, before, catalog.indexes, name, definitions, schema, bpm.disk.capacity);
      var pageId;
      status, pageId := NewTablePage();
      if status != OK {
        return status, t, s;
      }
      SmallId(pageId);
      EmptyPageParts(a, bpm.Store(), pageId);
      bpm.ReadyParts();
      t, s := TableInfo(schema, pageId, []), bpm.Store();
      TableRoomIs(a, before, catalog.indexes, name, schema, pageId, bpm.disk.capacity);
      catalog.MakeValid();
      status := EnterTable(name, schema, pageId, a);
      if status == OK {
        TableMadeKeepsEngine(a, s, bpm.Store(), before, catalog.indexes, catalog.indexNames, names, db, lost, TableMeta(name, schema, pageId));
      }
    }

    /** The end of CREATE TABLE: the catalog entry, or else the page is given back. */
    method EnterTable(name: Bytes, schema: Schema, first: Int32, ghost a: Store) returns (status: StatusCode)
      requires bpm.Valid() && catalog.bpm == bpm && catalog !in bpm.Repr && catalog.status == OK && catalog.Valid()
      requires 0 in a && name !in catalog.tables
      requires first > 0 && EmptyPageStep(a, bpm.Store(), first) && first !in bpm.Pins()
      requires name != [] && schema != [] && forall k: nat :: k < |schema| ==> ColumnFits(schema[k])
      modifies catalog`tables, bpm.Repr
      ensures bpm.Valid() && bpm.Pins() == old(bpm.Pins()) && catalog.Valid()
      ensures status == OK ==>
                && catalog.tables == old(catalog.tables)[name := TableMeta(name, schema, first)]
                && TableMade(a, old(bpm.Store()), bpm.Store(), old(catalog.tables), catalog.indexes, TableMeta(name, schema, first))
      ensures status != OK ==> catalog.tables == old(catalog.tables)
      ensures old(bpm.Ready()) && status != OK ==> bpm.Store() == a && status == OUT_OF_MEMORY
      ensures old(bpm.Ready()) ==>
                (status == OK <==> CatalogSize(old(catalog.tables)[name := TableMeta(name, schema, first)], catalog.indexes) <= PAGE_SIZE)
    {
      hide *;
      ghost var s, before := bpm.Store(), catalog.tables;
      ghost var m := TableMeta(name, schema, first);
      EmptyPageParts(a, s, first);
      SmallId(first);
      catalog.TableAcceptedIs(before, m);
      NamedColumns(schema);
      bpm.ReadyParts();
      status := catalog.CreateTable(name, schema, first);
      if status != OK {
        EnteredOr(s, bpm.Store(), before, catalog.tables, catalog.indexes, m, status);
        var deleted := bpm.DeletePage(first);
        PageGone(a, s, bpm.Store(), first);
        return;
      }
      TableIsEntered(s, bpm.Store(), before, catalog.tables, catalog.indexes, m);
      MakeTableMade(a, s, bpm.Store(), before, catalog.indexes, m);
    }

    static lemma NamedColumns(schema: Schema)
      requires forall k: nat :: k < |schema| ==> ColumnFits(schema[k])
      ensures AllNamed(schema) && forall k: nat :: k < |schema| ==> schema[k].length < 0x1_0000_0000
    {
    }

    static lemma MakeTableMade(a: Store, s: Store, b: Store, tables: Tables, indexes: Indexes, m: TableMeta)
      requires TableAccepted(tables, m) && m.first > 0 && EmptyPageStep(a, s, m.first)
      requires forall k: nat :: k < |m.schema| ==> ColumnFits(m.schema[k])
      requires OnlyHeader(s, b) && OnPage(b, tables[m.name := m], indexes)
      ensures TableMade(a, s, b, tables, indexes, m)
    {
      hide TableAccepted, EmptyPageStep, ColumnFits, OnlyHeader, OnPage;
    }

    static lemma PageGone(a: Store, s: Store, b: Store, p: nat)
      requires s - {p} == a
      ensures b - {p} == s - {p} && p !in b ==> b == a
    {
      if b - {p} == s - {p} && p !in b {
        assert b - {p} == b;
      }
    }

    static lemma NotDefinable(definitions: seq<ColumnDefinition>)
      ensures definitions == [] ==> !Definable(definitions)
    {
    }

    static lemma TableIsEntered(s: Store, b: Store, before: Tables, after: Tables, indexes: Indexes, m: TableMeta)
      requires TableEntered(s, b, before, after, indexes, m, OK)
      ensures after == before[m.name := m] && OnlyHeader(s, b) && OnPage(b, after, indexes)
    {
      hide OnPage, OnlyHeader, TableAccepted;
    }

    static lemma EnteredOr(s: Store, b: Store, before: Tables, after: Tables, indexes: Indexes, m: TableMeta, status: StatusCode)
      requires TableEntered(s, b, before, after, indexes, m, status) && status != OK
      ensures after == before
    {
      hide OnPage, OnlyHeader, TableAccepted;
    }

    // ---- CREATE INDEX ----

    /** Allocates an index and fills it from the table; without disk faults a failure
        leaves the pages as they were. */
    method BuildIndex(schema: Schema, first: nat, column: nat, ghost t: TableInfo) returns (status: StatusCode, header: int)
      requires bpm.Valid() && TableOk(bpm.Store(), t) && schema == t.schema && first == t.first
      modifies bpm.Repr
      ensures bpm.Valid() && bpm.Pins() == old(bpm.Pins())
      ensures status == OK ==> 0 < header < 0x8000_0000 && IndexReady(old(bpm.Store()), bpm.Store(), t, column, header)
      ensures status == OK && old(bpm.Ready()) ==> header >= 0 && NewOwned(old(bpm.Store()), bpm.Store(), IndexPages(bpm.Store(), header))
      ensures status != OK && old(bpm.Ready()) ==> bpm.Store() == old(bpm.Store()) && status in {INVALID_ARGUMENT, OUT_OF_MEMORY}
      ensures status == OK ==> AllKeyed(HeapRows(old(bpm.Store()), t.first), t.schema, column)
      ensures status == INVALID_ARGUMENT && old(bpm.Ready()) ==> !AllKeyed(HeapRows(old(bpm.Store()), t.first), t.schema, column)
      ensures status != INVALID_ARGUMENT && old(bpm.Ready()) ==>
                (status == OK <==> |old(bpm.Store())| + 1 + IndexNeeds(RowPairs(HeapRows(old(bpm.Store()), t.first), t.schema, column)) <= bpm.disk.capacity)
    {
      hide *;
      ghost var a := bpm.Store();
      bpm.ReadyParts();
      bpm.PinsInStore();
      DefaultCount();
      status, header := HashIndex.Create(bpm, DEFAULT_BUCKET_COUNT);
      if status != OK {
        return;
      }
      BuildingStart(a, bpm.Store(), header, DEFAULT_BUCKET_COUNT);
      CountedStart(a, bpm.Store(), header);
      bpm.ReadyParts();
      var index := new HashIndex(bpm, header);
      status := FillIndex(index, schema, first, column, a, t);
      ghost var s := bpm.Store();
      NotPinnedYet(a, s, header, bpm.Pins());
      BuildingPages(a, s, header);
      bpm.ReadyParts();
      if status != OK {
        var cleanup := index.Destroy();
        if old(bpm.Ready()) {
          GivenBack(a, s, bpm.Store(), header);
        }
        if cleanup != OK {
          status := IO_ERROR;
        }
        return;
      }
      CountedParts(a, s, header);
      bpm.StoreSize();
      MakeIndexReady(a, s, t, column, header);
      HeaderInStore(s, header);
      bpm.InStore(header);
      SmallPage(header);
      bpm.FlushAllPages();
    }

    static lemma DefaultCount()
      ensures DEFAULT_BUCKET_COUNT == 64 <= MAX_BUCKET_COUNT
    {
    }

    static lemma HeaderInStore(s: Store, h: nat)
      requires IndexOk(s, h)
      ensures h in s
    {
      hide *;
      IndexChains(s, h);
      PagesAllocated(s, h, ChainsFor(s, h));
    }

    static lemma MakeIndexReady(a: Store, s: Store, t: TableInfo, column: nat, h: nat)
      requires TableOk(a, t) && Building(a, s, h)
      requires IndexPairs(s, h) == RowPairs(HeapRows(a, t.first), t.schema, column) && AllKeyed(HeapRows(a, t.first), t.schema, column)
      ensures IndexReady(a, s, t, column, h)
    {
      hide TableOk, Building, IndexPairs, RowPairs, HeapRows, RecordKey, TablePages, IndexPages;
      IndexBuilt(a, s, t, column, h);
    }

    /** Creates an index on a column of a table and fills it. On failure nothing changes,
        with one exception: for an empty index name the catalog refuses the finished index
        without destroying it, and just its pages stay behind. */
    method ExecuteCreateIndex(name: Bytes, table: Bytes, column: Bytes, ghost names: seq<Bytes>, ghost db: seq<TableInfo>,
                              ghost lost: set<nat>, ghost k: nat)
      returns (status: StatusCode, ghost t: TableInfo, ghost s: Store, ghost h: nat)
      requires bpm.Valid() && catalog.bpm == bpm && catalog !in bpm.Repr && catalog.status == OK
      requires EngineOk(bpm.Store(), catalog.tables, catalog.indexes, catalog.indexNames, names, db, lost)
      requires table in catalog.tables ==> k < |names| && k < |db| && names[k] == table
      modifies catalog`indexes, catalog`indexNames, bpm.Repr
      ensures bpm.Valid() && bpm.Pins() == old(bpm.Pins())
      ensures status == OK ==> IndexDefined(old(bpm.Store()), bpm.Store(), old(catalog.tables), old(catalog.indexes), catalog.indexes,
                                            old(catalog.indexNames), catalog.indexNames, db, k, t, name, table, column)
      ensures status == OK && old(bpm.Ready()) ==>
                k < |db| && EngineOk(bpm.Store(), catalog.tables, catalog.indexes, catalog.indexNames, names, db[k := t], lost)
      ensures status == OK && old(bpm.Ready()) ==>
                MakeIndexKey(table, column) in catalog.indexes
                && IndexMade(old(bpm.Store()), s, bpm.Store(), catalog.tables, old(catalog.indexes), old(catalog.indexNames),
                             catalog.indexes[MakeIndexKey(table, column)])
      ensures status != OK ==> catalog.indexes == old(catalog.indexes) && catalog.indexNames == old(catalog.indexNames)
      ensures old(bpm.Ready()) && status != OK && name != [] ==> bpm.Store() == old(bpm.Store())
      ensures old(bpm.Ready()) && name == [] ==>
                if status == INVALID_ARGUMENT && Buildable(old(bpm.Store()), catalog.tables, catalog.indexes, table, column) then
                  && table in catalog.tables && h >= 1
                  && var m := catalog.tables[table];
                     && IndexAdded(old(bpm.Store()), bpm.Store(), m.schema, m.first, PositionOf(m.schema, column), h)
                     && LeftBehind(bpm.Store(), catalog.tables, catalog.indexes, catalog.indexNames, names, db, lost, IndexPages(bpm.Store(), h))
                     && bpm.Store() != old(bpm.Store())
                else
                  status != OK && bpm.Store() == old(bpm.Store())
      ensures status == OK ==> name != [] && name !in old(catalog.indexNames)
                               && Buildable(old(bpm.Store()), catalog.tables, old(catalog.indexes), table, column)
      ensures old(bpm.Ready()) ==>
                IndexStatusIs(old(bpm.Store()), catalog.tables, old(catalog.indexes), old(catalog.indexNames), name, table, column, status,
                              bpm.disk.capacity)
    {
      hide *;
      ghost var a := bpm.Store();
      t, s, h := TableInfo([], 0, []), a, 0;
      EngineParts(a, catalog.tables, catalog.indexes, catalog.indexNames, names, db, lost);
      BuildableIs(a, catalog.tables, catalog.indexes, table, column);
      forall status: StatusCode {
        IndexStatusMeans(a, catalog.tables, catalog.indexes, catalog.indexNames, name, table, column, status, bpm.disk.capacity);
      }
      NoEmptyIndexName(catalog.tables, catalog.indexes, catalog.indexNames);
      bpm.ReadyParts();
      bpm.PinsInStore();
      if MakeIndexKey(table, column) in catalog.indexes {
        return INVALID_ARGUMENT, t, s, h;
      }
      if name in catalog.indexNames {
        return INVALID_ARGUMENT, t, s, h;
      }
      if table !in catalog.tables {
        return NOT_FOUND, t, s, h;
      }
      NamedTable(a, catalog.tables, catalog.indexes, catalog.indexNames, names, db, lost, k, table);
      IndexConditions(a, catalog.tables[table], catalog.tables, catalog.indexes, name, table, column, bpm.disk.capacity);
      var schema, first := catalog.tables[table].schema, catalog.tables[table].first;
      var found, position := FindColumn(schema, column);
      if !found {
        return NOT_FOUND, t, s, h;
      }
      var header;
      status, header := BuildIndex(schema, first, position, db[k]);
      if status != OK {
        return status, t, s, h;
      }
      t, s, h := WithIndex(db[k], position, header), bpm.Store(), header;
      SizeOfIndex(catalog.tables, catalog.indexes, name, table, column, header);
      bpm.ReadyParts();
      catalog.MakeValid();
      status := EnterIndex(name, table, column, header, a, db, k);
      if old(bpm.Ready()) {
        ReadyIsAdded(a, s, db[k], position, h);
        if status == OK {
          MakeIndexMade(a, s, bpm.Store(), catalog.tables, old(catalog.indexes), old(catalog.indexNames), IndexMeta(name, table, column, header));
          IndexMadeKeepsEngine(a, s, bpm.Store(), catalog.tables, old(catalog.indexes), old(catalog.indexNames), names, db, lost,
                               IndexMeta(name, table, column, header), k);
        } else if name == [] {
          LeakIsLost(a, s, catalog.tables, catalog.indexes, catalog.indexNames, names, db, lost, schema, first, position, h);
        } else {
          IndexReadyParts(a, s, db[k], position, h);
          BuildingUndone(a, s, h);
        }
      }
    }

    static lemma MakeIndexMade(a: Store, s: Store, b: Store, tables: Tables, indexes: Indexes, indexNames: Names, x: IndexMeta)
      requires IndexAccepted(tables, indexes, indexNames, x) && x.header >= 1 && x.table in tables
      requires IndexAdded(a, s, tables[x.table].schema, tables[x.table].first, PositionOf(tables[x.table].schema, x.column), x.header)
      requires OnlyHeader(s, b) && OnPage(b, tables, indexes[KeyOfIndex(x) := x])
      ensures IndexMade(a, s, b, tables, indexes, indexNames, x)
    {
      hide IndexAdded, PositionOf, KeyOfIndex, OnlyHeader, OnPage, IndexAccepted;
    }

    /** The end of CREATE INDEX: the catalog takes the index or refuses it. */
    method EnterIndex(name: Bytes, table: Bytes, column: Bytes, header: Int32, ghost a: Store, ghost db: seq<TableInfo>, ghost k: nat)
      returns (status: StatusCode)
      requires bpm.Valid() && catalog.bpm == bpm && catalog !in bpm.Repr && catalog.status == OK && catalog.Valid()
      requires k < |db| && table in catalog.tables && HasColumn(db[k].schema, column) && 0 in a
      requires catalog.tables[table].schema == db[k].schema
      requires MakeIndexKey(table, column) !in catalog.indexes && name !in catalog.indexNames
      requires header > 0 && IndexReady(a, bpm.Store(), db[k], PositionOf(db[k].schema, column), header)
      requires forall p :: p in bpm.Pins() ==> p in a
      modifies catalog`indexes, catalog`indexNames, bpm.Repr
      ensures bpm.Valid() && bpm.Pins() == old(bpm.Pins()) && catalog.Valid()
      ensures status == OK ==> IndexDefined(a, bpm.Store(), old(catalog.tables), old(catalog.indexes), catalog.indexes,
                                            old(catalog.indexNames), catalog.indexNames, db, k,
                                            WithIndex(db[k], PositionOf(db[k].schema, column), header), name, table, column)
      ensures status == OK ==>
                var x := IndexMeta(name, table, column, header);
                && IndexAccepted(catalog.tables, old(catalog.indexes), old(catalog.indexNames), x) && KeyOfIndex(x) == MakeIndexKey(table, column)
                && catalog.indexes == old(catalog.indexes)[KeyOfIndex(x) := x] && catalog.indexNames == old(catalog.indexNames)[name := KeyOfIndex(x)]
                && OnlyHeader(old(bpm.Store()), bpm.Store()) && OnPage(bpm.Store(), catalog.tables, catalog.indexes)
      ensures status != OK ==> catalog.indexes == old(catalog.indexes) && catalog.indexNames == old(catalog.indexNames)
      ensures name == [] ==> status == INVALID_ARGUMENT && bpm.Store() == old(bpm.Store())
      ensures old(bpm.Ready()) && status != OK && name != [] ==>
                status == OUT_OF_MEMORY && bpm.Store() == old(bpm.Store()) - IndexPages(old(bpm.Store()), header)
      ensures old(bpm.Ready()) && name != [] ==>
                (status == OK <==> CatalogSize(catalog.tables, old(catalog.indexes)[MakeIndexKey(table, column) := IndexMeta(name, table, column, header)])
                                     <= PAGE_SIZE)
    {
      hide *;
      ghost var s, before, beforeNames := bpm.Store(), catalog.indexes, catalog.indexNames;
      ghost var x := IndexMeta(name, table, column, header);
      ghost var position := PositionOf(db[k].schema, column);
      IndexReadyParts(a, s, db[k], position, header);
      NotPinnedYet(a, s, header, bpm.Pins());
      SmallId(header);
      catalog.MakeValid();
      AcceptedIfNamed(catalog.tables, before, beforeNames, x);
      bpm.ReadyParts();
      status := catalog.CreateIndex(name, table, column, header);
      if status != OK {
        NotEntered(s, bpm.Store(), catalog.tables, before, catalog.indexes, beforeNames, catalog.indexNames, x, header, status);
        return;
      }
      IndexIsEntered(s, bpm.Store(), catalog.tables, before, catalog.indexes, beforeNames, catalog.indexNames, x, header);
      BehindHeader(s, bpm.Store(), WithIndex(db[k], position, header));
      MakeIndexDefined(a, bpm.Store(), catalog.tables, before, catalog.indexes, beforeNames, catalog.indexNames, db, k, header, name, table, column);
    }

    static lemma IndexReadyParts(a: Store, s: Store, t: TableInfo, column: nat, h: nat)
      requires IndexReady(a, s, t, column, h) && 0 in a
      ensures Building(a, s, h) && IndexOk(s, h) && 0 in s && s != a
      ensures TableOk(s, WithIndex(t, column, h)) && TablePages(s, WithIndex(t, column, h)) == TablePages(a, t) + IndexPages(s, h)
      ensures WithIndex(t, column, h).first == t.first && HeapRows(s, t.first) == HeapRows(a, t.first)
    {
      assert Building(a, s, h) && 0 in s && h in IndexPages(s, h);
      hide IndexOk, TableOk, TablePages, IndexPages, HeapRows, AllKeyed;
      HeaderInStore(s, h);
    }

    /** Only the name can make the catalog refuse an index that could be built. */
    static lemma AcceptedIfNamed(tables: Tables, indexes: Indexes, names: Names, x: IndexMeta)
      requires WellFormed(tables, indexes, names) && x.table in tables && HasColumn(tables[x.table].schema, x.column)
      requires MakeIndexKey(x.table, x.column) !in indexes && x.name !in names
      ensures IndexAccepted(tables, indexes, names, x) <==> x.name != []
      ensures KeyOfIndex(x) == MakeIndexKey(x.table, x.column)
    {
      var m := tables[x.table];
      assert m.name == x.table && TableFits(m);
      var c: nat :| c < |m.schema| && m.schema[c].name == x.column;
      assert ColumnFits(m.schema[c]);
      hide WellFormed, MakeIndexKey;
    }

    static lemma NotEntered(s: Store, b: Store, tables: Tables, before: Indexes, after: Indexes, names: Names, namesAfter: Names,
                            x: IndexMeta, h: nat, status: StatusCode)
      requires IndexEntered(s, b, tables, before, after, names, namesAfter, x, h, status) && status != OK
      ensures after == before && namesAfter == names
      ensures !IndexAccepted(tables, before, names, x) ==> b == s
    {
      hide IndexAccepted, IndexGivenBack, KeyOfIndex;
    }

    static lemma IndexIsEntered(s: Store, b: Store, tables: Tables, before: Indexes, after: Indexes, names: Names, namesAfter: Names,
                                x: IndexMeta, h: nat)
      requires IndexEntered(s, b, tables, before, after, names, namesAfter, x, h, OK)
      ensures after == before[KeyOfIndex(x) := x] && namesAfter == names[x.name := KeyOfIndex(x)]
      ensures OnlyHeader(s, b) && OnPage(b, tables, after)
    {
      hide IndexAccepted, OnlyHeader, OnPage, KeyOfIndex;
    }

    static lemma BehindHeader(s: Store, b: Store, t: TableInfo)
      requires OnlyHeader(s, b) && TableOk(s, t)
      ensures TableOk(b, t) && HeapRows(b, t.first) == HeapRows(s, t.first)
    {
      hide *;
      Engines.HeaderParts(s, b);
      TableOkParts(s, t);
      TableAllocated(s, t);
      TableFrameOk(s, b, t);
    }

    static lemma MakeIndexDefined(a: Store, b: Store, tables: Tables, before: Indexes, after: Indexes, names: Names, namesAfter: Names,
                                  db: seq<TableInfo>, k: nat, header: Int32, name: Bytes, table: Bytes, column: Bytes)
      requires k < |db| && table in tables && HasColumn(tables[table].schema, column) && MakeIndexKey(table, column) !in before
      requires name !in names && name != [] && header > 0
      requires TableOk(b, WithIndex(db[k], PositionOf(db[k].schema, column), header))
      requires HeapRows(b, WithIndex(db[k], PositionOf(db[k].schema, column), header).first)
            == HeapRows(a, WithIndex(db[k], PositionOf(db[k].schema, column), header).first)
      requires after == before[MakeIndexKey(table, column) := IndexMeta(name, table, column, header)]
      requires namesAfter == names[name := MakeIndexKey(table, column)]
      ensures IndexDefined(a, b, tables, before, after, names, namesAfter, db, k,
                           WithIndex(db[k], PositionOf(db[k].schema, column), header), name, table, column)
    {
      hide TableOk, HeapRows, HasColumn, MakeIndexKey, PositionOf, WithIndex;
    }
  }
}
