// What a client can rely on: which values a column takes, which rows can be stored, and which
// columns can have an index.
module Guarantees {
  import opened Common
  import opened ByteFormat
  import SlottedFormat
  import opened RecordFormat
  import opened RecordCodecs
  import opened IndexKeys
  import opened CatalogFormat
  import opened Catalogs
  import opened CatalogManagers
  import opened PageChains
  import opened HeapStates
  import opened IndexStates
  import opened IndexOutcomes
  import opened TableStates
  import opened TableOutcomes
  import opened TableRooms
  import opened TableEntries
  import opened StatementOutcomes
  import opened Databases
  import opened IndexBuilds
  import opened Engines
  import opened TableLoads
  import opened ColumnDefinitions
  import opened DataDefinition
  import opened EngineRuns

  // ---- Rows ----

  /** The row has a text of more than 63 bytes in that column. */
  predicate LongText(values: seq<Value>, column: nat) {
    column < |values| && values[column].Text? && |values[column].s| > 63
  }

  /** A row can be stored exactly if its values fit the columns, its record fits 4096 bytes,
      and no text in an indexed column is longer than 63 bytes. */
  lemma InsertableMeans(t: TableInfo, values: seq<Value>)
    ensures Insertable(t, values) <==>
              && RowFits(t.schema, values) && RecordSize(values) <= 4096
              && forall i: nat :: i < |t.indexes| ==> t.indexes[i].column < |values| && !LongText(values, t.indexes[i].column)
  {
    KeysMean(t, values);
    assert PAGE_SIZE == 4096 && LIMIT16 == 65535;
    hide RowFits, KeysExist, Payload, HeaderSize;
  }

  lemma KeysMean(t: TableInfo, values: seq<Value>)
    ensures KeysExist(t, values) <==>
              forall i: nat :: i < |t.indexes| ==> t.indexes[i].column < |values| && !LongText(values, t.indexes[i].column)
  {
    forall i: nat | i < |t.indexes| && t.indexes[i].column < |values|
      ensures values[t.indexes[i].column].Null? || KeyOf(values[t.indexes[i].column]).Some? <==> !LongText(values, t.indexes[i].column)
    {
      WhichValuesHaveKeys(values[t.indexes[i].column]);
    }
    hide KeyOf;
  }

  // ---- INSERT and UPDATE for lack of room ----

  /** The key goes to a bucket of index `i` that has no room for it. */
  ghost predicate NoRoomIn(v: View, i: nat, key: Option<Bytes>) {
    i < |v.rooms| && i < |v.widths| && key.Some? && SlotOf(key.value, v.widths[i]) !in v.rooms[i]
  }

  /** A row that can be stored is refused only if the disk lacks the pages that it needs: one
      for itself if no page of the file has room for it, and one for each index that has none
      in the bucket of its key. */
  lemma InsertRefusedForRoom(s: Store, t: TableInfo, values: seq<Value>, status: StatusCode, capacity: nat)
    requires InsertStatusIs(s, t, values, status, capacity) && Insertable(t, values) && |s| <= capacity && status != OK
    ensures status == OUT_OF_MEMORY
    ensures |s| + 1 + |t.indexes| > capacity || RecordSize(values) > 4076
    ensures !HeapHasRoom(s, t.first, RecordSize(values))
            || (exists i: nat :: i < |t.indexes| && NoRoomIn(ViewOf(s, t), i, KeyAt(values, t.indexes[i].column)))
  {
    hide *;
    var v, keys := ViewOf(s, t), KeysFor(t, values);
    InsertStatusMeans(s, t, values, capacity);
    EmptyPageRoom(RecordSize(values));
    HeapStatusParts(s, t.first, RecordSize(values), capacity);
    PagesAreFew(v, keys, keys, |t.indexes|);
    if HeapHasRoom(s, t.first, RecordSize(values)) {
      var i: nat := SomeKeyNeedsPage(v, keys, |t.indexes|);
      KeysForAt(t, values, i);
    }
  }

  lemma KeysForAt(t: TableInfo, values: seq<Value>, i: nat)
    requires i < |t.indexes|
    ensures i < |KeysFor(t, values)| && KeysFor(t, values)[i] == KeyAt(values, t.indexes[i].column)
  {
    hide KeyAt;
  }

  lemma {:induction false} SomeKeyNeedsPage(v: View, keys: Keys, k: nat) returns (i: nat)
    requires k <= |keys| && RowPages(v, keys, k) > 0
    ensures i < k && NoRoomIn(v, i, keys[i])
  {
    hide SlotOf;
    if KeyPages(v, k - 1, keys[k - 1]) > 0 {
      i := k - 1;
    } else {
      i := SomeKeyNeedsPage(v, keys, k - 1);
    }
  }

  /** An UPDATE of a row whose new record fits in its page is refused only if some key of it
      changes to one that goes to a full bucket, other than that of the old key, and if the
      disk has not a page to spare for every index. */
  lemma UpdateRefusedForRoom(s: Store, t: TableInfo, rid: RecordID, values: seq<Value>, status: StatusCode, capacity: nat)
    requires UpdateStatusIs(s, t, rid, values, status, capacity) && Insertable(t, values) && FitsInPlace(s, t, rid, values)
    requires Decode(t.schema, HeapRows(s, t.first)[rid]).Some? && |s| <= capacity && status != OK
    ensures status == OUT_OF_MEMORY && |s| + |t.indexes| > capacity
    ensures var olds := Decode(t.schema, HeapRows(s, t.first)[rid]).value;
            exists i: nat :: i < |t.indexes| && ChangeNeedsPage(ViewOf(s, t), i, KeyAt(olds, t.indexes[i].column), KeyAt(values, t.indexes[i].column))
  {
    FitsRow(s, t, rid, values);
    hide *;
    var v, olds, news := ViewOf(s, t), KeysFor(t, Decode(t.schema, HeapRows(s, t.first)[rid]).value), KeysFor(t, values);
    UpdateStatusMeans(s, t, rid, values, capacity);
    UpdatePagesAreFew(s, t, rid, values);
    PagesOfUpdate(s, t, rid, values);
    var i: nat := SomeChangeNeedsPage(v, olds, news, |t.indexes|);
    KeysForAt(t, values, i);
    KeysForAt(t, Decode(t.schema, HeapRows(s, t.first)[rid]).value, i);
  }

  lemma FitsRow(s: Store, t: TableInfo, rid: RecordID, values: seq<Value>)
    requires FitsInPlace(s, t, rid, values)
    ensures rid in HeapRows(s, t.first)
  {
    hide HeapRows, Payload;
  }

  /** The old key gives way to another one that goes to another bucket, which is full. */
  ghost predicate ChangeNeedsPage(v: View, i: nat, oldKey: Option<Bytes>, newKey: Option<Bytes>) {
    && newKey != oldKey && NoRoomIn(v, i, newKey)
    && (oldKey.Some? ==> SlotOf(newKey.value, v.widths[i]) != SlotOf(oldKey.value, v.widths[i]))
  }

  lemma PagesOfUpdate(s: Store, t: TableInfo, rid: RecordID, values: seq<Value>)
    requires rid in HeapRows(s, t.first) && Decode(t.schema, HeapRows(s, t.first)[rid]).Some?
    ensures var olds := KeysFor(t, Decode(t.schema, HeapRows(s, t.first)[rid]).value);
            && UpdatePages(s, t, rid, values) == RowChangePages(ViewOf(s, t), olds, KeysFor(t, values), |t.indexes|)
            && |olds| == |KeysFor(t, values)| == |t.indexes|
  {
    hide HeapRows, Decode, ViewOf, RowChangePages, KeyAt;
  }

  lemma {:induction false} SomeChangeNeedsPage(v: View, olds: Keys, news: Keys, k: nat) returns (i: nat)
    requires k <= |olds| == |news| && RowChangePages(v, olds, news, k) > 0
    ensures i < k && ChangeNeedsPage(v, i, olds[i], news[i])
  {
    hide SlotOf;
    if ChangePages(v, k - 1, olds[k - 1], news[k - 1]) > 0 {
      i := k - 1;
    } else {
      i := SomeChangeNeedsPage(v, olds, news, k - 1);
    }
  }

  // ---- CREATE TABLE, and then INSERT ----

  /** A new table takes as its first row what its definitions accept, and nothing else: for
      BOOLEAN the truth values, for INTEGER all integers, for VARCHAR texts up to its length,
      and NULL for all of them. */
  lemma NewTableTakesRow(e: Engine, name: Bytes, definitions: seq<ColumnDefinition>, made: Outcome, f: Engine, values: seq<Value>,
                         stored: Outcome, g: Engine)
    requires InOrder(e) && Step(e, CreateTable(name, definitions), made, f) && made.status == OK
    requires Step(f, Insert(name, values), stored, g)
    ensures stored.status == OK ==> RowAccepts(definitions, values)
    ensures RowAccepts(definitions, values) && RecordSize(values) <= 4076 ==> stored.status == OK && |RowsOf(g, name)| == 1
    ensures !RowAccepts(definitions, values) && RecordSize(values) <= 4096 ==> stored.status == INVALID_ARGUMENT
  {
    hide *;
    var m: TableMeta, s: Store := CreatedTable(e, name, definitions, made, f);
    TableStepKeeps(e, f, name, definitions, m, s);
    var t: TableInfo, rid: RecordID, record: Bytes := InsertedRow(f, name, values, stored, g);
    NewTableIsEmpty(e, name, definitions, m, s, f, t);
    RowAccepted(definitions, t.schema, values);
    InsertableMeans(t, values);
    InsertStatusMeans(f.store, t, values, f.capacity);
    LimitIs();
    RecordSizeIs(values, []);
    RowAcceptsMeans(definitions, values);
    if RowAccepts(definitions, values) && RecordSize(values) <= 4076 {
      EmptyPageTakesRow(f.store, t, values, t.first, f.capacity);
      RowsAre(f, name);
      RowsAre(g, name);
      OneRowNow(f, g, name, t, values, stored, rid, record);
    }
  }

  predicate RowAccepts(definitions: seq<ColumnDefinition>, values: seq<Value>) {
    |values| == |definitions| && forall k: nat :: k < |values| ==> Accepts(definitions[k], values[k])
  }

  lemma LimitIs()
    ensures LIMIT16 == 65535 && PAGE_SIZE == 4096
  {
  }

  lemma CreatedTable(e: Engine, name: Bytes, definitions: seq<ColumnDefinition>, outcome: Outcome, f: Engine) returns (m: TableMeta, s: Store)
    requires Step(e, CreateTable(name, definitions), outcome, f) && outcome.status == OK
    ensures TableStepTo(e, f, name, definitions, m, s)
    ensures |e.store| < e.capacity
  {
    hide TableStepTo, Definable, Defines, CatalogSize;
    m, s :| TableStepTo(e, f, name, definitions, m, s);
  }

  lemma InsertedRow(e: Engine, name: Bytes, values: seq<Value>, outcome: Outcome, f: Engine) returns (t: TableInfo, rid: RecordID, record: Bytes)
    requires Step(e, Insert(name, values), outcome, f) && name in e.tables
    ensures RowStep(e, f, name, t) && EngineRuns.InsertStep(e, f, t, values, outcome, rid, record)
    ensures Loaded(e.tables, e.indexes, name, t) && InsertStatusIs(e.store, t, values, outcome.status, e.capacity)
    ensures f.tables == e.tables
  {
    NoTableMeans(e, f, name, outcome);
    hide NoTable, Loaded, StatementStep, InsertStatusIs, InsertPages, RowAdded, HeapRows;
    t, rid, record :| RowStep(e, f, name, t) && EngineRuns.InsertStep(e, f, t, values, outcome, rid, record);
  }

  lemma RowAcceptsMeans(definitions: seq<ColumnDefinition>, values: seq<Value>)
    ensures RowAccepts(definitions, values) <==>
              |values| == |definitions| && forall k: nat :: k < |values| ==> Accepts(definitions[k], values[k])
  {
    hide Accepts;
  }

  /** A new table has one empty page and no index. */
  lemma NewTableIsEmpty(e: Engine, name: Bytes, definitions: seq<ColumnDefinition>, m: TableMeta, s: Store, f: Engine, t: TableInfo)
    requires InOrder(e) && TableStepTo(e, f, name, definitions, m, s) && Loaded(f.tables, f.indexes, name, t) && |e.store| < e.capacity
    ensures Defines(definitions, t.schema) && t.indexes == [] && t.first >= 0 && t.first == f.tables[name].first
    ensures t.first in HeapPages(f.store, t.first) && SlotsAt(f.store, t.first) == [] && |f.store| <= f.capacity
    ensures HeapRows(f.store, t.first) == map[]
  {
    hide *;
    TableStepParts(e, f, name, definitions, m, s);
    StepDefines(e, f, name, definitions, m, s);
    MadeParts(e.store, s, f.store, e.tables, e.indexes, m);
    var names: seq<Bytes>, db: seq<TableInfo> := Listing(e);
    TableMadeKeepsEngine(e.store, s, f.store, e.tables, e.indexes, e.indexNames, names, db, e.lost, m);
    EngineParts(e.store, e.tables, e.indexes, e.indexNames, names, db, e.lost);
    EngineParts(f.store, f.tables, f.indexes, f.indexNames, names + [name], db + [TableInfo(m.schema, m.first, [])], f.lost);
    AsManyNames(e.tables, e.indexes, names, db);
    LastHasNoIndex(f.tables, f.indexes, names, db, name, m, t);
    EmptyPageParts(e.store, s, m.first);
    EmptySlots(e.store, s, m.first);
    PageUnderHeader(s, f.store, m.first);
    OneMorePage(e.store, s, m.first);
  }

  lemma StepDefines(e: Engine, f: Engine, name: Bytes, definitions: seq<ColumnDefinition>, m: TableMeta, s: Store)
    requires TableStepTo(e, f, name, definitions, m, s)
    ensures Defines(definitions, m.schema) && f.tables == e.tables[name := m] && f.capacity == e.capacity
  {
    hide TableMade, Definable, Defines;
  }

  lemma AsManyNames(tables: Tables, indexes: Indexes, names: seq<Bytes>, db: seq<TableInfo>)
    requires Describes(tables, indexes, names, db)
    ensures |names| == |db|
  {
    hide InfosIn, InfosOf, AllDifferent;
  }

  lemma LastHasNoIndex(tables: Tables, indexes: Indexes, names: seq<Bytes>, db: seq<TableInfo>, name: Bytes, m: TableMeta, t: TableInfo)
    requires m.first >= 0 && |names| == |db| && Describes(tables, indexes, names + [name], db + [TableInfo(m.schema, m.first, [])])
    requires Loaded(tables, indexes, name, t) && tables[name] == m && m.name == name
    ensures t.indexes == [] && t.schema == m.schema && t.first == m.first
  {
    var u := TableInfo(m.schema, m.first, []);
    assert (names + [name])[|names|] == name && (db + [u])[|names|] == u;
    assert TableIs(tables[name], indexes, u);
    assert InfosIn(u) == {};
    NoInfosNoIndexes(t);
    hide InfosOf;
  }

  lemma EmptySlots(a: Store, s: Store, p: nat)
    requires EmptyPageStep(a, s, p)
    ensures p in s && SlotsAt(s, p) == []
  {
    hide SlottedFormat.Ok, SlottedFormat.SlotsOf, SlottedFormat.NextPageId;
  }

  /** What is on a page does not change when page 0 is written. */
  lemma PageUnderHeader(s: Store, b: Store, p: nat)
    requires OnlyHeader(s, b) && p >= 1 && p in s && HeapOk(s, p) && HeapPages(s, p) == {p} && HeapRows(s, p) == map[] && SlotsAt(s, p) == []
    ensures p in HeapPages(b, p) && SlotsAt(b, p) == [] && HeapRows(b, p) == map[] && |b| == |s|
  {
    SameKeysSameSize(s, b);
    hide HeapOk, HeapPages, HeapRows, SlottedFormat.SlotsOf;
    HeapFrame(s, b, p);
  }

  lemma OneMorePage(a: Store, s: Store, p: nat)
    requires p !in a && p in s && s - {p} == a
    ensures |s| == |a| + 1
  {
    assert s.Keys == a.Keys + {p};
    assert |s| == |s.Keys| && |a| == |a.Keys|;
  }

  lemma OneRowNow(e: Engine, f: Engine, name: Bytes, t: TableInfo, values: seq<Value>, outcome: Outcome, rid: RecordID, record: Bytes)
    requires EngineRuns.InsertStep(e, f, t, values, outcome, rid, record) && outcome.status == OK && HeapRows(e.store, t.first) == map[]
    ensures |HeapRows(f.store, t.first)| == 1
  {
    hide HeapRows, TableOk, InsertStatusIs, InsertPages, Encodes, RowFits;
    assert HeapRows(f.store, t.first) == map[rid := record];
  }

  // ---- CREATE INDEX ----

  /** A row of the table has a text of more than 63 bytes in that column. */
  ghost predicate HasLongText(rows: Rows, schema: Schema, column: nat) {
    exists rid :: rid in rows && Decode(schema, rows[rid]).Some? && LongText(Decode(schema, rows[rid]).value, column)
  }

  /** Only long texts keep the values of a column from having keys: integers and truth values
      always have them. */
  lemma WhichColumnsAreKeyed(s: Store, t: TableInfo, column: nat)
    requires TableOk(s, t) && column < |t.schema|
    ensures AllKeyed(HeapRows(s, t.first), t.schema, column) <==> !HasLongText(HeapRows(s, t.first), t.schema, column)
    ensures t.schema[column].kind != VARCHAR ==> AllKeyed(HeapRows(s, t.first), t.schema, column)
  {
    var rows := HeapRows(s, t.first);
    forall rid | rid in rows
      ensures Decode(t.schema, rows[rid]).Some?
      ensures RecordKey(t.schema, rows[rid], column).BadKey? <==> LongText(Decode(t.schema, rows[rid]).value, column)
      ensures t.schema[column].kind != VARCHAR ==> !RecordKey(t.schema, rows[rid], column).BadKey?
    {
      StoredRow(s, t, rid);
      KeyOfColumn(t.schema, rows[rid], column);
    }
    hide HeapRows, TableOk, RecordKey, Decode, LongText;
  }

  lemma KeyOfColumn(schema: Schema, record: Bytes, column: nat)
    requires Decode(schema, record).Some? && column < |schema|
    ensures RecordKey(schema, record, column).BadKey? <==> LongText(Decode(schema, record).value, column)
    ensures schema[column].kind != VARCHAR ==> !RecordKey(schema, record, column).BadKey?
  {
    DecodedKinds(schema, record);
    WhichValuesHaveKeys(Decode(schema, record).value[column]);
    hide Decode, KeyOf;
  }

  /** CREATE INDEX with a new name on a column without an index is refused as an invalid
      argument only if the column has a text of more than 63 bytes; so never for INTEGER and
      BOOLEAN columns. Otherwise it succeeds exactly if the disk has the pages that the index
      needs, which are at most one for every row and one more, and the catalog has room for
      the entry. */
  lemma IndexCanBeMade(e: Engine, name: Bytes, table: Bytes, column: Bytes, outcome: Outcome, f: Engine)
    requires InOrder(e) && Step(e, CreateIndex(name, table, column), outcome, f)
    requires name != [] && name !in e.indexNames && table in e.tables && HasColumn(e.tables[table].schema, column)
    requires MakeIndexKey(table, column) !in e.indexes
    ensures var schema, p := e.tables[table].schema, PositionOf(e.tables[table].schema, column);
            && p < |schema| && schema[p].name == column
            && (outcome.status == OK ==> !HasLongText(RowsOf(e, table), schema, p))
            && (schema[p].kind != VARCHAR || !HasLongText(RowsOf(e, table), schema, p) ==>
                  outcome.status == if RoomForIndex(e.store, e.tables[table], column, e.capacity)
                                       && EntryFits(e.tables, e.indexes, name, table, column) then OK else OUT_OF_MEMORY)
    ensures |e.store| + 1 + |RowsOf(e, table)| <= e.capacity ==> RoomForIndex(e.store, e.tables[table], column, e.capacity)
  {
    hide *;
    var m := e.tables[table];
    PositionFound(m.schema, column);
    var names: seq<Bytes>, db: seq<TableInfo> := Listing(e);
    EngineParts(e.store, e.tables, e.indexes, e.indexNames, names, db, e.lost);
    var k: nat := PlaceOf(e.tables, e.indexes, names, db, table);
    NamedTable(e.store, e.tables, e.indexes, e.indexNames, names, db, e.lost, k, table);
    WhichColumnsAreKeyed(e.store, db[k], PositionOf(m.schema, column));
    RowsAre(e, table);
    RowsNeed(HeapRows(e.store, m.first), m.schema, PositionOf(m.schema, column));
    StatusOfIndex(e, name, table, column, outcome, f);
    IndexConditions(e.store, m, e.tables, e.indexes, name, table, column, e.capacity);
    IndexStatusMeans(e.store, e.tables, e.indexes, e.indexNames, name, table, column, outcome.status, e.capacity);
  }

  lemma StatusOfIndex(e: Engine, name: Bytes, table: Bytes, column: Bytes, outcome: Outcome, f: Engine)
    requires Step(e, CreateIndex(name, table, column), outcome, f)
    ensures IndexStatusIs(e.store, e.tables, e.indexes, e.indexNames, name, table, column, outcome.status, e.capacity)
  {
    hide IndexStepTo, LeakStep, IndexStatusIs;
  }
}
