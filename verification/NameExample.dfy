// An engine with the tables "a.b" and "a", in which an index on column "c" of the first one
// has the key of column "b.c" of the second one.
module NameExamples {
  import opened Common
  import opened ByteFormat
  import SlottedFormat
  import opened BucketFormat
  import opened RecordFormat
  import opened RecordCodecs
  import opened IndexKeys
  import opened CatalogFormat
  import opened Catalogs
  import opened CatalogManagers
  import opened PageChains
  import opened HeapStates
  import opened HeapScans
  import opened IndexStates
  import opened IndexOutcomes
  import opened TableStates
  import opened TableOutcomes
  import opened TableRooms
  import opened TableEntries
  import opened Queries
  import opened Operators
  import opened Planners
  import opened Selections
  import opened StatementOutcomes
  import opened IndexBuilds
  import opened Engines
  import opened TableLoads
  import opened ColumnDefinitions
  import opened DataDefinition
  import opened EngineRuns
  import opened NameRuns
  import opened SmallEngines

  const AB: Bytes := [97, 46, 98]
  const A: Bytes := [97]
  const BC: Bytes := [98, 46, 99]
  const C: Bytes := [99]
  const I: Bytes := [105]

  /** Table "a.b" with column "c" on page 1, and table "a" with column "b.c" on page 2. */
  function First(): TableMeta {
    TableMeta(AB, [Column(C, INTEGER, 4)], 1)
  }

  function Second(): TableMeta {
    TableMeta(A, [Column(BC, INTEGER, 4)], 2)
  }

  /** The index on "a.b"("c"), with its header on page 3. */
  function Index(): IndexMeta {
    IndexMeta(I, AB, C, 3)
  }

  function Key(): Bytes {
    MakeIndexKey(AB, C)
  }

  function OneTable(): Engine {
    Engine(WithCatalog(NewEngine(8).store[1 := SlottedFormat.EmptyPage(1)], [First()], []), map[AB := First()], map[], map[], {}, 8)
  }

  function TwoTables(): Engine {
    Engine(WithCatalog(OneTable().store[2 := SlottedFormat.EmptyPage(2)], [First(), Second()], []),
           map[AB := First()][A := Second()], map[], map[], {}, 8)
  }

  function Empty(): Engine {
    Engine(WithCatalog(TwoTables().store[3 := HeaderPage()], [First(), Second()], [Index()]),
           map[AB := First()][A := Second()], map[Key() := Index()], map[I := Key()], {}, 8)
  }

  /** The record of the row (5). */
  function Five(): Bytes {
    [1, 0, 0, 0, 0, 5, 0, 0, 0]
  }

  /** With the row (5) in table "a". */
  function Full(): Engine {
    Empty().(store := Empty().store[2 := SlottedFormat.Inserted(SlottedFormat.EmptyPage(2), 0, 4087, Five())])
  }

  function Where(): Condition {
    Condition(BC, EQ, Integer(5))
  }

  // ---- The engine is in order ----

  lemma Listed()
    ensures UsedBytes([First()], []) <= PAGE_SIZE && UsedBytes([First(), Second()], []) <= PAGE_SIZE
    ensures UsedBytes([First(), Second()], [Index()]) <= PAGE_SIZE
    ensures ListsTables([First()], map[AB := First()]) && ListsTables([First(), Second()], map[AB := First()][A := Second()])
    ensures ListsIndexes([], map[]) && ListsIndexes([Index()], map[Key() := Index()])
  {
    var x, y, z := First(), Second(), Index();
    assert |ColumnBytes(x.schema[0])| == 9 && |ColumnBytes(y.schema[0])| == 11;
    assert |ColumnsBytes(x.schema)| == 9 by { assert ColumnsBytes(x.schema[1..]) == []; }
    assert |ColumnsBytes(y.schema)| == 11 by { assert ColumnsBytes(y.schema[1..]) == []; }
    assert |TableBytes(x)| == 24 && |TableBytes(y)| == 24 && |IndexBytes(z)| == 17;
    hide TableBytes, IndexBytes, ColumnsBytes, ColumnBytes;
    assert [x][1..] == [] && [x, y][1..] == [y] && [y][1..] == [] && [z][1..] == [];
    assert TablesBytes([x]) == TableBytes(x) + TablesBytes([]);
    assert TablesBytes([y]) == TableBytes(y) + TablesBytes([]);
    assert TablesBytes([x, y]) == TableBytes(x) + TablesBytes([y]);
    assert IndexesBytes([z]) == IndexBytes(z) + IndexesBytes([]);
    assert AB != A by { assert |AB| != |A|; }
    assert Lists([x], AB) by { assert [x][0].name == AB; }
    assert Lists([x, y], AB) by { assert [x, y][0].name == AB; }
    assert Lists([x, y], A) by { assert [x, y][1].name == A; }
    assert ListsKey([z], Key()) by { assert [z][0] == z; }
  }

  lemma Parts()
    ensures AB != A && AB != [] && A != [] && C != [] && BC != [] && I != []
    ensures First().name == AB && First().first == 1 && First().schema == [Column(C, INTEGER, 4)]
    ensures Second().name == A && Second().first == 2 && Second().schema == [Column(BC, INTEGER, 4)]
    ensures Index().name == I && Index().table == AB && Index().column == C && Index().header == 3 && KeyOfIndex(Index()) == Key()
    ensures MakeIndexKey(A, BC) == Key() && A + [DOT] <= Key()
    ensures HasColumn(First().schema, C) && PositionOf(First().schema, C) == 0
    ensures HasColumn(Second().schema, BC) && PositionOf(Second().schema, BC) == 0
  {
    assert |AB| != |A|;
    assert First().schema[0].name == C && Second().schema[0].name == BC;
    assert MakeIndexKey(A, BC) == [97, 46, 98, 46, 99] == Key();
  }

  lemma EnginesAre()
    ensures NewEngine(8).tables == map[] && NewEngine(8).indexes == map[] && NewEngine(8).store.Keys == {0}
    ensures OneTable() == NewEngine(8).(store := WithCatalog(NewEngine(8).store[1 := SlottedFormat.EmptyPage(1)], [First()], []),
                                       tables := NewEngine(8).tables[AB := First()])
    ensures OneTable().tables == map[AB := First()] && OneTable().indexes == map[]
    ensures TwoTables() == OneTable().(store := WithCatalog(OneTable().store[2 := SlottedFormat.EmptyPage(2)], [First(), Second()], []),
                                       tables := OneTable().tables[A := Second()])
    ensures TwoTables().tables == map[AB := First()][A := Second()] && TwoTables().indexes == map[] && TwoTables().indexNames == map[]
    ensures Empty() == TwoTables().(store := WithCatalog(TwoTables().store[3 := HeaderPage()], [First(), Second()], [Index()]),
                                    indexes := TwoTables().indexes[Key() := Index()], indexNames := TwoTables().indexNames[I := Key()])
    ensures Empty().indexes == map[Key() := Index()] && Empty().tables == map[AB := First()][A := Second()]
    ensures Full() == Empty().(store := Empty().store[2 := SlottedFormat.Inserted(SlottedFormat.EmptyPage(2), 0, 4087, Five())])
  {
    hide WithCatalog, SlottedFormat.EmptyPage, SlottedFormat.Inserted, HeaderPage, First, Second, Index, Zeros;
  }

  lemma OneTableInOrder()
    ensures InOrder(OneTable()) && OneTable().store.Keys == {0, 1} && RowsOf(OneTable(), AB) == map[]
  {
    hide *;
    NewEngineInOrder(8);
    Listed();
    Parts();
    EnginesAre();
    var e, f, s := NewEngine(8), OneTable(), NewEngine(8).store[1 := SlottedFormat.EmptyPage(1)];
    OtherPagesStay(s, [First()], []);
    OneColumnTable(e, f, First(), C, [First()], []);
    TableStepKeeps(e, f, AB, [ColumnDefinition(C, "INT", 4)], First(), s);
    KeptParts(e, f, None);
  }

  lemma TwoTablesInOrder()
    ensures InOrder(TwoTables()) && TwoTables().store.Keys == {0, 1, 2} && RowsOf(TwoTables(), AB) == map[]
    ensures TwoTables().store[2] == SlottedFormat.EmptyPage(2)
  {
    hide *;
    OneTableInOrder();
    Listed();
    Parts();
    EnginesAre();
    var e, f, s := OneTable(), TwoTables(), OneTable().store[2 := SlottedFormat.EmptyPage(2)];
    OtherPagesStay(s, [First(), Second()], []);
    OneColumnTable(e, f, Second(), BC, [First(), Second()], []);
    TableStepKeeps(e, f, A, [ColumnDefinition(BC, "INT", 4)], Second(), s);
    KeptParts(e, f, None);
  }

  lemma EmptyInOrder()
    ensures InOrder(Empty()) && Empty().store.Keys == {0, 1, 2, 3} && Empty().store[2] == SlottedFormat.EmptyPage(2)
    ensures IndexOk(Empty().store, 3) && IndexPairs(Empty().store, 3) == {} && IndexPages(Empty().store, 3) == {3}
  {
    hide *;
    TwoTablesInOrder();
    Listed();
    Parts();
    EnginesAre();
    var e, f, s, x := TwoTables(), Empty(), TwoTables().store[3 := HeaderPage()], Index();
    RowsAre(e, AB);
    EmptyIndexAdded(e.store, s, First().schema, 1, 0, 3);
    AddedParts(e.store, s, First().schema, 1, 0, 3);
    CatalogWritten(s, [First(), Second()], [x], f.tables, f.indexes);
    OtherPagesStay(s, [First(), Second()], [x]);
    IndexAcceptedIs(e, x);
    DefinitionExecutor.MakeIndexMade(e.store, s, f.store, e.tables, e.indexes, e.indexNames, x);
    IndexStepIs(e, f, x, s);
    IndexStepKeeps(e, f, x, s);
    KeptParts(e, f, None);
    IndexFrame(s, f.store, 3);
  }

  lemma IndexAcceptedIs(e: Engine, x: IndexMeta)
    requires x.name != [] && x.table != [] && x.column != [] && x.table in e.tables && HasColumn(e.tables[x.table].schema, x.column)
    requires e.indexes == map[] && e.indexNames == map[]
    ensures IndexAccepted(e.tables, e.indexes, e.indexNames, x)
  {
    hide HasColumn, KeyOfIndex;
  }

  lemma IndexStepIs(e: Engine, f: Engine, x: IndexMeta, s: Store)
    requires IndexMade(e.store, s, f.store, e.tables, e.indexes, e.indexNames, x)
    requires f == e.(store := f.store, indexes := e.indexes[KeyOfIndex(x) := x], indexNames := e.indexNames[x.name := KeyOfIndex(x)])
    ensures IndexStepTo(e, f, x, s)
  {
    hide IndexMade, KeyOfIndex;
  }

  // ---- The row ----

  function Table(): TableInfo {
    TableInfo(Second().schema, 2, [])
  }

  lemma FivePayload()
    ensures Payload([Integer(5)], 0) == [] && Payload([Integer(5)], 1) == [5, 0, 0, 0]
  {
    var values := [Integer(5)];
    assert Payload(values, 1) == Payload(values, 0) + FieldBytes(values[0]);
    assert FieldBytes(values[0]) == I32(5);
  }

  lemma FiveHeader()
    ensures |Five()| == 9 && Five()[5..] == [5, 0, 0, 0] && HeaderSize(1) == 5 && LIMIT16 >= 9
    ensures ColumnCount(Five()) == 1 && Offset(Five(), 1, 0) == 0 && !IsNull(Five(), 0)
  {
    NoBitsInZero();
    hide Bit;
    assert ByteAt(Five(), 2) == 0;
  }

  lemma FiveEncodes()
    ensures Encodes(Five(), [Integer(5)]) && |Five()| == 9
  {
    FivePayload();
    FiveHeader();
    hide Payload, IsNull, Five, HeaderSize, ColumnCount, Offset;
  }

  lemma FiveFits()
    ensures Serializable(Second().schema, [Integer(5)]) && Insertable(Table(), [Integer(5)]) && KeysOf(Table(), Five(), [])
    ensures RecordSize([Integer(5)]) == 9
  {
    FivePayload();
    assert HeaderSize(1) == 5;
    hide Payload, Five, HeaderSize, RecordKey, KeyOf;
  }

  lemma FiveHasRoom()
    ensures InsertStatusIs(Empty().store, Table(), [Integer(5)], OK, 8) && InsertPages(Empty().store, Table(), [Integer(5)]) == 0
  {
    hide *;
    EmptyInOrder();
    FiveFits();
    TableParts();
    EmptyPageChain(Empty().store, 2);
    HeapIs(Empty().store, 2, [2]);
    FourPages(Empty().store);
    NoSlots(Empty().store, 2);
    EmptyPageTakesRow(Empty().store, Table(), [Integer(5)], 2, 8);
    InsertStatusMeans(Empty().store, Table(), [Integer(5)], 8);
  }

  lemma FourPages(s: Store)
    requires s.Keys == {0, 1, 2, 3}
    ensures |s| == 4
  {
    assert |s| == |s.Keys|;
  }

  lemma NoSlots(s: Store, p: nat)
    requires 1 <= p < 0x8000_0000 && p in s && s[p] == SlottedFormat.EmptyPage(p)
    ensures SlotsAt(s, p) == []
  {
    SlottedFormat.EmptyPageIsOk(p);
    hide SlottedFormat.EmptyPage, SlottedFormat.Ok, SlottedFormat.SlotsOf, SlottedFormat.NextPageId;
  }

  lemma RowPage()
    ensures SlottedFormat.InsertDone(SlottedFormat.EmptyPage(2), SlottedFormat.Inserted(SlottedFormat.EmptyPage(2), 0, 4087, Five()), 2, Five(), OK, 0)
  {
    var b := SlottedFormat.EmptyPage(2);
    SlottedFormat.EmptyPageIsOk(2);
    SlottedFormat.OkParts(b, 2);
    FiveEncodes();
    assert SlottedFormat.Total([]) == 0;
    assert PAGE_SIZE == 4096;
    hide SlottedFormat.Ok, SlottedFormat.EmptyPage, SlottedFormat.SlotsOf, SlottedFormat.Inserted, Five, SlottedFormat.LayoutOk;
    SlottedFormat.InsertedDone(b, 2, 0, 4087, Five());
  }

  lemma TableLoaded()
    ensures Loaded(Empty().tables, Empty().indexes, A, Table())
    ensures Loaded(Full().tables, Full().indexes, A, Table())
  {
    Parts();
    EnginesAre();
    hide Empty, Full, First, Index, MakeIndexKey, AB, Key, PositionOf;
    var indexes: Indexes := map[Key() := Index()];
    assert InfosOf(indexes, A, Table().schema) == {};
    assert InfosIn(Table()) == {};
    assert Empty().tables[A] == Second() && Full().tables[A] == Second();
  }

  lemma RowAddedToTable()
    ensures TableStep(Empty().store, Full().store, Table()) && TableKeepsNew(Empty().store, Full().store, Table())
    ensures RowAdded(Empty().store, Full().store, Table(), [Integer(5)], RecordID(2, 0), Five())
  {
    hide *;
    Parts();
    EnginesAre();
    EmptyInOrder();
    TableLoaded();
    TableIsOk(Empty(), A, Table());
    RowPage();
    FiveEncodes();
    FiveFits();
    var a, b, t := Empty().store, Full().store, Table();
    TableParts();
    TableOkParts(a, t);
    EmptyPageChain(a, 2);
    InsertIntoPage(a, 2, [2], 2, b[2], 0, Five());
    MakeHeapBecomes(a, b, 2, [2], [2], RowsIn(b, [2]));
    HeapIs(a, 2, [2]);
    HeapLifts(a, b, t, RowsIn(b, [2]));
    ViewRows(a, t);
    StepShapes(a, b, t);
    InsertedNone(ViewOf(a, t), ViewOf(b, t), t, RecordID(2, 0), Five(), []);
    MakeRowAdded(a, b, t, [Integer(5)], RecordID(2, 0), Five(), []);
  }

  lemma TableParts()
    ensures Table().first == 2 && Table().schema == Second().schema && Table().indexes == []
  {
  }

  lemma TableIsOk(e: Engine, name: Bytes, t: TableInfo)
    requires InOrder(e) && Loaded(e.tables, e.indexes, name, t)
    ensures TableOk(e.store, t)
  {
    hide *;
    var names: seq<Bytes>, db: seq<TableInfo> := Listing(e);
    var k: nat := LoadedTableIsOk(e.store, e.tables, e.indexes, e.indexNames, names, db, e.lost, name, t);
  }

  lemma EmptyPageChain(a: Store, p: nat)
    requires 1 <= p < 0x8000_0000 && p in a && a[p] == SlottedFormat.EmptyPage(p)
    ensures HeapChain(a, p, [p])
  {
    SlottedFormat.EmptyPageIsOk(p);
    hide SlottedFormat.EmptyPage, SlottedFormat.Ok, SlottedFormat.SlotsOf, SlottedFormat.NextPageId;
    assert HeapLinks(a)[p] == INVALID_PAGE_ID;
    assert [p][1..] == [];
  }

  lemma FullInOrder()
    ensures Step(Empty(), Insert(A, [Integer(5)]), Outcome(OK, [], 1), Full()) && InOrder(Full())
    ensures RecordID(2, 0) in RowsOf(Full(), A) && RowsOf(Full(), A)[RecordID(2, 0)] == Five()
    ensures A in Full().tables && IndexOk(Full().store, 3) && IndexPairs(Full().store, 3) == {}
  {
    hide *;
    Parts();
    EnginesAre();
    EmptyInOrder();
    TableLoaded();
    RowAddedToTable();
    FiveFits();
    TableParts();
    FiveHasRoom();
    var e, f := Empty(), Full();
    SameSize();
    InsertIs(e, f, A, [Integer(5)], Outcome(OK, [], 1), Table(), RecordID(2, 0), Five());
    StepKeepsOrder(e, Insert(A, [Integer(5)]), Outcome(OK, [], 1), f);
    RowsAre(f, A);
    RowIsThere(e.store, f.store, Table(), [Integer(5)], RecordID(2, 0), Five());
    IndexFrame(e.store, f.store, 3);
  }

  lemma SameSize()
    ensures |Full().store| == |Empty().store| && Empty().capacity == 8
  {
    EnginesAre();
    EmptyInOrder();
    hide SlottedFormat.Inserted, SlottedFormat.EmptyPage, WithCatalog, HeaderPage, Five, First, Second, Index, InOrder, IndexOk, IndexPairs, IndexPages;
    SameKeysSameSize(Empty().store, Full().store);
  }

  lemma RowIsThere(a: Store, b: Store, t: TableInfo, values: seq<Value>, rid: RecordID, record: Bytes)
    requires RowAdded(a, b, t, values, rid, record)
    ensures rid in HeapRows(b, t.first) && HeapRows(b, t.first)[rid] == record
  {
    hide HeapRows, TableOk, Encodes, RowFits;
  }

  // ---- What SELECT makes of it ----

  lemma RowMeets()
    ensures MeetsAll(Second().schema, Five(), [Where()])
  {
    hide *;
    FiveEncodes();
    FiveFits();
    SerializableParts(Second().schema, [Integer(5)]);
    RoundTrip(Second().schema, Five(), [Integer(5)]);
    Parts();
    MeetsFive(Second().schema, Five());
  }

  lemma MeetsFive(schema: Schema, record: Bytes)
    requires Decode(schema, record) == Some([Integer(5)]) && PositionOf(schema, BC) == 0
    ensures MeetsAll(schema, record, [Where()])
  {
    hide Decode, PositionOf, BC;
    assert Meets(schema, record, Where());
  }

  lemma UsesTheOtherIndex()
    ensures EntryKey(A, Where()) == Key() && FirstServed(Full().indexes, A, [Where()], 0) && !OwnPlan(Full().indexes, A, [Where()])
    ensures Key() in Full().indexes && Full().indexes[Key()] == Index() && KeyOf(Where().target).Some?
    ensures forall k: nat :: FirstServed(Full().indexes, A, [Where()], k) ==> k == 0
  {
    Parts();
    EnginesAre();
    hide Full, Empty, First, Second, MakeIndexKey, AB, A, BC;
    assert EntryKey(A, Where()) == Key();
    assert Served(Full().indexes, A, [Where()], 0);
    FirstServedIsOne(Full().indexes, A, [Where()], 0);
  }

  /** The index of the other table has nothing under the key. */
  lemma FindsNothing(order: seq<RecordID>)
    ensures PlanOrder(Full().store, Table(), Full().indexes, A, [Where()], order) <==> order == []
  {
    hide *;
    Parts();
    UsesTheOtherIndex();
    FullInOrder();
    NothingUnderKey(Full().store, order);
    assert [Where()][0] == Where();
    OrderOfLookup(Full().store, Table(), Full().indexes, A, [Where()], order);
  }

  lemma NothingUnderKey(s: Store, order: seq<RecordID>)
    requires Index().header == 3 && IndexPairs(s, 3) == {} && KeyOf(Where().target).Some?
    ensures LookupOrder(s, Index(), Where(), order) <==> order == []
  {
    hide Index, KeyOf, IndexPairs;
    if order != [] {
      assert order[0] in order;
    }
  }

  lemma OrderOfLookup(s: Store, t: TableInfo, indexes: Indexes, name: Bytes, conditions: seq<Condition>, order: seq<RecordID>)
    requires |conditions| == 1 && FirstServed(indexes, name, conditions, 0) && EntryKey(name, conditions[0]) in indexes
    requires forall k: nat :: FirstServed(indexes, name, conditions, k) ==> k == 0
    ensures PlanOrder(s, t, indexes, name, conditions, order) <==> LookupOrder(s, indexes[EntryKey(name, conditions[0])], conditions[0], order)
  {
    hide Served, LookupOrder, ScanOrder, EntryKey;
    assert Served(indexes, name, conditions, 0);
  }

  /** SELECT * FROM "a" WHERE "b.c" = 5 finds nothing. */
  lemma SelectShowsNothing(outcome: Outcome, f: Engine)
    requires Step(Full(), Select(A, [Where()], []), outcome, f) && outcome.status == OK
    ensures outcome.rows == []
  {
    hide *;
    UsesTheOtherIndex();
    FullInOrder();
    TableLoaded();
    ForeignPlanMisses(Full(), Select(A, [Where()], []), outcome, f);
    var t: TableInfo, order: seq<RecordID>, rids: seq<RecordID> :| ShowsForeign(Full(), A, t, [Where()], [], outcome, order, rids);
    ForeignParts(Full(), A, t, [Where()], [], outcome, order, rids);
    TableParts();
    NoIndexMeansSame(Full(), A, t, Table());
    FindsNothing(order);
    NothingChosen(Full().store, t.schema, [Where()], FieldPositions(t.schema, []), rids, outcome.rows);
  }

  lemma ForeignParts(e: Engine, name: Bytes, t: TableInfo, conditions: seq<Condition>, fields: seq<Bytes>, outcome: Outcome,
                     order: seq<RecordID>, rids: seq<RecordID>)
    requires ShowsForeign(e, name, t, conditions, fields, outcome, order, rids)
    ensures Loaded(e.tables, e.indexes, name, t) && PlanOrder(e.store, t, e.indexes, name, conditions, order)
    ensures rids == Selected(e.store, t.schema, conditions, order) && Shown(e.store, t.schema, FieldPositions(t.schema, fields), rids, outcome.rows)
  {
    hide Loaded, PlanOrder, Selected, Shown, FieldPositions, RowsOf;
  }

  lemma NoIndexMeansSame(e: Engine, name: Bytes, t: TableInfo, u: TableInfo)
    requires Loaded(e.tables, e.indexes, name, t) && Loaded(e.tables, e.indexes, name, u) && u.indexes == []
    ensures t == u
  {
    NoInfosNoIndexes(t);
    assert InfosIn(u) == {};
    hide InfosOf;
  }

  lemma NothingChosen(s: Store, schema: Schema, conditions: seq<Condition>, fields: Option<seq<nat>>, rids: seq<RecordID>, rows: seq<seq<Value>>)
    requires rids == Selected(s, schema, conditions, []) && Shown(s, schema, fields, rids, rows)
    ensures rows == []
  {
    hide ShownRow;
  }

  lemma SelectSucceeds()
    ensures Step(Full(), Select(A, [Where()], []), Outcome(OK, [], 0), Full())
  {
    hide *;
    Parts();
    UsesTheOtherIndex();
    FullInOrder();
    TableLoaded();
    TableParts();
    FindsNothing([]);
    var e, t := Full(), Table();
    WhereIsAnswerable(e.indexes);
    NothingShown(e.store, t.schema, FieldPositions(t.schema, []));
    ForeignShowed(e.store, e.indexes, A, t, [Where()]);
    SelectIs(e, A, [Where()], [], Outcome(OK, [], 0), t, [], []);
  }

  lemma WhereIsAnswerable(indexes: Indexes)
    ensures Answerable(indexes, A, Second().schema, [Where()])
  {
    Parts();
    hide Second, HasColumn, MakeIndexKey;
    assert KeyOf(Where().target).Some?;
  }

  lemma ForeignShowed(s: Store, indexes: Indexes, name: Bytes, t: TableInfo, conditions: seq<Condition>)
    requires Answerable(indexes, name, t.schema, conditions) && !OwnPlan(indexes, name, conditions)
    requires PlanOrder(s, t, indexes, name, conditions, []) && Shown(s, t.schema, FieldPositions(t.schema, []), [], [])
    ensures Showed(s, indexes, name, t, conditions, [], OK, [], [], [])
  {
    hide Answerable, OwnPlan, PlanOrder, Shown, HeapRows, FieldPositions;
    assert FieldsExist(t.schema, []);
    assert Selected(s, t.schema, conditions, []) == [];
  }

  /** The row (5) is in table "a" and satisfies "b.c" = 5, but SELECT answers OK without it,
      since it looks it up in the index of table "a.b". */
  lemma DottedNamesHideARow()
    ensures InOrder(Empty()) && Step(Empty(), Insert(A, [Integer(5)]), Outcome(OK, [], 1), Full()) && InOrder(Full())
    ensures A in Full().tables && !OwnPlan(Full().indexes, A, [Where()]) && !NamesApart(Full().tables)
    ensures exists rid :: rid in RowsOf(Full(), A) && MeetsAll(Full().tables[A].schema, RowsOf(Full(), A)[rid], [Where()])
    ensures Step(Full(), Select(A, [Where()], []), Outcome(OK, [], 0), Full())
    ensures forall outcome, f :: Step(Full(), Select(A, [Where()], []), outcome, f) && outcome.status == OK ==> outcome.rows == []
  {
    hide *;
    Parts();
    EnginesAre();
    EmptyInOrder();
    FullInOrder();
    UsesTheOtherIndex();
    RowMeets();
    SelectSucceeds();
    SecondEntry();
    if NamesApart(Full().tables) {
      ApartPlansAreOwn(Full(), A, [Where()]);
      assert false;
    }
    forall outcome, f | Step(Full(), Select(A, [Where()], []), outcome, f) && outcome.status == OK ensures outcome.rows == [] {
      SelectShowsNothing(outcome, f);
    }
    assert RecordID(2, 0) in RowsOf(Full(), A);
  }

  lemma SecondEntry()
    ensures A in Full().tables && Full().tables[A] == Second()
  {
    EnginesAre();
    hide Empty, First, Second;
  }
}
