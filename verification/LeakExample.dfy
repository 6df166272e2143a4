// The smallest engine that loses a page: one table without rows, and CREATE INDEX with an
// empty name.
module LeakExamples {
  import opened Common
  import opened ByteFormat
  import SlottedFormat
  import opened BucketFormat
  import opened RecordFormat
  import opened CatalogFormat
  import opened Catalogs
  import opened CatalogManagers
  import opened PageChains
  import opened HeapStates
  import opened IndexStates
  import opened IndexOutcomes
  import opened IndexHeaders
  import opened TableStates
  import opened StatementOutcomes
  import opened IndexBuilds
  import opened Engines
  import opened IndexLeaks
  import opened ColumnDefinitions
  import opened DataDefinition
  import opened EngineRuns
  import opened SmallEngines

  /** Table "t" with one column "a", on page 1. */
  function Table(): TableMeta {
    TableMeta([116], [Column([97], INTEGER, 4)], 1)
  }

  function Before(): Engine {
    Engine(map[0 := CatalogBytes([Table()], []), 1 := SlottedFormat.EmptyPage(1)], map[[116] := Table()], map[], map[], {}, 8)
  }

  function After(): Engine {
    Before().(store := Before().store[2 := HeaderPage()], lost := {2})
  }

  // ---- The engine before ----

  lemma TableListed()
    ensures ListsTables([Table()], map[[116] := Table()]) && ListsIndexes([], map[]) && UsedBytes([Table()], []) <= PAGE_SIZE
  {
    var m := Table();
    assert Lists([m], [116]) by { assert [m][0].name == [116]; }
    assert |ColumnBytes(m.schema[0])| == 9;
    assert |ColumnsBytes(m.schema)| == 9 by { assert ColumnsBytes(m.schema[1..]) == []; }
    assert |TableBytes(m)| == 22;
    assert [m][1..] == [];
    assert TablesBytes([m]) == TableBytes(m) + TablesBytes([]);
  }

  lemma BeforeInOrder()
    ensures InOrder(Before()) && RowsOf(Before(), [116]) == map[]
  {
    NewEngineInOrder(8);
    TableListed();
    var e, f, m := NewEngine(8), Before(), Table();
    var s := e.store[1 := SlottedFormat.EmptyPage(1)];
    hide InOrder, CatalogBytes, SlottedFormat.EmptyPage, RowsOf, ListsTables, ListsIndexes, UsedBytes;
    assert f.store == WithCatalog(s, [m], []);
    OneColumnTable(e, f, m, [97], [m], []);
    hide TableStepTo;
    TableStepKeeps(e, f, [116], [ColumnDefinition([97], "INT", 4)], m, s);
    KeptParts(e, f, None);
  }

  // ---- The index that is left behind ----

  lemma ExampleIs()
    ensures Before().tables == map[[116] := Table()] && Before().indexes == map[] && Before().lost == {}
    ensures After() == Before().(store := After().store, lost := {2})
    ensures After().store == Before().store[2 := HeaderPage()] && 2 !in Before().store
    ensures [116] in Before().tables && Table().first == 1
    ensures PositionOf(Table().schema, [97]) == 0 && HasColumn(Table().schema, [97])
  {
    assert Table().schema[0].name == [97];
    hide CatalogBytes, SlottedFormat.EmptyPage, HeaderPage;
  }

  lemma IndexLeft()
    ensures IndexAdded(Before().store, After().store, Table().schema, 1, 0, 2)
    ensures IndexPages(After().store, 2) == {2}
  {
    hide *;
    ExampleIs();
    BeforeInOrder();
    RowsAre(Before(), [116]);
    EmptyIndexAdded(Before().store, After().store, Table().schema, 1, 0, 2);
  }

  lemma OnlyOneListOfLost(e: Engine, f: Engine)
    requires InOrder(e) && f == e.(lost := f.lost) && f.lost != e.lost
    ensures !InOrder(f)
  {
    hide *;
    if InOrder(f) {
      var names: seq<Bytes>, db: seq<TableInfo> := Listing(e);
      var names2: seq<Bytes>, db2: seq<TableInfo> := Listing(f);
      LostIsDetermined(e.store, e.tables, e.indexes, e.indexNames, names, db, e.lost, names2, db2, f.lost);
      assert false;
    }
  }

  lemma ExampleLeaks()
    ensures Step(Before(), CreateIndex([], [116], [97]), Outcome(INVALID_ARGUMENT, [], 0), After())
  {
    hide *;
    var e, f := Before(), After();
    ExampleIs();
    BeforeInOrder();
    IndexLeft();
    RowsAre(e, [116]);
    NoRowsNoPairs(Table().schema, 0);
    BuildableIs(e.store, e.tables, e.indexes, [116], [97]);
    ThereIsRoom();
    LeakIs(e, f, [116], [97], Outcome(INVALID_ARGUMENT, [], 0), 2);
  }

  /** The disk has a page for the index, so it is the name that is refused. */
  lemma ThereIsRoom()
    ensures IndexStatusIs(Before().store, Before().tables, Before().indexes, Before().indexNames, [], [116], [97], INVALID_ARGUMENT, Before().capacity)
  {
    hide *;
    ExampleIs();
    BeforeInOrder();
    RowsAre(Before(), [116]);
    RowsNeed(map[], Table().schema, 0);
    TwoPages();
    IndexConditions(Before().store, Table(), Before().tables, Before().indexes, [], [116], [97], 8);
    IndexStatusMeans(Before().store, Before().tables, Before().indexes, Before().indexNames, [], [116], [97], INVALID_ARGUMENT, 8);
  }

  lemma TwoPages()
    ensures |Before().store| == 2 && Before().capacity == 8 && Before().tables[[116]] == Table()
  {
    hide CatalogBytes, SlottedFormat.EmptyPage;
    assert Before().store.Keys == {0, 1};
    assert |Before().store| == |Before().store.Keys|;
  }

  /** The statement fails with INVALID_ARGUMENT and loses page 2: whichever table one gives
      the pages to, no table has it. */
  lemma EmptyNameLosesAPage()
    ensures InOrder(Before()) && Before().lost == {}
    ensures Step(Before(), CreateIndex([], [116], [97]), Outcome(INVALID_ARGUMENT, [], 0), After())
    ensures InOrder(After()) && After().lost == {2} && !InOrder(After().(lost := {}))
  {
    hide *;
    ExampleIs();
    BeforeInOrder();
    ExampleLeaks();
    StepKeepsOrder(Before(), CreateIndex([], [116], [97]), Outcome(INVALID_ARGUMENT, [], 0), After());
    OnlyOneListOfLost(After(), After().(lost := {}));
  }
}
