// A session: statements are carried out one after the other (src/query/executor.cpp, src/main.cpp).
module Sessions {
  import opened Common
  import opened Disk
  import opened Buffer
  import opened RecordFormat
  import opened CatalogFormat
  import opened Catalogs
  import opened CatalogManagers
  import opened PageChains
  import opened HeapStates
  import opened IndexStates
  import opened TableStates
  import opened TableOutcomes
  import opened TableStorages
  import opened Queries
  import opened StatementOutcomes
  import opened Executors
  import opened Databases
  import opened IndexBuilds
  import opened TableEntries
  import opened Engines
  import opened TableLoads
  import opened IndexLeaks
  import opened ColumnDefinitions
  import opened DataDefinition
  import opened Restarts
  import opened EngineRuns

  class Session {
    const bpm: BufferPoolManager
    const catalog: CatalogManager
    /** The pages that belong to no table. */
    ghost var lost: set<nat>

    ghost function State(): Engine
      reads this, catalog, bpm.Repr
    {
      Engine(bpm.Store(), catalog.tables, catalog.indexes, catalog.indexNames, lost, bpm.disk.capacity)
    }

    ghost predicate Wired() {
      catalog.bpm == bpm && catalog !in bpm.Repr && this !in bpm.Repr
    }

    /** The catalog has been loaded, and the engine is in order. */
    ghost predicate Valid()
      reads this, catalog, bpm.Repr
    {
      Wired() && bpm.Valid() && catalog.status == OK && InOrder(State())
    }

    lemma ValidParts()
      ensures Valid() <==> Wired() && bpm.Valid() && catalog.status == OK && InOrder(State())
      ensures Wired() ==> catalog.bpm == bpm && catalog !in bpm.Repr && this !in bpm.Repr
      ensures State() == Engine(bpm.Store(), catalog.tables, catalog.indexes, catalog.indexNames, lost, bpm.disk.capacity)
    {
      hide InOrder;
    }

    constructor (bpm: BufferPoolManager, catalog: CatalogManager, ghost lost: set<nat>)
      requires catalog.bpm == bpm && catalog !in bpm.Repr && bpm.Valid()
      ensures this.bpm == bpm && this.catalog == catalog && this.lost == lost && Wired()
    {
      this.bpm, this.catalog, this.lost := bpm, catalog, lost;
    }

    /** The table of a statement, by its name. */
    method Find(table: Bytes) returns (found: bool, t: TableInfo)
      requires Valid()
      ensures found <==> table in catalog.tables
      ensures found ==> Loaded(catalog.tables, catalog.indexes, table, t) && TableOk(bpm.Store(), t)
      ensures found ==> Prepared(bpm.Store(), catalog.tables, catalog.indexes, catalog.indexNames, table, t)
    {
      hide *;
      ValidParts();
      ghost var names, db := Listing(State());
      EngineParts(bpm.Store(), catalog.tables, catalog.indexes, catalog.indexNames, names, db, lost);
      NoEmptyTableName(catalog.tables, catalog.indexes, catalog.indexNames);
      catalog.MakeValid();
      var status;
      status, t := LoadTable(catalog, table);
      found := status == OK;
      if found {
        ghost var k := LoadedTableIsOk(bpm.Store(), catalog.tables, catalog.indexes, catalog.indexNames, names, db, lost, table, t);
        EveryIndexIsReadable(bpm.Store(), catalog.tables, catalog.indexes, catalog.indexNames, names, db, lost, table, t);
        PreparedParts(bpm.Store(), catalog.tables, catalog.indexes, catalog.indexNames, table, t);
      }
    }

    static lemma NoEmptyTableName(tables: Tables, indexes: Indexes, names: Names)
      requires WellFormed(tables, indexes, names)
      ensures [] !in tables
    {
      hide IndexFits, HasColumn, KeyOfIndex;
      assert forall name :: name in tables ==> tables[name].name == name && TableFits(tables[name]);
    }

    method ExecuteSelect(table: Bytes, conditions: seq<Condition>, fields: seq<Bytes>) returns (outcome: Outcome)
      requires Valid()
      modifies bpm.Repr
      ensures bpm.Valid() && bpm.Pins() == old(bpm.Pins()) && bpm.Store() == old(bpm.Store())
      ensures old(bpm.Ready()) ==> Step(old(State()), Select(table, conditions, fields), outcome, State())
    {
      hide *;
      ghost var e := State();
      ValidParts();
      var found, t := Find(table);
      if !found {
        outcome := Outcome(NOT_FOUND, [], 0);
        NoTableStep(e, table, outcome);
        return;
      }
      bpm.ReadyParts();
      var executor := new QueryExecutor(bpm, catalog);
      var status, rows;
      ghost var order, rids;
      status, rows, order, rids := executor.ExecuteSelect(table, t, conditions, fields);
      outcome := Outcome(status, rows, 0);
      ValidParts();
      if old(bpm.Ready()) {
        SelectIs(e, table, conditions, fields, outcome, t, order, rids);
      }
    }

    method ExecuteInsert(table: Bytes, values: seq<Value>) returns (outcome: Outcome)
      requires Valid()
      modifies bpm.Repr
      ensures bpm.Valid() && bpm.Pins() == old(bpm.Pins())
      ensures old(bpm.Ready()) ==> Step(old(State()), Insert(table, values), outcome, State())
    {
      hide *;
      ghost var e := State();
      ValidParts();
      var found, t := Find(table);
      if !found {
        outcome := Outcome(NOT_FOUND, [], 0);
        NoTableStep(e, table, outcome);
        return;
      }
      if |values| != |t.schema| {
        outcome := Outcome(INVALID_ARGUMENT, [], 0);
        InsertRefused(e, table, values, outcome, t);
        return;
      }
      bpm.ReadyParts();
      var storage := new TableStorage(bpm);
      var status, rid;
      ghost var record;
      status, rid, record := storage.InsertRecord(t, values);
      outcome := Outcome(status, [], if status == OK then 1 else 0);
      ValidParts();
      if old(bpm.Ready()) {
        InsertIs(e, State(), table, values, outcome, t, rid, record);
      }
    }

    method ExecuteUpdate(table: Bytes, conditions: seq<Condition>, column: Bytes, value: Value) returns (outcome: Outcome)
      requires Valid()
      modifies bpm.Repr
      ensures bpm.Valid() && bpm.Pins() == old(bpm.Pins())
      ensures old(bpm.Ready()) ==> Step(old(State()), Update(table, conditions, column, value), outcome, State())
    {
      hide *;
      ghost var e := State();
      ValidParts();
      var found, t := Find(table);
      if !found {
        outcome := Outcome(NOT_FOUND, [], 0);
        NoTableStep(e, table, outcome);
        return;
      }
      bpm.ReadyParts();
      var executor := new QueryExecutor(bpm, catalog);
      var status, affected;
      ghost var rids, states;
      status, affected, rids, states := executor.ExecuteUpdate(table, t, conditions, column, value);
      outcome := Outcome(status, [], affected);
      ValidParts();
      if old(bpm.Ready()) {
        UpdateIs(e, State(), table, conditions, column, value, outcome, t, rids, states);
      }
    }

    method ExecuteDelete(table: Bytes, conditions: seq<Condition>) returns (outcome: Outcome)
      requires Valid()
      modifies bpm.Repr
      ensures bpm.Valid() && bpm.Pins() == old(bpm.Pins())
      ensures old(bpm.Ready()) ==> Step(old(State()), Delete(table, conditions), outcome, State())
    {
      hide *;
      ghost var e := State();
      ValidParts();
      var found, t := Find(table);
      if !found {
        outcome := Outcome(NOT_FOUND, [], 0);
        NoTableStep(e, table, outcome);
        return;
      }
      bpm.ReadyParts();
      var executor := new QueryExecutor(bpm, catalog);
      var status, affected;
      ghost var rids;
      status, affected, rids := executor.ExecuteDelete(table, t, conditions);
      outcome := Outcome(status, [], affected);
      ValidParts();
      if old(bpm.Ready()) {
        DeleteIs(e, State(), table, conditions, outcome, t, rids);
      }
    }

    method ExecuteCreateTable(name: Bytes, definitions: seq<ColumnDefinition>) returns (outcome: Outcome)
      requires Valid()
      modifies catalog`tables, bpm.Repr
      ensures bpm.Valid() && bpm.Pins() == old(bpm.Pins())
      ensures old(bpm.Ready()) ==> Step(old(State()), CreateTable(name, definitions), outcome, State())
    {
      hide *;
      ghost var e := State();
      ValidParts();
      ghost var names, db := Listing(e);
      var executor := new DefinitionExecutor(bpm, catalog);
      bpm.ReadyParts();
      var status;
      ghost var t, s;
      status, t, s := executor.ExecuteCreateTable(name, definitions, names, db, lost);
      outcome := Outcome(status, [], 0);
      ValidParts();
      if old(bpm.Ready()) {
        CreateTableIs(e, State(), name, definitions, outcome, if name in catalog.tables then catalog.tables[name] else TableMeta([], [], 0), s);
      }
    }

    method ExecuteCreateIndex(name: Bytes, table: Bytes, column: Bytes) returns (outcome: Outcome)
      requires Valid()
      modifies this`lost, catalog`indexes, catalog`indexNames, bpm.Repr
      ensures bpm.Valid() && bpm.Pins() == old(bpm.Pins())
      ensures old(bpm.Ready()) ==> Step(old(State()), CreateIndex(name, table, column), outcome, State())
    {
      hide *;
      ghost var e := State();
      ValidParts();
      ghost var names, db := Listing(e);
      ghost var k: nat := 0;
      if table in catalog.tables {
        EngineParts(e.store, e.tables, e.indexes, e.indexNames, names, db, e.lost);
        k := PlaceOf(e.tables, e.indexes, names, db, table);
      }
      var executor := new DefinitionExecutor(bpm, catalog);
      bpm.ReadyParts();
      var status;
      ghost var t, s, h;
      status, t, s, h := executor.ExecuteCreateIndex(name, table, column, names, db, lost, k);
      outcome := Outcome(status, [], 0);
      if old(bpm.Ready()) && name == [] && bpm.Store() != e.store {
        lost := lost + IndexPages(bpm.Store(), h);
      }
      ValidParts();
      if old(bpm.Ready()) {
        if status == OK {
          DefinedParts(e.store, bpm.Store(), e.tables, e.indexes, catalog.indexes, e.indexNames, catalog.indexNames, db, k, t, name, table, column);
          CreateIndexIs(e, State(), name, table, column, catalog.indexes[MakeIndexKey(table, column)].header, outcome, s);
        } else if name == [] && bpm.Store() != e.store {
          LeakIs(e, State(), table, column, outcome, h);
        } else {
          NoIndexCreated(e, name, table, column, outcome);
        }
      }
    }

    static lemma DefinedParts(a: Store, b: Store, tables: Tables, before: Indexes, after: Indexes, names: Names, namesAfter: Names,
                              db: seq<TableInfo>, k: nat, t: TableInfo, name: Bytes, table: Bytes, column: Bytes)
      requires IndexDefined(a, b, tables, before, after, names, namesAfter, db, k, t, name, table, column)
      ensures MakeIndexKey(table, column) in after
      ensures var x := IndexMeta(name, table, column, after[MakeIndexKey(table, column)].header);
              && KeyOfIndex(x) == MakeIndexKey(table, column) && after[MakeIndexKey(table, column)] == x
              && after == before[KeyOfIndex(x) := x] && namesAfter == names[name := KeyOfIndex(x)]
    {
      hide TableOk, HeapRows, HasColumn, MakeIndexKey, PositionOf, WithIndex;
    }

    /** Carries out one statement. On a disk that works, what it does is a step of the engine,
        which stays in order; so the next statement can follow. */
    method Execute(statement: Statement) returns (outcome: Outcome)
      requires Wired() && bpm.Valid() && (catalog.status == OK ==> Valid())
      modifies this`lost, catalog`tables, catalog`indexes, catalog`indexNames, bpm.Repr
      ensures bpm.Valid() && bpm.Pins() == old(bpm.Pins())
      ensures catalog.status != OK ==> outcome.status == catalog.status && State() == old(State())
      ensures catalog.status == OK && old(bpm.Ready()) ==>
                Step(old(State()), statement, outcome, State()) && Valid() && Kept(old(State()), State(), Target(statement))
      ensures old(bpm.Ready()) ==> bpm.Ready()
    {
      hide *;
      ghost var e := State();
      ValidParts();
      bpm.ReadyParts();
      if catalog.status != OK {
        outcome := Outcome(catalog.status, [], 0);
        return;
      }
      match statement {
        case Select(table, conditions, fields) => outcome := ExecuteSelect(table, conditions, fields);
        case Insert(table, values) => outcome := ExecuteInsert(table, values);
        case Update(table, conditions, column, value) => outcome := ExecuteUpdate(table, conditions, column, value);
        case Delete(table, conditions) => outcome := ExecuteDelete(table, conditions);
        case CreateTable(name, definitions) => outcome := ExecuteCreateTable(name, definitions);
        case CreateIndex(name, table, column) => outcome := ExecuteCreateIndex(name, table, column);
      }
      bpm.ReadyParts();
      ValidParts();
      if old(bpm.Ready()) {
        StepKeepsOrder(e, statement, outcome, State());
      }
    }

    /** Carries out statements one after the other, whatever their outcomes. */
    method Serve(statements: seq<Statement>) returns (outcomes: seq<Outcome>, ghost states: seq<Engine>)
      requires Valid() && bpm.Ready()
      modifies this`lost, catalog`tables, catalog`indexes, catalog`indexNames, bpm.Repr
      ensures Valid() && bpm.Ready() && bpm.Pins() == old(bpm.Pins())
      ensures Run(states, statements, outcomes) && |states| == |statements| + 1
      ensures states[0] == old(State()) && states[|statements|] == State()
    {
      hide *;
      ValidParts();
      outcomes, states := [], [State()];
      EmptyRun(State());
      for i := 0 to |statements|
        invariant Valid() && bpm.Ready() && bpm.Pins() == old(bpm.Pins())
        invariant |states| == i + 1 && states[0] == old(State()) && states[i] == State() && Run(states, statements[..i], outcomes)
        modifies this`lost, catalog`tables, catalog`indexes, catalog`indexNames, bpm.Repr
      {
        ValidParts();
        assert statements[..i + 1] == statements[..i] + [statements[i]];
        var outcome := Execute(statements[i]);
        LongerRun(states, statements[..i], outcomes, statements[i], outcome, State());
        outcomes, states := outcomes + [outcome], states + [State()];
      }
      assert statements[..|statements|] == statements;
    }
  }

  // ---- The program ----

  /** The file has what an engine in order has left, or it is new. */
  ghost predicate Left(file: seq<Bytes>, e: Engine) {
    && |file| <= e.capacity && 1 <= e.capacity <= MAX_PAGES && (forall p :: 0 <= p < |file| ==> |file[p]| == PAGE_SIZE)
    && InOrder(e) && exists free: set<nat> :: Flushed(e.store, Opened(file), free)
  }

  lemma NewFileIsLeft(capacity: nat)
    requires 1 <= capacity <= MAX_PAGES
    ensures Left([], NewEngine(capacity))
  {
    NewEngineInOrder(capacity);
    var file := Opened([]);
    hide InOrder, IsZeroPage;
    assert forall p: nat :: p in NewEngine(capacity).store <==> p == 0;
    assert Flushed(NewEngine(capacity).store, file, {});
  }

  lemma LeftParts(file: seq<Bytes>, e: Engine) returns (free: set<nat>)
    requires Left(file, e)
    ensures |file| <= e.capacity && 1 <= e.capacity <= MAX_PAGES && forall p :: 0 <= p < |file| ==> |file[p]| == PAGE_SIZE
    ensures InOrder(e) && Flushed(e.store, Opened(file), free)
  {
    hide InOrder, Flushed;
    free :| Flushed(e.store, Opened(file), free);
  }

  lemma MakeLeft(disk: DiskManager, e: Engine)
    requires disk.Valid() && disk.capacity == e.capacity && InOrder(e) && Flushed(e.store, disk.pages, disk.freePages)
    ensures Left(disk.pages, e)
  {
    hide InOrder, Flushed, ZeroPages;
    assert Opened(disk.pages) == disk.pages;
  }

  /** The program on a disk that works, from its start to its end: it opens the file, which
      gives back the engine that it was left by, carries out statements, and leaves the
      file to the next time. */
  method RunProgram(file: seq<Bytes>, poolSize: nat, capacity: nat, statements: seq<Statement>, ghost e: Engine)
    returns (outcomes: seq<Outcome>, after: seq<Bytes>, ghost states: seq<Engine>)
    requires poolSize >= 1 && Left(file, e) && capacity == e.capacity
    ensures Run(states, statements, outcomes) && |states| == |statements| + 1 && states[0] == e
    ensures Left(after, states[|statements|])
  {
    hide *;
    ghost var free := LeftParts(file, e);
    ghost var names, db := Listing(e);
    var bpm, catalog := Start(file, poolSize, true, capacity, e.store, free, e.tables, e.indexes, e.indexNames, names, db, e.lost);
    if catalog.status != OK {
      assert false;
    }
    var session := new Session(bpm, catalog, e.lost);
    session.ValidParts();
    assert session.State() == e;
    bpm.ReadyParts();
    outcomes, states := session.Serve(statements);
    session.ValidParts();
    bpm.ReadyParts();
    ShutDown(bpm);
    bpm.Parts();
    after := bpm.disk.pages;
    MakeLeft(bpm.disk, states[|statements|]);
  }
}
