// Whole runs of the engine: any statements, one after the other, on a disk that works.
module EngineRuns {
  import opened Common
  import opened RecordFormat
  import opened CatalogFormat
  import opened Catalogs
  import opened CatalogManagers
  import opened PageChains
  import opened HeapStates
  import opened IndexStates
  import opened TableStates
  import opened TableOutcomes
  import opened TableRooms
  import opened Queries
  import opened Operators
  import opened Planners
  import opened Selections
  import opened StatementOutcomes
  import opened Databases
  import opened IndexBuilds
  import opened TableEntries
  import opened Engines
  import opened TableLoads
  import opened IndexLeaks
  import opened ColumnDefinitions
  import opened DataDefinition
  import opened Restarts

  /** The pages, the catalog in memory, the pages that belong to no table, and how many pages
      the disk can hold. */
  datatype Engine = Engine(store: Store, tables: Tables, indexes: Indexes, indexNames: Names, lost: set<nat>, capacity: nat)

  datatype Statement =
    | Select(table: Bytes, conditions: seq<Condition>, fields: seq<Bytes>)
    | Insert(table: Bytes, values: seq<Value>)
    | Update(table: Bytes, conditions: seq<Condition>, column: Bytes, value: Value)
    | Delete(table: Bytes, conditions: seq<Condition>)
    | CreateTable(name: Bytes, definitions: seq<ColumnDefinition>)
    | CreateIndex(name: Bytes, table: Bytes, columnName: Bytes)

  /** What the client sees of a statement. */
  datatype Outcome = Outcome(status: StatusCode, rows: seq<seq<Value>>, affected: nat)

  /** The engine is in order, however its tables are listed. */
  ghost predicate InOrder(e: Engine) {
    exists names: seq<Bytes>, db: seq<TableInfo> :: EngineOk(e.store, e.tables, e.indexes, e.indexNames, names, db, e.lost)
  }

  ghost function RowsOf(e: Engine, name: Bytes): Rows {
    if name in e.tables then HeapRows(e.store, e.tables[name].first) else map[]
  }

  // ---- Steps ----

  /** Only the pages of table `name`, which is `t`, have changed. */
  ghost predicate RowStep(e: Engine, f: Engine, name: Bytes, t: TableInfo) {
    Loaded(e.tables, e.indexes, name, t) && StatementStep(e.store, f.store, t) && f == e.(store := f.store)
  }

  ghost predicate NoTable(e: Engine, f: Engine, name: Bytes, outcome: Outcome) {
    name !in e.tables && outcome == Outcome(NOT_FOUND, [], 0) && f == e
  }

  ghost predicate SelectStep(e: Engine, f: Engine, name: Bytes, conditions: seq<Condition>, fields: seq<Bytes>, outcome: Outcome, t: TableInfo,
                             order: seq<RecordID>, rids: seq<RecordID>) {
    f == e && Showed(e.store, e.indexes, name, t, conditions, fields, outcome.status, order, rids, outcome.rows)
  }

  /** One row more, and the pages that it needs, if there is room for it; or else none. */
  ghost predicate InsertStep(e: Engine, f: Engine, t: TableInfo, values: seq<Value>, outcome: Outcome, rid: RecordID, record: Bytes) {
    && InsertStatusIs(e.store, t, values, outcome.status, e.capacity)
    && if outcome.status == OK then
         && RowAdded(e.store, f.store, t, values, rid, record) && outcome.affected == 1
         && |f.store| == |e.store| + InsertPages(e.store, t, values)
       else
         HeapRows(f.store, t.first) == HeapRows(e.store, t.first) && outcome.affected == 0
  }

  ghost predicate TableStepTo(e: Engine, f: Engine, name: Bytes, definitions: seq<ColumnDefinition>, m: TableMeta, s: Store) {
    && TableMade(e.store, s, f.store, e.tables, e.indexes, m) && m.name == name
    && Definable(definitions) && Defines(definitions, m.schema)
    && f == e.(store := f.store, tables := e.tables[name := m])
  }

  ghost predicate IndexStepTo(e: Engine, f: Engine, x: IndexMeta, s: Store) {
    && IndexMade(e.store, s, f.store, e.tables, e.indexes, e.indexNames, x)
    && f == e.(store := f.store, indexes := e.indexes[KeyOfIndex(x) := x], indexNames := e.indexNames[x.name := KeyOfIndex(x)])
  }

  /** CREATE INDEX with an empty name: the catalog has refused a complete index, whose
      pages are lost. */
  ghost predicate LeakStep(e: Engine, f: Engine, table: Bytes, column: Bytes, h: nat) {
    && Buildable(e.store, e.tables, e.indexes, table, column) && table in e.tables
    && var m := e.tables[table];
       && IndexAdded(e.store, f.store, m.schema, m.first, PositionOf(m.schema, column), h)
       && f == e.(store := f.store, lost := e.lost + IndexPages(f.store, h))
  }

  /** Only SELECT shows rows, and only INSERT, UPDATE and DELETE count what they have changed. */
  predicate Answers(statement: Statement, outcome: Outcome) {
    && (!statement.Select? ==> outcome.rows == [])
    && (statement.Select? || statement.CreateTable? || statement.CreateIndex? ==> outcome.affected == 0)
  }

  /** What a statement does to the engine, and what the client sees of it. */
  ghost predicate Step(e: Engine, statement: Statement, outcome: Outcome, f: Engine) {
    && Answers(statement, outcome)
    && match statement
       case Select(table, conditions, fields) =>
         || NoTable(e, f, table, outcome)
         || (exists t: TableInfo, order: seq<RecordID>, rids: seq<RecordID> ::
               Loaded(e.tables, e.indexes, table, t) && SelectStep(e, f, table, conditions, fields, outcome, t, order, rids))
       case Insert(table, values) =>
         || NoTable(e, f, table, outcome)
         || (exists t: TableInfo, rid: RecordID, record: Bytes ::
               RowStep(e, f, table, t) && InsertStep(e, f, t, values, outcome, rid, record))
       case Update(table, conditions, column, value) =>
         || NoTable(e, f, table, outcome)
         || (exists t: TableInfo, rids: seq<RecordID>, states: seq<Store> ::
               RowStep(e, f, table, t)
               && Updated(e.store, f.store, e.indexes, table, t, conditions, column, value, outcome.status, outcome.affected, rids, states, e.capacity))
       case Delete(table, conditions) =>
         || NoTable(e, f, table, outcome)
         || (exists t: TableInfo, rids: seq<RecordID> ::
               RowStep(e, f, table, t)
               && Deleted(e.store, f.store, e.indexes, table, t, conditions, outcome.status, outcome.affected, rids))
       case CreateTable(name, definitions) =>
         && TableStatusIs(e.store, e.tables, e.indexes, name, definitions, outcome.status, e.capacity)
         && if outcome.status == OK then exists m: TableMeta, s: Store :: TableStepTo(e, f, name, definitions, m, s)
            else f == e
       case CreateIndex(name, table, column) =>
         && IndexStatusIs(e.store, e.tables, e.indexes, e.indexNames, name, table, column, outcome.status, e.capacity)
         && if outcome.status == OK then
              exists header: Int32, s: Store :: IndexStepTo(e, f, IndexMeta(name, table, column, header), s)
            else
              f == e || (name == [] && outcome.status == INVALID_ARGUMENT && exists h: nat :: LeakStep(e, f, table, column, h))
  }

  // ---- Outcomes as steps ----

  lemma NoTableStep(e: Engine, name: Bytes, outcome: Outcome)
    requires name !in e.tables && outcome == Outcome(NOT_FOUND, [], 0)
    ensures forall conditions, fields :: Step(e, Select(name, conditions, fields), outcome, e)
    ensures forall values :: Step(e, Insert(name, values), outcome, e)
    ensures forall conditions, column, value :: Step(e, Update(name, conditions, column, value), outcome, e)
    ensures forall conditions :: Step(e, Delete(name, conditions), outcome, e)
  {
    hide RowStep, SelectStep, InsertStep, Loaded, Updated, Deleted;
  }

  lemma MakeRowStep(e: Engine, f: Engine, name: Bytes, t: TableInfo)
    requires Loaded(e.tables, e.indexes, name, t) && f == e.(store := f.store)
    requires TableOk(f.store, t) && TableStep(e.store, f.store, t) && TableKeepsNew(e.store, f.store, t)
    ensures RowStep(e, f, name, t)
  {
    hide Loaded, TableOk, TableStep, TableKeepsNew;
  }

  lemma SelectIs(e: Engine, name: Bytes, conditions: seq<Condition>, fields: seq<Bytes>, outcome: Outcome, t: TableInfo,
                 order: seq<RecordID>, rids: seq<RecordID>)
    requires Loaded(e.tables, e.indexes, name, t)
    requires Showed(e.store, e.indexes, name, t, conditions, fields, outcome.status, order, rids, outcome.rows) && outcome.affected == 0
    ensures Step(e, Select(name, conditions, fields), outcome, e)
  {
    hide Loaded, Showed, NoTable;
    assert SelectStep(e, e, name, conditions, fields, outcome, t, order, rids);
  }

  lemma InsertIs(e: Engine, f: Engine, name: Bytes, values: seq<Value>, outcome: Outcome, t: TableInfo, rid: RecordID, record: Bytes)
    requires Loaded(e.tables, e.indexes, name, t) && f == e.(store := f.store)
    requires TableStep(e.store, f.store, t) && TableKeepsNew(e.store, f.store, t)
    requires InsertStatusIs(e.store, t, values, outcome.status, e.capacity) && outcome.rows == []
    requires outcome.status == OK ==>
               && RowAdded(e.store, f.store, t, values, rid, record) && outcome.affected == 1
               && |f.store| == |e.store| + InsertPages(e.store, t, values)
    requires outcome.status != OK ==> TableUnchanged(e.store, f.store, t) && outcome.affected == 0
    ensures Step(e, Insert(name, values), outcome, f)
  {
    hide *;
    if outcome.status == OK {
      AddedOk(e.store, f.store, t, values, rid, record);
    } else {
      UnchangedRows(e.store, f.store, t);
    }
    MakeRowStep(e, f, name, t);
    InsertStepIs(e, f, name, values, outcome, t, rid, record);
  }

  lemma AddedOk(a: Store, b: Store, t: TableInfo, values: seq<Value>, rid: RecordID, record: Bytes)
    requires RowAdded(a, b, t, values, rid, record)
    ensures TableOk(b, t)
  {
    hide TableOk, HeapRows;
  }

  lemma InsertStepIs(e: Engine, f: Engine, name: Bytes, values: seq<Value>, outcome: Outcome, t: TableInfo, rid: RecordID, record: Bytes)
    requires RowStep(e, f, name, t) && InsertStatusIs(e.store, t, values, outcome.status, e.capacity) && outcome.rows == []
    requires outcome.status == OK ==>
               && RowAdded(e.store, f.store, t, values, rid, record) && outcome.affected == 1
               && |f.store| == |e.store| + InsertPages(e.store, t, values)
    requires outcome.status != OK ==> HeapRows(f.store, t.first) == HeapRows(e.store, t.first) && outcome.affected == 0
    ensures Step(e, Insert(name, values), outcome, f)
  {
    hide RowStep, RowAdded, HeapRows, NoTable, InsertStatusIs, InsertPages;
    assert InsertStep(e, f, t, values, outcome, rid, record);
  }

  lemma InsertRefused(e: Engine, name: Bytes, values: seq<Value>, outcome: Outcome, t: TableInfo)
    requires Loaded(e.tables, e.indexes, name, t) && TableOk(e.store, t) && |values| != |t.schema|
    requires outcome == Outcome(INVALID_ARGUMENT, [], 0)
    ensures Step(e, Insert(name, values), outcome, e)
  {
    hide *;
    WrongCount(e.store, t, values, e.capacity);
    StartStatement(e.store, t);
    StatementParts(e.store, e.store, t);
    MakeRowStep(e, e, name, t);
    InsertStepIs(e, e, name, values, outcome, t, RecordID(0, 0), []);
  }

  lemma WrongCount(s: Store, t: TableInfo, values: seq<Value>, capacity: nat)
    requires |values| != |t.schema|
    ensures InsertStatusIs(s, t, values, INVALID_ARGUMENT, capacity)
  {
    hide KeysExist, Payload, HeaderSize, RoomForRow, RecordSize;
  }

  lemma UpdateIs(e: Engine, f: Engine, name: Bytes, conditions: seq<Condition>, column: Bytes, value: Value, outcome: Outcome,
                 t: TableInfo, rids: seq<RecordID>, states: seq<Store>)
    requires Loaded(e.tables, e.indexes, name, t) && TableOk(e.store, t) && f == e.(store := f.store) && outcome.rows == []
    requires Updated(e.store, f.store, e.indexes, name, t, conditions, column, value, outcome.status, outcome.affected, rids, states, e.capacity)
    ensures Step(e, Update(name, conditions, column, value), outcome, f)
  {
    hide *;
    UpdateIsStep(e.store, f.store, e.indexes, name, t, conditions, column, value, outcome.status, outcome.affected, rids, states, e.capacity);
    StatementParts(e.store, f.store, t);
    MakeRowStep(e, f, name, t);
    ChangeStepIs(e, f, name, conditions, column, value, outcome, t, rids, states);
  }

  lemma DeleteIs(e: Engine, f: Engine, name: Bytes, conditions: seq<Condition>, outcome: Outcome, t: TableInfo, rids: seq<RecordID>)
    requires Loaded(e.tables, e.indexes, name, t) && TableOk(e.store, t) && f == e.(store := f.store) && outcome.rows == []
    requires Deleted(e.store, f.store, e.indexes, name, t, conditions, outcome.status, outcome.affected, rids)
    ensures Step(e, Delete(name, conditions), outcome, f)
  {
    hide *;
    DeleteIsStep(e.store, f.store, e.indexes, name, t, conditions, outcome.status, outcome.affected, rids);
    StatementParts(e.store, f.store, t);
    MakeRowStep(e, f, name, t);
    ChangeStepIs(e, f, name, conditions, [], Null, outcome, t, rids, []);
  }

  lemma ChangeStepIs(e: Engine, f: Engine, name: Bytes, conditions: seq<Condition>, column: Bytes, value: Value, outcome: Outcome,
                     t: TableInfo, rids: seq<RecordID>, states: seq<Store>)
    requires RowStep(e, f, name, t) && outcome.rows == []
    ensures Updated(e.store, f.store, e.indexes, name, t, conditions, column, value, outcome.status, outcome.affected, rids, states, e.capacity) ==>
              Step(e, Update(name, conditions, column, value), outcome, f)
    ensures Deleted(e.store, f.store, e.indexes, name, t, conditions, outcome.status, outcome.affected, rids) ==>
              Step(e, Delete(name, conditions), outcome, f)
  {
    hide NoTable, RowStep, Updated, Deleted;
  }

  lemma CreateTableIs(e: Engine, f: Engine, name: Bytes, definitions: seq<ColumnDefinition>, outcome: Outcome, m: TableMeta, s: Store)
    requires TableStatusIs(e.store, e.tables, e.indexes, name, definitions, outcome.status, e.capacity) && (outcome.status != OK ==> f == e)
    requires outcome.rows == [] && outcome.affected == 0
    requires outcome.status == OK ==>
               && TableMade(e.store, s, f.store, e.tables, e.indexes, m) && m.name == name
               && Definable(definitions) && Defines(definitions, m.schema) && f == e.(store := f.store, tables := e.tables[name := m])
    ensures Step(e, CreateTable(name, definitions), outcome, f)
  {
    hide TableMade, Definable, Defines, TableStatusIs;
    if outcome.status == OK {
      assert TableStepTo(e, f, name, definitions, m, s);
    }
  }

  lemma CreateIndexIs(e: Engine, f: Engine, name: Bytes, table: Bytes, column: Bytes, header: Int32, outcome: Outcome, s: Store)
    requires var x := IndexMeta(name, table, column, header);
             && outcome == Outcome(OK, [], 0) && IndexMade(e.store, s, f.store, e.tables, e.indexes, e.indexNames, x)
             && f == e.(store := f.store, indexes := e.indexes[KeyOfIndex(x) := x], indexNames := e.indexNames[name := KeyOfIndex(x)])
    requires IndexStatusIs(e.store, e.tables, e.indexes, e.indexNames, name, table, column, outcome.status, e.capacity)
    ensures Step(e, CreateIndex(name, table, column), outcome, f)
  {
    hide IndexMade, KeyOfIndex, IndexStatusIs;
    assert IndexStepTo(e, f, IndexMeta(name, table, column, header), s);
  }

  lemma NoIndexCreated(e: Engine, name: Bytes, table: Bytes, column: Bytes, outcome: Outcome)
    requires outcome.status != OK && outcome.rows == [] && outcome.affected == 0
    requires IndexStatusIs(e.store, e.tables, e.indexes, e.indexNames, name, table, column, outcome.status, e.capacity)
    ensures Step(e, CreateIndex(name, table, column), outcome, e)
  {
    hide LeakStep, IndexStepTo, IndexStatusIs;
  }

  lemma LeakIs(e: Engine, f: Engine, table: Bytes, column: Bytes, outcome: Outcome, h: nat)
    requires outcome == Outcome(INVALID_ARGUMENT, [], 0) && Buildable(e.store, e.tables, e.indexes, table, column) && table in e.tables
    requires var m := e.tables[table]; IndexAdded(e.store, f.store, m.schema, m.first, PositionOf(m.schema, column), h)
    requires f == e.(store := f.store, lost := e.lost + IndexPages(f.store, h))
    requires IndexStatusIs(e.store, e.tables, e.indexes, e.indexNames, [], table, column, INVALID_ARGUMENT, e.capacity)
    ensures Step(e, CreateIndex([], table, column), outcome, f)
  {
    hide Buildable, IndexAdded, PositionOf, IndexPages, IndexStatusIs;
    assert LeakStep(e, f, table, column, h);
  }

  /** The table whose rows a statement may change. */
  function Target(statement: Statement): Option<Bytes> {
    match statement
    case Insert(table, _) => Some(table)
    case Update(table, _, _, _) => Some(table)
    case Delete(table, _) => Some(table)
    case _ => None
  }

  /** What one step does, whatever the statement: order is kept, and the tables are still
      there, with the rows that they had unless they are what the statement is about. */
  ghost predicate Kept(e: Engine, f: Engine, target: Option<Bytes>) {
    && InOrder(f)
    && (forall name :: name in e.tables ==>
          && name in f.tables && f.tables[name] == e.tables[name]
          && (target != Some(name) ==> RowsOf(f, name) == RowsOf(e, name)))
  }

  lemma MakeKept(e: Engine, f: Engine, target: Option<Bytes>, names: seq<Bytes>, db: seq<TableInfo>, names2: seq<Bytes>, db2: seq<TableInfo>)
    requires EngineOk(e.store, e.tables, e.indexes, e.indexNames, names, db, e.lost)
    requires EngineOk(f.store, f.tables, f.indexes, f.indexNames, names2, db2, f.lost)
    requires forall name :: name in e.tables ==> name in f.tables && f.tables[name] == e.tables[name]
    requires forall j: nat :: j < |db| && j < |names| && target != Some(names[j]) ==> HeapRows(f.store, db[j].first) == HeapRows(e.store, db[j].first)
    ensures Kept(e, f, target)
  {
    hide *;
    EngineParts(e.store, e.tables, e.indexes, e.indexNames, names, db, e.lost);
    OrderHolds(f, names2, db2);
    forall name | name in e.tables && target != Some(name) ensures RowsOf(f, name) == RowsOf(e, name) {
      var j: nat := PlaceOf(e.tables, e.indexes, names, db, name);
      RowsAre(e, name);
      RowsAre(f, name);
    }
    KeptIs(e, f, target);
  }

  lemma OrderHolds(f: Engine, names: seq<Bytes>, db: seq<TableInfo>)
    requires EngineOk(f.store, f.tables, f.indexes, f.indexNames, names, db, f.lost)
    ensures InOrder(f)
  {
    hide EngineOk;
  }

  lemma Listing(e: Engine) returns (names: seq<Bytes>, db: seq<TableInfo>)
    requires InOrder(e)
    ensures EngineOk(e.store, e.tables, e.indexes, e.indexNames, names, db, e.lost)
  {
    hide EngineOk;
    names, db :| EngineOk(e.store, e.tables, e.indexes, e.indexNames, names, db, e.lost);
  }

  lemma RowsAre(e: Engine, name: Bytes)
    ensures name in e.tables ==> RowsOf(e, name) == HeapRows(e.store, e.tables[name].first)
  {
    hide HeapRows;
  }

  lemma PlaceOf(tables: Tables, indexes: Indexes, names: seq<Bytes>, db: seq<TableInfo>, name: Bytes) returns (j: nat)
    requires Describes(tables, indexes, names, db) && name in tables
    ensures j < |names| && j < |db| && names[j] == name && tables[name].first == db[j].first
  {
    hide InfosIn, InfosOf, AllDifferent;
    assert Named(names, name);
    j :| j < |names| && names[j] == name;
    assert TableIs(tables[names[j]], indexes, db[j]);
  }

  lemma KeptIs(e: Engine, f: Engine, target: Option<Bytes>)
    requires InOrder(f)
    requires forall name :: name in e.tables ==> name in f.tables && f.tables[name] == e.tables[name]
    requires forall name :: name in e.tables && target != Some(name) ==> RowsOf(f, name) == RowsOf(e, name)
    ensures Kept(e, f, target)
  {
    hide InOrder, RowsOf;
  }

  lemma KeptParts(e: Engine, f: Engine, target: Option<Bytes>)
    ensures Kept(e, f, target) ==> InOrder(f)
    ensures Kept(e, f, target) ==> forall name :: name in e.tables ==>
              && name in f.tables && f.tables[name] == e.tables[name]
              && (target != Some(name) ==> RowsOf(f, name) == RowsOf(e, name))
  {
    hide InOrder, RowsOf;
  }

  lemma NothingKept(e: Engine, target: Option<Bytes>)
    requires InOrder(e)
    ensures Kept(e, e, target)
  {
    hide InOrder, RowsOf;
  }

  // ---- Each kind of step ----

  lemma RowStepKeeps(e: Engine, f: Engine, name: Bytes, t: TableInfo)
    requires InOrder(e) && RowStep(e, f, name, t)
    ensures Kept(e, f, Some(name))
  {
    hide *;
    RowStepParts(e, f, name, t);
    var names: seq<Bytes>, db: seq<TableInfo> := Listing(e);
    var k: nat := LoadedTableIsOk(e.store, e.tables, e.indexes, e.indexNames, names, db, e.lost, name, t);
    LoadedStatementKeepsEngine(e.store, f.store, e.tables, e.indexes, e.indexNames, names, db, e.lost, name, t, k);
    EngineParts(e.store, e.tables, e.indexes, e.indexNames, names, db, e.lost);
    NamesDiffer(e.tables, e.indexes, names, db, k);
    MakeKept(e, f, Some(name), names, db, names, db);
  }

  lemma RowStepParts(e: Engine, f: Engine, name: Bytes, t: TableInfo)
    requires RowStep(e, f, name, t)
    ensures Loaded(e.tables, e.indexes, name, t) && StatementStep(e.store, f.store, t) && f == e.(store := f.store)
  {
    hide Loaded, StatementStep;
  }

  lemma NamesDiffer(tables: Tables, indexes: Indexes, names: seq<Bytes>, db: seq<TableInfo>, k: nat)
    requires Describes(tables, indexes, names, db) && k < |names|
    ensures forall j: nat :: j < |names| && names[j] != names[k] ==> j != k
  {
  }

  lemma TableStepKeeps(e: Engine, f: Engine, name: Bytes, definitions: seq<ColumnDefinition>, m: TableMeta, s: Store)
    requires InOrder(e) && TableStepTo(e, f, name, definitions, m, s)
    ensures Kept(e, f, None) && name !in e.tables && name in f.tables && RowsOf(f, name) == map[]
  {
    hide *;
    TableStepParts(e, f, name, definitions, m, s);
    MadeParts(e.store, s, f.store, e.tables, e.indexes, m);
    var names: seq<Bytes>, db: seq<TableInfo> := Listing(e);
    TableMadeKeepsEngine(e.store, s, f.store, e.tables, e.indexes, e.indexNames, names, db, e.lost, m);
    RowsAre(f, name);
    MakeKept(e, f, None, names, db, names + [m.name], db + [TableInfo(m.schema, m.first, [])]);
  }

  lemma TableStepParts(e: Engine, f: Engine, name: Bytes, definitions: seq<ColumnDefinition>, m: TableMeta, s: Store)
    requires TableStepTo(e, f, name, definitions, m, s)
    ensures TableMade(e.store, s, f.store, e.tables, e.indexes, m) && m.name == name
    ensures f == e.(store := f.store, tables := e.tables[name := m])
  {
    hide TableMade, Definable, Defines;
  }

  lemma IndexStepKeeps(e: Engine, f: Engine, x: IndexMeta, s: Store)
    requires InOrder(e) && IndexStepTo(e, f, x, s)
    ensures Kept(e, f, None)
  {
    hide *;
    IndexStepParts(e, f, x, s);
    MadeIndexParts(e.store, s, f.store, e.tables, e.indexes, e.indexNames, x);
    var names: seq<Bytes>, db: seq<TableInfo> := Listing(e);
    EngineParts(e.store, e.tables, e.indexes, e.indexNames, names, db, e.lost);
    var k: nat := PlaceOf(e.tables, e.indexes, names, db, x.table);
    IndexMadeKeepsEngine(e.store, s, f.store, e.tables, e.indexes, e.indexNames, names, db, e.lost, x, k);
    MakeKept(e, f, None, names, db, names, db[k := WithIndex(db[k], PositionOf(db[k].schema, x.column), x.header)]);
  }

  lemma IndexStepParts(e: Engine, f: Engine, x: IndexMeta, s: Store)
    requires IndexStepTo(e, f, x, s)
    ensures IndexMade(e.store, s, f.store, e.tables, e.indexes, e.indexNames, x)
    ensures f == e.(store := f.store, indexes := e.indexes[KeyOfIndex(x) := x], indexNames := e.indexNames[x.name := KeyOfIndex(x)])
  {
    hide IndexMade, KeyOfIndex;
  }

  lemma LeakStepKeeps(e: Engine, f: Engine, table: Bytes, column: Bytes, h: nat)
    requires InOrder(e) && LeakStep(e, f, table, column, h)
    ensures Kept(e, f, None) && IndexPages(f.store, h) != {} && f.lost == e.lost + IndexPages(f.store, h) && e.lost < f.lost
  {
    hide *;
    LeakStepParts(e, f, table, column, h);
    var m := e.tables[table];
    var names: seq<Bytes>, db: seq<TableInfo> := Listing(e);
    LeakKeepsEngine(e.store, f.store, e.tables, e.indexes, e.indexNames, names, db, e.lost, m.schema, m.first, PositionOf(m.schema, column), h);
    MakeKept(e, f, None, names, db, names, db);
    assert e.lost != f.lost;
  }

  lemma LeakStepParts(e: Engine, f: Engine, table: Bytes, column: Bytes, h: nat)
    requires LeakStep(e, f, table, column, h)
    ensures table in e.tables
    ensures var m := e.tables[table]; IndexAdded(e.store, f.store, m.schema, m.first, PositionOf(m.schema, column), h)
    ensures f == e.(store := f.store, lost := e.lost + IndexPages(f.store, h))
  {
    hide Buildable, IndexAdded, PositionOf, IndexPages;
  }

  // ---- All steps ----

  /** Every statement keeps the engine in order, and leaves all tables but one alone. */
  lemma StepKeepsOrder(e: Engine, statement: Statement, outcome: Outcome, f: Engine)
    requires InOrder(e) && Step(e, statement, outcome, f)
    ensures Kept(e, f, Target(statement)) && InOrder(f)
  {
    KeptParts(e, f, Target(statement));
    hide TableStatusIs, IndexStatusIs, InOrder, Kept, RowStep, NoTable, SelectStep, InsertStep, Updated, Deleted, Loaded, TableStepTo, IndexStepTo, LeakStep;
    SameEngine(e, f);
    NothingKept(e, Target(statement));
    match statement
    case Select(table, conditions, fields) =>
      if t: TableInfo, order: seq<RecordID>, rids: seq<RecordID> :|
           Loaded(e.tables, e.indexes, table, t) && SelectStep(e, f, table, conditions, fields, outcome, t, order, rids) {
        SelectKeeps(e, f, table, conditions, fields, outcome, t, order, rids);
      }
    case Insert(table, values) =>
      if t: TableInfo :| RowStep(e, f, table, t) { RowStepKeeps(e, f, table, t); }
    case Update(table, _, _, _) =>
      if t: TableInfo :| RowStep(e, f, table, t) { RowStepKeeps(e, f, table, t); }
    case Delete(table, _) =>
      if t: TableInfo :| RowStep(e, f, table, t) { RowStepKeeps(e, f, table, t); }
    case CreateTable(name, definitions) =>
      if m: TableMeta, s: Store :| TableStepTo(e, f, name, definitions, m, s) { TableStepKeeps(e, f, name, definitions, m, s); }
    case CreateIndex(name, table, column) =>
      if header: Int32, s: Store :| IndexStepTo(e, f, IndexMeta(name, table, column, header), s) {
        IndexStepKeeps(e, f, IndexMeta(name, table, column, header), s);
      } else if h: nat :| LeakStep(e, f, table, column, h) {
        LeakStepKeeps(e, f, table, column, h);
      }
  }

  lemma SameEngine(e: Engine, f: Engine)
    ensures forall name, outcome :: NoTable(e, f, name, outcome) ==> f == e
  {
  }

  lemma SelectKeeps(e: Engine, f: Engine, name: Bytes, conditions: seq<Condition>, fields: seq<Bytes>, outcome: Outcome, t: TableInfo,
                    order: seq<RecordID>, rids: seq<RecordID>)
    requires SelectStep(e, f, name, conditions, fields, outcome, t, order, rids)
    ensures f == e
  {
    hide Showed;
  }

  /** Pages are lost by CREATE INDEX with an empty name, and by nothing else. */
  ghost predicate MayLose(statement: Statement) {
    statement.CreateIndex? && statement.name == []
  }

  lemma StepLosesNothing(e: Engine, statement: Statement, outcome: Outcome, f: Engine)
    requires Step(e, statement, outcome, f) && !MayLose(statement)
    ensures f.lost == e.lost
  {
    hide TableStatusIs, IndexStatusIs, InsertStatusIs, Updated, Deleted, Loaded, Showed, TableMade, IndexMade, LeakStep, StatementStep, InsertStep, Definable, Defines;
  }

  // ---- Rows that stay ----

  /** UPDATE and DELETE may change a row that is there, and nothing else may. */
  ghost predicate MayChange(statement: Statement, name: Bytes) {
    (statement.Update? || statement.Delete?) && statement.table == name
  }

  lemma InsertOnlyAdds(e: Engine, f: Engine, name: Bytes, t: TableInfo, values: seq<Value>, outcome: Outcome, rid: RecordID, record: Bytes)
    requires RowStep(e, f, name, t) && InsertStep(e, f, t, values, outcome, rid, record) && name in e.tables
    ensures forall row :: row in RowsOf(e, name) ==> row in RowsOf(f, name) && RowsOf(f, name)[row] == RowsOf(e, name)[row]
  {
    hide HeapRows, TableOk, StatementStep, NoIndexTwice, InfosIn, InfosOf, InsertStatusIs, InsertPages, RowFits, Encodes;
  }

  lemma NoTableMeans(e: Engine, f: Engine, name: Bytes, outcome: Outcome)
    ensures NoTable(e, f, name, outcome) ==> name !in e.tables
  {
  }

  lemma StepKeepsRows(e: Engine, statement: Statement, outcome: Outcome, f: Engine, name: Bytes)
    requires InOrder(e) && Step(e, statement, outcome, f) && name in e.tables && !MayChange(statement, name)
    ensures name in f.tables
    ensures forall row :: row in RowsOf(e, name) ==> row in RowsOf(f, name) && RowsOf(f, name)[row] == RowsOf(e, name)[row]
  {
    StepKeepsOrder(e, statement, outcome, f);
    KeptParts(e, f, Target(statement));
    hide TableStatusIs, IndexStatusIs, InOrder, Kept, RowsOf, RowStep, NoTable, SelectStep, InsertStep, Updated, Deleted, Loaded, TableStepTo, IndexStepTo, LeakStep;
    NoTableMeans(e, f, name, outcome);
    if statement.Insert? && statement.table == name {
      var t: TableInfo, rid: RecordID, record: Bytes :| RowStep(e, f, name, t) && InsertStep(e, f, t, statement.values, outcome, rid, record);
      InsertOnlyAdds(e, f, name, t, statement.values, outcome, rid, record);
    }
  }

  // ---- Runs ----

  ghost predicate Run(states: seq<Engine>, statements: seq<Statement>, outcomes: seq<Outcome>) {
    && |states| == |statements| + 1 && |outcomes| == |statements|
    && forall i: nat :: i < |statements| ==> Step(states[i], statements[i], outcomes[i], states[i + 1])
  }

  lemma EmptyRun(e: Engine)
    ensures Run([e], [], [])
  {
  }

  lemma LongerRun(states: seq<Engine>, statements: seq<Statement>, outcomes: seq<Outcome>, statement: Statement, outcome: Outcome, f: Engine)
    requires Run(states, statements, outcomes) && states != [] && Step(states[|states| - 1], statement, outcome, f)
    ensures Run(states + [f], statements + [statement], outcomes + [outcome])
  {
    hide Step;
  }

  lemma RunStep(states: seq<Engine>, statements: seq<Statement>, outcomes: seq<Outcome>, i: nat)
    requires Run(states, statements, outcomes) && 0 < i < |states|
    ensures |states| == |statements| + 1 && |outcomes| == |statements|
    ensures Step(states[i - 1], statements[i - 1], outcomes[i - 1], states[i])
  {
    hide Step;
  }

  /** Every state that a run reaches is in order. */
  lemma {:induction false} RunKeepsOrder(states: seq<Engine>, statements: seq<Statement>, outcomes: seq<Outcome>, i: nat)
    requires Run(states, statements, outcomes) && InOrder(states[0]) && i < |states|
    ensures InOrder(states[i])
    decreases i
  {
    hide *;
    if i > 0 {
      RunKeepsOrder(states, statements, outcomes, i - 1);
      RunStep(states, statements, outcomes, i);
      StepKeepsOrder(states[i - 1], statements[i - 1], outcomes[i - 1], states[i]);
    }
  }

  /** Unless some index is created with an empty name, a run loses no page. */
  lemma {:induction false} RunLosesNothing(states: seq<Engine>, statements: seq<Statement>, outcomes: seq<Outcome>, i: nat)
    requires Run(states, statements, outcomes) && i < |states| == |statements| + 1
    requires forall j: nat :: j < i ==> !MayLose(statements[j])
    ensures states[i].lost == states[0].lost
    decreases i
  {
    hide *;
    if i > 0 {
      RunLosesNothing(states, statements, outcomes, i - 1);
      RunStep(states, statements, outcomes, i);
      StepLosesNothing(states[i - 1], statements[i - 1], outcomes[i - 1], states[i]);
    }
  }

  /** A table keeps its rows over any run without an INSERT, UPDATE or DELETE on it. */
  lemma {:induction false} RunLeavesOthers(states: seq<Engine>, statements: seq<Statement>, outcomes: seq<Outcome>, name: Bytes, i: nat)
    requires Run(states, statements, outcomes) && InOrder(states[0]) && i < |states| == |statements| + 1 && name in states[0].tables
    requires forall j: nat :: j < i ==> Target(statements[j]) != Some(name)
    ensures name in states[i].tables && states[i].tables[name] == states[0].tables[name] && RowsOf(states[i], name) == RowsOf(states[0], name)
    decreases i
  {
    hide *;
    if i > 0 {
      RunLeavesOthers(states, statements, outcomes, name, i - 1);
      RunKeepsOrder(states, statements, outcomes, i - 1);
      RunStep(states, statements, outcomes, i);
      StepKeepsOrder(states[i - 1], statements[i - 1], outcomes[i - 1], states[i]);
      KeptParts(states[i - 1], states[i], Target(statements[i - 1]));
    }
  }

  /** A row stays, with its bytes, over any run without an UPDATE or DELETE on its table. */
  lemma {:induction false} RowsSurvive(states: seq<Engine>, statements: seq<Statement>, outcomes: seq<Outcome>, name: Bytes, rid: RecordID, i: nat)
    requires Run(states, statements, outcomes) && InOrder(states[0]) && i < |states| == |statements| + 1 && name in states[0].tables
    requires rid in RowsOf(states[0], name) && forall j: nat :: j < i ==> !MayChange(statements[j], name)
    ensures name in states[i].tables && rid in RowsOf(states[i], name) && RowsOf(states[i], name)[rid] == RowsOf(states[0], name)[rid]
    decreases i
  {
    hide *;
    if i > 0 {
      RowsSurvive(states, statements, outcomes, name, rid, i - 1);
      RunKeepsOrder(states, statements, outcomes, i - 1);
      RunStep(states, statements, outcomes, i);
      StepKeepsRows(states[i - 1], statements[i - 1], outcomes[i - 1], states[i], name);
    }
  }

  /** An engine without tables, on a new file. */
  function NewEngine(capacity: nat): Engine {
    Engine(map[0 := Zeros(PAGE_SIZE)], map[], map[], map[], {}, capacity)
  }

  lemma NewEngineInOrder(capacity: nat)
    ensures InOrder(NewEngine(capacity))
  {
    hide EngineOk;
    FreshEngine();
    OrderHolds(NewEngine(capacity), [], []);
  }

  /** From a new file on, and after any statements, closing the engine and starting it
      again gives back the catalog and every page, and loses no page that was not lost. */
  lemma EveryRunCanRestart(states: seq<Engine>, statements: seq<Statement>, outcomes: seq<Outcome>, file: seq<Bytes>, free: set<nat>, capacity: nat)
    requires Run(states, statements, outcomes) && states[0] == NewEngine(capacity)
    requires Flushed(states[|statements|].store, file, free)
    ensures var e := states[|statements|];
            && InOrder(e) && Reopened(file) == e.store
            && LoadedCatalog(Reopened(file)) == Some((e.tables, e.indexes, e.indexNames))
    ensures (forall statement :: statement in statements ==> !MayLose(statement)) ==> states[|statements|].lost == {}
  {
    NewEngineInOrder(capacity);
    RunKeepsOrder(states, statements, outcomes, |statements|);
    if forall statement :: statement in statements ==> !MayLose(statement) {
      RunLosesNothing(states, statements, outcomes, |statements|);
    }
    hide *;
    var e := states[|statements|];
    var names: seq<Bytes>, db: seq<TableInfo> := Listing(e);
    CleanRestart(e.store, file, free, e.tables, e.indexes, e.indexNames, names, db, e.lost);
  }
}
