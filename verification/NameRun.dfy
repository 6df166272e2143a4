// Names with dots: which statements read the rows of their own table, over whole runs.
module NameRuns {
  import opened Common
  import opened BucketFormat
  import opened RecordFormat
  import opened RecordCodecs
  import opened CatalogFormat
  import opened Catalogs
  import opened PageChains
  import opened HeapStates
  import IndexStates
  import opened IndexOutcomes
  import opened TableStates
  import opened TableOutcomes
  import opened TableRooms
  import opened TableEntries
  import opened Queries
  import opened Comparisons
  import opened Planners
  import opened Selections
  import opened StatementOutcomes
  import IndexBuilds
  import opened Engines
  import opened TableLoads
  import opened ColumnDefinitions
  import opened DataDefinition
  import opened EngineRuns

  // ---- Names stay apart ----

  /** `name` and the table names there are do not continue one another after a dot. */
  ghost predicate ApartFrom(tables: Tables, name: Bytes) {
    forall other :: other in tables && other != name ==> !(other + [DOT] <= name) && !(name + [DOT] <= other)
  }

  lemma NamesApartWith(tables: Tables, m: TableMeta)
    requires m.name !in tables
    ensures NamesApart(tables[m.name := m]) <==> NamesApart(tables) && ApartFrom(tables, m.name)
  {
    var more := tables[m.name := m];
    if NamesApart(more) {
      forall a, b | a in tables && b in tables && a != b ensures !(a + [DOT] <= b) {
        assert a in more && b in more;
      }
      forall other | other in tables && other != m.name ensures !(other + [DOT] <= m.name) && !(m.name + [DOT] <= other) {
        assert other in more && m.name in more;
      }
    }
  }

  /** A statement leaves the names of the tables as they are, or adds the one that it creates. */
  lemma StepTables(e: Engine, statement: Statement, outcome: Outcome, f: Engine)
    requires Step(e, statement, outcome, f)
    ensures !(statement.CreateTable? && outcome.status == OK) ==> f.tables == e.tables
    ensures statement.CreateTable? && outcome.status == OK ==>
              statement.name !in e.tables && exists m: TableMeta :: m.name == statement.name && f.tables == e.tables[m.name := m]
  {
    hide TableStatusIs, IndexStatusIs, InsertStatusIs, Updated, Deleted, Loaded, Showed, TableMade, IndexMade, StatementStep, EngineRuns.InsertStep;
    hide Definable, Defines, Buildable, IndexBuilds.IndexAdded, PositionOf, IndexStates.IndexPages, KeyOfIndex;
    if statement.CreateTable? && outcome.status == OK {
      var m: TableMeta, s: Store :| TableStepTo(e, f, statement.name, statement.definitions, m, s);
      MadeParts(e.store, s, f.store, e.tables, e.indexes, m);
    }
  }

  /** CREATE TABLE keeps the names apart exactly if its own name is apart from them, and
      every other statement does. */
  lemma StepKeepsNamesApart(e: Engine, statement: Statement, outcome: Outcome, f: Engine)
    requires Step(e, statement, outcome, f)
    ensures NamesApart(f.tables) <==>
              NamesApart(e.tables) && (statement.CreateTable? && outcome.status == OK ==> ApartFrom(e.tables, statement.name))
  {
    hide *;
    StepTables(e, statement, outcome, f);
    if statement.CreateTable? && outcome.status == OK {
      var m: TableMeta :| m.name == statement.name && f.tables == e.tables[m.name := m];
      NamesApartWith(e.tables, m);
    }
  }

  ghost predicate DotFree(tables: Tables) {
    forall name :: name in tables ==> DOT !in name
  }

  /** The statement creates a table whose name has a dot. */
  ghost predicate MakesDot(statement: Statement) {
    statement.CreateTable? && DOT in statement.name
  }

  lemma StepKeepsDotFree(e: Engine, statement: Statement, outcome: Outcome, f: Engine)
    requires Step(e, statement, outcome, f) && DotFree(e.tables) && !MakesDot(statement)
    ensures DotFree(f.tables)
  {
    hide Step;
    StepTables(e, statement, outcome, f);
  }

  lemma {:induction false} RunKeepsDotFree(states: seq<Engine>, statements: seq<Statement>, outcomes: seq<Outcome>, i: nat)
    requires Run(states, statements, outcomes) && i < |states| == |statements| + 1 && DotFree(states[0].tables)
    requires forall j: nat :: j < i ==> !MakesDot(statements[j])
    ensures DotFree(states[i].tables)
    decreases i
  {
    hide *;
    if i > 0 {
      RunKeepsDotFree(states, statements, outcomes, i - 1);
      RunStep(states, statements, outcomes, i);
      StepKeepsDotFree(states[i - 1], statements[i - 1], outcomes[i - 1], states[i]);
    }
  }

  // ---- Statements on tables whose names are apart ----

  lemma ApartPlansAreOwn(e: Engine, name: Bytes, conditions: seq<Condition>)
    requires InOrder(e) && NamesApart(e.tables) && name in e.tables
    ensures OwnPlan(e.indexes, name, conditions)
  {
    hide *;
    var names: seq<Bytes>, db: seq<TableInfo> := Listing(e);
    EngineParts(e.store, e.tables, e.indexes, e.indexNames, names, db, e.lost);
    ApartMeansOwn(e.tables, e.indexes, e.indexNames, name);
    OwnPlanExactly(e.indexes, name);
  }

  /** Whatever statements a run carries out, as long as no table is created with a dot in its
      name, the planner uses no index but those of the table that it plans for. */
  lemma RunPlansAreOwn(states: seq<Engine>, statements: seq<Statement>, outcomes: seq<Outcome>, i: nat, name: Bytes, conditions: seq<Condition>)
    requires Run(states, statements, outcomes) && InOrder(states[0]) && i < |states| == |statements| + 1 && DotFree(states[0].tables)
    requires (forall j: nat :: j < i ==> !MakesDot(statements[j])) && name in states[i].tables
    ensures OwnPlan(states[i].indexes, name, conditions)
  {
    hide *;
    RunKeepsOrder(states, statements, outcomes, i);
    RunKeepsDotFree(states, statements, outcomes, i);
    DotFreeMeans(states[i].tables);
    DotFreeNamesAreApart(states[i].tables);
    ApartPlansAreOwn(states[i], name, conditions);
  }

  lemma DotFreeMeans(tables: Tables)
    requires DotFree(tables)
    ensures forall name :: name in tables ==> DOT !in name
  {
  }

  /** The rows of a table for which all conditions hold. */
  ghost function RowsWhere(rows: Rows, schema: Schema, conditions: seq<Condition>): set<RecordID> {
    set rid | rid in rows && AllHold(schema, rows[rid], conditions)
  }

  /** `row` has, for each listed name, the value of the first column of that name; or, without
      a list or with a star, all values. */
  ghost predicate ShowsFields(schema: Schema, record: Bytes, fields: seq<Bytes>, row: seq<Value>) {
    && Decode(schema, record).Some?
    && var values := Decode(schema, record).value;
       if fields == [] || fields[0] == [42] then row == values
       else |row| == |fields| && forall j: nat :: j < |fields| ==> ShowsField(schema, values, fields[j], row[j])
  }

  ghost predicate ShowsField(schema: Schema, values: seq<Value>, name: Bytes, shown: Value) {
    exists p: nat :: FirstNamed(schema, name, p) && p < |values| && shown == values[p]
  }

  /** What SELECT shows is the rows for which WHERE holds, each once, with the listed columns;
      it fails exactly if the conditions cannot be answered, a listed column does not exist,
      or a row cannot be cut. */
  ghost predicate SelectsWhere(e: Engine, name: Bytes, t: TableInfo, conditions: seq<Condition>, fields: seq<Bytes>, outcome: Outcome, rids: seq<RecordID>) {
    && Loaded(e.tables, e.indexes, name, t)
    && (outcome.status == OK <==>
          && Answerable(e.indexes, name, t.schema, conditions) && FieldsExist(t.schema, fields)
          && RowsProject(e.store, t, conditions, FieldPositions(t.schema, fields)))
    && (outcome.status == OK ==>
          && NoneTwice(rids) && (set rid | rid in rids) == RowsWhere(RowsOf(e, name), t.schema, conditions)
          && |outcome.rows| == |rids|
          && forall k: nat :: k < |rids| ==> rids[k] in RowsOf(e, name) && ShowsFields(t.schema, RowsOf(e, name)[rids[k]], fields, outcome.rows[k]))
  }

  /** DELETE removes the rows for which WHERE holds and counts them; it fails exactly if the
      conditions cannot be answered. */
  ghost predicate DeletesWhere(e: Engine, f: Engine, name: Bytes, t: TableInfo, conditions: seq<Condition>, outcome: Outcome) {
    && Loaded(e.tables, e.indexes, name, t)
    && (outcome.status == OK <==> Answerable(e.indexes, name, t.schema, conditions))
    && (outcome.status == OK ==>
          && RowsOf(f, name) == RowsOf(e, name) - RowsWhere(RowsOf(e, name), t.schema, conditions)
          && outcome.affected == |RowsWhere(RowsOf(e, name), t.schema, conditions)|)
  }

  /** An UPDATE that succeeds sets the column in the rows for which WHERE holds, and in no
      other, and counts them. */
  ghost predicate UpdatesWhere(e: Engine, f: Engine, name: Bytes, t: TableInfo, conditions: seq<Condition>, column: Bytes, value: Value, outcome: Outcome) {
    && Loaded(e.tables, e.indexes, name, t)
    && (outcome.status == OK ==>
          && Answerable(e.indexes, name, t.schema, conditions) && HasColumn(t.schema, column) && RowsOf(f, name).Keys == RowsOf(e, name).Keys
          && outcome.affected == |RowsWhere(RowsOf(e, name), t.schema, conditions)|
          && forall rid :: rid in RowsOf(e, name) ==>
               if rid in RowsWhere(RowsOf(e, name), t.schema, conditions)
               then ColumnSet(t.schema, RowsOf(e, name)[rid], RowsOf(f, name)[rid], PositionOf(t.schema, column), value)
               else RowsOf(f, name)[rid] == RowsOf(e, name)[rid])
  }

  /** A list without repetition of the rows that satisfy the conditions is one of the rows
      for which they hold. */
  lemma MatchedIs(s: Store, t: TableInfo, conditions: seq<Condition>, rids: seq<RecordID>)
    requires Matched(s, t, conditions, rids)
    ensures NoneTwice(rids) && (set rid | rid in rids) == RowsWhere(HeapRows(s, t.first), t.schema, conditions)
    ensures |rids| == |RowsWhere(HeapRows(s, t.first), t.schema, conditions)|
  {
    forall rid | rid in HeapRows(s, t.first)
      ensures MeetsAll(t.schema, HeapRows(s, t.first)[rid], conditions) <==> AllHold(t.schema, HeapRows(s, t.first)[rid], conditions)
    {
      AllHoldIs(t.schema, HeapRows(s, t.first)[rid], conditions);
    }
    hide HeapRows, MeetsAll, AllHold, Chosen;
    CountOfList(rids);
  }

  lemma {:induction false} CountOfList(rids: seq<RecordID>)
    requires forall x: nat, y: nat :: x < y < |rids| ==> rids[x] != rids[y]
    ensures |set rid | rid in rids| == |rids|
    decreases |rids|
  {
    if rids != [] {
      var rest := rids[1..];
      forall x: nat, y: nat | x < y < |rest| ensures rest[x] != rest[y] {
        assert rids[x + 1] != rids[y + 1];
      }
      CountOfList(rest);
      assert rids[0] !in rest;
      assert (set rid | rid in rids) == {rids[0]} + (set rid | rid in rest);
    }
  }

  lemma ShownFields(s: Store, first: int, schema: Schema, fields: seq<Bytes>, rid: RecordID, row: seq<Value>)
    requires HeapOk(s, first) && rid in HeapRows(s, first) && ShownRow(s, schema, FieldPositions(schema, fields), rid, row)
    ensures ShowsFields(schema, HeapRows(s, first)[rid], fields, row)
  {
    var record := HeapRows(s, first)[rid];
    hide *;
    RowsAreReadable(s, first);
    ValueParts(schema, record, 0);
    ShownValues(s, schema, FieldPositions(schema, fields), rid, row, record);
    FieldCases(schema, fields);
    if FieldPositions(schema, fields).Some? {
      FieldsAreShown(schema, Decode(schema, record).value, fields, row);
    }
    MakeShowsFields(schema, record, fields, row);
  }

  lemma ShownValues(s: Store, schema: Schema, fields: Option<seq<nat>>, rid: RecordID, row: seq<Value>, record: Bytes)
    requires ShownRow(s, schema, fields, rid, row) && RowAt(s, rid) == Some(record)
    ensures Decode(schema, record).Some?
    ensures fields == None ==> row == Decode(schema, record).value
    ensures fields.Some? ==> InRange(fields.value, |Decode(schema, record).value|) && row == ChosenValues(Decode(schema, record).value, fields.value)
  {
    hide RowAt, Decode, Projectable;
  }

  lemma FieldCases(schema: Schema, fields: seq<Bytes>)
    ensures FieldPositions(schema, fields) == if fields == [] || fields[0] == [42] then None else Some(Positions(schema, fields))
  {
    hide Positions;
  }

  lemma FieldsAreShown(schema: Schema, values: seq<Value>, fields: seq<Bytes>, row: seq<Value>)
    requires |values| == |schema| && InRange(Positions(schema, fields), |values|) && row == ChosenValues(values, Positions(schema, fields))
    ensures |row| == |fields| && forall j: nat :: j < |fields| ==> ShowsField(schema, values, fields[j], row[j])
  {
    hide PositionOf, FirstNamed;
    forall j: nat | j < |fields| ensures ShowsField(schema, values, fields[j], row[j]) {
      FirstNamedIs(schema, fields[j]);
      assert row[j] == values[PositionOf(schema, fields[j])];
    }
  }

  lemma MakeShowsFields(schema: Schema, record: Bytes, fields: seq<Bytes>, row: seq<Value>)
    requires Decode(schema, record).Some?
    requires if fields == [] || fields[0] == [42] then row == Decode(schema, record).value
             else |row| == |fields| && forall j: nat :: j < |fields| ==> ShowsField(schema, Decode(schema, record).value, fields[j], row[j])
    ensures ShowsFields(schema, record, fields, row)
  {
    hide Decode, ShowsField;
  }

  ghost predicate SelectsItsRows(e: Engine, name: Bytes, conditions: seq<Condition>, fields: seq<Bytes>, outcome: Outcome) {
    exists t: TableInfo, rids: seq<RecordID> :: SelectsWhere(e, name, t, conditions, fields, outcome, rids)
  }

  ghost predicate DeletesItsRows(e: Engine, f: Engine, name: Bytes, conditions: seq<Condition>, outcome: Outcome) {
    exists t: TableInfo :: DeletesWhere(e, f, name, t, conditions, outcome)
  }

  ghost predicate UpdatesItsRows(e: Engine, f: Engine, name: Bytes, conditions: seq<Condition>, column: Bytes, value: Value, outcome: Outcome) {
    exists t: TableInfo :: UpdatesWhere(e, f, name, t, conditions, column, value, outcome)
  }

  lemma OwnSelect(e: Engine, name: Bytes, conditions: seq<Condition>, fields: seq<Bytes>, outcome: Outcome, f: Engine)
    requires InOrder(e) && Step(e, Select(name, conditions, fields), outcome, f) && name in e.tables && OwnPlan(e.indexes, name, conditions)
    ensures SelectsItsRows(e, name, conditions, fields, outcome)
  {
    NoTableMeans(e, f, name, outcome);
    hide NoTable, Loaded, SelectStep;
    var t: TableInfo, order: seq<RecordID>, rids: seq<RecordID> :|
      Loaded(e.tables, e.indexes, name, t) && SelectStep(e, f, name, conditions, fields, outcome, t, order, rids);
    hide Step, SelectsWhere;
    OwnSelectIs(e, name, conditions, fields, outcome, f, t, order, rids);
  }

  lemma OwnSelectIs(e: Engine, name: Bytes, conditions: seq<Condition>, fields: seq<Bytes>, outcome: Outcome, f: Engine,
                    t: TableInfo, order: seq<RecordID>, rids: seq<RecordID>)
    requires InOrder(e) && Loaded(e.tables, e.indexes, name, t) && SelectStep(e, f, name, conditions, fields, outcome, t, order, rids)
    requires OwnPlan(e.indexes, name, conditions)
    ensures SelectsWhere(e, name, t, conditions, fields, outcome, rids)
  {
    hide *;
    ShowedOwn(e, name, conditions, fields, outcome, f, t, order, rids);
    LoadedFirst(e, name, t);
    RowsAre(e, name);
    LoadedHeapOk(e, name, t);
    if outcome.status == OK {
      MatchedIs(e.store, t, conditions, rids);
      ShownParts(e.store, t.schema, FieldPositions(t.schema, fields), rids, outcome.rows);
      forall k: nat | k < |rids|
        ensures rids[k] in RowsOf(e, name) && ShowsFields(t.schema, RowsOf(e, name)[rids[k]], fields, outcome.rows[k])
      {
        assert rids[k] in (set rid | rid in rids);
        WhereInRows(HeapRows(e.store, t.first), t.schema, conditions);
        ShownFields(e.store, t.first, t.schema, fields, rids[k], outcome.rows[k]);
      }
    }
    MakeSelectsWhere(e, name, t, conditions, fields, outcome, rids);
  }

  lemma WhereInRows(rows: Rows, schema: Schema, conditions: seq<Condition>)
    ensures forall rid :: rid in RowsWhere(rows, schema, conditions) ==> rid in rows
  {
    hide AllHold;
  }

  lemma ShowedOwn(e: Engine, name: Bytes, conditions: seq<Condition>, fields: seq<Bytes>, outcome: Outcome, f: Engine,
                  t: TableInfo, order: seq<RecordID>, rids: seq<RecordID>)
    requires SelectStep(e, f, name, conditions, fields, outcome, t, order, rids) && OwnPlan(e.indexes, name, conditions)
    ensures outcome.status == OK <==>
              && Answerable(e.indexes, name, t.schema, conditions) && FieldsExist(t.schema, fields)
              && RowsProject(e.store, t, conditions, FieldPositions(t.schema, fields))
    ensures outcome.status == OK ==>
              && Matched(e.store, t, conditions, rids)
              && Shown(e.store, t.schema, FieldPositions(t.schema, fields), rids, outcome.rows)
  {
    hide OwnPlan, Answerable, FieldsExist, RowsProject, Matched, Shown, FieldPositions, PlanOrder;
  }

  lemma ShownParts(s: Store, schema: Schema, fields: Option<seq<nat>>, rids: seq<RecordID>, rows: seq<seq<Value>>)
    requires Shown(s, schema, fields, rids, rows)
    ensures |rows| == |rids| && forall k: nat :: k < |rids| ==> ShownRow(s, schema, fields, rids[k], rows[k])
  {
    hide ShownRow;
  }

  lemma LoadedHeapOk(e: Engine, name: Bytes, t: TableInfo)
    requires InOrder(e) && Loaded(e.tables, e.indexes, name, t)
    ensures HeapOk(e.store, t.first)
  {
    hide *;
    var names: seq<Bytes>, db: seq<TableInfo> := Listing(e);
    var k: nat := LoadedTableIsOk(e.store, e.tables, e.indexes, e.indexNames, names, db, e.lost, name, t);
    TableOkParts(e.store, t);
  }

  lemma MakeSelectsWhere(e: Engine, name: Bytes, t: TableInfo, conditions: seq<Condition>, fields: seq<Bytes>, outcome: Outcome, rids: seq<RecordID>)
    requires Loaded(e.tables, e.indexes, name, t)
    requires outcome.status == OK <==>
               && Answerable(e.indexes, name, t.schema, conditions) && FieldsExist(t.schema, fields)
               && RowsProject(e.store, t, conditions, FieldPositions(t.schema, fields))
    requires outcome.status == OK ==>
               && NoneTwice(rids) && (set rid | rid in rids) == RowsWhere(RowsOf(e, name), t.schema, conditions)
               && |outcome.rows| == |rids|
               && forall k: nat :: k < |rids| ==> rids[k] in RowsOf(e, name) && ShowsFields(t.schema, RowsOf(e, name)[rids[k]], fields, outcome.rows[k])
    ensures SelectsWhere(e, name, t, conditions, fields, outcome, rids)
  {
    hide Loaded, Answerable, FieldsExist, RowsProject, FieldPositions, NoneTwice, RowsWhere, RowsOf, ShowsFields;
  }

  lemma OwnDelete(e: Engine, name: Bytes, conditions: seq<Condition>, outcome: Outcome, f: Engine)
    requires Step(e, Delete(name, conditions), outcome, f) && name in e.tables && OwnPlan(e.indexes, name, conditions)
    ensures DeletesItsRows(e, f, name, conditions, outcome)
  {
    NoTableMeans(e, f, name, outcome);
    hide NoTable, RowStep, Deleted;
    var t: TableInfo, rids: seq<RecordID> :|
      RowStep(e, f, name, t) && Deleted(e.store, f.store, e.indexes, name, t, conditions, outcome.status, outcome.affected, rids);
    hide Step, DeletesWhere;
    OwnDeleteIs(e, name, conditions, outcome, f, t, rids);
  }

  lemma OwnDeleteIs(e: Engine, name: Bytes, conditions: seq<Condition>, outcome: Outcome, f: Engine, t: TableInfo, rids: seq<RecordID>)
    requires RowStep(e, f, name, t) && OwnPlan(e.indexes, name, conditions)
    requires Deleted(e.store, f.store, e.indexes, name, t, conditions, outcome.status, outcome.affected, rids)
    ensures DeletesWhere(e, f, name, t, conditions, outcome)
  {
    hide *;
    RowStepParts(e, f, name, t);
    LoadedFirst(e, name, t);
    RowsAre(e, name);
    RowsAre(f, name);
    if Answerable(e.indexes, name, t.schema, conditions) {
      DeletedAll(e.store, f.store, e.indexes, name, t, conditions, outcome.status, outcome.affected, rids);
    } else {
      DeletedNone(e.store, f.store, e.indexes, name, t, conditions, outcome.status, outcome.affected, rids);
    }
    MakeDeletesWhere(e, f, name, t, conditions, outcome);
  }

  lemma OwnUpdate(e: Engine, name: Bytes, conditions: seq<Condition>, column: Bytes, value: Value, outcome: Outcome, f: Engine)
    requires Step(e, Update(name, conditions, column, value), outcome, f) && name in e.tables && OwnPlan(e.indexes, name, conditions)
    ensures UpdatesItsRows(e, f, name, conditions, column, value, outcome)
  {
    NoTableMeans(e, f, name, outcome);
    hide NoTable, RowStep, Updated;
    var t: TableInfo, rids: seq<RecordID>, states: seq<Store> :|
      && RowStep(e, f, name, t)
      && Updated(e.store, f.store, e.indexes, name, t, conditions, column, value, outcome.status, outcome.affected, rids, states, e.capacity);
    hide Step, UpdatesWhere;
    RowStepParts(e, f, name, t);
    LoadedFirst(e, name, t);
    RowsAre(e, name);
    RowsAre(f, name);
    if outcome.status == OK {
      UpdatedAll(e.store, f.store, e.indexes, name, t, conditions, column, value, outcome.status, outcome.affected, rids, states, e.capacity);
    }
    OwnUpdateIs(e, name, conditions, column, value, outcome, f, t);
  }

  lemma UpdatedAll(a: Store, b: Store, indexes: Indexes, name: Bytes, t: TableInfo, conditions: seq<Condition>, column: Bytes, value: Value,
                   status: StatusCode, affected: nat, rids: seq<RecordID>, states: seq<Store>, capacity: nat)
    requires Updated(a, b, indexes, name, t, conditions, column, value, status, affected, rids, states, capacity) && OwnPlan(indexes, name, conditions) && status == OK
    ensures Answerable(indexes, name, t.schema, conditions) && HasColumn(t.schema, column) && HeapRows(b, t.first).Keys == HeapRows(a, t.first).Keys
    ensures affected == |RowsWhere(HeapRows(a, t.first), t.schema, conditions)|
    ensures forall rid :: rid in HeapRows(a, t.first) ==>
              if rid in RowsWhere(HeapRows(a, t.first), t.schema, conditions)
              then ColumnSet(t.schema, HeapRows(a, t.first)[rid], HeapRows(b, t.first)[rid], PositionOf(t.schema, column), value)
              else HeapRows(b, t.first)[rid] == HeapRows(a, t.first)[rid]
  {
    UpdatedRows(a, b, indexes, name, t, conditions, column, value, status, affected, rids, states, capacity);
    hide *;
    MatchedIs(a, t, conditions, rids);
    SetInList(HeapRows(a, t.first), HeapRows(b, t.first), t.schema, rids, PositionOf(t.schema, column), value, RowsWhere(HeapRows(a, t.first), t.schema, conditions));
  }

  lemma UpdatedRows(a: Store, b: Store, indexes: Indexes, name: Bytes, t: TableInfo, conditions: seq<Condition>, column: Bytes, value: Value,
                    status: StatusCode, affected: nat, rids: seq<RecordID>, states: seq<Store>, capacity: nat)
    requires Updated(a, b, indexes, name, t, conditions, column, value, status, affected, rids, states, capacity) && OwnPlan(indexes, name, conditions) && status == OK
    ensures Answerable(indexes, name, t.schema, conditions) && HasColumn(t.schema, column) && affected == |rids| && Matched(a, t, conditions, rids)
    ensures RowsSet(HeapRows(a, t.first), HeapRows(b, t.first), t.schema, rids, PositionOf(t.schema, column), value)
  {
    hide Answerable, OwnPlan, StatementStep, HeapRows, Matched, RowsSet, HasColumn, PositionOf, Insertable, NewValues, UpdatePath, UpdateStatusIs, TableUnchanged;
    assert rids[..affected] == rids;
  }

  lemma SetInList(rows: Rows, after: Rows, schema: Schema, rids: seq<RecordID>, column: nat, value: Value, chosen: set<RecordID>)
    requires RowsSet(rows, after, schema, rids, column, value) && chosen == set rid | rid in rids
    ensures after.Keys == rows.Keys
    ensures forall rid :: rid in rows ==>
              if rid in chosen then ColumnSet(schema, rows[rid], after[rid], column, value) else after[rid] == rows[rid]
  {
    hide ColumnSet;
  }

  lemma OwnUpdateIs(e: Engine, name: Bytes, conditions: seq<Condition>, column: Bytes, value: Value, outcome: Outcome, f: Engine, t: TableInfo)
    requires Loaded(e.tables, e.indexes, name, t)
    requires outcome.status == OK ==>
               && Answerable(e.indexes, name, t.schema, conditions) && HasColumn(t.schema, column) && RowsOf(f, name).Keys == RowsOf(e, name).Keys
               && outcome.affected == |RowsWhere(RowsOf(e, name), t.schema, conditions)|
               && forall rid :: rid in RowsOf(e, name) ==>
                    if rid in RowsWhere(RowsOf(e, name), t.schema, conditions)
                    then ColumnSet(t.schema, RowsOf(e, name)[rid], RowsOf(f, name)[rid], PositionOf(t.schema, column), value)
                    else RowsOf(f, name)[rid] == RowsOf(e, name)[rid]
    ensures UpdatesWhere(e, f, name, t, conditions, column, value, outcome)
  {
    hide Loaded, Answerable, HasColumn, RowsOf, RowsWhere, ColumnSet, PositionOf;
  }

  lemma LoadedFirst(e: Engine, name: Bytes, t: TableInfo)
    requires Loaded(e.tables, e.indexes, name, t)
    ensures name in e.tables && e.tables[name].first == t.first
  {
    hide InfosIn, InfosOf, NoIndexTwice;
  }

  lemma DeletedNone(a: Store, b: Store, indexes: Indexes, name: Bytes, t: TableInfo, conditions: seq<Condition>, status: StatusCode, affected: nat,
                    rids: seq<RecordID>)
    requires Deleted(a, b, indexes, name, t, conditions, status, affected, rids) && !Answerable(indexes, name, t.schema, conditions)
    ensures status != OK
  {
    hide Answerable, OwnPlan;
  }

  lemma DeletedAll(a: Store, b: Store, indexes: Indexes, name: Bytes, t: TableInfo, conditions: seq<Condition>, status: StatusCode, affected: nat,
                   rids: seq<RecordID>)
    requires Deleted(a, b, indexes, name, t, conditions, status, affected, rids)
    requires Answerable(indexes, name, t.schema, conditions) && OwnPlan(indexes, name, conditions)
    ensures status == OK
    ensures HeapRows(b, t.first) == HeapRows(a, t.first) - RowsWhere(HeapRows(a, t.first), t.schema, conditions)
    ensures affected == |RowsWhere(HeapRows(a, t.first), t.schema, conditions)|
  {
    hide Answerable, OwnPlan, StatementStep, HeapRows, Matched, RowsWhere;
    assert rids[..affected] == rids;
    MatchedIs(a, t, conditions, rids);
    var rows := HeapRows(a, t.first);
    assert Without(rows, rids) == rows - (set rid | rid in rids);
  }

  lemma MakeDeletesWhere(e: Engine, f: Engine, name: Bytes, t: TableInfo, conditions: seq<Condition>, outcome: Outcome)
    requires Loaded(e.tables, e.indexes, name, t) && (outcome.status == OK <==> Answerable(e.indexes, name, t.schema, conditions))
    requires outcome.status == OK ==>
               && RowsOf(f, name) == RowsOf(e, name) - RowsWhere(RowsOf(e, name), t.schema, conditions)
               && outcome.affected == |RowsWhere(RowsOf(e, name), t.schema, conditions)|
    ensures DeletesWhere(e, f, name, t, conditions, outcome)
  {
    hide Loaded, Answerable, RowsOf, RowsWhere;
  }

  /** From a new file on, and as long as no table is created with a dot in its name, every
      SELECT shows the rows for which its WHERE holds, every DELETE removes just those, and
      every UPDATE that succeeds changes just those. */
  lemma RunReadsOwnRows(states: seq<Engine>, statements: seq<Statement>, outcomes: seq<Outcome>, i: nat, capacity: nat)
    requires Run(states, statements, outcomes) && states[0] == NewEngine(capacity) && i < |statements|
    requires forall j: nat :: j < i ==> !MakesDot(statements[j])
    ensures statements[i].Select? && statements[i].table in states[i].tables ==>
              SelectsItsRows(states[i], statements[i].table, statements[i].conditions, statements[i].fields, outcomes[i])
    ensures statements[i].Delete? && statements[i].table in states[i].tables ==>
              DeletesItsRows(states[i], states[i + 1], statements[i].table, statements[i].conditions, outcomes[i])
    ensures statements[i].Update? && statements[i].table in states[i].tables ==>
              UpdatesItsRows(states[i], states[i + 1], statements[i].table, statements[i].conditions, statements[i].column, statements[i].value, outcomes[i])
  {
    assert DotFree(NewEngine(capacity).tables);
    hide *;
    NewEngineInOrder(capacity);
    RunStep(states, statements, outcomes, i + 1);
    RunKeepsOrder(states, statements, outcomes, i);
    match statements[i]
    case Select(name, conditions, fields) =>
      if name in states[i].tables {
        RunPlansAreOwn(states, statements, outcomes, i, name, conditions);
        OwnSelect(states[i], name, conditions, fields, outcomes[i], states[i + 1]);
      }
    case Delete(name, conditions) =>
      if name in states[i].tables {
        RunPlansAreOwn(states, statements, outcomes, i, name, conditions);
        OwnDelete(states[i], name, conditions, outcomes[i], states[i + 1]);
      }
    case Update(name, conditions, column, value) =>
      if name in states[i].tables {
        RunPlansAreOwn(states, statements, outcomes, i, name, conditions);
        OwnUpdate(states[i], name, conditions, column, value, outcomes[i], states[i + 1]);
      }
    case _ =>
  }

  // ---- Statements on tables whose names collide ----

  /** What a SELECT shows that reads the index of another table: no row of its own. */
  ghost predicate ShowsForeign(e: Engine, name: Bytes, t: TableInfo, conditions: seq<Condition>, fields: seq<Bytes>, outcome: Outcome,
                               order: seq<RecordID>, rids: seq<RecordID>) {
    && Loaded(e.tables, e.indexes, name, t) && PlanOrder(e.store, t, e.indexes, name, conditions, order)
    && rids == Selected(e.store, t.schema, conditions, order) && Shown(e.store, t.schema, FieldPositions(t.schema, fields), rids, outcome.rows)
    && forall rid :: rid in rids ==> rid !in RowsOf(e, name)
  }

  /** If the planner uses the index of another table, a statement does not see the rows of
      its own: SELECT shows none of them, and UPDATE and DELETE change nothing, and fail if
      they come upon any record. */
  lemma ForeignPlanMisses(e: Engine, statement: Statement, outcome: Outcome, f: Engine)
    requires Step(e, statement, outcome, f) && (statement.Select? || statement.Update? || statement.Delete?)
    requires statement.table in e.tables && !OwnPlan(e.indexes, statement.table, statement.conditions)
    ensures f == e
    ensures !statement.Select? ==> outcome.affected == 0
    ensures !statement.Select? && outcome.status == OK ==>
              exists t: TableInfo :: Loaded(e.tables, e.indexes, statement.table, t) && NothingFound(e.store, e.indexes, statement.table, t, statement.conditions)
    ensures statement.Select? && outcome.status == OK ==>
              exists t: TableInfo, order: seq<RecordID>, rids: seq<RecordID> ::
                ShowsForeign(e, statement.table, t, statement.conditions, statement.fields, outcome, order, rids)
  {
    var name := statement.table;
    NoTableMeans(e, f, name, outcome);
    hide NoTable, Loaded, RowStep, Updated, Deleted, SelectStep;
    match statement
    case Select(_, conditions, fields) =>
      var t: TableInfo, order: seq<RecordID>, rids: seq<RecordID> :|
        Loaded(e.tables, e.indexes, name, t) && SelectStep(e, f, name, conditions, fields, outcome, t, order, rids);
      hide Step;
      ForeignSelectIs(e, name, conditions, fields, outcome, f, t, order, rids);
    case Update(_, conditions, column, value) =>
      var t: TableInfo, rids: seq<RecordID>, states: seq<Store> :|
        && RowStep(e, f, name, t)
        && Updated(e.store, f.store, e.indexes, name, t, conditions, column, value, outcome.status, outcome.affected, rids, states, e.capacity);
      hide Step;
      RowStepParts(e, f, name, t);
      ForeignUpdateIs(e.store, f.store, e.indexes, name, t, conditions, column, value, outcome.status, outcome.affected, rids, states, e.capacity);
    case Delete(_, conditions) =>
      var t: TableInfo, rids: seq<RecordID> :|
        RowStep(e, f, name, t) && Deleted(e.store, f.store, e.indexes, name, t, conditions, outcome.status, outcome.affected, rids);
      hide Step;
      RowStepParts(e, f, name, t);
      ForeignDeleteIs(e.store, f.store, e.indexes, name, t, conditions, outcome.status, outcome.affected, rids);
  }

  lemma ForeignSelectIs(e: Engine, name: Bytes, conditions: seq<Condition>, fields: seq<Bytes>, outcome: Outcome, f: Engine,
                        t: TableInfo, order: seq<RecordID>, rids: seq<RecordID>)
    requires Loaded(e.tables, e.indexes, name, t) && SelectStep(e, f, name, conditions, fields, outcome, t, order, rids)
    requires !OwnPlan(e.indexes, name, conditions)
    ensures f == e && (outcome.status == OK ==> ShowsForeign(e, name, t, conditions, fields, outcome, order, rids))
  {
    LoadedFirst(e, name, t);
    RowsAre(e, name);
    hide Loaded, OwnPlan, Answerable, FieldsExist, RowsProject, Matched, Shown, FieldPositions, PlanOrder, RowsOf, HeapRows, Selected;
  }

  lemma ForeignUpdateIs(a: Store, b: Store, indexes: Indexes, name: Bytes, t: TableInfo, conditions: seq<Condition>, column: Bytes, value: Value,
                        status: StatusCode, affected: nat, rids: seq<RecordID>, states: seq<Store>, capacity: nat)
    requires Updated(a, b, indexes, name, t, conditions, column, value, status, affected, rids, states, capacity) && !OwnPlan(indexes, name, conditions)
    ensures b == a && affected == 0 && (status == OK ==> NothingFound(a, indexes, name, t, conditions))
  {
    hide OwnPlan, Answerable, HasColumn, RowsUpdated, PositionOf, NothingFound;
  }

  lemma ForeignDeleteIs(a: Store, b: Store, indexes: Indexes, name: Bytes, t: TableInfo, conditions: seq<Condition>,
                        status: StatusCode, affected: nat, rids: seq<RecordID>)
    requires Deleted(a, b, indexes, name, t, conditions, status, affected, rids) && !OwnPlan(indexes, name, conditions)
    ensures b == a && affected == 0 && (status == OK ==> NothingFound(a, indexes, name, t, conditions))
  {
    hide OwnPlan, Answerable, RowsDeletedUpTo, NothingFound;
  }
}
