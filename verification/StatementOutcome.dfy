// What SELECT, UPDATE and DELETE do to a table and show of it (src/query/executor.cpp).
module StatementOutcomes {
  import opened Common
  import SlottedFormat
  import opened BucketFormat
  import opened RecordFormat
  import opened RecordCodecs
  import opened IndexKeys
  import opened CatalogFormat
  import opened Catalogs
  import opened PageChains
  import opened HeapStates
  import opened HeapScans
  import opened IndexStates
  import opened IndexOutcomes
  import opened TableStates
  import opened TableOutcomes
  import opened TableRooms
  import opened TableEntries
  import opened Queries
  import opened Operators
  import opened Planners
  import opened Selections

  // ---- Steps of one table ----

  /** The table is in order, and only its own pages have changed. */
  ghost predicate StatementStep(a: Store, b: Store, t: TableInfo) {
    TableOk(b, t) && TableStep(a, b, t) && TableKeepsNew(a, b, t)
  }

  lemma StepStatement(a: Store, b: Store, c: Store, t: TableInfo)
    requires StatementStep(a, b, t) && TableOk(c, t) && TableStep(b, c, t) && TableKeepsNew(b, c, t)
    ensures StatementStep(a, c, t)
  {
    hide TableOk, TableStep, TableKeepsNew;
    StepCompose(a, b, c, t);
  }

  lemma StartStatement(a: Store, t: TableInfo)
    requires TableOk(a, t)
    ensures StatementStep(a, a, t)
  {
    hide TableOk, TableStep, TableKeepsNew;
    StepNothingOk(a, t);
  }

  lemma StatementParts(a: Store, b: Store, t: TableInfo)
    requires StatementStep(a, b, t)
    ensures TableOk(b, t) && TableStep(a, b, t) && TableKeepsNew(a, b, t)
  {
    hide TableOk, TableStep, TableKeepsNew;
  }

  lemma UnchangedRows(s: Store, b: Store, t: TableInfo)
    requires TableUnchanged(s, b, t)
    ensures TableOk(b, t) && HeapRows(b, t.first) == HeapRows(s, t.first)
  {
    ViewRows(s, t);
    ViewRows(b, t);
    hide TableOk, ViewOf, HeapRows;
  }

  /** Table `name` is `t`, and it and all indexes of the catalog are in order. */
  ghost predicate Prepared(s: Store, tables: Tables, indexes: Indexes, indexNames: map<Bytes, Bytes>, name: Bytes, t: TableInfo) {
    && TableOk(s, t) && WellFormed(tables, indexes, indexNames) && Loaded(tables, indexes, name, t)
    && IndexesReadable(s, indexes, name, t.first)
  }

  lemma PreparedParts(s: Store, tables: Tables, indexes: Indexes, indexNames: map<Bytes, Bytes>, name: Bytes, t: TableInfo)
    ensures Prepared(s, tables, indexes, indexNames, name, t) <==>
              && TableOk(s, t) && WellFormed(tables, indexes, indexNames) && Loaded(tables, indexes, name, t)
              && IndexesReadable(s, indexes, name, t.first)
    ensures TableOk(s, t) ==> HeapOk(s, t.first) && TableShape(s, t)
  {
    if TableOk(s, t) { TableOkParts(s, t); }
    hide TableOk, WellFormed, Loaded, IndexesReadable, HeapOk, TableShape;
  }

  // ---- UPDATE ----

  /** `after` is the record `before` with one column changed. */
  ghost predicate ColumnSet(schema: Schema, before: Bytes, after: Bytes, column: nat, value: Value) {
    && Decode(schema, before).Some? && column < |Decode(schema, before).value|
    && Decode(schema, after) == Some(Decode(schema, before).value[column := value])
  }

  /** The column has been set in the rows `rids`, and the other rows are as before. */
  ghost predicate RowsSet(rows: Rows, after: Rows, schema: Schema, rids: seq<RecordID>, column: nat, value: Value) {
    && after.Keys == rows.Keys
    && (forall rid :: rid in rows ==>
          if rid in rids then ColumnSet(schema, rows[rid], after[rid], column, value) else after[rid] == rows[rid])
  }

  lemma NoRowsSet(rows: Rows, schema: Schema, column: nat, value: Value)
    ensures RowsSet(rows, rows, schema, [], column, value)
  {
    hide ColumnSet;
  }

  lemma OneRowSet(rows: Rows, after: Rows, schema: Schema, rids: seq<RecordID>, k: nat, record: Bytes, column: nat, value: Value)
    requires NoneTwice(rids) && k < |rids| && RowsSet(rows, after, schema, rids[..k], column, value)
    requires rids[k] in rows && ColumnSet(schema, rows[rids[k]], record, column, value)
    ensures RowsSet(rows, after[rids[k] := record], schema, rids[..k + 1], column, value)
  {
    hide ColumnSet;
    assert rids[..k + 1] == rids[..k] + [rids[k]];
    assert rids[k] !in rids[..k];
  }

  /** The values of a row with one column changed. */
  ghost function NewValues(a: Store, t: TableInfo, rid: RecordID, column: nat, value: Value): seq<Value> {
    if rid in HeapRows(a, t.first) && Decode(t.schema, HeapRows(a, t.first)[rid]).Some?
       && column < |Decode(t.schema, HeapRows(a, t.first)[rid]).value|
    then Decode(t.schema, HeapRows(a, t.first)[rid]).value[column := value] else []
  }

  /** The first `k` of the selected rows have been changed. */
  ghost predicate UpdatedUpTo(a: Store, b: Store, t: TableInfo, conditions: seq<Condition>, column: nat, value: Value, k: nat, rids: seq<RecordID>) {
    && StatementStep(a, b, t) && Matched(a, t, conditions, rids) && k <= |rids|
    && RowsSet(HeapRows(a, t.first), HeapRows(b, t.first), t.schema, rids[..k], column, value)
    && forall j: nat :: j < k ==> Insertable(t, NewValues(a, t, rids[j], column, value))
  }

  /** One row has its new values: there was room for them, and the table has grown by the
      pages that they needed. */
  ghost predicate RowChanged(s: Store, b: Store, t: TableInfo, rid: RecordID, values: seq<Value>, capacity: nat) {
    && Insertable(t, values) && RoomForUpdate(s, t, rid, values, capacity) && |b| == |s| + UpdatePages(s, t, rid, values)
    && rid in HeapRows(b, t.first) && RowReplaced(s, b, t, values, rid, HeapRows(b, t.first)[rid])
  }

  ghost predicate RowChangedAt(a: Store, states: seq<Store>, t: TableInfo, rids: seq<RecordID>, column: nat, value: Value, capacity: nat, j: nat) {
    j < |rids| && j + 1 < |states| && RowChanged(states[j], states[j + 1], t, rids[j], NewValues(a, t, rids[j], column, value), capacity)
  }

  /** The states in which the first `k` rows have been changed, one after the other. */
  ghost predicate UpdatePath(a: Store, states: seq<Store>, t: TableInfo, rids: seq<RecordID>, column: nat, value: Value, capacity: nat, k: nat) {
    && |states| == k + 1 && k <= |rids| && states[0] == a && |a| <= capacity
    && forall j: nat :: j < k ==> RowChangedAt(a, states, t, rids, column, value, capacity, j)
  }

  /** Exactly the rows that satisfied WHERE have been changed, each once, and are counted;
      or those before the first one that was refused, because its new values cannot be a
      record of the table, or because there was no room for them: in its page, or on the
      disk for the pages that their keys need. */
  ghost predicate RowsUpdated(a: Store, b: Store, t: TableInfo, conditions: seq<Condition>, column: nat, value: Value,
                              status: StatusCode, affected: nat, rids: seq<RecordID>, states: seq<Store>, capacity: nat) {
    && UpdatedUpTo(a, b, t, conditions, column, value, affected, rids)
    && UpdatePath(a, states, t, rids, column, value, capacity, affected)
    && if status == OK then affected == |rids| && b == states[affected]
       else
         && affected < |rids| && TableUnchanged(states[affected], b, t)
         && UpdateStatusIs(states[affected], t, rids[affected], NewValues(a, t, rids[affected], column, value), status, capacity)
  }

  /** What a statement returns that cannot read its rows. */
  ghost predicate Unanswered(indexes: Indexes, name: Bytes, schema: Schema, conditions: seq<Condition>, status: StatusCode) {
    && !Answerable(indexes, name, schema, conditions) && status in {INVALID_ARGUMENT, NOT_FOUND}
    && (OwnPlan(indexes, name, conditions) ==> status == INVALID_ARGUMENT)
  }

  lemma UnansweredParts(indexes: Indexes, name: Bytes, schema: Schema, conditions: seq<Condition>, status: StatusCode)
    ensures Unanswered(indexes, name, schema, conditions, status) ==>
              !Answerable(indexes, name, schema, conditions) && status in {INVALID_ARGUMENT, NOT_FOUND}
  {
    hide Answerable, OwnPlan;
  }

  /** A plan is refused, when it is built or when it is opened, exactly if the conditions
      cannot be answered. */
  lemma StatusOfPlan(s: Store, tables: Tables, indexes: Indexes, indexNames: map<Bytes, Bytes>, name: Bytes, t: TableInfo, conditions: seq<Condition>)
    requires Prepared(s, tables, indexes, indexNames, name, t)
    ensures forall status :: PlanStatusIs(indexes, name, t.schema, conditions, status) && status != OK ==>
              Unanswered(indexes, name, t.schema, conditions, status)
    ensures PlanStatusIs(indexes, name, t.schema, conditions, OK) && ColumnsExist(conditions, t.schema) ==>
              Answerable(indexes, name, t.schema, conditions)
    ensures !ColumnsExist(conditions, t.schema) ==> Unanswered(indexes, name, t.schema, conditions, INVALID_ARGUMENT)
  {
    AnswerableIs(indexes, name, t.schema, conditions);
    var scans: bool, k: nat := PlanCases(indexes, name, conditions);
    if !scans && OwnPlan(indexes, name, conditions) {
      var i: nat := OwnIndex(tables, indexes, indexNames, name, t, conditions, k);
    }
    hide TableOk, WellFormed, Loaded, IndexesReadable, KeyOf, HasColumn, Served, OwnPlan, Answerable, ColumnsExist;
    hide FirstServed;
  }

  /** The plan comes upon no record that satisfies WHERE. */
  ghost predicate NothingFound(s: Store, indexes: Indexes, name: Bytes, t: TableInfo, conditions: seq<Condition>) {
    exists order: seq<RecordID> :: PlanOrder(s, t, indexes, name, conditions, order) && Selected(s, t.schema, conditions, order) == []
  }

  lemma MakeNothingFound(s: Store, indexes: Indexes, name: Bytes, t: TableInfo, conditions: seq<Condition>, order: seq<RecordID>)
    requires PlanOrder(s, t, indexes, name, conditions, order) && Selected(s, t.schema, conditions, order) == []
    ensures NothingFound(s, indexes, name, t, conditions)
  {
    hide PlanOrder, Selected;
  }

  /** What UPDATE does. If the planner uses the index of another table, it changes nothing,
      and fails if it comes upon any record. */
  ghost predicate Updated(a: Store, b: Store, indexes: Indexes, name: Bytes, t: TableInfo, conditions: seq<Condition>, column: Bytes, value: Value,
                          status: StatusCode, affected: nat, rids: seq<RecordID>, states: seq<Store>, capacity: nat) {
    if !Answerable(indexes, name, t.schema, conditions) then
      Unanswered(indexes, name, t.schema, conditions, status) && affected == 0 && b == a
    else if !HasColumn(t.schema, column) then
      status == NOT_FOUND && affected == 0 && b == a
    else if OwnPlan(indexes, name, conditions) then
      RowsUpdated(a, b, t, conditions, PositionOf(t.schema, column), value, status, affected, rids, states, capacity)
    else
      affected == 0 && b == a && (status == OK ==> NothingFound(a, indexes, name, t, conditions))
  }

  /** An UPDATE that has not found its rows has changed nothing. */
  lemma UpdateFails(a: Store, indexes: Indexes, name: Bytes, t: TableInfo, conditions: seq<Condition>, column: Bytes, value: Value,
                    status: StatusCode, rids: seq<RecordID>, states: seq<Store>, capacity: nat)
    requires !OwnPlan(indexes, name, conditions) || !Answerable(indexes, name, t.schema, conditions) || !HasColumn(t.schema, column)
    requires !Answerable(indexes, name, t.schema, conditions) ==> Unanswered(indexes, name, t.schema, conditions, status)
    requires Answerable(indexes, name, t.schema, conditions) && !HasColumn(t.schema, column) ==> status == NOT_FOUND
    requires Answerable(indexes, name, t.schema, conditions) && HasColumn(t.schema, column) && status == OK ==> NothingFound(a, indexes, name, t, conditions)
    ensures Updated(a, a, indexes, name, t, conditions, column, value, status, 0, rids, states, capacity)
  {
    hide Answerable, Unanswered, OwnPlan, HasColumn, RowsUpdated, NothingFound;
  }

  lemma UpdateWorks(a: Store, b: Store, indexes: Indexes, name: Bytes, t: TableInfo, conditions: seq<Condition>, column: Bytes, value: Value,
                    status: StatusCode, affected: nat, rids: seq<RecordID>, states: seq<Store>, capacity: nat)
    requires OwnPlan(indexes, name, conditions) && Answerable(indexes, name, t.schema, conditions) && HasColumn(t.schema, column)
    requires RowsUpdated(a, b, t, conditions, PositionOf(t.schema, column), value, status, affected, rids, states, capacity)
    ensures Updated(a, b, indexes, name, t, conditions, column, value, status, affected, rids, states, capacity)
  {
    hide Answerable, Unanswered, OwnPlan, HasColumn, RowsUpdated, PositionOf;
  }

  lemma UpdateResult(a: Store, b: Store, indexes: Indexes, name: Bytes, t: TableInfo, conditions: seq<Condition>, column: Bytes, value: Value,
                     status: StatusCode, affected: nat, rids: seq<RecordID>, states: seq<Store>, capacity: nat, order: seq<RecordID>)
    requires Answerable(indexes, name, t.schema, conditions) && HasColumn(t.schema, column)
    requires if OwnPlan(indexes, name, conditions) then
               RowsUpdated(a, b, t, conditions, PositionOf(t.schema, column), value, status, affected, rids, states, capacity)
             else
               && affected == 0 && b == a
               && (status == OK ==> PlanOrder(a, t, indexes, name, conditions, order) && Selected(a, t.schema, conditions, order) == [])
    ensures Updated(a, b, indexes, name, t, conditions, column, value, status, affected, rids, states, capacity)
  {
    hide *;
    if OwnPlan(indexes, name, conditions) {
      UpdateWorks(a, b, indexes, name, t, conditions, column, value, status, affected, rids, states, capacity);
    } else {
      if status == OK {
        MakeNothingFound(a, indexes, name, t, conditions, order);
      }
      UpdateFails(a, indexes, name, t, conditions, column, value, status, rids, states, capacity);
    }
  }

  lemma UpdateIsStep(a: Store, b: Store, indexes: Indexes, name: Bytes, t: TableInfo, conditions: seq<Condition>, column: Bytes, value: Value,
                     status: StatusCode, affected: nat, rids: seq<RecordID>, states: seq<Store>, capacity: nat)
    requires TableOk(a, t) && Updated(a, b, indexes, name, t, conditions, column, value, status, affected, rids, states, capacity)
    ensures StatementStep(a, b, t)
  {
    StartStatement(a, t);
    hide Answerable, Unanswered, OwnPlan, HasColumn, PositionOf, StatementStep, RowsSet, Matched, UpdatePath, UpdateStatusIs, TableUnchanged, TableOk, NothingFound;
  }

  lemma UpdateStart(a: Store, t: TableInfo, conditions: seq<Condition>, rids: seq<RecordID>, column: nat, value: Value)
    requires StatementStep(a, a, t) && Matched(a, t, conditions, rids)
    ensures UpdatedUpTo(a, a, t, conditions, column, value, 0, rids)
  {
    NoRowsSet(HeapRows(a, t.first), t.schema, column, value);
    hide StatementStep, HeapRows, RowsSet, Matched, Insertable;
    assert rids[..0] == [];
  }

  lemma UpdateBounds(a: Store, s: Store, t: TableInfo, conditions: seq<Condition>, column: nat, value: Value, k: nat, rids: seq<RecordID>)
    requires UpdatedUpTo(a, s, t, conditions, column, value, k, rids)
    ensures StatementStep(a, s, t) && Matched(a, t, conditions, rids) && k <= |rids| && NoneTwice(rids)
    ensures forall rid :: rid in rids ==> rid in HeapRows(a, t.first) && rid in HeapRows(s, t.first)
    ensures RowsSet(HeapRows(a, t.first), HeapRows(s, t.first), t.schema, rids[..k], column, value)
    ensures forall j: nat :: j < k ==> Insertable(t, NewValues(a, t, rids[j], column, value))
  {
    hide StatementStep, HeapRows, MeetsAll, NoneTwice, Insertable, ColumnSet, Chosen;
  }

  lemma MakeUpdatedUpTo(a: Store, b: Store, t: TableInfo, conditions: seq<Condition>, column: nat, value: Value, k: nat, rids: seq<RecordID>)
    requires StatementStep(a, b, t) && Matched(a, t, conditions, rids) && k <= |rids|
    requires RowsSet(HeapRows(a, t.first), HeapRows(b, t.first), t.schema, rids[..k], column, value)
    requires forall j: nat :: j < k ==> Insertable(t, NewValues(a, t, rids[j], column, value))
    ensures UpdatedUpTo(a, b, t, conditions, column, value, k, rids)
  {
    hide StatementStep, HeapRows, Matched, Insertable, RowsSet, NewValues;
  }

  /** The values with which a row is written are its old ones, with one column changed. */
  lemma PendingValues(a: Store, t: TableInfo, rids: seq<RecordID>, records: seq<Bytes>, k: nat, column: nat, value: Value, values: seq<Value>)
    requires HeapOk(a, t.first) && RecordsOf(a, rids, records) && k < |rids| && rids[k] in HeapRows(a, t.first)
    requires Decode(t.schema, records[k]).Some? && column < |Decode(t.schema, records[k]).value|
    requires values == Decode(t.schema, records[k]).value[column := value]
    ensures values == NewValues(a, t, rids[k], column, value) && records[k] == HeapRows(a, t.first)[rids[k]]
  {
    RowsAreReadable(a, t.first);
    assert RowIs(a, records[k], rids[k]);
    hide HeapRows, HeapOk, Decode, RowAt;
  }

  lemma UpdateGoesOn(a: Store, s: Store, b: Store, t: TableInfo, conditions: seq<Condition>, column: nat, value: Value, k: nat, rids: seq<RecordID>,
                     records: seq<Bytes>, values: seq<Value>, record: Bytes, states: seq<Store>, capacity: nat)
    requires UpdatedUpTo(a, s, t, conditions, column, value, k, rids) && k < |rids|
    requires HeapOk(a, t.first) && RecordsOf(a, rids, records)
    requires Decode(t.schema, records[k]).Some? && column < |Decode(t.schema, records[k]).value|
    requires values == Decode(t.schema, records[k]).value[column := value]
    requires RowReplaced(s, b, t, values, rids[k], record) && TableStep(s, b, t) && TableKeepsNew(s, b, t)
    requires UpdateStatusIs(s, t, rids[k], values, OK, capacity) && |b| == |s| + UpdatePages(s, t, rids[k], values)
    requires UpdatePath(a, states, t, rids, column, value, capacity, k) && states[k] == s
    ensures UpdatedUpTo(a, b, t, conditions, column, value, k + 1, rids)
    ensures UpdatePath(a, states + [b], t, rids, column, value, capacity, k + 1)
  {
    hide *;
    UpdateStatusMeans(s, t, rids[k], values, capacity);
    ReplacedOk(s, b, t, values, rids[k], record);
    UpdateBounds(a, s, t, conditions, column, value, k, rids);
    PendingValues(a, t, rids, records, k, column, value, values);
    StepStatement(a, s, b, t);
    SetOneMore(a, s, b, t, column, value, k, rids, values, record);
    MakeUpdatedUpTo(a, b, t, conditions, column, value, k + 1, rids);
    MakeRowChanged(s, b, t, rids[k], values, record, capacity);
    LongerPath(a, states, b, t, rids, column, value, capacity, k);
  }

  lemma MakeRowChanged(s: Store, b: Store, t: TableInfo, rid: RecordID, values: seq<Value>, record: Bytes, capacity: nat)
    requires Insertable(t, values) && RoomForUpdate(s, t, rid, values, capacity) && |b| == |s| + UpdatePages(s, t, rid, values)
    requires RowReplaced(s, b, t, values, rid, record)
    ensures RowChanged(s, b, t, rid, values, capacity)
  {
    hide Insertable, RoomForUpdate, UpdatePages, TableOk, Encodes, RowFits;
  }

  lemma PathStart(a: Store, t: TableInfo, rids: seq<RecordID>, column: nat, value: Value, capacity: nat)
    requires |a| <= capacity
    ensures UpdatePath(a, [a], t, rids, column, value, capacity, 0)
  {
    hide RowChanged, NewValues;
  }

  lemma LongerPath(a: Store, states: seq<Store>, b: Store, t: TableInfo, rids: seq<RecordID>, column: nat, value: Value, capacity: nat, k: nat)
    requires UpdatePath(a, states, t, rids, column, value, capacity, k) && k < |rids|
    requires RowChanged(states[k], b, t, rids[k], NewValues(a, t, rids[k], column, value), capacity)
    ensures UpdatePath(a, states + [b], t, rids, column, value, capacity, k + 1)
  {
    hide RowChanged, NewValues;
    forall j: nat | j < k + 1 ensures RowChangedAt(a, states + [b], t, rids, column, value, capacity, j) {
      if j < k {
        assert RowChangedAt(a, states, t, rids, column, value, capacity, j);
      }
    }
  }

  lemma PathParts(a: Store, states: seq<Store>, t: TableInfo, rids: seq<RecordID>, column: nat, value: Value, capacity: nat, k: nat)
    requires UpdatePath(a, states, t, rids, column, value, capacity, k)
    ensures |states| == k + 1 && k <= |rids| && states[0] == a && |a| <= capacity
    ensures forall j: nat :: j < k ==> RowChangedAt(a, states, t, rids, column, value, capacity, j)
  {
    hide RowChanged, NewValues;
  }

  lemma SetOneMore(a: Store, s: Store, b: Store, t: TableInfo, column: nat, value: Value, k: nat, rids: seq<RecordID>, values: seq<Value>, record: Bytes)
    requires k < |rids| && NoneTwice(rids) && RowsSet(HeapRows(a, t.first), HeapRows(s, t.first), t.schema, rids[..k], column, value)
    requires HeapRows(b, t.first) == HeapRows(s, t.first)[rids[k] := record] && Decode(t.schema, record) == Some(values)
    requires rids[k] in HeapRows(a, t.first) && values == NewValues(a, t, rids[k], column, value)
    requires Decode(t.schema, HeapRows(a, t.first)[rids[k]]).Some? && column < |Decode(t.schema, HeapRows(a, t.first)[rids[k]]).value|
    ensures RowsSet(HeapRows(a, t.first), HeapRows(b, t.first), t.schema, rids[..k + 1], column, value)
  {
    hide HeapRows, RowsSet, Decode, NoneTwice;
    assert ColumnSet(t.schema, HeapRows(a, t.first)[rids[k]], record, column, value);
    OneRowSet(HeapRows(a, t.first), HeapRows(s, t.first), t.schema, rids, k, record, column, value);
  }

  lemma ReplacedOk(s: Store, b: Store, t: TableInfo, values: seq<Value>, rid: RecordID, record: Bytes)
    requires RowReplaced(s, b, t, values, rid, record)
    ensures TableOk(b, t) && rid in HeapRows(s, t.first) && HeapRows(b, t.first) == HeapRows(s, t.first)[rid := record]
    ensures Decode(t.schema, record) == Some(values)
  {
    RoundTrip(t.schema, record, values);
    hide TableOk, HeapRows, Decode;
  }

  lemma LastIsLive(s: Store, rid: RecordID)
    requires Readable(s, rid)
    ensures SlotsAt(s, rid.pageId) != [] ==> SlotsAt(s, rid.pageId)[|SlotsAt(s, rid.pageId)| - 1].Some?
    ensures SlottedFormat.FreeSpace(SlotsAt(s, rid.pageId)) >= 0
  {
    SlottedFormat.OkSlots(s[rid.pageId], rid.pageId);
    hide SlottedFormat.Ok, SlottedFormat.FreeSpace, SlottedFormat.SlotsOf;
  }

  lemma UpdateStops(a: Store, s: Store, b: Store, t: TableInfo, conditions: seq<Condition>, column: nat, value: Value, k: nat, rids: seq<RecordID>,
                    values: seq<Value>, status: StatusCode, states: seq<Store>, capacity: nat)
    requires UpdatedUpTo(a, s, t, conditions, column, value, k, rids) && k < |rids| && status != OK
    requires UpdatePath(a, states, t, rids, column, value, capacity, k) && states[k] == s
    requires values == NewValues(a, t, rids[k], column, value)
    requires TableUnchanged(s, b, t) && TableStep(s, b, t) && TableKeepsNew(s, b, t)
    requires UpdateStatusIs(s, t, rids[k], values, status, capacity)
    ensures RowsUpdated(a, b, t, conditions, column, value, status, k, rids, states, capacity)
  {
    UnchangedRows(s, b, t);
    UpdateBounds(a, s, t, conditions, column, value, k, rids);
    StepStatement(a, s, b, t);
    hide TableOk, TableStep, TableKeepsNew, HeapRows, StatementStep, RowsSet, TableUnchanged, Matched, Insertable, UpdateStatusIs, NewValues, UpdatePath;
    MakeUpdatedUpTo(a, b, t, conditions, column, value, k, rids);
  }

  lemma UpdateEnds(a: Store, b: Store, t: TableInfo, conditions: seq<Condition>, column: nat, value: Value, k: nat, rids: seq<RecordID>,
                   states: seq<Store>, capacity: nat)
    requires UpdatedUpTo(a, b, t, conditions, column, value, k, rids) && k == |rids|
    requires UpdatePath(a, states, t, rids, column, value, capacity, k) && states[k] == b
    ensures RowsUpdated(a, b, t, conditions, column, value, OK, k, rids, states, capacity)
  {
    hide UpdatedUpTo, UpdatePath;
  }

  /** The new values can be a record of the table, which is no longer than the one it replaces. */
  ghost predicate NoLonger(a: Store, t: TableInfo, rid: RecordID, values: seq<Value>) {
    Insertable(t, values) && rid in HeapRows(a, t.first) && HeaderSize(|values|) + |Payload(values, |values|)| <= |HeapRows(a, t.first)[rid]|
  }

  /** Each row needs at most a page for every index, and so do all of them together. */
  lemma {:induction false} PathGrowth(a: Store, states: seq<Store>, t: TableInfo, rids: seq<RecordID>, column: nat, value: Value, capacity: nat, k: nat, j: nat)
    requires UpdatePath(a, states, t, rids, column, value, capacity, k) && j <= k && TableOk(a, t)
    ensures |states| == k + 1 && TableOk(states[j], t)
    ensures |states[j]| <= capacity && |states[j]| <= |a| + j * |t.indexes|
  {
    hide *;
    PathParts(a, states, t, rids, column, value, capacity, k);
    if j > 0 {
      PathGrowth(a, states, t, rids, column, value, capacity, k, j - 1);
      assert RowChangedAt(a, states, t, rids, column, value, capacity, j - 1);
      ChangedAtParts(a, states, t, rids, column, value, capacity, j - 1);
      assert j - 1 + 1 == j;
      OneMore(j - 1, |t.indexes|);
    }
  }

  lemma OneMore(j: nat, n: nat)
    ensures (j + 1) * n == j * n + n
  {
  }

  lemma ChangedAtParts(a: Store, states: seq<Store>, t: TableInfo, rids: seq<RecordID>, column: nat, value: Value, capacity: nat, j: nat)
    requires RowChangedAt(a, states, t, rids, column, value, capacity, j)
    ensures j + 1 < |states| && j < |rids| && TableOk(states[j + 1], t)
    ensures |states[j + 1]| <= capacity && |states[j + 1]| <= |states[j]| + |t.indexes|
    ensures var values := NewValues(a, t, rids[j], column, value);
            Insertable(t, values) && RoomForUpdate(states[j], t, rids[j], values, capacity)
  {
    var values := NewValues(a, t, rids[j], column, value);
    UpdatePagesAreFew(states[j], t, rids[j], values);
    hide Insertable, UpdatePages, TableOk, Encodes, RowFits, NewValues, FitsInPlace, HeapRows;
  }

  /** An UPDATE of a single row: there the condition is exact in terms of the first state. */
  lemma OneRowUpdate(a: Store, b: Store, t: TableInfo, conditions: seq<Condition>, column: nat, value: Value,
                     status: StatusCode, affected: nat, rid: RecordID, states: seq<Store>, capacity: nat)
    requires RowsUpdated(a, b, t, conditions, column, value, status, affected, [rid], states, capacity)
    ensures UpdateStatusIs(a, t, rid, NewValues(a, t, rid, column, value), status, capacity)
    ensures affected == if status == OK then 1 else 0
  {
    hide *;
    RowsUpdatedParts(a, b, t, conditions, column, value, status, affected, [rid], states, capacity);
    PathParts(a, states, t, [rid], column, value, capacity, affected);
    UpdateStatusMeans(a, t, rid, NewValues(a, t, rid, column, value), capacity);
    if status == OK {
      assert RowChangedAt(a, states, t, [rid], column, value, capacity, 0);
      ChangedAtParts(a, states, t, [rid], column, value, capacity, 0);
    }
  }

  lemma RowsUpdatedParts(a: Store, b: Store, t: TableInfo, conditions: seq<Condition>, column: nat, value: Value,
                         status: StatusCode, affected: nat, rids: seq<RecordID>, states: seq<Store>, capacity: nat)
    requires RowsUpdated(a, b, t, conditions, column, value, status, affected, rids, states, capacity)
    ensures UpdatedUpTo(a, b, t, conditions, column, value, affected, rids)
    ensures UpdatePath(a, states, t, rids, column, value, capacity, affected) && |states| == affected + 1
    ensures status == OK ==> affected == |rids| && b == states[affected]
    ensures status != OK ==>
              && affected < |rids| && TableUnchanged(states[affected], b, t)
              && UpdateStatusIs(states[affected], t, rids[affected], NewValues(a, t, rids[affected], column, value), status, capacity)
  {
    hide UpdatedUpTo, TableUnchanged, UpdateStatusIs, NewValues, RowChangedAt;
  }

  /** An UPDATE succeeds if no record becomes longer, and if its column has no index or the
      disk has a page to spare for every index and row. */
  lemma ShortUpdateSucceeds(a: Store, b: Store, indexes: Indexes, name: Bytes, t: TableInfo, conditions: seq<Condition>, column: Bytes, value: Value,
                            status: StatusCode, affected: nat, rids: seq<RecordID>, states: seq<Store>, capacity: nat)
    requires TableOk(a, t) && Updated(a, b, indexes, name, t, conditions, column, value, status, affected, rids, states, capacity)
    requires OwnPlan(indexes, name, conditions) && Answerable(indexes, name, t.schema, conditions) && HasColumn(t.schema, column)
    requires || (forall i: nat :: i < |t.indexes| ==> t.indexes[i].column != PositionOf(t.schema, column))
             || |a| + |rids| * |t.indexes| <= capacity
    requires forall rid :: rid in HeapRows(a, t.first) && MeetsAll(t.schema, HeapRows(a, t.first)[rid], conditions) ==>
               NoLonger(a, t, rid, NewValues(a, t, rid, PositionOf(t.schema, column), value))
    ensures status == OK && affected == |rids|
  {
    var c := PositionOf(t.schema, column);
    assert RowsUpdated(a, b, t, conditions, c, value, status, affected, rids, states, capacity);
    hide *;
    RowsUpdatedParts(a, b, t, conditions, c, value, status, affected, rids, states, capacity);
    if status != OK {
      UpdateBounds(a, b, t, conditions, c, value, affected, rids);
      RowStaysOfSet(a, b, t, conditions, c, value, affected, rids);
      PathGrowth(a, states, t, rids, c, value, capacity, affected, affected);
      var s, rid, values := states[affected], rids[affected], NewValues(a, t, rids[affected], c, value);
      UnchangedRows(s, b, t);
      StaysInPlace(a, s, t, rid, c, value);
      UpdateStatusMeans(s, t, rid, values, capacity);
      UpdatePagesAreFew(s, t, rid, values);
      OneMore(affected, |t.indexes|);
      AtMost(affected + 1, |rids|, |t.indexes|);
      assert false;
    }
  }

  lemma AtMost(j: nat, k: nat, n: nat)
    requires j <= k
    ensures j * n <= k * n
  {
  }

  lemma RowStaysOfSet(a: Store, b: Store, t: TableInfo, conditions: seq<Condition>, column: nat, value: Value, k: nat, rids: seq<RecordID>)
    requires Matched(a, t, conditions, rids) && k < |rids|
    requires RowsSet(HeapRows(a, t.first), HeapRows(b, t.first), t.schema, rids[..k], column, value)
    ensures rids[k] in HeapRows(a, t.first) && MeetsAll(t.schema, HeapRows(a, t.first)[rids[k]], conditions)
    ensures rids[k] in HeapRows(b, t.first) && HeapRows(b, t.first)[rids[k]] == HeapRows(a, t.first)[rids[k]]
  {
    hide HeapRows, MeetsAll, Chosen, ColumnSet;
    assert rids[k] in rids && rids[k] !in rids[..k];
  }

  /** A record that is no longer than the one that it replaces fits; and without an index on
      the changed column, no key changes. */
  lemma StaysInPlace(a: Store, b: Store, t: TableInfo, rid: RecordID, column: nat, value: Value)
    requires TableOk(b, t) && rid in HeapRows(a, t.first) && rid in HeapRows(b, t.first)
    requires HeapRows(b, t.first)[rid] == HeapRows(a, t.first)[rid]
    requires NoLonger(a, t, rid, NewValues(a, t, rid, column, value))
    ensures Insertable(t, NewValues(a, t, rid, column, value)) && FitsInPlace(b, t, rid, NewValues(a, t, rid, column, value))
    ensures (forall i: nat :: i < |t.indexes| ==> t.indexes[i].column != column) ==> KeysStay(b, t, rid, NewValues(a, t, rid, column, value))
  {
    hide *;
    var values := NewValues(a, t, rid, column, value);
    TableOkParts(b, t);
    RowsAreReadable(b, t.first);
    LastIsLive(b, rid);
    RowsDecodeIn(b, t);
    ValueParts(t.schema, HeapRows(a, t.first)[rid], 0);
    NoLongerFits(a, b, t, rid, values);
    if forall i: nat :: i < |t.indexes| ==> t.indexes[i].column != column {
      OtherKeysStay(a, b, t, rid, column, value);
    }
  }

  lemma NoLongerFits(a: Store, b: Store, t: TableInfo, rid: RecordID, values: seq<Value>)
    requires NoLonger(a, t, rid, values) && rid in HeapRows(b, t.first) && HeapRows(b, t.first)[rid] == HeapRows(a, t.first)[rid]
    requires SlottedFormat.FreeSpace(SlotsAt(b, rid.pageId)) >= 0
    ensures Insertable(t, values) && KeysExist(t, values) && FitsInPlace(b, t, rid, values)
  {
    hide HeapRows, KeysExist, Payload, SlottedFormat.FreeSpace, SlotsAt;
  }

  lemma OtherKeysStay(a: Store, b: Store, t: TableInfo, rid: RecordID, column: nat, value: Value)
    requires rid in HeapRows(a, t.first) && rid in HeapRows(b, t.first) && HeapRows(b, t.first)[rid] == HeapRows(a, t.first)[rid]
    requires Decode(t.schema, HeapRows(b, t.first)[rid]).Some?
    requires KeysExist(t, NewValues(a, t, rid, column, value)) && forall i: nat :: i < |t.indexes| ==> t.indexes[i].column != column
    ensures KeysStay(b, t, rid, NewValues(a, t, rid, column, value))
  {
    hide HeapRows, Decode, KeyOf;
    var values := NewValues(a, t, rid, column, value);
    var olds := Decode(t.schema, HeapRows(b, t.first)[rid]).value;
    forall i: nat | i < |t.indexes| ensures t.indexes[i].column < |olds| && t.indexes[i].column < |values| && olds[t.indexes[i].column] == values[t.indexes[i].column] {
      assert t.indexes[i].column < |values|;
    }
  }

  // ---- DELETE ----

  ghost function Without(rows: Rows, rids: seq<RecordID>): Rows {
    map rid | rid in rows && rid !in rids :: rows[rid]
  }

  lemma OneRowLess(rows: Rows, rids: seq<RecordID>, k: nat)
    requires k < |rids|
    ensures Without(rows, rids[..k + 1]) == Without(rows, rids[..k]) - {rids[k]}
    ensures Without(rows, []) == rows
  {
    assert rids[..k + 1] == rids[..k] + [rids[k]];
  }

  lemma StillThere(rows: Rows, rids: seq<RecordID>, k: nat)
    requires NoneTwice(rids) && k < |rids| && rids[k] in rows
    ensures rids[k] in Without(rows, rids[..k])
  {
  }

  /** The first `k` of the selected rows are gone. */
  ghost predicate RowsDeletedUpTo(a: Store, b: Store, t: TableInfo, conditions: seq<Condition>, k: nat, rids: seq<RecordID>) {
    && StatementStep(a, b, t) && Matched(a, t, conditions, rids) && k <= |rids|
    && HeapRows(b, t.first) == Without(HeapRows(a, t.first), rids[..k])
  }

  /** What DELETE does: exactly the rows that satisfied WHERE are gone, and are counted. It
      fails exactly if the conditions cannot be answered, and changes nothing then. If the
      planner uses the index of another table, it changes nothing, and fails if it comes upon
      any record. */
  ghost predicate Deleted(a: Store, b: Store, indexes: Indexes, name: Bytes, t: TableInfo, conditions: seq<Condition>,
                          status: StatusCode, affected: nat, rids: seq<RecordID>) {
    if !Answerable(indexes, name, t.schema, conditions) then
      Unanswered(indexes, name, t.schema, conditions, status) && affected == 0 && b == a
    else if OwnPlan(indexes, name, conditions) then
      status == OK && RowsDeletedUpTo(a, b, t, conditions, affected, rids) && affected == |rids|
    else
      affected == 0 && b == a && (status == OK ==> NothingFound(a, indexes, name, t, conditions))
  }

  lemma DeleteFails(a: Store, indexes: Indexes, name: Bytes, t: TableInfo, conditions: seq<Condition>, status: StatusCode, rids: seq<RecordID>)
    requires !OwnPlan(indexes, name, conditions) || !Answerable(indexes, name, t.schema, conditions)
    requires !Answerable(indexes, name, t.schema, conditions) ==> Unanswered(indexes, name, t.schema, conditions, status)
    requires Answerable(indexes, name, t.schema, conditions) && status == OK ==> NothingFound(a, indexes, name, t, conditions)
    ensures Deleted(a, a, indexes, name, t, conditions, status, 0, rids)
  {
    hide Answerable, Unanswered, OwnPlan, RowsDeletedUpTo, NothingFound;
  }

  lemma DeleteWorks(a: Store, b: Store, indexes: Indexes, name: Bytes, t: TableInfo, conditions: seq<Condition>, k: nat, rids: seq<RecordID>)
    requires OwnPlan(indexes, name, conditions) && Answerable(indexes, name, t.schema, conditions)
    requires RowsDeletedUpTo(a, b, t, conditions, k, rids) && k == |rids|
    ensures Deleted(a, b, indexes, name, t, conditions, OK, k, rids)
  {
    hide Answerable, Unanswered, OwnPlan, RowsDeletedUpTo, NothingFound;
  }

  lemma DeleteIsStep(a: Store, b: Store, indexes: Indexes, name: Bytes, t: TableInfo, conditions: seq<Condition>,
                     status: StatusCode, affected: nat, rids: seq<RecordID>)
    requires TableOk(a, t) && Deleted(a, b, indexes, name, t, conditions, status, affected, rids)
    ensures StatementStep(a, b, t)
  {
    StartStatement(a, t);
    hide Answerable, Unanswered, OwnPlan, StatementStep, Matched, Without, TableOk, NothingFound;
  }

  lemma DeleteStart(a: Store, t: TableInfo, conditions: seq<Condition>, rids: seq<RecordID>)
    requires StatementStep(a, a, t) && Matched(a, t, conditions, rids)
    ensures RowsDeletedUpTo(a, a, t, conditions, 0, rids)
  {
    hide StatementStep, HeapRows, Matched;
    assert rids[..0] == [];
    assert Without(HeapRows(a, t.first), []) == HeapRows(a, t.first);
  }

  lemma NextToDelete(a: Store, s: Store, t: TableInfo, conditions: seq<Condition>, k: nat, rids: seq<RecordID>)
    requires RowsDeletedUpTo(a, s, t, conditions, k, rids) && k < |rids|
    ensures rids[k] in HeapRows(s, t.first)
  {
    hide StatementStep, HeapRows, MeetsAll, NoneTwice, Without, Chosen;
    assert rids[k] in rids;
    StillThere(HeapRows(a, t.first), rids, k);
  }

  lemma LostOk(s: Store, b: Store, t: TableInfo, rid: RecordID)
    requires RowLost(s, b, t, rid)
    ensures TableOk(b, t) && HeapRows(b, t.first) == HeapRows(s, t.first) - {rid}
  {
    hide TableOk, HeapRows;
  }

  lemma DeleteGoesOn(a: Store, s: Store, b: Store, t: TableInfo, conditions: seq<Condition>, k: nat, rids: seq<RecordID>)
    requires RowsDeletedUpTo(a, s, t, conditions, k, rids) && k < |rids|
    requires RowLost(s, b, t, rids[k]) && TableStep(s, b, t) && TableKeepsNew(s, b, t)
    ensures RowsDeletedUpTo(a, b, t, conditions, k + 1, rids)
  {
    LostOk(s, b, t, rids[k]);
    hide TableOk, TableStep, TableKeepsNew, HeapRows, Matched, StatementStep, Without, RowLost;
    StepStatement(a, s, b, t);
    OneRowLess(HeapRows(a, t.first), rids, k);
  }

  // ---- SELECT ----

  /** What SELECT shows: of each row that satisfies WHERE all columns, or the listed ones,
      once, in some order. It fails exactly if the conditions cannot be answered, or a listed
      column does not exist, or the columns cannot be cut out of some row. If the planner
      uses the index of another table, it shows no row of its own table, but what it finds
      under the key in that index. */
  ghost predicate Showed(s: Store, indexes: Indexes, name: Bytes, t: TableInfo, conditions: seq<Condition>, fields: seq<Bytes>,
                         status: StatusCode, order: seq<RecordID>, rids: seq<RecordID>, rows: seq<seq<Value>>) {
    var positions := FieldPositions(t.schema, fields);
    var able := Answerable(indexes, name, t.schema, conditions) && FieldsExist(t.schema, fields);
    && (status == OK ==> able && Shown(s, t.schema, positions, rids, rows))
    && (!able ==> status in {INVALID_ARGUMENT, NOT_FOUND})
    && if OwnPlan(indexes, name, conditions) then
         (status == OK <==> able && RowsProject(s, t, conditions, positions)) && (status == OK ==> Matched(s, t, conditions, rids))
       else
         status == OK ==>
           && PlanOrder(s, t, indexes, name, conditions, order) && rids == Selected(s, t.schema, conditions, order)
           && forall rid :: rid in rids ==> rid !in HeapRows(s, t.first)
  }

  /** The plan of a SELECT, once it has been built: it runs if the columns of the conditions
      exist, and then to its end if every row can be read and cut down to its columns. */
  ghost predicate PlanRuns(s: Store, indexes: Indexes, name: Bytes, t: TableInfo, conditions: seq<Condition>, fields: Option<seq<nat>>,
                           status: StatusCode, order: seq<RecordID>, rids: seq<RecordID>) {
    if !ColumnsExist(conditions, t.schema) then status == INVALID_ARGUMENT
    else
      && PlanOrder(s, t, indexes, name, conditions, order)
      && (status == OK ==> rids == Selected(s, t.schema, conditions, order))
      && (Decodable(s, t.schema, order) && (fields.Some? ==> AllProjectable(s, t.schema, conditions, fields.value, order)) ==> status == OK)
  }

  lemma PlanRefused(s: Store, indexes: Indexes, name: Bytes, t: TableInfo, conditions: seq<Condition>, fields: Option<seq<nat>>,
                    status: StatusCode, order: seq<RecordID>, rids: seq<RecordID>)
    requires !ColumnsExist(conditions, t.schema) && status == INVALID_ARGUMENT
    ensures PlanRuns(s, indexes, name, t, conditions, fields, status, order, rids)
  {
    hide ColumnsExist;
  }

  lemma PlanRan(s: Store, indexes: Indexes, name: Bytes, t: TableInfo, conditions: seq<Condition>, fields: Option<seq<nat>>,
                status: StatusCode, order: seq<RecordID>, rids: seq<RecordID>)
    requires ColumnsExist(conditions, t.schema) && PlanOrder(s, t, indexes, name, conditions, order)
    requires status == OK ==> rids == Selected(s, t.schema, conditions, order)
    requires Decodable(s, t.schema, order) && (fields.Some? ==> AllProjectable(s, t.schema, conditions, fields.value, order)) ==> status == OK
    ensures PlanRuns(s, indexes, name, t, conditions, fields, status, order, rids)
  {
    hide ColumnsExist, PlanOrder, Decodable, AllProjectable, Selected;
  }

  lemma NotShown(s: Store, indexes: Indexes, name: Bytes, t: TableInfo, conditions: seq<Condition>, fields: seq<Bytes>,
                 status: StatusCode, order: seq<RecordID>, rids: seq<RecordID>, rows: seq<seq<Value>>)
    requires !Answerable(indexes, name, t.schema, conditions) || !FieldsExist(t.schema, fields)
    requires status in {INVALID_ARGUMENT, NOT_FOUND}
    ensures Showed(s, indexes, name, t, conditions, fields, status, order, rids, rows)
  {
    hide Answerable, FieldsExist, OwnPlan, Shown, RowsProject, Matched, PlanOrder, FieldPositions;
  }

  lemma PlanShows(s: Store, tables: Tables, indexes: Indexes, indexNames: map<Bytes, Bytes>, name: Bytes, t: TableInfo, conditions: seq<Condition>,
                  fields: seq<Bytes>, status: StatusCode, order: seq<RecordID>, rids: seq<RecordID>, rows: seq<seq<Value>>)
    requires Prepared(s, tables, indexes, indexNames, name, t) && FieldsExist(t.schema, fields)
    requires PlanStatusIs(indexes, name, t.schema, conditions, OK)
    requires PlanRuns(s, indexes, name, t, conditions, FieldPositions(t.schema, fields), status, order, rids)
    requires status == OK ==> Shown(s, t.schema, FieldPositions(t.schema, fields), rids, rows) && ColumnsExist(conditions, t.schema)
    ensures Showed(s, indexes, name, t, conditions, fields, status, order, rids, rows)
  {
    hide *;
    PreparedParts(s, tables, indexes, indexNames, name, t);
    StatusOfPlan(s, tables, indexes, indexNames, name, t, conditions);
    if !ColumnsExist(conditions, t.schema) {
      UnansweredParts(indexes, name, t.schema, conditions, INVALID_ARGUMENT);
      RefusedIs(s, indexes, name, t, conditions, FieldPositions(t.schema, fields), status, order, rids);
      NotShown(s, indexes, name, t, conditions, fields, status, order, rids, rows);
    } else {
      RanIs(s, indexes, name, t, conditions, FieldPositions(t.schema, fields), status, order, rids);
      if OwnPlan(indexes, name, conditions) {
        OwnOrder(s, tables, indexes, indexNames, name, t, conditions, order);
        ProjectsExactly(s, t, conditions, FieldPositions(t.schema, fields), order, rids, rows);
        ProjectsAll(s, t, conditions, FieldPositions(t.schema, fields));
      } else {
        ForeignOrder(s, t, indexes, name, conditions, order);
      }
      ShowedIs(s, indexes, name, t, conditions, fields, status, order, rids, rows);
    }
  }

  lemma ProjectsAll(s: Store, t: TableInfo, conditions: seq<Condition>, fields: Option<seq<nat>>)
    ensures fields.None? ==> RowsProject(s, t, conditions, fields)
  {
  }

  lemma RefusedIs(s: Store, indexes: Indexes, name: Bytes, t: TableInfo, conditions: seq<Condition>, fields: Option<seq<nat>>,
                  status: StatusCode, order: seq<RecordID>, rids: seq<RecordID>)
    requires PlanRuns(s, indexes, name, t, conditions, fields, status, order, rids) && !ColumnsExist(conditions, t.schema)
    ensures status == INVALID_ARGUMENT
  {
    hide ColumnsExist;
  }

  lemma RanIs(s: Store, indexes: Indexes, name: Bytes, t: TableInfo, conditions: seq<Condition>, fields: Option<seq<nat>>,
              status: StatusCode, order: seq<RecordID>, rids: seq<RecordID>)
    requires PlanRuns(s, indexes, name, t, conditions, fields, status, order, rids) && ColumnsExist(conditions, t.schema)
    ensures PlanOrder(s, t, indexes, name, conditions, order)
    ensures status == OK ==> rids == Selected(s, t.schema, conditions, order)
    ensures Decodable(s, t.schema, order) && (fields.Some? ==> AllProjectable(s, t.schema, conditions, fields.value, order)) ==> status == OK
  {
    hide ColumnsExist, PlanOrder, Decodable, AllProjectable, Selected;
  }

  lemma ShowedIs(s: Store, indexes: Indexes, name: Bytes, t: TableInfo, conditions: seq<Condition>, fields: seq<Bytes>,
                 status: StatusCode, order: seq<RecordID>, rids: seq<RecordID>, rows: seq<seq<Value>>)
    requires Answerable(indexes, name, t.schema, conditions) && FieldsExist(t.schema, fields)
    requires status == OK ==> Shown(s, t.schema, FieldPositions(t.schema, fields), rids, rows)
    requires OwnPlan(indexes, name, conditions) ==>
               && (status == OK <==> RowsProject(s, t, conditions, FieldPositions(t.schema, fields)))
               && (status == OK ==> Matched(s, t, conditions, rids))
    requires !OwnPlan(indexes, name, conditions) && status == OK ==>
               && PlanOrder(s, t, indexes, name, conditions, order) && rids == Selected(s, t.schema, conditions, order)
               && forall rid :: rid in rids ==> rid !in HeapRows(s, t.first)
    ensures Showed(s, indexes, name, t, conditions, fields, status, order, rids, rows)
  {
    hide Answerable, FieldsExist, OwnPlan, Shown, RowsProject, Matched, PlanOrder, FieldPositions, Selected, HeapRows;
  }
}
