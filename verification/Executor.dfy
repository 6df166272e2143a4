// Statements (src/query/executor.cpp).
module Executors {
  import opened Common
  import opened Buffer
  import opened BucketFormat
  import opened RecordFormat
  import opened RecordCodecs
  import opened IndexKeys
  import opened CatalogFormat
  import opened Catalogs
  import opened CatalogManagers
  import opened PageChains
  import opened HeapStates
  import opened HeapScans
  import opened HeapFiles
  import opened IndexStates
  import opened IndexOutcomes
  import opened HashIndexes
  import opened TableStates
  import opened TableOutcomes
  import opened TableStorages
  import opened TableEntries
  import opened Queries
  import opened Operators
  import opened Planners
  import opened Selections
  import opened StatementOutcomes

  // ---- Plans ----

  /** The plan reads table `t` through the index of the first condition that one serves, or
      it scans. */
  ghost predicate Planned(indexes: Indexes, name: Bytes, t: TableInfo, conditions: seq<Condition>, plan: FilterPlan) {
    && plan.first == t.first && plan.schema == t.schema && plan.conditions == conditions && plan.Wired()
    && (plan.source.FromHeap? ==> forall k: nat :: !Served(indexes, name, conditions, k))
    && (plan.source.FromIndex? ==> exists k: nat :: LooksUp(indexes, name, conditions, k, plan))
  }

  /** The plan reads table `t`, and its filters are on columns that exist. */
  ghost predicate Executable(plan: FilterPlan, t: TableInfo, bpm: BufferPoolManager) {
    plan.bpm == bpm && plan.first == t.first && plan.schema == t.schema && plan.Wired() && ColumnsExist(plan.conditions, plan.schema)
  }

  lemma ExecutableParts(plan: FilterPlan, t: TableInfo, bpm: BufferPoolManager)
    ensures Executable(plan, t, bpm) <==>
              plan.bpm == bpm && plan.first == t.first && plan.schema == t.schema && plan.Wired() && ColumnsExist(plan.conditions, plan.schema)
  {
    hide FilterPlan.Wired, ColumnsExist;
  }

  lemma PlannedParts(s: Store, indexes: Indexes, name: Bytes, t: TableInfo, conditions: seq<Condition>, plan: FilterPlan)
    requires Planned(indexes, name, t, conditions, plan) && IndexesReadable(s, indexes, name, t.first)
    ensures plan.first == t.first && plan.schema == t.schema && plan.conditions == conditions && plan.Wired()
    ensures plan.source.FromIndex? ==> IndexOk(s, plan.source.indexScan.index.headerPageId)
    ensures plan.source.FromIndex? ==> |plan.source.indexScan.encodedKey| <= MAX_KEY_LENGTH
  {
    if plan.source.FromIndex? {
      var k: nat :| LooksUp(indexes, name, conditions, k, plan);
      KeyIsShort(conditions[k].target);
      ReadableIndex(s, indexes, name, t.first, EntryKey(name, conditions[k]));
    }
    hide IndexOk, FilterPlan.Wired, KeyOf, EntryKey, IndexesReadable;
  }

  lemma KeyIsShort(value: Value)
    ensures KeyOf(value).Some? ==> |KeyOf(value).value| <= MAX_KEY_LENGTH
  {
  }

  /** A plan that has been opened is about to go through the record ids that it has found. */
  lemma OpenedPlan(s: Store, indexes: Indexes, name: Bytes, t: TableInfo, conditions: seq<Condition>, plan: FilterPlan)
    requires Planned(indexes, name, t, conditions, plan) && IndexesReadable(s, indexes, name, t.first) && Opened(plan, s)
    ensures plan.Running(s) && plan.position == 0 && PlanOrder(s, t, indexes, name, conditions, plan.Order(s))
    ensures plan.Remaining(s) == Selected(s, t.schema, conditions, plan.Order(s))
    ensures ColumnsExist(conditions, t.schema) && plan.filterStatus == OK && plan.SourceStatus() == OK
  {
    hide *;
    PlannedParts(s, indexes, name, t, conditions, plan);
    OpenedParts(plan, s);
    PlanSource(indexes, name, t, conditions, plan);
    if plan.source.FromIndex? {
      var k: nat := LookedUpBy(indexes, name, t, conditions, plan);
      OpenedLookup(s, indexes, name, t, conditions, plan, k);
    } else {
      ScanIsOrder(s, t, indexes, name, conditions, plan.Order(s));
    }
    plan.RemainingIs(s);
    assert plan.Order(s)[0..] == plan.Order(s);
  }

  lemma PlanSource(indexes: Indexes, name: Bytes, t: TableInfo, conditions: seq<Condition>, plan: FilterPlan)
    requires Planned(indexes, name, t, conditions, plan)
    ensures plan.source.FromHeap? ==> forall k: nat :: !Served(indexes, name, conditions, k)
    ensures plan.source.FromIndex? || plan.source.FromHeap?
  {
    hide FilterPlan.Wired, Served, LooksUp;
  }

  lemma LookedUpBy(indexes: Indexes, name: Bytes, t: TableInfo, conditions: seq<Condition>, plan: FilterPlan) returns (k: nat)
    requires Planned(indexes, name, t, conditions, plan) && plan.source.FromIndex?
    ensures LooksUp(indexes, name, conditions, k, plan)
  {
    hide FilterPlan.Wired, LooksUp;
    k :| LooksUp(indexes, name, conditions, k, plan);
  }

  lemma ScanIsOrder(s: Store, t: TableInfo, indexes: Indexes, name: Bytes, conditions: seq<Condition>, order: seq<RecordID>)
    requires (forall k: nat :: !Served(indexes, name, conditions, k)) && order == ScanOrder(s, t.first)
    ensures PlanOrder(s, t, indexes, name, conditions, order)
  {
    hide Served, ScanOrder, LookupOrder;
  }

  lemma OpenedLookup(s: Store, indexes: Indexes, name: Bytes, t: TableInfo, conditions: seq<Condition>, plan: FilterPlan, k: nat)
    requires LooksUp(indexes, name, conditions, k, plan) && IndexesReadable(s, indexes, name, t.first) && plan.Wired()
    requires plan.position == 0 && plan.filterStatus == OK && plan.SourceStatus() == OK
    requires LookedUp(s, plan.source.indexScan.index.headerPageId, plan.source.indexScan.encodedKey, plan.source.indexScan.matchingRids)
    requires plan.source.indexScan.cursor == 0 && plan.Order(s) == plan.source.indexScan.matchingRids
    ensures plan.Running(s) && PlanOrder(s, t, indexes, name, conditions, plan.Order(s))
  {
    hide *;
    LooksUpParts(indexes, name, conditions, k, plan);
    var scan := plan.source.indexScan;
    var x := indexes[EntryKey(name, conditions[k])];
    ReadableIndex(s, indexes, name, t.first, EntryKey(name, conditions[k]));
    ReadableParts(s, x, name, t.first);
    LookupIsOrder(s, t, indexes, name, conditions, k, plan.Order(s));
    LookedUpReadable(s, x.header, scan.encodedKey, scan.matchingRids);
    plan.OrderParts(s);
    plan.WiredParts();
    scan.MakeIndexAt(s, 0);
    plan.MakeRunning(s);
  }

  lemma LooksUpParts(indexes: Indexes, name: Bytes, conditions: seq<Condition>, k: nat, plan: FilterPlan)
    requires LooksUp(indexes, name, conditions, k, plan)
    ensures FirstServed(indexes, name, conditions, k) && plan.source.FromIndex? && k < |conditions| && EntryKey(name, conditions[k]) in indexes
    ensures KeyOf(conditions[k].target) == Some(plan.source.indexScan.encodedKey)
    ensures plan.source.indexScan.index.headerPageId == indexes[EntryKey(name, conditions[k])].header
  {
    hide KeyOf, EntryKey;
  }

  lemma LookupIsOrder(s: Store, t: TableInfo, indexes: Indexes, name: Bytes, conditions: seq<Condition>, k: nat, order: seq<RecordID>)
    requires FirstServed(indexes, name, conditions, k) && k < |conditions| && EntryKey(name, conditions[k]) in indexes
    requires KeyOf(conditions[k].target).Some? && indexes[EntryKey(name, conditions[k])].header > 0
    requires LookedUp(s, indexes[EntryKey(name, conditions[k])].header, KeyOf(conditions[k].target).value, order)
    ensures PlanOrder(s, t, indexes, name, conditions, order)
  {
    hide Served, LookedUp, KeyOf, ScanOrder, EntryKey;
    forall j: nat | FirstServed(indexes, name, conditions, j) ensures j == k {
    }
  }

  lemma LookedUpReadable(s: Store, h: nat, key: Bytes, rids: seq<RecordID>)
    requires h > 0 && LookedUp(s, h, key, rids) && forall pair :: pair in IndexPairs(s, h) ==> Readable(s, pair.rid)
    ensures forall rid :: rid in rids ==> Readable(s, rid)
  {
    hide IndexPairs, Readable, IndexOk;
    forall rid | rid in rids ensures Readable(s, rid) {
      assert Pair(key, rid) in IndexPairs(s, h);
    }
  }

  lemma AdvancedParts(all: seq<RecordID>, rids: seq<RecordID>, after: seq<RecordID>, found: bool, rid: RecordID)
    ensures forall before :: Advanced(before, after, found, rid) && all == rids + before ==>
              all == if found then (rids + [rid]) + after else rids
  {
    forall before | Advanced(before, after, found, rid) && all == rids + before
      ensures all == if found then (rids + [rid]) + after else rids
    {
      assert rids + ([rid] + after) == (rids + [rid]) + after;
    }
  }

  lemma NoRecordsYet(s: Store)
    ensures RecordsOf(s, [], [])
  {
  }

  lemma OneMoreRecord(s: Store, rids: seq<RecordID>, records: seq<Bytes>, record: Bytes, rid: RecordID)
    requires RecordsOf(s, rids, records) && RowIs(s, record, rid)
    ensures RecordsOf(s, rids + [rid], records + [record])
  {
    hide RowIs;
  }

  lemma RecordsDecode(s: Store, schema: Schema, order: seq<RecordID>, rids: seq<RecordID>, records: seq<Bytes>)
    requires RecordsOf(s, rids, records) && Decodable(s, schema, order) && forall rid :: rid in rids ==> rid in order
    ensures |records| == |rids|
    ensures forall k: nat :: k < |records| ==> Decode(schema, records[k]).Some?
  {
    hide Decode, RowAt;
    forall k: nat | k < |records| ensures Decode(schema, records[k]).Some? {
      assert RowIs(s, records[k], rids[k]) && rids[k] in rids;
    }
  }

  lemma SelectedFrom(s: Store, schema: Schema, conditions: seq<Condition>, order: seq<RecordID>)
    ensures forall rid :: rid in Selected(s, schema, conditions, order) ==> rid in order
  {
    hide Picked;
    forall rid | rid in Selected(s, schema, conditions, order) ensures rid in order {
      SelectedMembers(s, schema, conditions, order, rid);
    }
  }

  class QueryExecutor {
    const bpm: BufferPoolManager
    const catalog: CatalogManager

    constructor (bpm: BufferPoolManager, catalog: CatalogManager)
      ensures this.bpm == bpm && this.catalog == catalog
    {
      this.bpm, this.catalog := bpm, catalog;
    }

    /** The first equality for which the catalog has an index, under the key of its column,
        becomes a lookup in that index; without one the plan scans the table. */
    method BuildPlan(name: Bytes, t: TableInfo, conditions: seq<Condition>) returns (status: StatusCode, plan: FilterPlan?)
      requires forall key :: key in catalog.indexes ==> catalog.indexes[key].header > 0
      ensures status == OK <==> plan != null
      ensures plan != null ==> fresh(plan) && fresh(plan.Objects()) && plan.bpm == bpm && Planned(catalog.indexes, name, t, conditions, plan)
      ensures PlanStatusIs(catalog.indexes, name, t.schema, conditions, status)
    {
      hide KeyOf, StableHash, HasColumn, PositionOf;
      var heapFile := new HeapFile(bpm, t.first);
      var indexes := catalog.indexes;
      plan := null;
      for k := 0 to |conditions|
        invariant plan == null
        invariant forall j: nat :: j < k ==> !Served(indexes, name, conditions, j)
      {
        var key := MakeIndexKey(name, conditions[k].column);
        if conditions[k].op != EQ || key !in indexes {
          continue;
        }
        assert Served(indexes, name, conditions, k);
        FirstServedIsOne(indexes, name, conditions, k);
        var found, column := FindColumn(t.schema, conditions[k].column);
        if !found {
          return NOT_FOUND, null;
        }
        var encodedKey;
        status, encodedKey := Encode(conditions[k].target);
        if status != OK {
          return;
        }
        var index := new HashIndex(bpm, indexes[key].header);
        var indexScan := new IndexScanOperator(index, heapFile, encodedKey);
        plan := new FilterPlan(FromIndex(indexScan), bpm, t.first, t.schema, conditions);
        assert LooksUp(indexes, name, conditions, k, plan);
        return;
      }
      FirstServedIsOne(indexes, name, conditions, |conditions|);
      var heapScan := new SeqScanOperator(heapFile);
      plan := new FilterPlan(FromHeap(heapScan), bpm, t.first, t.schema, conditions);
      status := OK;
    }

    /** Builds the plan of an UPDATE or DELETE and opens it. */
    method OpenPlan(name: Bytes, t: TableInfo, conditions: seq<Condition>) returns (status: StatusCode, plan: FilterPlan?)
      requires bpm.Valid() && catalog !in bpm.Repr
      requires Prepared(bpm.Store(), catalog.tables, catalog.indexes, catalog.indexNames, name, t)
      modifies bpm.Repr
      ensures bpm.Valid() && bpm.Pins() == old(bpm.Pins()) && bpm.Store() == old(bpm.Store())
      ensures status == OK ==> plan != null
      ensures status == OK ==> fresh(plan.Objects()) && catalog !in plan.Objects() && Executable(plan, t, bpm) && plan.conditions == conditions
      ensures status == OK ==> plan.Running(bpm.Store()) && plan.position == 0
      ensures status == OK ==> PlanOrder(bpm.Store(), t, catalog.indexes, name, conditions, plan.Order(bpm.Store()))
      ensures status == OK ==> Answerable(catalog.indexes, name, t.schema, conditions)
      ensures old(bpm.Ready()) && status != OK ==> Unanswered(catalog.indexes, name, t.schema, conditions, status)
    {
      hide *;
      ghost var s := bpm.Store();
      ghost var indexes := catalog.indexes;
      PreparedParts(s, catalog.tables, indexes, catalog.indexNames, name, t);
      EntriesHaveHeaders(catalog.tables, indexes, catalog.indexNames);
      StatusOfPlan(s, catalog.tables, indexes, catalog.indexNames, name, t, conditions);
      bpm.ReadyParts();
      status, plan := BuildPlan(name, t, conditions);
      if plan == null {
        return;
      }
      PlannedParts(s, indexes, name, t, conditions, plan);
      plan.WiredParts();
      status := plan.Open();
      if status != OK {
        return;
      }
      MakeOpened(plan, s);
      OpenedPlan(s, indexes, name, t, conditions, plan);
      ExecutableParts(plan, t, bpm);
    }

    /** Runs a plan to its end and keeps the rows; nothing is changed meanwhile. */
    method Collect(plan: FilterPlan, ghost t: TableInfo) returns (status: StatusCode, rids: seq<RecordID>, records: seq<Bytes>)
      requires bpm.Valid() && Executable(plan, t, bpm) && HeapOk(bpm.Store(), t.first) && plan.Running(bpm.Store()) && plan.position == 0
      modifies plan.Objects(), bpm.Repr
      ensures bpm.Valid() && bpm.Pins() == old(bpm.Pins()) && bpm.Store() == old(bpm.Store())
      ensures |records| == |rids| && (status == OK ==> RecordsOf(bpm.Store(), rids, records))
      ensures old(bpm.Ready()) && status == OK ==> rids == Selected(bpm.Store(), t.schema, plan.conditions, old(plan.Order(bpm.Store())))
      ensures old(bpm.Ready()) && Decodable(bpm.Store(), t.schema, old(plan.Order(bpm.Store()))) ==> status == OK
    {
      hide *;
      ghost var s := bpm.Store();
      ghost var order := plan.Order(s);
      ghost var all := plan.Remaining(s);
      ExecutableParts(plan, t, bpm);
      plan.RunningParts(s);
      plan.RemainingIs(s);
      plan.WiredParts();
      assert order[0..] == order;
      bpm.ReadyParts();
      rids, records := [], [];
      var found := true;
      NoRecordsYet(s);
      while found
        invariant bpm.Valid() && bpm.Pins() == old(bpm.Pins()) && bpm.Store() == s && plan.Order(s) == order
        invariant |records| == |rids| && RecordsOf(s, rids, records) && plan.position <= |order|
        invariant found ==> plan.Running(s) && plan.filterStatus == OK
        invariant old(bpm.Ready()) ==> plan.SourceStatus() == OK
        invariant old(bpm.Ready()) && plan.filterStatus == OK ==> all == if found then rids + plan.Remaining(s) else rids
        invariant Decodable(s, t.schema, order) ==> plan.filterStatus == OK
        decreases |order| - plan.position + if found then 1 else 0
      {
        bpm.ReadyParts();
        var record, rid;
        found, record, rid := plan.Next();
        AdvancedParts(all, rids, plan.Remaining(s), found, rid);
        if found {
          plan.RunningParts(s);
          OneMoreRecord(s, rids, records, record, rid);
          rids := rids + [rid];
          records := records + [record];
        }
      }
      status := plan.Close();
    }

    /** The new contents of the selected rows; nothing is changed yet. */
    method NewContents(t: TableInfo, records: seq<Bytes>, column: nat, value: Value) returns (status: StatusCode, pending: seq<seq<Value>>)
      requires column < |t.schema|
      ensures (forall k: nat :: k < |records| ==> Decode(t.schema, records[k]).Some?) ==> status == OK
      ensures status == OK ==> |pending| == |records|
      ensures status == OK ==> forall k: nat :: k < |records| ==>
                && Decode(t.schema, records[k]).Some? && column < |Decode(t.schema, records[k]).value|
                && pending[k] == Decode(t.schema, records[k]).value[column := value]
    {
      hide *;
      pending := [];
      for k := 0 to |records|
        invariant |pending| == k
        invariant forall j: nat :: j < k ==>
                    && Decode(t.schema, records[j]).Some? && column < |Decode(t.schema, records[j]).value|
                    && pending[j] == Decode(t.schema, records[j]).value[column := value]
      {
        var values;
        status, values := Deserialize(t.schema, records[k]);
        if status != OK {
          return;
        }
        ValueParts(t.schema, records[k], column);
        pending := pending + [values[column := value]];
      }
      status := OK;
    }

    /** UPDATE: first collects the rows that satisfy WHERE, and then changes one after the
        other, up to the first that cannot be changed. */
    method ExecuteUpdate(name: Bytes, t: TableInfo, conditions: seq<Condition>, column: Bytes, value: Value)
      returns (status: StatusCode, affected: nat, ghost rids: seq<RecordID>, ghost states: seq<Store>)
      requires bpm.Valid() && catalog !in bpm.Repr
      requires Prepared(bpm.Store(), catalog.tables, catalog.indexes, catalog.indexNames, name, t)
      modifies bpm.Repr
      ensures bpm.Valid() && bpm.Pins() == old(bpm.Pins())
      ensures TableShape(bpm.Store(), t) && (status == OK ==> TableOk(bpm.Store(), t))
      ensures old(bpm.Ready()) ==>
                Updated(old(bpm.Store()), bpm.Store(), catalog.indexes, name, t, conditions, column, value, status, affected, rids, states,
                        bpm.disk.capacity)
    {
      hide *;
      ghost var a := bpm.Store();
      ghost var indexes := catalog.indexes;
      PreparedParts(a, catalog.tables, indexes, catalog.indexNames, name, t);
      PositionFound(t.schema, column);
      bpm.ReadyParts();
      affected, rids, states := 0, [], [a];
      ghost var capacity := bpm.disk.capacity;
      var plan;
      status, plan := OpenPlan(name, t, conditions);
      if status != OK {
        if old(bpm.Ready()) {
          UnansweredParts(indexes, name, t.schema, conditions, status);
          UpdateFails(a, indexes, name, t, conditions, column, value, status, rids, states, capacity);
        }
        return;
      }
      ExecutableParts(plan, t, bpm);
      plan.WiredParts();
      plan.RunningParts(a);
      label Opening:
      var found, position := FindColumn(t.schema, column);
      plan.FilterKeeps@Opening(a);
      if !found {
        var _ := plan.Close();
        UpdateFails(a, indexes, name, t, conditions, column, value, NOT_FOUND, rids, states, capacity);
        return NOT_FOUND, affected, rids, states;
      }
      ghost var order := plan.Order(a);
      bpm.ReadyParts();
      var pendingRids, records, pending;
      status, pendingRids, records := Collect(plan, t);
      if OwnPlan(indexes, name, conditions) {
        OwnOrder(a, catalog.tables, indexes, catalog.indexNames, name, t, conditions, order);
        SelectedFrom(a, t.schema, conditions, order);
      } else {
        ForeignOrder(a, t, indexes, name, conditions, order);
      }
      if status != OK {
        if !OwnPlan(indexes, name, conditions) {
          UpdateFails(a, indexes, name, t, conditions, column, value, status, rids, states, capacity);
        }
        return;
      }
      if old(bpm.Ready()) && OwnPlan(indexes, name, conditions) {
        RecordsDecode(a, t.schema, order, pendingRids, records);
      }
      status, pending := NewContents(t, records, position, value);
      if status != OK {
        if !OwnPlan(indexes, name, conditions) {
          UpdateFails(a, indexes, name, t, conditions, column, value, status, rids, states, capacity);
        }
        return;
      }
      rids := pendingRids;
      bpm.ReadyParts();
      status, affected, states := ApplyUpdates(t, pendingRids, pending, conditions, position, value, OwnPlan(indexes, name, conditions), records);
      if old(bpm.Ready()) {
        UpdateResult(a, bpm.Store(), indexes, name, t, conditions, column, value, status, affected, rids, states, capacity, order);
      }
    }

    /** Writes the new contents of the selected rows, up to the first row that cannot be
        changed. `own` says whether the rows are those of the table. */
    method ApplyUpdates(t: TableInfo, rids: seq<RecordID>, pending: seq<seq<Value>>, ghost conditions: seq<Condition>, ghost column: nat,
                        ghost value: Value, ghost own: bool, ghost records: seq<Bytes>)
      returns (status: StatusCode, affected: nat, ghost states: seq<Store>)
      requires bpm.Valid() && TableOk(bpm.Store(), t) && |pending| == |rids| == |records| && RecordsOf(bpm.Store(), rids, records)
      requires forall k: nat :: k < |records| ==>
                 && Decode(t.schema, records[k]).Some? && column < |Decode(t.schema, records[k]).value|
                 && pending[k] == Decode(t.schema, records[k]).value[column := value]
      requires bpm.Ready() ==> if own then Matched(bpm.Store(), t, conditions, rids)
                               else forall rid :: rid in rids ==> rid !in HeapRows(bpm.Store(), t.first)
      modifies bpm.Repr
      ensures bpm.Valid() && bpm.Pins() == old(bpm.Pins())
      ensures TableShape(bpm.Store(), t) && (status == OK ==> TableOk(bpm.Store(), t))
      ensures old(bpm.Ready()) ==>
                if own then RowsUpdated(old(bpm.Store()), bpm.Store(), t, conditions, column, value, status, affected, rids, states, bpm.disk.capacity)
                else affected == 0 && bpm.Store() == old(bpm.Store()) && (status == OK ==> rids == [])
    {
      hide *;
      ghost var a := bpm.Store();
      TableOkParts(a, t);
      bpm.ReadyParts();
      StartStatement(a, t);
      affected, states := 0, [a];
      ghost var capacity := bpm.disk.capacity;
      var storage := new TableStorage(bpm);
      if own && old(bpm.Ready()) {
        bpm.StoreSize();
        UpdateStart(a, t, conditions, rids, column, value);
        PathStart(a, t, rids, column, value, capacity);
      }
      while affected < |rids|
        invariant affected <= |rids|
        invariant bpm.Valid() && bpm.Pins() == old(bpm.Pins()) && TableOk(bpm.Store(), t) && TableShape(bpm.Store(), t)
        invariant own && old(bpm.Ready()) ==>
                    && UpdatedUpTo(a, bpm.Store(), t, conditions, column, value, affected, rids)
                    && UpdatePath(a, states, t, rids, column, value, capacity, affected)
        invariant |states| == affected + 1 && states[affected] == bpm.Store()
        invariant !own && old(bpm.Ready()) ==> affected == 0 && bpm.Store() == a
      {
        ghost var s := bpm.Store();
        bpm.ReadyParts();
        TableOkParts(s, t);
        if own && old(bpm.Ready()) {
          UpdateBounds(a, s, t, conditions, column, value, affected, rids);
          PendingValues(a, t, rids, records, affected, column, value, pending[affected]);
        }
        assert rids[affected] in rids;
        ghost var record;
        status, record := storage.UpdateRecord(t, rids[affected], pending[affected]);
        StepShapes(s, bpm.Store(), t);
        if status != OK {
          if own && old(bpm.Ready()) {
            UpdateStops(a, s, bpm.Store(), t, conditions, column, value, affected, rids, pending[affected], status, states, capacity);
          }
          return;
        }
        ReplacedOk(s, bpm.Store(), t, pending[affected], rids[affected], record);
        if own && old(bpm.Ready()) {
          UpdateGoesOn(a, s, bpm.Store(), t, conditions, column, value, affected, rids, records, pending[affected], record, states, capacity);
        }
        states := states + [bpm.Store()];
        affected := affected + 1;
      }
      status := OK;
      if own && old(bpm.Ready()) {
        UpdateEnds(a, bpm.Store(), t, conditions, column, value, affected, rids, states, capacity);
      }
    }

    /** DELETE: first collects the rows that satisfy WHERE, and then deletes one after the other. */
    method ExecuteDelete(name: Bytes, t: TableInfo, conditions: seq<Condition>)
      returns (status: StatusCode, affected: nat, ghost rids: seq<RecordID>)
      requires bpm.Valid() && catalog !in bpm.Repr
      requires Prepared(bpm.Store(), catalog.tables, catalog.indexes, catalog.indexNames, name, t)
      modifies bpm.Repr
      ensures bpm.Valid() && bpm.Pins() == old(bpm.Pins())
      ensures TableShape(bpm.Store(), t) && (status == OK ==> TableOk(bpm.Store(), t))
      ensures old(bpm.Ready()) ==> Deleted(old(bpm.Store()), bpm.Store(), catalog.indexes, name, t, conditions, status, affected, rids)
    {
      hide *;
      ghost var a := bpm.Store();
      ghost var indexes := catalog.indexes;
      PreparedParts(a, catalog.tables, indexes, catalog.indexNames, name, t);
      bpm.ReadyParts();
      affected, rids := 0, [];
      var plan;
      status, plan := OpenPlan(name, t, conditions);
      if status != OK {
        if old(bpm.Ready()) {
          UnansweredParts(indexes, name, t.schema, conditions, status);
          DeleteFails(a, indexes, name, t, conditions, status, rids);
        }
        return;
      }
      ghost var order := plan.Order(a);
      bpm.ReadyParts();
      var pending, records;
      status, pending, records := Collect(plan, t);
      if OwnPlan(indexes, name, conditions) {
        OwnOrder(a, catalog.tables, indexes, catalog.indexNames, name, t, conditions, order);
      } else {
        ForeignOrder(a, t, indexes, name, conditions, order);
      }
      if status != OK {
        if !OwnPlan(indexes, name, conditions) {
          DeleteFails(a, indexes, name, t, conditions, status, rids);
        }
        return;
      }
      rids := pending;
      bpm.ReadyParts();
      status, affected := ApplyDeletes(t, pending, conditions, OwnPlan(indexes, name, conditions));
      if old(bpm.Ready()) {
        if OwnPlan(indexes, name, conditions) {
          DeleteWorks(a, bpm.Store(), indexes, name, t, conditions, affected, rids);
        } else {
          if status == OK {
            MakeNothingFound(a, indexes, name, t, conditions, order);
          }
          DeleteFails(a, indexes, name, t, conditions, status, rids);
        }
      }
    }

    /** Deletes the collected rows; `own` says whether they are those of the table. */
    method ApplyDeletes(t: TableInfo, rids: seq<RecordID>, ghost conditions: seq<Condition>, ghost own: bool)
      returns (status: StatusCode, affected: nat)
      requires bpm.Valid() && TableOk(bpm.Store(), t)
      requires bpm.Ready() ==> if own then Matched(bpm.Store(), t, conditions, rids)
                               else forall rid :: rid in rids ==> rid !in HeapRows(bpm.Store(), t.first)
      modifies bpm.Repr
      ensures bpm.Valid() && bpm.Pins() == old(bpm.Pins())
      ensures TableShape(bpm.Store(), t) && (status == OK ==> TableOk(bpm.Store(), t))
      ensures old(bpm.Ready()) ==>
                if own then status == OK && affected == |rids| && RowsDeletedUpTo(old(bpm.Store()), bpm.Store(), t, conditions, affected, rids)
                else affected == 0 && bpm.Store() == old(bpm.Store()) && (status == OK ==> rids == [])
    {
      hide *;
      ghost var a := bpm.Store();
      TableOkParts(a, t);
      bpm.ReadyParts();
      StartStatement(a, t);
      affected := 0;
      var storage := new TableStorage(bpm);
      if own && old(bpm.Ready()) {
        DeleteStart(a, t, conditions, rids);
      }
      while affected < |rids|
        invariant affected <= |rids|
        invariant bpm.Valid() && bpm.Pins() == old(bpm.Pins()) && TableOk(bpm.Store(), t) && TableShape(bpm.Store(), t)
        invariant own && old(bpm.Ready()) ==> RowsDeletedUpTo(a, bpm.Store(), t, conditions, affected, rids)
        invariant !own && old(bpm.Ready()) ==> affected == 0 && bpm.Store() == a
      {
        ghost var s := bpm.Store();
        bpm.ReadyParts();
        if own && old(bpm.Ready()) {
          NextToDelete(a, s, t, conditions, affected, rids);
        }
        assert rids[affected] in rids;
        status := storage.DeleteRecord(t, rids[affected]);
        StepShapes(s, bpm.Store(), t);
        if status != OK {
          return;
        }
        LostOk(s, bpm.Store(), t, rids[affected]);
        if own && old(bpm.Ready()) {
          DeleteGoesOn(a, s, bpm.Store(), t, conditions, affected, rids);
        }
        affected := affected + 1;
      }
      status := OK;
    }

    /** The columns of a result. */
    static method OutputColumns(schema: Schema, fields: seq<nat>) returns (columns: Schema)
      requires InRange(fields, |schema|)
      ensures columns == ChosenColumns(schema, fields)
    {
      columns := [];
      for k := 0 to |fields|
        invariant |columns| == k && forall j: nat :: j < k ==> columns[j] == schema[fields[j]]
      {
        columns := columns + [schema[fields[k]]];
      }
    }

    /** The columns that SELECT lists, by their names. */
    static method FindFields(schema: Schema, fields: seq<Bytes>) returns (found: bool, positions: Option<seq<nat>>)
      ensures found <==> FieldsExist(schema, fields)
      ensures found ==> positions == FieldPositions(schema, fields)
      ensures positions.Some? ==> positions.value != [] && InRange(positions.value, |schema|)
    {
      hide HasColumn, PositionOf;
      if fields == [] || fields[0] == STAR {
        return true, None;
      }
      var columns: seq<nat> := [];
      for k := 0 to |fields|
        invariant |columns| == k && forall j: nat :: j < k ==> HasColumn(schema, fields[j]) && columns[j] == PositionOf(schema, fields[j])
        invariant forall j: nat :: j < k ==> columns[j] < |schema|
      {
        var exists_, column := FindColumn(schema, fields[k]);
        if !exists_ {
          return false, None;
        }
        columns := columns + [column];
      }
      assert columns == Positions(schema, fields);
      return true, Some(columns);
    }

    /** SELECT: the rows that satisfy WHERE, or some of their columns, decoded. */
    method ExecuteSelect(name: Bytes, t: TableInfo, conditions: seq<Condition>, fields: seq<Bytes>)
      returns (status: StatusCode, rows: seq<seq<Value>>, ghost order: seq<RecordID>, ghost rids: seq<RecordID>)
      requires bpm.Valid() && catalog !in bpm.Repr
      requires Prepared(bpm.Store(), catalog.tables, catalog.indexes, catalog.indexNames, name, t)
      modifies bpm.Repr
      ensures bpm.Valid() && bpm.Pins() == old(bpm.Pins()) && bpm.Store() == old(bpm.Store())
      ensures status == OK ==>
                && Shown(bpm.Store(), t.schema, FieldPositions(t.schema, fields), rids, rows)
                && Answerable(catalog.indexes, name, t.schema, conditions) && FieldsExist(t.schema, fields)
      ensures old(bpm.Ready()) ==> Showed(bpm.Store(), catalog.indexes, name, t, conditions, fields, status, order, rids, rows)
    {
      hide *;
      ghost var s := bpm.Store();
      ghost var indexes := catalog.indexes;
      PreparedParts(s, catalog.tables, indexes, catalog.indexNames, name, t);
      EntriesHaveHeaders(catalog.tables, indexes, catalog.indexNames);
      StatusOfPlan(s, catalog.tables, indexes, catalog.indexNames, name, t, conditions);
      rows, rids, order := [], [], [];
      bpm.ReadyParts();
      var plan;
      status, plan := BuildPlan(name, t, conditions);
      if plan == null {
        UnansweredParts(indexes, name, t.schema, conditions, status);
        NotShown(s, indexes, name, t, conditions, fields, status, order, rids, rows);
        return;
      }
      PlannedParts(s, indexes, name, t, conditions, plan);
      plan.WiredParts();
      var found, positions := FindFields(t.schema, fields);
      if !found {
        NotShown(s, indexes, name, t, conditions, fields, NOT_FOUND, order, rids, rows);
        return NOT_FOUND, rows, order, rids;
      }
      match positions {
        case None =>
          status, rows, order, rids := SelectWhole(plan, t, conditions, name);
        case Some(columns) =>
          var projection := new ProjectionOperator(plan, t.schema, columns);
          projection.MakeApart();
          status, rows, order, rids := SelectChosen(plan, projection, t, conditions, name);
      }
      if old(bpm.Ready()) {
        PlanShows(s, catalog.tables, indexes, catalog.indexNames, name, t, conditions, fields, status, order, rids, rows);
      }
    }

    /** The next row of a SELECT without a list of columns. */
    method NextWhole(plan: FilterPlan, ghost t: TableInfo) returns (found: bool, status: StatusCode, row: seq<Value>, rid: RecordID)
      requires bpm.Valid() && Executable(plan, t, bpm) && HeapOk(bpm.Store(), t.first) && plan.Running(bpm.Store())
      modifies plan.Objects(), bpm.Repr
      ensures bpm.Valid() && bpm.Pins() == old(bpm.Pins()) && bpm.Store() == old(bpm.Store())
      ensures plan.Order(bpm.Store()) == old(plan.Order(bpm.Store()))
      ensures old(plan.position) <= plan.position <= |plan.Order(bpm.Store())| && (found ==> old(plan.position) < plan.position)
      ensures found ==> plan.Running(bpm.Store()) && plan.filterStatus == OK
      ensures found && status == OK ==> ShownRow(bpm.Store(), t.schema, None, rid, row)
      ensures !found ==> status == OK
      ensures old(bpm.Ready()) ==> plan.SourceStatus() == OK
      ensures old(bpm.Ready()) && plan.filterStatus == OK ==>
                Advanced(old(plan.Remaining(bpm.Store())), plan.Remaining(bpm.Store()), found, rid)
      ensures Decodable(bpm.Store(), t.schema, plan.Order(bpm.Store())) ==> plan.filterStatus == OK && status == OK
    {
      hide *;
      ExecutableParts(plan, t, bpm);
      ghost var s := bpm.Store();
      var record;
      bpm.ReadyParts();
      found, record, rid := plan.Next();
      status, row := OK, [];
      if !found {
        return;
      }
      RowDecodes(s, t.schema, plan.Order(s), record, rid);
      plan.RunningParts(s);
      label Pulled:
      status, row := Deserialize(plan.schema, record);
      plan.FilterKeeps@Pulled(s);
      if status == OK {
        ShowWhole(s, t.schema, record, rid, row);
      }
    }

    /** Runs the plan of a SELECT without a list of columns. */
    method SelectWhole(plan: FilterPlan, ghost t: TableInfo, ghost conditions: seq<Condition>, ghost name: Bytes)
      returns (status: StatusCode, rows: seq<seq<Value>>, ghost order: seq<RecordID>, ghost rids: seq<RecordID>)
      requires bpm.Valid() && catalog !in bpm.Repr && HeapOk(bpm.Store(), t.first) && IndexesReadable(bpm.Store(), catalog.indexes, name, t.first)
      requires plan.bpm == bpm && catalog !in plan.Objects() && Planned(catalog.indexes, name, t, conditions, plan)
      modifies plan.Objects(), bpm.Repr
      ensures bpm.Valid() && bpm.Pins() == old(bpm.Pins()) && bpm.Store() == old(bpm.Store())
      ensures status == OK ==> Shown(bpm.Store(), t.schema, None, rids, rows) && ColumnsExist(conditions, t.schema)
      ensures old(bpm.Ready()) ==> PlanRuns(bpm.Store(), catalog.indexes, name, t, conditions, None, status, order, rids)
    {
      hide *;
      ghost var s := bpm.Store();
      ghost var indexes := catalog.indexes;
      rows, rids, order := [], [], [];
      PlannedParts(s, indexes, name, t, conditions, plan);
      plan.WiredParts();
      bpm.ReadyParts();
      status := plan.Open();
      if status != OK {
        if old(bpm.Ready()) {
          PlanRefused(s, indexes, name, t, conditions, None, status, order, rids);
        }
        return;
      }
      MakeOpened(plan, s);
      OpenedPlan(s, indexes, name, t, conditions, plan);
      ExecutableParts(plan, t, bpm);
      plan.RunningParts(s);
      order := plan.Order(s);
      ghost var all := plan.Remaining(s);
      var found := true;
      NothingShown(s, t.schema, None);
      while found && status == OK
        invariant bpm.Valid() && bpm.Pins() == old(bpm.Pins()) && bpm.Store() == s && plan.Order(s) == order
        invariant Shown(s, t.schema, None, rids, rows) && plan.position <= |order|
        invariant found ==> plan.Running(s) && plan.filterStatus == OK
        invariant old(bpm.Ready()) ==> plan.SourceStatus() == OK
        invariant old(bpm.Ready()) && plan.filterStatus == OK && status == OK ==> all == if found then rids + plan.Remaining(s) else rids
        invariant Decodable(s, t.schema, order) ==> plan.filterStatus == OK && status == OK
        decreases |order| - plan.position + if found then 1 else 0
      {
        bpm.ReadyParts();
        var row, rid;
        found, status, row, rid := NextWhole(plan, t);
        AdvancedParts(all, rids, plan.Remaining(s), found, rid);
        if found && status == OK {
          OneMoreShown(s, t.schema, None, rids, rows, rid, row);
          rids := rids + [rid];
          rows := rows + [row];
        }
      }
      var closeStatus := plan.Close();
      status := if status != OK then status else closeStatus;
      if old(bpm.Ready()) {
        PlanRan(s, indexes, name, t, conditions, None, status, order, rids);
      }
    }

    /** The next row of a SELECT with a list of columns. */
    method NextChosen(projection: ProjectionOperator, columns: Schema, ghost t: TableInfo) returns (found: bool, row: seq<Value>, rid: RecordID)
      requires bpm.Valid() && Executable(projection.child, t, bpm) && HeapOk(bpm.Store(), t.first) && projection.child.Running(bpm.Store())
      requires projection.Apart() && projection.projectionStatus == OK
      requires projection.inputSchema == t.schema && InRange(projection.selectedFields, |t.schema|)
      requires columns == ChosenColumns(t.schema, projection.selectedFields)
      modifies projection, projection.child.Objects(), bpm.Repr
      ensures bpm.Valid() && bpm.Pins() == old(bpm.Pins()) && bpm.Store() == old(bpm.Store())
      ensures projection.child.Order(bpm.Store()) == old(projection.child.Order(bpm.Store()))
      ensures old(projection.child.position) <= projection.child.position <= |projection.child.Order(bpm.Store())|
      ensures found ==> old(projection.child.position) < projection.child.position
      ensures found ==> projection.projectionStatus == OK && projection.child.Running(bpm.Store()) && projection.child.filterStatus == OK
      ensures found ==> ShownRow(bpm.Store(), t.schema, Some(projection.selectedFields), rid, row)
      ensures old(bpm.Ready()) ==> projection.child.SourceStatus() == OK
      ensures old(bpm.Ready()) && projection.projectionStatus == OK && projection.child.filterStatus == OK ==>
                Advanced(old(projection.child.Remaining(bpm.Store())), projection.child.Remaining(bpm.Store()), found, rid)
      ensures Decodable(bpm.Store(), t.schema, projection.child.Order(bpm.Store())) ==> projection.child.filterStatus == OK
      ensures AllProjectable(bpm.Store(), t.schema, projection.child.conditions, projection.selectedFields, projection.child.Order(bpm.Store())) ==>
                projection.projectionStatus == OK
    {
      hide *;
      ghost var plan := projection.child;
      ExecutableParts(plan, t, bpm);
      ghost var s := bpm.Store();
      var record;
      bpm.ReadyParts();
      found, record, rid := projection.Next();
      row := [];
      if !found {
        return;
      }
      ShowChosen(s, t.schema, plan.conditions, projection.selectedFields, record, rid);
      plan.RunningParts(s);
      label Pulled:
      var status;
      status, row := Deserialize(columns, record);
      if status != OK {
        assert false;
      }
      plan.FilterKeeps@Pulled(s);
    }

    /** Runs the plan of a SELECT with a list of columns. */
    method SelectChosen(plan: FilterPlan, projection: ProjectionOperator, t: TableInfo, ghost conditions: seq<Condition>, ghost name: Bytes)
      returns (status: StatusCode, rows: seq<seq<Value>>, ghost order: seq<RecordID>, ghost rids: seq<RecordID>)
      requires bpm.Valid() && catalog !in bpm.Repr && HeapOk(bpm.Store(), t.first) && IndexesReadable(bpm.Store(), catalog.indexes, name, t.first)
      requires plan.bpm == bpm && catalog !in plan.Objects() && Planned(catalog.indexes, name, t, conditions, plan)
      requires projection.child == plan && projection.inputSchema == t.schema && projection.Apart()
      requires projection.selectedFields != [] && InRange(projection.selectedFields, |t.schema|)
      modifies projection, plan.Objects(), bpm.Repr
      ensures bpm.Valid() && bpm.Pins() == old(bpm.Pins()) && bpm.Store() == old(bpm.Store())
      ensures status == OK ==> Shown(bpm.Store(), t.schema, Some(projection.selectedFields), rids, rows) && ColumnsExist(conditions, t.schema)
      ensures old(bpm.Ready()) ==>
                PlanRuns(bpm.Store(), catalog.indexes, name, t, conditions, Some(projection.selectedFields), status, order, rids)
    {
      hide *;
      ghost var s := bpm.Store();
      ghost var indexes := catalog.indexes;
      ghost var fields := Some(projection.selectedFields);
      rows, rids, order := [], [], [];
      PlannedParts(s, indexes, name, t, conditions, plan);
      plan.WiredParts();
      projection.ApartParts();
      bpm.ReadyParts();
      status := projection.Open();
      if status != OK {
        if old(bpm.Ready()) {
          PlanRefused(s, indexes, name, t, conditions, fields, status, order, rids);
        }
        return;
      }
      OpenedPlan(s, indexes, name, t, conditions, plan);
      ExecutableParts(plan, t, bpm);
      plan.RunningParts(s);
      label Opening:
      var columns := OutputColumns(t.schema, projection.selectedFields);
      plan.FilterKeeps@Opening(s);
      order := plan.Order(s);
      ghost var all := plan.Remaining(s);
      var found := true;
      NothingShown(s, t.schema, fields);
      while found
        invariant bpm.Valid() && bpm.Pins() == old(bpm.Pins()) && bpm.Store() == s && plan.Order(s) == order
        invariant Shown(s, t.schema, fields, rids, rows) && plan.position <= |order|
        invariant found ==> plan.Running(s) && projection.projectionStatus == OK && plan.filterStatus == OK
        invariant old(bpm.Ready()) ==> plan.SourceStatus() == OK
        invariant old(bpm.Ready()) && projection.projectionStatus == OK && plan.filterStatus == OK ==>
                    all == if found then rids + plan.Remaining(s) else rids
        invariant Decodable(s, t.schema, order) ==> plan.filterStatus == OK
        invariant AllProjectable(s, t.schema, conditions, projection.selectedFields, order) ==> projection.projectionStatus == OK
        decreases |order| - plan.position + if found then 1 else 0
      {
        bpm.ReadyParts();
        var row, rid;
        found, row, rid := NextChosen(projection, columns, t);
        AdvancedParts(all, rids, plan.Remaining(s), found, rid);
        if found {
          OneMoreShown(s, t.schema, fields, rids, rows, rid, row);
          rids := rids + [rid];
          rows := rows + [row];
        }
      }
      status := projection.Close();
      if old(bpm.Ready()) {
        PlanRan(s, indexes, name, t, conditions, fields, status, order, rids);
      }
    }
  }
}
