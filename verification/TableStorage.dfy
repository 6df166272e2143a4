// Mutations of a table that keep its heap file and its indexes in step
// (src/storage/table_storage.cpp).
module TableStorages {
  import opened Common
  import opened Disk
  import opened Buffer
  import opened BucketFormat
  import SlottedFormat
  import opened RecordFormat
  import opened RecordCodecs
  import opened IndexKeys
  import opened PageChains
  import opened HeapStates
  import opened HeapFiles
  import opened IndexStates
  import opened IndexOutcomes
  import opened HashIndexes
  import opened TableStates
  import opened TableOutcomes
  import opened TableRooms

  class TableStorage {
    const bpm: BufferPoolManager

    constructor (bpm: BufferPoolManager)
      ensures this.bpm == bpm
    {
      this.bpm := bpm;
    }

    /** The index keys of a record; refused if one of them cannot be encoded. */
    method EncodeIndexKeys(t: TableInfo, record: Bytes) returns (status: StatusCode, keys: Keys)
      ensures status == OK <==> Keyed(record, t)
      ensures status == OK ==> KeysOf(t, record, keys)
      ensures status in {OK, IO_ERROR, INVALID_ARGUMENT}
      ensures status == IO_ERROR ==> Decode(t.schema, record).None?
    {
      hide *;
      keys := [];
      KeyedParts(record, t);
      for i := 0 to |t.indexes|
        invariant |keys| == i
        invariant forall j: nat :: j < i ==> KeyMatches(keys[j], RecordKey(t.schema, record, t.indexes[j].column))
      {
        RecordKeyParts(t.schema, record, t.indexes[i].column);
        var value, key;
        status, value := GetValue(t.schema, record, t.indexes[i].column);
        if status != OK {
          return;
        }
        if value.Null? {
          keys := keys + [None];
        } else {
          status, key := Encode(value);
          if status != OK {
            return;
          }
          keys := keys + [Some(key)];
        }
      }
      status := OK;
      MakeKeysOf(t, record, keys);
    }

    static lemma KeyedParts(record: Bytes, t: TableInfo)
      ensures Keyed(record, t) <==> forall i: nat :: i < |t.indexes| ==> !RecordKey(t.schema, record, t.indexes[i].column).BadKey?
    {
    }

    static lemma RecordKeyParts(schema: Schema, record: Bytes, column: nat)
      ensures ValueOf(schema, record, column).None? <==> Decode(schema, record).None? || column >= |schema|
      ensures ValueOf(schema, record, column).None? ==> RecordKey(schema, record, column).BadKey?
      ensures ValueOf(schema, record, column).Some? ==>
                var value := ValueOf(schema, record, column).value;
                && (value.Null? ==> KeyMatches(None, RecordKey(schema, record, column)))
                && (!value.Null? && KeyOf(value).None? ==> RecordKey(schema, record, column).BadKey?)
                && (!value.Null? && KeyOf(value).Some? ==> KeyMatches(KeyOf(value), RecordKey(schema, record, column)))
    {
      ValueParts(schema, record, column);
      hide Decode;
    }

    static lemma MakeKeysOf(t: TableInfo, record: Bytes, keys: Keys)
      requires |keys| == |t.indexes|
      requires forall j: nat :: j < |keys| ==> KeyMatches(keys[j], RecordKey(t.schema, record, t.indexes[j].column))
      ensures KeysOf(t, record, keys) && Keyed(record, t)
    {
      hide RecordKey;
    }

    /** Record ids are in the range of their fields. */
    lemma RidRange(first: int, rid: RecordID)
      requires bpm.Valid() && HeapOk(bpm.Store(), first) && rid in HeapRows(bpm.Store(), first)
      ensures 0 < rid.pageId < 0x8000_0000 && rid.slotId < 0x1_0000 && rid.pageId in HeapPages(bpm.Store(), first)
      ensures HEADER_PAGE_ID == 0
    {
      RowOnPage(bpm.Store(), first, rid);
      bpm.InStore(rid.pageId);
    }

    /** Adds the pairs of a new row to the indexes, up to the first failure. */
    method InsertIndexEntries(t: TableInfo, rid: RecordID, keys: Keys, ghost record: Bytes, ghost v0: View)
      returns (status: StatusCode, inserted: nat)
      requires bpm.Valid() && TableShape(bpm.Store(), t) && rid in HeapRows(bpm.Store(), t.first) && |keys| == |t.indexes|
      requires InsertedUpTo(v0, ViewOf(bpm.Store(), t), rid, record, keys, 0) && RoomsKept(v0, ViewOf(bpm.Store(), t), 0)
      requires Agrees(v0, t) && rid !in v0.rows && |v0.rooms| == |v0.widths|
      modifies bpm.Repr
      ensures bpm.Valid() && bpm.Pins() == old(bpm.Pins())
      ensures TableStep(old(bpm.Store()), bpm.Store(), t) && inserted <= |keys|
      ensures HeapRows(bpm.Store(), t.first) == old(HeapRows(bpm.Store(), t.first))
      ensures status == OK ==> inserted == |keys|
      ensures status == OK || old(bpm.Ready()) ==> InsertedUpTo(v0, ViewOf(bpm.Store(), t), rid, record, keys, inserted)
      ensures old(bpm.Ready()) ==> TableKeepsNew(old(bpm.Store()), bpm.Store(), t)
      ensures old(bpm.Ready()) ==> status in {OK, INVALID_ARGUMENT, OUT_OF_MEMORY}
      ensures old(bpm.Ready()) && ShortKeys(keys) ==> status != INVALID_ARGUMENT
      ensures old(bpm.Ready()) && ShortKeys(keys) && status == OK ==>
                |bpm.Store()| == |old(bpm.Store())| + RowPages(v0, keys, |keys|)
      ensures old(bpm.Ready()) && ShortKeys(keys) && status != OK ==>
                |old(bpm.Store())| + RowPages(v0, keys, |keys|) > bpm.disk.capacity
    {
      hide *;
      ghost var a := bpm.Store();
      StepNothing(a, t);
      bpm.ReadyParts();
      inserted := 0;
      RowPagesNone(v0, keys);
      while inserted < |keys|
        invariant inserted <= |keys|
        invariant bpm.Valid() && bpm.Pins() == old(bpm.Pins())
        invariant TableStep(a, bpm.Store(), t) && HeapRows(bpm.Store(), t.first) == HeapRows(a, t.first)
        invariant InsertedUpTo(v0, ViewOf(bpm.Store(), t), rid, record, keys, inserted)
        invariant old(bpm.Ready()) ==> TableKeepsNew(a, bpm.Store(), t)
        invariant RoomsKept(v0, ViewOf(bpm.Store(), t), inserted)
        invariant old(bpm.Ready()) && ShortKeys(keys) ==> |bpm.Store()| == |a| + RowPages(v0, keys, inserted)
      {
        ghost var s := bpm.Store();
        StepShapes(a, s, t);
        bpm.ReadyParts();
        RowPagesStep(v0, keys, inserted);
        RoomsSame(v0, ViewOf(s, t), inserted);
        if keys[inserted].Some? {
          InsertedRow(v0, s, t, rid, record, keys, inserted);
          RidRange(t.first, rid);
          ShortKey(keys, inserted);
          IndexableParts(Pair(keys[inserted].value, rid));
          var index := new HashIndex(bpm, t.indexes[inserted].header);
          status := index.Insert(keys[inserted].value, rid);
          InsertLifts(s, bpm.Store(), t, inserted, Pair(keys[inserted].value, rid), status);
          InsertKeepsRows(s, bpm.Store(), t, inserted, Pair(keys[inserted].value, rid), status);
          StepCompose(a, s, bpm.Store(), t);
          RoomsInserted(v0, ViewOf(s, t), ViewOf(bpm.Store(), t), inserted, Pair(keys[inserted].value, rid), status);
          if old(bpm.Ready()) {
            InsertLiftsReliably(s, bpm.Store(), t, inserted, Pair(keys[inserted].value, rid), status);
            if ShortKeys(keys) {
              RowPairPlaced(v0, s, bpm.Store(), t, rid, record, keys, inserted, status, bpm.disk.capacity);
            }
          }
          if status != OK {
            return;
          }
        }
        InsertedOneMore(v0, ViewOf(s, t), ViewOf(bpm.Store(), t), rid, record, keys, inserted);
        inserted := inserted + 1;
      }
      status := OK;
    }

    /** Takes the pairs of the first `count` indexes back, the last one first. */
    method RollbackInsertedIndexEntries(t: TableInfo, rid: RecordID, keys: Keys, count: nat, ghost record: Bytes, ghost v0: View)
      returns (status: StatusCode)
      requires bpm.Valid() && TableShape(bpm.Store(), t) && count <= |keys| == |t.indexes|
      requires Agrees(v0, t) && rid !in v0.rows
      modifies bpm.Repr
      ensures bpm.Valid() && bpm.Pins() == old(bpm.Pins())
      ensures TableStep(old(bpm.Store()), bpm.Store(), t) && TableKeepsNew(old(bpm.Store()), bpm.Store(), t)
      ensures HeapRows(bpm.Store(), t.first) == old(HeapRows(bpm.Store(), t.first))
      ensures old(bpm.Ready()) && old(InsertedUpTo(v0, ViewOf(bpm.Store(), t), rid, record, keys, count)) && ShortKeys(keys) ==>
                status == OK && InsertedUpTo(v0, ViewOf(bpm.Store(), t), rid, record, keys, 0)
    {
      hide *;
      ghost var a := bpm.Store();
      ghost var sound := bpm.Ready() && InsertedUpTo(v0, ViewOf(a, t), rid, record, keys, count) && ShortKeys(keys);
      StepNothing(a, t);
      bpm.ReadyParts();
      var left: nat := count;
      while left > 0
        invariant left <= count
        invariant bpm.Valid() && bpm.Pins() == old(bpm.Pins())
        invariant TableStep(a, bpm.Store(), t) && TableKeepsNew(a, bpm.Store(), t)
        invariant HeapRows(bpm.Store(), t.first) == HeapRows(a, t.first)
        invariant sound ==> InsertedUpTo(v0, ViewOf(bpm.Store(), t), rid, record, keys, left)
      {
        ghost var s := bpm.Store();
        StepShapes(a, s, t);
        bpm.ReadyParts();
        left := left - 1;
        status := OK;
        if keys[left].Some? {
          var index := new HashIndex(bpm, t.indexes[left].header);
          status := index.Remove(keys[left].value, rid);
          RemoveLifts(s, bpm.Store(), t, left, Pair(keys[left].value, rid), status);
          RemoveKeepsRows(s, bpm.Store(), t, left, Pair(keys[left].value, rid), status);
          StepCompose(a, s, bpm.Store(), t);
          ShortKey(keys, left);
          if status != OK && status != NOT_FOUND {
            return;
          }
        }
        if sound {
          InsertedOneLess(v0, ViewOf(s, t), ViewOf(bpm.Store(), t), t, rid, record, keys, left, status);
        }
      }
      status := OK;
    }

    /** Adds a row: to the heap file first, and then to every index. If an index fails, the
        pairs and the row are taken back. */
    method InsertRecord(t: TableInfo, values: seq<Value>) returns (status: StatusCode, rid: RecordID, ghost record: Bytes)
      requires bpm.Valid() && TableOk(bpm.Store(), t)
      modifies bpm.Repr
      ensures bpm.Valid() && bpm.Pins() == old(bpm.Pins())
      ensures TableStep(old(bpm.Store()), bpm.Store(), t)
      ensures status == OK ==> RowAdded(old(bpm.Store()), bpm.Store(), t, values, rid, record)
      ensures status != OK && old(bpm.Ready()) ==> TableUnchanged(old(bpm.Store()), bpm.Store(), t)
      ensures old(bpm.Ready()) ==> TableKeepsNew(old(bpm.Store()), bpm.Store(), t)
      ensures old(bpm.Ready()) ==> InsertStatusIs(old(bpm.Store()), t, values, status, bpm.disk.capacity)
      ensures old(bpm.Ready()) && status == OK ==> |bpm.Store()| == |old(bpm.Store())| + InsertPages(old(bpm.Store()), t, values)
    {
      hide *;
      ghost var a := bpm.Store();
      InsertableIs(t, values);
      InsertStatusMeans(a, t, values, bpm.disk.capacity);
      RecordSizeIs(values, []);
      TableOkParts(a, t);
      StepNothing(a, t);
      MakeUnchanged(a, a, t);
      ViewRows(a, t);
      bpm.ReadyParts();
      rid, record := RecordID(INVALID_PAGE_ID, 0), [];
      var encoded;
      status, encoded := Serialize(t.schema, values);
      record := encoded;
      RefusedStatus(t.schema, values, status);
      if status != OK {
        return;
      }
      SerializableParts(t.schema, values);
      RoundTrip(t.schema, encoded, values);
      KeysOfValues(t, encoded, values);
      var keys;
      status, keys := EncodeIndexKeys(t, encoded);
      if status != OK {
        return;
      }
      KeysParts(t, encoded, keys);
      var heapFile := new HeapFile(bpm, t.first);
      var insertedRid;
      status, insertedRid := heapFile.InsertRecord(encoded);
      ghost var b := bpm.Store();
      RowInsertLifts(a, b, t, insertedRid, encoded, status, bpm.disk.capacity);
      bpm.ReadyParts();
      if old(bpm.Ready()) {
        InsertDecided(a, t, values, encoded, keys, status, bpm.disk.capacity);
      }
      if status != OK {
        if old(bpm.Ready()) {
          MakeUnchanged(a, b, t);
        }
        return;
      }
      InsertedNone(ViewOf(a, t), ViewOf(b, t), t, insertedRid, encoded, keys);
      RoomsStart(ViewOf(a, t), HeapRows(b, t.first));
      RoomsCounted(a, t);
      var inserted;
      status, inserted := InsertIndexEntries(t, insertedRid, keys, encoded, ViewOf(a, t));
      ghost var c := bpm.Store();
      StepCompose(a, b, c, t);
      StepShapes(a, c, t);
      if status != OK {
        bpm.ReadyParts();
        status := UndoInsert(t, insertedRid, keys, inserted, status, encoded, ViewOf(a, t));
        StepCompose(a, c, bpm.Store(), t);
        StepShapes(a, bpm.Store(), t);
        if old(bpm.Ready()) {
          MakeUnchanged(a, bpm.Store(), t);
        }
        return;
      }
      rid := insertedRid;
      bpm.StoreSize();
      MakeRowAdded(a, c, t, values, rid, encoded, keys);
    }

    /** The failure branch of InsertRecord. */
    method UndoInsert(t: TableInfo, rid: RecordID, keys: Keys, count: nat, failure: StatusCode, ghost record: Bytes, ghost v0: View)
      returns (status: StatusCode)
      requires bpm.Valid() && TableShape(bpm.Store(), t) && count <= |keys| == |t.indexes| && failure != OK
      requires Agrees(v0, t) && rid !in v0.rows && rid in HeapRows(bpm.Store(), t.first)
      modifies bpm.Repr
      ensures bpm.Valid() && bpm.Pins() == old(bpm.Pins()) && status != OK
      ensures TableStep(old(bpm.Store()), bpm.Store(), t)
      ensures old(bpm.Ready()) && old(InsertedUpTo(v0, ViewOf(bpm.Store(), t), rid, record, keys, count)) && ShortKeys(keys) ==>
                && status == failure && TableKeepsNew(old(bpm.Store()), bpm.Store(), t)
                && ViewOf(bpm.Store(), t).rows == v0.rows && ViewOf(bpm.Store(), t).pairs == v0.pairs
    {
      hide *;
      ghost var a := bpm.Store();
      bpm.ReadyParts();
      var indexRollback := RollbackInsertedIndexEntries(t, rid, keys, count, record, v0);
      ghost var b := bpm.Store();
      StepShapes(a, b, t);
      ViewRows(b, t);
      RowOnPage(b, t.first, rid);
      bpm.ReadyParts();
      var heapFile := new HeapFile(bpm, t.first);
      heapFile.HasHeapPage(t.first, rid.pageId);
      RowOfFileParts(bpm.Store(), t.first, rid);
      var heapRollback := heapFile.DeleteRecord(rid);
      RowDeleteLifts(b, bpm.Store(), t, rid, heapRollback);
      StepCompose(a, b, bpm.Store(), t);
      if old(bpm.Ready()) && old(InsertedUpTo(v0, ViewOf(bpm.Store(), t), rid, record, keys, count)) && ShortKeys(keys) {
        InsertUndone(v0, ViewOf(b, t), ViewOf(bpm.Store(), t), t, rid, record, keys);
      }
      status := failure;
      if indexRollback != OK || heapRollback != OK {
        status := IO_ERROR;
      }
    }

    /** Whether a record id is on a page of the table. */
    method ValidateRecordBelongsToTable(t: TableInfo, rid: RecordID) returns (status: StatusCode)
      requires bpm.Valid() && TableShape(bpm.Store(), t)
      modifies bpm.Repr
      ensures bpm.Valid() && bpm.Pins() == old(bpm.Pins()) && bpm.Store() == old(bpm.Store())
      ensures status == OK ==> rid.pageId > HEADER_PAGE_ID && rid.pageId in HeapPages(bpm.Store(), t.first)
      ensures old(bpm.Ready()) ==> status in {OK, INVALID_ARGUMENT}
      ensures old(bpm.Ready()) && rid.pageId in HeapPages(bpm.Store(), t.first) ==> rid.pageId > HEADER_PAGE_ID ==> status == OK
    {
      hide *;
      ShapeGives(bpm.Store(), t);
      HeaderIsZero();
      if rid.pageId <= 0 {
        return INVALID_ARGUMENT;
      }
      var heapFile := new HeapFile(bpm, t.first);
      var contains;
      status, contains := heapFile.ContainsPage(rid.pageId);
      if status != OK {
        return;
      }
      if !contains {
        return INVALID_ARGUMENT;
      }
    }

    static lemma HeaderIsZero()
      ensures HEADER_PAGE_ID == 0
    {
    }

    /** Adds the pairs of a row back to the indexes that have lost them, the last one first. */
    method RollbackRemovedIndexEntries(t: TableInfo, rid: RecordID, keys: Keys, removed: seq<nat>, ghost count: nat, ghost v0: View)
      returns (status: StatusCode)
      requires bpm.Valid() && TableShape(bpm.Store(), t) && count <= |keys| == |t.indexes|
      requires rid in HeapRows(bpm.Store(), t.first) && removed == SomePositions(keys, count) && ShortKeys(keys)
      modifies bpm.Repr
      ensures bpm.Valid() && bpm.Pins() == old(bpm.Pins())
      ensures TableStep(old(bpm.Store()), bpm.Store(), t)
      ensures HeapRows(bpm.Store(), t.first) == old(HeapRows(bpm.Store(), t.first))
      ensures old(bpm.Ready()) && old(DeletedUpTo(v0, ViewOf(bpm.Store(), t), rid, keys, count)) && Holding(v0, rid, keys) ==>
                && status == OK && TableKeepsNew(old(bpm.Store()), bpm.Store(), t)
                && ViewOf(bpm.Store(), t).pairs == v0.pairs
    {
      hide *;
      ghost var a := bpm.Store();
      ghost var sound := bpm.Ready() && DeletedUpTo(v0, ViewOf(a, t), rid, keys, count) && Holding(v0, rid, keys);
      StepNothing(a, t);
      bpm.ReadyParts();
      var left: nat := |removed|;
      ghost var k: nat := count;
      assert removed[..left] == removed;
      while left > 0
        invariant left <= |removed| && k <= |keys| && removed[..left] == SomePositions(keys, k)
        invariant bpm.Valid() && bpm.Pins() == old(bpm.Pins())
        invariant TableStep(a, bpm.Store(), t) && HeapRows(bpm.Store(), t.first) == HeapRows(a, t.first)
        invariant sound ==> TableKeepsNew(a, bpm.Store(), t) && DeletedUpTo(v0, ViewOf(bpm.Store(), t), rid, keys, k)
      {
        ghost var s := bpm.Store();
        StepShapes(a, s, t);
        bpm.ReadyParts();
        RidRange(t.first, rid);
        left := left - 1;
        LastPosition(keys, k, removed[..left + 1]);
        var position := removed[left];
        var key := keys[position].value;
        ShortKey(keys, position);
        IndexableParts(Pair(key, rid));
        var index := new HashIndex(bpm, t.indexes[position].header);
        status := index.Insert(key, rid);
        InsertLifts(s, bpm.Store(), t, position, Pair(key, rid), status);
        InsertKeepsRows(s, bpm.Store(), t, position, Pair(key, rid), status);
        StepCompose(a, s, bpm.Store(), t);
        if sound {
          InsertLiftsReliably(s, bpm.Store(), t, position, Pair(key, rid), status);
          DeletedOneLess(v0, ViewOf(s, t), ViewOf(bpm.Store(), t), rid, keys, k, position, status);
        }
        if status != OK {
          return;
        }
        k := position;
      }
      status := OK;
      if sound {
        DeletedNothing(v0, ViewOf(bpm.Store(), t), rid, keys, k);
      }
    }

    /** Removes the pairs of a row from the indexes, up to the first failure; returns the
        positions that had one. */
    method RemoveIndexEntries(t: TableInfo, rid: RecordID, keys: Keys, ghost v0: View)
      returns (status: StatusCode, removed: seq<nat>, ghost count: nat)
      requires bpm.Valid() && TableShape(bpm.Store(), t) && |keys| == |t.indexes| && ShortKeys(keys)
      requires DeletedUpTo(v0, ViewOf(bpm.Store(), t), rid, keys, 0) && Holding(v0, rid, keys)
      modifies bpm.Repr
      ensures bpm.Valid() && bpm.Pins() == old(bpm.Pins())
      ensures TableStep(old(bpm.Store()), bpm.Store(), t) && TableKeepsNew(old(bpm.Store()), bpm.Store(), t)
      ensures count <= |keys| && removed == SomePositions(keys, count)
      ensures DeletedUpTo(v0, ViewOf(bpm.Store(), t), rid, keys, count)
      ensures status == OK ==> count == |keys|
      ensures old(bpm.Ready()) ==> status == OK
    {
      hide *;
      ghost var a := bpm.Store();
      StepNothing(a, t);
      bpm.ReadyParts();
      removed, count := [], 0;
      NoPositionsYet(keys);
      var position: nat := 0;
      while position < |keys|
        invariant position == count <= |keys| && removed == SomePositions(keys, count)
        invariant bpm.Valid() && bpm.Pins() == old(bpm.Pins())
        invariant TableStep(a, bpm.Store(), t) && TableKeepsNew(a, bpm.Store(), t)
        invariant DeletedUpTo(v0, ViewOf(bpm.Store(), t), rid, keys, count)
      {
        ghost var s := bpm.Store();
        StepShapes(a, s, t);
        bpm.ReadyParts();
        OnePosition(keys, position);
        if keys[position].Some? {
          ShortKey(keys, position);
          var key := keys[position].value;
          var index := new HashIndex(bpm, t.indexes[position].header);
          status := index.Remove(key, rid);
          RemoveLifts(s, bpm.Store(), t, position, Pair(key, rid), status);
          StepCompose(a, s, bpm.Store(), t);
          PairIsThere(v0, ViewOf(s, t), rid, keys, position);
          if status != OK {
            NotRemoved(v0, ViewOf(s, t), ViewOf(bpm.Store(), t), rid, keys, position, status);
            return;
          }
          removed := removed + [position];
        }
        DeletedOneMore(v0, ViewOf(s, t), ViewOf(bpm.Store(), t), rid, keys, position);
        position := position + 1;
        count := position;
      }
      status := OK;
    }

    /** Deletes a row: from every index first, and then from the heap file. If something
        fails, the pairs are put back. */
    method DeleteRecord(t: TableInfo, rid: RecordID) returns (status: StatusCode)
      requires bpm.Valid() && TableOk(bpm.Store(), t)
      modifies bpm.Repr
      ensures bpm.Valid() && bpm.Pins() == old(bpm.Pins())
      ensures TableStep(old(bpm.Store()), bpm.Store(), t)
      ensures status == OK ==> RowLost(old(bpm.Store()), bpm.Store(), t, rid)
      ensures old(bpm.Ready()) ==> TableKeepsNew(old(bpm.Store()), bpm.Store(), t) && status in {OK, INVALID_ARGUMENT, NOT_FOUND}
      ensures old(bpm.Ready()) ==> (status == OK <==> rid in old(HeapRows(bpm.Store(), t.first)))
      ensures status != OK && old(bpm.Ready()) ==> TableUnchanged(old(bpm.Store()), bpm.Store(), t)
      ensures old(bpm.Ready()) && rid !in HeapRows(old(bpm.Store()), t.first) ==>
                status in {INVALID_ARGUMENT, NOT_FOUND} && bpm.Store() == old(bpm.Store())
    {
      hide *;
      ghost var a := bpm.Store();
      bpm.ReadyParts();
      var oldRecord, keys;
      status, oldRecord, keys := FindRow(t, rid);
      bpm.ReadyParts();
      StepNothingOk(a, t);
      if status != OK {
        return;
      }
      ghost var v0 := ViewOf(a, t);
      TableOkParts(a, t);
      KeysParts(t, oldRecord, keys);
      RowHolds(a, t, rid, oldRecord, keys);
      var removed;
      ghost var count;
      status, removed, count := RemoveIndexEntries(t, rid, keys, v0);
      ghost var b := bpm.Store();
      StepShapes(a, b, t);
      DeletedRows(v0, b, t, rid, keys, count);
      ViewRows(a, t);
      bpm.ReadyParts();
      if status != OK {
        var rollback := RollbackRemovedIndexEntries(t, rid, keys, removed, count, v0);
        StepCompose(a, b, bpm.Store(), t);
        status := if rollback == OK then status else IO_ERROR;
        return;
      }
      RowOnPage(b, t.first, rid);
      var heapFile := new HeapFile(bpm, t.first);
      heapFile.HasHeapPage(t.first, rid.pageId);
      RowOfFileParts(bpm.Store(), t.first, rid);
      status := heapFile.DeleteRecord(rid);
      ghost var c := bpm.Store();
      RowDeleteLifts(b, c, t, rid, status);
      StepCompose(a, b, c, t);
      if status == OK {
        MakeRowLost(a, b, c, t, rid, oldRecord, keys);
        return;
      }
      ViewRows(b, t);
      ViewRows(c, t);
      var rollback := RollbackRemovedIndexEntries(t, rid, keys, removed, count, v0);
      StepCompose(a, c, bpm.Store(), t);
      status := if rollback == OK then status else IO_ERROR;
    }

    /** Reads a row of the table. */
    method GetRecord(t: TableInfo, rid: RecordID) returns (status: StatusCode, record: Bytes)
      requires bpm.Valid() && TableOk(bpm.Store(), t)
      modifies bpm.Repr
      ensures bpm.Valid() && bpm.Pins() == old(bpm.Pins()) && bpm.Store() == old(bpm.Store())
      ensures status == OK ==> rid in HeapRows(bpm.Store(), t.first) && record == HeapRows(bpm.Store(), t.first)[rid]
      ensures old(bpm.Ready()) ==> (status == OK <==> rid in HeapRows(bpm.Store(), t.first)) && status in {OK, INVALID_ARGUMENT, NOT_FOUND}
    {
      hide *;
      record := [];
      TableOkParts(bpm.Store(), t);
      bpm.ReadyParts();
      RowOnPageIf(bpm.Store(), t.first, rid);
      status := ValidateRecordBelongsToTable(t, rid);
      if status != OK {
        return;
      }
      bpm.ReadyParts();
      var heapFile := new HeapFile(bpm, t.first);
      heapFile.HasHeapPage(t.first, rid.pageId);
      status, record := heapFile.GetRecord(rid);
      ReadOutcome(bpm.Store(), t.first, rid, status, record);
      RowReadStatus(bpm.Store(), t.first, rid, status, record);
    }

    /** The checks with which UpdateRecord and DeleteRecord begin: the row must be there,
        and its index keys must be known. */
    method FindRow(t: TableInfo, rid: RecordID) returns (status: StatusCode, record: Bytes, keys: Keys)
      requires bpm.Valid() && TableOk(bpm.Store(), t)
      modifies bpm.Repr
      ensures bpm.Valid() && bpm.Pins() == old(bpm.Pins()) && bpm.Store() == old(bpm.Store())
      ensures status == OK ==> RowRead(bpm.Store(), t.first, rid, OK, record) && KeysOf(t, record, keys)
      ensures old(bpm.Ready()) ==> status in {OK, INVALID_ARGUMENT, NOT_FOUND}
      ensures old(bpm.Ready()) ==> (status == OK <==> rid in HeapRows(bpm.Store(), t.first))
      ensures status == OK ==> rid in HeapRows(bpm.Store(), t.first)
    {
      hide *;
      record, keys := [], [];
      TableOkParts(bpm.Store(), t);
      bpm.ReadyParts();
      RowOnPageIf(bpm.Store(), t.first, rid);
      status := ValidateRecordBelongsToTable(t, rid);
      if status != OK {
        return;
      }
      bpm.ReadyParts();
      var heapFile := new HeapFile(bpm, t.first);
      heapFile.HasHeapPage(t.first, rid.pageId);
      status, record := heapFile.GetRecord(rid);
      ReadOutcome(bpm.Store(), t.first, rid, status, record);
      RowReadStatus(bpm.Store(), t.first, rid, status, record);
      if status != OK {
        return;
      }
      RowKeyed(bpm.Store(), t, rid, record);
      status, keys := EncodeIndexKeys(t, record);
    }

    /** Replaces the key of a row in one index; if the new pair cannot be inserted, the old
        one is put back. */
    method ChangeKey(t: TableInfo, rid: RecordID, position: nat, oldKey: Option<Bytes>, newKey: Option<Bytes>)
      returns (status: StatusCode, change: AppliedChange)
      requires bpm.Valid() && TableShape(bpm.Store(), t) && position < |t.indexes| && oldKey != newKey
      requires rid in HeapRows(bpm.Store(), t.first) && ShortKeys([oldKey, newKey])
      modifies bpm.Repr
      ensures bpm.Valid() && bpm.Pins() == old(bpm.Pins())
      ensures TableStep(old(bpm.Store()), bpm.Store(), t) && SlotsKept(old(bpm.Store()), bpm.Store(), t.first)
      ensures HeapRows(bpm.Store(), t.first) == old(HeapRows(bpm.Store(), t.first))
      ensures old(bpm.Ready()) ==> TableKeepsNew(old(bpm.Store()), bpm.Store(), t)
      ensures status == OK ==> ViewChanged(old(ViewOf(bpm.Store(), t)), ViewOf(bpm.Store(), t), rid, position, oldKey, newKey)
      ensures status == OK ==> change == AppliedChange(position, oldKey.Some?, newKey.Some?)
      ensures status != OK && old(bpm.Ready()) && KeySet(oldKey, rid) <= old(IndexPairs(bpm.Store(), t.indexes[position].header)) ==>
                && ViewRestored(old(ViewOf(bpm.Store(), t)), ViewOf(bpm.Store(), t), position)
                && status == OUT_OF_MEMORY
      ensures (old(bpm.Ready()) && KeySet(oldKey, rid) <= old(IndexPairs(bpm.Store(), t.indexes[position].header))
               && KeySet(newKey, rid) !! old(IndexPairs(bpm.Store(), t.indexes[position].header))) ==>
                KeyChangePlaced(old(bpm.Store()), bpm.Store(), old(ViewOf(bpm.Store(), t)), position, oldKey, newKey, status, bpm.disk.capacity)
    {
      hide *;
      ghost var a := bpm.Store();
      ghost var pairs := IndexPairs(a, t.indexes[position].header);
      ghost var counted := bpm.Ready() && KeySet(oldKey, rid) <= pairs && KeySet(newKey, rid) !! pairs;
      KeySets(oldKey, newKey, rid, pairs);
      bpm.ReadyParts();
      StepNothing(a, t);
      SlotsKeptSame(a, t.first);
      ShapeGives(a, t);
      TwoKeys(oldKey, newKey);
      ViewAt(a, t, position);
      RidRange(t.first, rid);
      NothingChanged(ViewOf(a, t), position);
      change := AppliedChange(position, false, false);
      var index := new HashIndex(bpm, t.indexes[position].header);
      if oldKey.Some? {
        status := index.Remove(oldKey.value, rid);
        RemoveLifts(a, bpm.Store(), t, position, Pair(oldKey.value, rid), status);
        RemoveKeepsRows(a, bpm.Store(), t, position, Pair(oldKey.value, rid), status);
        RemoveKeepsSlots(a, bpm.Store(), t, position, oldKey.value, Some(rid), status);
        RemoveKeepsSize(a, bpm.Store(), t.indexes[position].header, oldKey.value, Some(rid), status);
        if status != OK {
          NotRemovedFrom(ViewOf(a, t), ViewOf(bpm.Store(), t), position, Pair(oldKey.value, rid), status);
          return;
        }
        change := change.(removedOld := true);
      }
      ghost var m := bpm.Store();
      StepShapes(a, m, t);
      bpm.ReadyParts();
      if newKey.Some? {
        IndexableParts(Pair(newKey.value, rid));
        status := index.Insert(newKey.value, rid);
        ghost var w := bpm.Store();
        InsertLifts(m, w, t, position, Pair(newKey.value, rid), status);
        InsertKeepsRows(m, w, t, position, Pair(newKey.value, rid), status);
        InsertKeepsSlots(m, w, t, position, Pair(newKey.value, rid), status);
        StepCompose(a, m, w, t);
        SlotsKeptCompose(a, m, w, t.first);
        if old(bpm.Ready()) {
          InsertLiftsReliably(m, w, t, position, Pair(newKey.value, rid), status);
        }
        if counted {
          ChangePlaced(a, m, w, t, position, rid, oldKey, newKey, status, bpm.disk.capacity);
        }
        if status != OK {
          if change.removedOld {
            StepShapes(a, w, t);
            bpm.ReadyParts();
            RidRange(t.first, rid);
            IndexableParts(Pair(oldKey.value, rid));
            var localRollback := index.Insert(oldKey.value, rid);
            InsertLifts(w, bpm.Store(), t, position, Pair(oldKey.value, rid), localRollback);
            InsertKeepsRows(w, bpm.Store(), t, position, Pair(oldKey.value, rid), localRollback);
            InsertKeepsSlots(w, bpm.Store(), t, position, Pair(oldKey.value, rid), localRollback);
            StepCompose(a, w, bpm.Store(), t);
            SlotsKeptCompose(a, w, bpm.Store(), t.first);
            if old(bpm.Ready()) {
              InsertLiftsReliably(w, bpm.Store(), t, position, Pair(oldKey.value, rid), localRollback);
              ChangeTakenBack(ViewOf(a, t), ViewOf(w, t), ViewOf(bpm.Store(), t), rid, position, oldKey.value, localRollback);
            }
            status := if localRollback == OK then status else IO_ERROR;
          }
          return;
        }
        change := change.(insertedNew := true);
      }
      status := OK;
      if counted && newKey.None? {
        ChangePlaced(a, m, m, t, position, rid, oldKey, newKey, OK, bpm.disk.capacity);
      }
      ChangeDone(ViewOf(a, t), ViewOf(m, t), ViewOf(bpm.Store(), t), rid, position, oldKey, newKey);
    }

    /** Replaces the keys of a row in the indexes, up to the first failure. */
    method ApplyChanges(t: TableInfo, rid: RecordID, olds: Keys, news: Keys, ghost v0: View)
      returns (status: StatusCode, applied: seq<AppliedChange>, ghost count: nat)
      requires bpm.Valid() && TableShape(bpm.Store(), t) && |olds| == |news| == |t.indexes| && ShortKeys(olds) && ShortKeys(news)
      requires rid in HeapRows(bpm.Store(), t.first)
      requires ChangedUpTo(v0, ViewOf(bpm.Store(), t), rid, olds, news, 0) && Holding(v0, rid, olds)
      requires RoomsKept(v0, ViewOf(bpm.Store(), t), 0) && |v0.rooms| == |v0.widths|
      modifies bpm.Repr
      ensures bpm.Valid() && bpm.Pins() == old(bpm.Pins())
      ensures TableStep(old(bpm.Store()), bpm.Store(), t) && SlotsKept(old(bpm.Store()), bpm.Store(), t.first)
      ensures HeapRows(bpm.Store(), t.first) == old(HeapRows(bpm.Store(), t.first))
      ensures old(bpm.Ready()) ==> TableKeepsNew(old(bpm.Store()), bpm.Store(), t)
      ensures count <= |olds| && applied == ChangesUpTo(olds, news, count)
      ensures status == OK ==> count == |olds|
      ensures status == OK || old(bpm.Ready()) ==> ChangedUpTo(v0, ViewOf(bpm.Store(), t), rid, olds, news, count)
      ensures old(bpm.Ready()) ==> status in {OK, OUT_OF_MEMORY}
      ensures old(bpm.Ready()) && Fresh(v0, rid, olds, news) && status == OK ==>
                |bpm.Store()| == |old(bpm.Store())| + RowChangePages(v0, olds, news, |olds|)
      ensures old(bpm.Ready()) && Fresh(v0, rid, olds, news) && status != OK ==>
                |old(bpm.Store())| + RowChangePages(v0, olds, news, |olds|) > bpm.disk.capacity
    {
      hide *;
      ghost var a := bpm.Store();
      RowChangePagesNone(v0, olds, news);
      StepNothing(a, t);
      SlotsKeptSame(a, t.first);
      bpm.ReadyParts();
      applied, count := [], 0;
      ChangesNone(olds, news);
      var position: nat := 0;
      while position < |olds|
        invariant position == count <= |olds| && applied == ChangesUpTo(olds, news, count)
        invariant bpm.Valid() && bpm.Pins() == old(bpm.Pins())
        invariant TableStep(a, bpm.Store(), t) && SlotsKept(a, bpm.Store(), t.first)
        invariant HeapRows(bpm.Store(), t.first) == HeapRows(a, t.first)
        invariant old(bpm.Ready()) ==> TableKeepsNew(a, bpm.Store(), t)
        invariant ChangedUpTo(v0, ViewOf(bpm.Store(), t), rid, olds, news, count)
        invariant RoomsKept(v0, ViewOf(bpm.Store(), t), position)
        invariant old(bpm.Ready()) && Fresh(v0, rid, olds, news) ==> |bpm.Store()| == |a| + RowChangePages(v0, olds, news, position)
      {
        ghost var s := bpm.Store();
        StepShapes(a, s, t);
        bpm.ReadyParts();
        ChangesOneMore(olds, news, position);
        OldPairIsThere(v0, s, t, rid, olds, news, position);
        RowChangePagesStep(v0, olds, news, position);
        RoomsSame(v0, ViewOf(s, t), position);
        if olds[position] != news[position] {
          ShortPair(olds, news, position);
          var change;
          status, change := ChangeKey(t, rid, position, olds[position], news[position]);
          StepCompose(a, s, bpm.Store(), t);
          SlotsKeptCompose(a, s, bpm.Store(), t.first);
          if old(bpm.Ready()) && Fresh(v0, rid, olds, news) {
            KeyChangeCounted(a, s, bpm.Store(), v0, ViewOf(s, t), olds, news, position, status, bpm.disk.capacity);
          }
          if status != OK {
            if old(bpm.Ready()) {
              ChangedRestored(v0, ViewOf(s, t), ViewOf(bpm.Store(), t), rid, olds, news, position);
            }
            return;
          }
          RoomsChanged(v0, ViewOf(s, t), ViewOf(bpm.Store(), t), position, rid, olds[position], news[position]);
          applied := applied + [change];
        }
        ChangedOneMore(v0, ViewOf(s, t), ViewOf(bpm.Store(), t), rid, olds, news, position);
        position := position + 1;
        count := position;
      }
      status := OK;
    }

    /** Undoes the change to one index; the first failure is reported, but both steps are tried. */
    method UndoChange(t: TableInfo, rid: RecordID, change: AppliedChange, oldKey: Option<Bytes>, newKey: Option<Bytes>)
      returns (removeStatus: StatusCode, insertStatus: StatusCode, ghost m: Store)
      requires bpm.Valid() && TableShape(bpm.Store(), t) && change.position < |t.indexes| && ShortKeys([oldKey, newKey])
      requires rid in HeapRows(bpm.Store(), t.first)
      requires change == AppliedChange(change.position, oldKey.Some?, newKey.Some?)
      modifies bpm.Repr
      ensures bpm.Valid() && bpm.Pins() == old(bpm.Pins())
      ensures TableStep(old(bpm.Store()), bpm.Store(), t) && SlotsKept(old(bpm.Store()), bpm.Store(), t.first)
      ensures HeapRows(bpm.Store(), t.first) == old(HeapRows(bpm.Store(), t.first))
      ensures newKey.None? ==> m == old(bpm.Store()) && removeStatus == OK
      ensures newKey.Some? ==> ViewRemoved(old(ViewOf(bpm.Store(), t)), ViewOf(m, t), change.position, Pair(newKey.value, rid), removeStatus)
      ensures oldKey.None? ==> bpm.Store() == m && insertStatus == OK
      ensures oldKey.Some? ==> ViewInserted(ViewOf(m, t), ViewOf(bpm.Store(), t), change.position, Pair(oldKey.value, rid), insertStatus)
      ensures |ViewOf(m, t).widths| == |ViewOf(m, t).rooms| == |t.indexes|
      ensures old(bpm.Ready()) ==> TableKeepsNew(old(bpm.Store()), bpm.Store(), t) && removeStatus in {OK, NOT_FOUND}
      ensures old(bpm.Ready()) && oldKey.Some? ==>
                SlotOf(oldKey.value, ViewOf(m, t).widths[change.position]) in ViewOf(m, t).rooms[change.position] ==> insertStatus == OK
    {
      hide *;
      ghost var a := bpm.Store();
      var position := change.position;
      bpm.ReadyParts();
      StepNothing(a, t);
      SlotsKeptSame(a, t.first);
      ShapeGives(a, t);
      TwoKeys(oldKey, newKey);
      ViewAt(a, t, position);
      var index := new HashIndex(bpm, t.indexes[position].header);
      removeStatus, insertStatus := OK, OK;
      if change.insertedNew {
        removeStatus := index.Remove(newKey.value, rid);
        RemoveLifts(a, bpm.Store(), t, position, Pair(newKey.value, rid), removeStatus);
        RemoveKeepsRows(a, bpm.Store(), t, position, Pair(newKey.value, rid), removeStatus);
        RemoveKeepsSlots(a, bpm.Store(), t, position, newKey.value, Some(rid), removeStatus);
      }
      m := bpm.Store();
      StepShapes(a, m, t);
      ViewAt(m, t, position);
      bpm.ReadyParts();
      if change.removedOld {
        RidRange(t.first, rid);
        IndexableParts(Pair(oldKey.value, rid));
        insertStatus := index.Insert(oldKey.value, rid);
        ghost var w := bpm.Store();
        InsertLifts(m, w, t, position, Pair(oldKey.value, rid), insertStatus);
        InsertKeepsRows(m, w, t, position, Pair(oldKey.value, rid), insertStatus);
        InsertKeepsSlots(m, w, t, position, Pair(oldKey.value, rid), insertStatus);
        StepCompose(a, m, w, t);
        SlotsKeptCompose(a, m, w, t.first);
        if old(bpm.Ready()) {
          InsertLiftsReliably(m, w, t, position, Pair(oldKey.value, rid), insertStatus);
        }
      }
    }

    /** Undoes the changes to the indexes, the last one first. */
    method RollbackChanges(t: TableInfo, rid: RecordID, applied: seq<AppliedChange>, olds: Keys, news: Keys, ghost count: nat, ghost v0: View)
      returns (status: StatusCode)
      requires bpm.Valid() && TableShape(bpm.Store(), t) && |olds| == |news| == |t.indexes| && ShortKeys(olds) && ShortKeys(news)
      requires rid in HeapRows(bpm.Store(), t.first) && count <= |olds| && applied == ChangesUpTo(olds, news, count)
      modifies bpm.Repr
      ensures bpm.Valid() && bpm.Pins() == old(bpm.Pins())
      ensures TableStep(old(bpm.Store()), bpm.Store(), t) && SlotsKept(old(bpm.Store()), bpm.Store(), t.first)
      ensures HeapRows(bpm.Store(), t.first) == old(HeapRows(bpm.Store(), t.first))
      ensures old(bpm.Ready()) ==> TableKeepsNew(old(bpm.Store()), bpm.Store(), t)
      ensures (old(bpm.Ready()) && old(ChangedUpTo(v0, ViewOf(bpm.Store(), t), rid, olds, news, count))
               && Holding(v0, rid, olds) && Fresh(v0, rid, olds, news)) ==>
                status == OK && ViewOf(bpm.Store(), t).pairs == v0.pairs
    {
      hide *;
      ghost var a := bpm.Store();
      ghost var sound := bpm.Ready() && ChangedUpTo(v0, ViewOf(a, t), rid, olds, news, count)
                         && Holding(v0, rid, olds) && Fresh(v0, rid, olds, news);
      StepNothing(a, t);
      SlotsKeptSame(a, t.first);
      bpm.ReadyParts();
      status := OK;
      var left: nat := |applied|;
      ghost var k: nat := count;
      assert applied[..left] == applied;
      while left > 0
        invariant left <= |applied| && k <= |olds| && applied[..left] == ChangesUpTo(olds, news, k)
        invariant bpm.Valid() && bpm.Pins() == old(bpm.Pins())
        invariant TableStep(a, bpm.Store(), t) && SlotsKept(a, bpm.Store(), t.first)
        invariant HeapRows(bpm.Store(), t.first) == HeapRows(a, t.first)
        invariant old(bpm.Ready()) ==> TableKeepsNew(a, bpm.Store(), t)
        invariant sound ==> status == OK && ChangedUpTo(v0, ViewOf(bpm.Store(), t), rid, olds, news, k)
      {
        ghost var s := bpm.Store();
        StepShapes(a, s, t);
        bpm.ReadyParts();
        left := left - 1;
        LastChange(olds, news, k, applied[..left + 1]);
        var change := applied[left];
        var p := change.position;
        ShortPair(olds, news, p);
        var removeStatus, insertStatus;
        ghost var m;
        removeStatus, insertStatus, m := UndoChange(t, rid, change, olds[p], news[p]);
        StepCompose(a, s, bpm.Store(), t);
        SlotsKeptCompose(a, s, bpm.Store(), t.first);
        if sound {
          ChangeUndone(v0, ViewOf(s, t), ViewOf(m, t), ViewOf(bpm.Store(), t), rid, olds, news, k, p, removeStatus, insertStatus);
        }
        if removeStatus != OK && removeStatus != NOT_FOUND && status == OK {
          status := removeStatus;
        }
        if insertStatus != OK && status == OK {
          status := insertStatus;
        }
        k := p;
      }
      if sound {
        ChangedNothing(v0, ViewOf(bpm.Store(), t), rid, olds, news, k);
      }
    }

    /** Replaces a row: in the heap file first, and then its keys in the indexes. If an index
        fails, the keys and the row are put back. */
    method UpdateRecord(t: TableInfo, rid: RecordID, values: seq<Value>) returns (status: StatusCode, ghost record: Bytes)
      requires bpm.Valid() && TableOk(bpm.Store(), t)
      modifies bpm.Repr
      ensures bpm.Valid() && bpm.Pins() == old(bpm.Pins())
      ensures TableStep(old(bpm.Store()), bpm.Store(), t)
      ensures status == OK ==> RowReplaced(old(bpm.Store()), bpm.Store(), t, values, rid, record)
      ensures old(bpm.Ready()) ==> TableKeepsNew(old(bpm.Store()), bpm.Store(), t) && status != IO_ERROR
      ensures status != OK && old(bpm.Ready()) ==> TableUnchanged(old(bpm.Store()), bpm.Store(), t)
      ensures old(bpm.Ready()) && rid !in HeapRows(old(bpm.Store()), t.first) ==>
                status in {INVALID_ARGUMENT, NOT_FOUND} && bpm.Store() == old(bpm.Store())
      ensures old(bpm.Ready()) && rid in HeapRows(old(bpm.Store()), t.first) ==>
                && UpdateStatusIs(old(bpm.Store()), t, rid, values, status, bpm.disk.capacity)
                && (status == OK ==> |bpm.Store()| == |old(bpm.Store())| + UpdatePages(old(bpm.Store()), t, rid, values))
    {
      hide *;
      ghost var a := bpm.Store();
      InsertableIs(t, values);
      UpdateStatusMeans(a, t, rid, values, bpm.disk.capacity);
      RecordSizeIs(values, []);
      bpm.ReadyParts();
      StepNothingOk(a, t);
      TableOkParts(a, t);
      record := [];
      var oldRecord, olds;
      status, oldRecord, olds := FindRow(t, rid);
      if status != OK {
        return;
      }
      RowHolds(a, t, rid, oldRecord, olds);
      KeysParts(t, oldRecord, olds);
      var newRecord;
      status, newRecord := Serialize(t.schema, values);
      record := newRecord;
      RefusedStatus(t.schema, values, status);
      if status != OK {
        return;
      }
      SerializableParts(t.schema, values);
      RoundTrip(t.schema, newRecord, values);
      KeysOfValues(t, newRecord, values);
      var news;
      status, news := EncodeIndexKeys(t, newRecord);
      if status != OK {
        return;
      }
      KeysParts(t, newRecord, news);
      UpdateStatusOfRow(a, t, rid, values, newRecord);
      RowKeyed(a, t, rid, oldRecord);
      UpdatePagesAre(a, t, rid, values, oldRecord, newRecord, olds, news);
      NewKeysAreFresh(a, t, rid, oldRecord, olds, news);
      RowOnPage(a, t.first, rid);
      bpm.ReadyParts();
      var heapFile := new HeapFile(bpm, t.first);
      heapFile.HasHeapPage(t.first, rid.pageId);
      RowOfFileParts(bpm.Store(), t.first, rid);
      status := heapFile.UpdateRecord(rid, newRecord);
      ghost var b := bpm.Store();
      RowUpdateLifts(a, b, t, rid, newRecord, status);
      UpdateStatuses(a, b, t.first, rid, newRecord, status);
      if status != OK {
        return;
      }
      ViewRows(b, t);
      ViewRows(a, t);
      ChangedNone(ViewOf(a, t), ViewOf(b, t), rid, olds, news, HeapRows(b, t.first));
      RoomsStart(ViewOf(a, t), HeapRows(b, t.first));
      RoomsCounted(a, t);
      bpm.ReadyParts();
      var applied;
      ghost var count;
      status, applied, count := ApplyChanges(t, rid, olds, news, ViewOf(a, t));
      ghost var c := bpm.Store();
      StepCompose(a, b, c, t);
      StepShapes(a, c, t);
      if status == OK {
        MakeRowReplaced(a, c, t, values, rid, oldRecord, newRecord, olds, news);
        bpm.StoreSize();
        return;
      }
      bpm.ReadyParts();
      status := UndoUpdate(t, rid, applied, olds, news, oldRecord, newRecord, status, count, a, b);
      StepCompose(a, c, bpm.Store(), t);
      StepShapes(a, bpm.Store(), t);
      if old(bpm.Ready()) {
        MakeUnchanged(a, bpm.Store(), t);
      }
    }

    /** The failure branch of UpdateRecord; `a` and `b` are the states before and after the
        heap file was changed. */
    method UndoUpdate(t: TableInfo, rid: RecordID, applied: seq<AppliedChange>, olds: Keys, news: Keys, oldRecord: Bytes, ghost newRecord: Bytes,
                      failure: StatusCode, ghost count: nat, ghost a: Store, ghost b: Store) returns (status: StatusCode)
      requires bpm.Valid() && TableShape(bpm.Store(), t) && |olds| == |news| == |t.indexes| && ShortKeys(olds) && ShortKeys(news)
      requires count <= |olds| && applied == ChangesUpTo(olds, news, count) && failure != OK
      requires HeapOk(a, t.first) && rid in HeapRows(a, t.first) && HeapRows(a, t.first)[rid] == oldRecord
      requires HeapRows(bpm.Store(), t.first) == HeapRows(a, t.first)[rid := newRecord] && SlotsKept(b, bpm.Store(), t.first)
      requires HeapOk(b, t.first) && rid in HeapRows(b, t.first)
      modifies bpm.Repr
      ensures bpm.Valid() && bpm.Pins() == old(bpm.Pins()) && status != OK
      ensures TableStep(old(bpm.Store()), bpm.Store(), t)
      ensures (old(bpm.Ready()) && RowUpdatedReliably(a, b, t.first, rid, newRecord, OK)
               && old(ChangedUpTo(ViewOf(a, t), ViewOf(bpm.Store(), t), rid, olds, news, count))
               && Holding(ViewOf(a, t), rid, olds) && Fresh(ViewOf(a, t), rid, olds, news)) ==>
                && status == failure && TableKeepsNew(old(bpm.Store()), bpm.Store(), t)
                && ViewOf(bpm.Store(), t).rows == ViewOf(a, t).rows && ViewOf(bpm.Store(), t).pairs == ViewOf(a, t).pairs
    {
      hide *;
      ghost var c := bpm.Store();
      bpm.ReadyParts();
      var indexRollback := RollbackChanges(t, rid, applied, olds, news, count, ViewOf(a, t));
      ghost var d := bpm.Store();
      StepShapes(c, d, t);
      SlotsKeptCompose(b, c, d, t.first);
      RowOnPage(d, t.first, rid);
      RowOnPage(b, t.first, rid);
      bpm.ReadyParts();
      var heapFile := new HeapFile(bpm, t.first);
      heapFile.HasHeapPage(t.first, rid.pageId);
      RowOfFileParts(bpm.Store(), t.first, rid);
      var heapRollback := heapFile.UpdateRecord(rid, oldRecord);
      ghost var e := bpm.Store();
      RowUpdateLifts(d, e, t, rid, oldRecord, heapRollback);
      UpdateStatuses(d, e, t.first, rid, oldRecord, heapRollback);
      StepCompose(c, d, e, t);
      ViewRows(a, t);
      ViewRows(e, t);
      RowsChangedBack(HeapRows(a, t.first), rid, newRecord);
      if RowUpdatedReliably(a, b, t.first, rid, newRecord, OK) {
        UndoFits(a, b, d, t.first, rid, oldRecord, newRecord);
      }
      status := if indexRollback != OK || heapRollback != OK then IO_ERROR else failure;
    }
  }
}
