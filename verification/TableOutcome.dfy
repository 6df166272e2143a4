// What the mutations of a table promise, and the steps they are made of.
module TableOutcomes {
  import opened Common
  import opened BucketFormat
  import SlottedFormat
  import opened RecordFormat
  import opened RecordCodecs
  import opened IndexKeys
  import opened PageChains
  import opened HeapStates
  import opened IndexStates
  import opened IndexOutcomes
  import opened TableStates

  type Keys = seq<Option<Bytes>>

  // ---- Index keys of a record ----

  predicate KeyMatches(key: Option<Bytes>, result: KeyResult) {
    match result
    case BadKey => false
    case NoKey => key == None
    case HasKey(k) => key == Some(k) && 0 < |k| <= MAX_KEY_LENGTH
  }

  /** `keys` are the index keys of a record. */
  ghost predicate KeysOf(t: TableInfo, record: Bytes, keys: Keys) {
    |keys| == |t.indexes| && forall i: nat :: i < |keys| ==> KeyMatches(keys[i], RecordKey(t.schema, record, t.indexes[i].column))
  }

  function KeySet(key: Option<Bytes>, rid: RecordID): set<Pair> {
    match key
    case None => {}
    case Some(k) => {Pair(k, rid)}
  }

  lemma KeysGivePairs(t: TableInfo, record: Bytes, keys: Keys, i: nat, rid: RecordID)
    requires KeysOf(t, record, keys) && i < |keys|
    ensures KeySet(keys[i], rid) == RecordPairs(t.schema, record, t.indexes[i].column, rid)
    ensures keys[i].Some? ==> 0 < |keys[i].value| <= MAX_KEY_LENGTH
    ensures !RecordKey(t.schema, record, t.indexes[i].column).BadKey?
  {
    hide RecordKey;
    assert KeyMatches(keys[i], RecordKey(t.schema, record, t.indexes[i].column));
  }

  // ---- Outcomes ----

  /** Rows and index pairs are as before. */
  ghost predicate TableUnchanged(a: Store, b: Store, t: TableInfo) {
    TableOk(b, t) && ViewOf(b, t).rows == ViewOf(a, t).rows && ViewOf(b, t).pairs == ViewOf(a, t).pairs
  }

  /** The table has one more row, a record of `values`, and the indexes agree. */
  ghost predicate RowAdded(a: Store, b: Store, t: TableInfo, values: seq<Value>, rid: RecordID, record: Bytes) {
    && TableOk(b, t) && Encodes(record, values) && RowFits(t.schema, values)
    && rid !in HeapRows(a, t.first) && HeapRows(b, t.first) == HeapRows(a, t.first)[rid := record]
  }

  /** One row of the table is now a record of `values`, and the indexes agree. */
  ghost predicate RowReplaced(a: Store, b: Store, t: TableInfo, values: seq<Value>, rid: RecordID, record: Bytes) {
    && TableOk(b, t) && Encodes(record, values) && RowFits(t.schema, values)
    && rid in HeapRows(a, t.first) && HeapRows(b, t.first) == HeapRows(a, t.first)[rid := record]
  }

  /** The table has one row less, and the indexes agree. */
  ghost predicate RowLost(a: Store, b: Store, t: TableInfo, rid: RecordID) {
    && TableOk(b, t)
    && rid in HeapRows(a, t.first) && HeapRows(b, t.first) == HeapRows(a, t.first) - {rid}
  }

  lemma TableOkParts(s: Store, t: TableInfo)
    requires TableOk(s, t)
    ensures TableShape(s, t) && Agrees(ViewOf(s, t), t) && HeapOk(s, t.first)
    ensures forall i: nat :: i < |t.indexes| ==> IndexOk(s, t.indexes[i].header)
  {
    hide HeapOk, IndexOk, Agrees, OwnersDisjoint, ViewOf;
  }

  lemma ShapeGives(s: Store, t: TableInfo)
    requires TableShape(s, t)
    ensures HeapOk(s, t.first) && forall i: nat :: i < |t.indexes| ==> IndexOk(s, t.indexes[i].header)
  {
    hide HeapOk, IndexOk, OwnersDisjoint;
  }

  lemma StepShapes(a: Store, b: Store, t: TableInfo)
    requires TableStep(a, b, t)
    ensures TableShape(a, t) && TableShape(b, t)
    ensures HeapOk(b, t.first) && forall i: nat :: i < |t.indexes| ==> IndexOk(b, t.indexes[i].header)
  {
    hide HeapOk, IndexOk, OwnersDisjoint, TablePages;
  }

  // ---- Insert ----

  /** The row has been stored and the first `k` indexes have its pairs. */
  ghost predicate InsertedUpTo(v0: View, v: View, rid: RecordID, record: Bytes, keys: Keys, k: nat) {
    && |v0.pairs| == |v.pairs| == |keys| && k <= |keys|
    && v.rows == v0.rows[rid := record]
    && forall i: nat :: i < |keys| ==> v.pairs[i] == if i < k then v0.pairs[i] + KeySet(keys[i], rid) else v0.pairs[i]
  }

  lemma InsertedNone(v0: View, v: View, t: TableInfo, rid: RecordID, record: Bytes, keys: Keys)
    requires v == v0.(rows := v0.rows[rid := record]) && |keys| == |v0.pairs|
    ensures InsertedUpTo(v0, v, rid, record, keys, 0)
  {
  }

  lemma InsertedOneMore(v0: View, v: View, w: View, rid: RecordID, record: Bytes, keys: Keys, k: nat)
    requires InsertedUpTo(v0, v, rid, record, keys, k) && k < |keys|
    requires keys[k] == None ==> w == v
    requires keys[k].Some? ==> ViewInserted(v, w, k, Pair(keys[k].value, rid), OK)
    ensures InsertedUpTo(v0, w, rid, record, keys, k + 1)
  {
    hide SlotOf;
  }

  lemma InsertedOneLess(v0: View, v: View, w: View, t: TableInfo, rid: RecordID, record: Bytes, keys: Keys, k: nat, status: StatusCode)
    requires InsertedUpTo(v0, v, rid, record, keys, k + 1) && k < |keys|
    requires Agrees(v0, t) && rid !in v0.rows
    requires keys[k] == None ==> w == v
    requires keys[k].Some? ==> status in {OK, NOT_FOUND} && ViewRemoved(v, w, k, Pair(keys[k].value, rid), status)
    ensures InsertedUpTo(v0, w, rid, record, keys, k)
  {
    if keys[k].Some? {
      NoPairsOf(v0.rows, t.schema, t.indexes[k].column, rid, keys[k].value);
    }
    hide SlotOf, RowPairs, Stored;
  }

  /** With every pair inserted, rows and indexes agree. */
  lemma InsertedAll(v0: View, v: View, t: TableInfo, rid: RecordID, record: Bytes, keys: Keys)
    requires Agrees(v0, t) && rid !in v0.rows && KeysOf(t, record, keys) && InsertedUpTo(v0, v, rid, record, keys, |keys|)
    requires Decode(t.schema, record).Some?
    ensures Agrees(v, t)
  {
    hide RowPairs, RecordPairs, RecordKey, KeySet, KeyMatches, Decode;
    forall i: nat | i < |t.indexes|
      ensures v.pairs[i] == RowPairs(v.rows, t.schema, t.indexes[i].column) && !RecordKey(t.schema, record, t.indexes[i].column).BadKey?
    {
      KeysGivePairs(t, record, keys, i, rid);
      PairsOfNewRow(v0.rows, t.schema, t.indexes[i].column, rid, record);
    }
  }

  /** With every pair taken back, and then the row, everything is as before. */
  lemma InsertUndone(v0: View, v: View, w: View, t: TableInfo, rid: RecordID, record: Bytes, keys: Keys)
    requires InsertedUpTo(v0, v, rid, record, keys, 0) && rid !in v0.rows && w == v.(rows := v.rows - {rid})
    ensures w.rows == v0.rows && w.pairs == v0.pairs
  {
  }

  lemma SameViewAgrees(v: View, w: View, t: TableInfo)
    requires Agrees(v, t) && w.rows == v.rows && w.pairs == v.pairs
    ensures Agrees(w, t)
  {
    hide RowPairs, Stored;
  }

  lemma MakeUnchanged(a: Store, b: Store, t: TableInfo)
    requires TableOk(a, t) && TableShape(b, t) && ViewOf(b, t).rows == ViewOf(a, t).rows && ViewOf(b, t).pairs == ViewOf(a, t).pairs
    ensures TableUnchanged(a, b, t)
  {
    hide ViewOf, TableShape, Agrees;
    SameViewAgrees(ViewOf(a, t), ViewOf(b, t), t);
  }

  lemma MakeRowAdded(a: Store, b: Store, t: TableInfo, values: seq<Value>, rid: RecordID, record: Bytes, keys: Keys)
    requires TableOk(a, t) && TableShape(b, t) && rid !in HeapRows(a, t.first)
    requires Serializable(t.schema, values) && Encodes(record, values) && KeysOf(t, record, keys)
    requires InsertedUpTo(ViewOf(a, t), ViewOf(b, t), rid, record, keys, |keys|)
    ensures RowAdded(a, b, t, values, rid, record)
  {
    SerializableParts(t.schema, values);
    RoundTrip(t.schema, record, values);
    ViewRows(a, t);
    ViewRows(b, t);
    hide ViewOf, TableShape, Agrees, Serializable, Encodes, HeapRows, KeysOf, RowFits, Decode;
    InsertedAll(ViewOf(a, t), ViewOf(b, t), t, rid, record, keys);
  }

  lemma ViewRows(s: Store, t: TableInfo)
    ensures ViewOf(s, t).rows == HeapRows(s, t.first) && |ViewOf(s, t).pairs| == |t.indexes|
  {
    hide HeapRows;
  }

  lemma InsertedRow(v0: View, s: Store, t: TableInfo, rid: RecordID, record: Bytes, keys: Keys, k: nat)
    requires InsertedUpTo(v0, ViewOf(s, t), rid, record, keys, k)
    ensures rid in HeapRows(s, t.first) && |keys| == |t.indexes|
  {
    ViewRows(s, t);
    hide HeapRows, ViewOf, KeySet;
  }

  /** A row is on a page of its heap file, in a slot that the page has. */
  lemma RowOnPage(s: Store, first: int, rid: RecordID)
    requires HeapOk(s, first) && rid in HeapRows(s, first)
    ensures rid.pageId in HeapPages(s, first) && rid.pageId > 0 && rid.pageId in s && rid.slotId < 1020
    ensures HEADER_PAGE_ID == 0
  {
    var chain := ChainOf(s, first);
    HeapIs(s, first, chain);
    ChainParts(s, first, chain, rid.pageId);
    SlottedFormat.OkParts(s[rid.pageId], rid.pageId);
    hide SlottedFormat.Ok, SlottedFormat.SlotsOf, HeapOk, ChainOf, RowsIn;
  }

  lemma InsertKeepsRows(a: Store, b: Store, t: TableInfo, i: nat, pair: Pair, status: StatusCode)
    requires ViewInserted(ViewOf(a, t), ViewOf(b, t), i, pair, status)
    ensures HeapRows(b, t.first) == HeapRows(a, t.first)
  {
    ViewRows(a, t);
    ViewRows(b, t);
    hide ViewOf, HeapRows, SlotOf;
  }

  lemma RemoveKeepsRows(a: Store, b: Store, t: TableInfo, i: nat, pair: Pair, status: StatusCode)
    requires ViewRemoved(ViewOf(a, t), ViewOf(b, t), i, pair, status)
    ensures HeapRows(b, t.first) == HeapRows(a, t.first)
  {
    ViewRows(a, t);
    ViewRows(b, t);
    hide ViewOf, HeapRows, SlotOf;
  }

  ghost predicate ShortKeys(keys: Keys) {
    forall i: nat :: i < |keys| && keys[i].Some? ==> 0 < |keys[i].value| <= MAX_KEY_LENGTH
  }

  lemma ShortKey(keys: Keys, i: nat)
    requires i < |keys| && keys[i].Some?
    ensures ShortKeys(keys) ==> 0 < |keys[i].value| <= MAX_KEY_LENGTH
  {
  }

  lemma KeysParts(t: TableInfo, record: Bytes, keys: Keys)
    requires KeysOf(t, record, keys)
    ensures |keys| == |t.indexes| && ShortKeys(keys)
  {
    hide RecordKey;
    forall i: nat | i < |keys| && keys[i].Some? ensures 0 < |keys[i].value| <= MAX_KEY_LENGTH {
      KeysGivePairs(t, record, keys, i, RecordID(0, 0));
    }
  }

  // ---- What a heap operation does to the view ----

  lemma RowInsertLifts(a: Store, b: Store, t: TableInfo, rid: RecordID, record: Bytes, status: StatusCode, capacity: nat)
    requires TableShape(a, t) && RowInserted(a, b, t.first, record, status, rid)
    ensures TableStep(a, b, t) && TableShape(b, t)
    ensures status == OK ==> rid !in HeapRows(a, t.first) && rid in HeapRows(b, t.first)
    ensures ViewOf(b, t) == if status == OK then ViewOf(a, t).(rows := HeapRows(a, t.first)[rid := record]) else ViewOf(a, t)
    ensures RowInsertedReliably(a, b, t.first, record, status, capacity) ==>
              && TableKeepsNew(a, b, t) && status == HeapStatus(a, t.first, |record|, capacity)
              && (if status == OK then |b| == |a| + HeapGrowth(a, t.first, |record|) else b == a)
  {
    ViewRows(a, t);
    ViewRows(b, t);
    hide TableShape, HeapRows, HeapBecomes, PlaceFor, ViewOf, HeapKeepsNew, OwnChange, TableKeepsNew, TablePages, HeapStatus, HeapGrowth;
    HeapLifts(a, b, t, if status == OK then HeapRows(a, t.first)[rid := record] else HeapRows(a, t.first));
  }

  lemma RowDeleteLifts(a: Store, b: Store, t: TableInfo, rid: RecordID, status: StatusCode)
    requires TableShape(a, t) && RowDeleted(a, b, t.first, rid, status)
    ensures TableStep(a, b, t) && TableShape(b, t)
    ensures ViewOf(b, t) == if status == OK then ViewOf(a, t).(rows := HeapRows(a, t.first) - {rid}) else ViewOf(a, t)
    ensures RowDeletedReliably(a, b, t.first, rid, status) ==> TableKeepsNew(a, b, t)
    ensures RowDeletedReliably(a, b, t.first, rid, status) && rid in HeapRows(a, t.first) && rid.pageId > HEADER_PAGE_ID ==> status == OK
  {
    ViewRows(a, t);
    ViewRows(b, t);
    hide TableShape, HeapRows, HeapBecomes, ViewOf, HeapKeepsNew, OwnChange, TableKeepsNew, TablePages;
    if status == OK {
      HeapLifts(a, b, t, HeapRows(a, t.first) - {rid});
    } else {
      StepNothing(a, t);
    }
  }

  /** The values are of the types of the columns and fit a record of at most a page, and
      those of indexed columns are NULL or have a key. */
  ghost predicate Insertable(t: TableInfo, values: seq<Value>) {
    Serializable(t.schema, values) && HeaderSize(|values|) + |Payload(values, |values|)| <= PAGE_SIZE && KeysExist(t, values)
  }

  ghost predicate KeysExist(t: TableInfo, values: seq<Value>) {
    forall i: nat :: i < |t.indexes| ==>
      t.indexes[i].column < |values| && (values[t.indexes[i].column].Null? || KeyOf(values[t.indexes[i].column]).Some?)
  }

  lemma KeysOfValues(t: TableInfo, record: Bytes, values: seq<Value>)
    requires Decode(t.schema, record) == Some(values)
    ensures Keyed(record, t) <==> KeysExist(t, values)
  {
    hide Decode, KeyOf;
  }

  lemma InsertableIs(t: TableInfo, values: seq<Value>)
    ensures Insertable(t, values) <==>
              Serializable(t.schema, values) && HeaderSize(|values|) + |Payload(values, |values|)| <= PAGE_SIZE && KeysExist(t, values)
    ensures forall record :: Encodes(record, values) ==> |record| == HeaderSize(|values|) + |Payload(values, |values|)| && |record| > 0
  {
    hide Serializable, Payload, KeysExist;
  }

  lemma RefusedStatus(columns: Schema, values: seq<Value>, status: StatusCode)
    ensures status != OK && SerializeRefused(columns, values, status) ==>
              status == INVALID_ARGUMENT || (status == OUT_OF_MEMORY && HeaderSize(|values|) + |Payload(values, |values|)| > LIMIT16)
  {
    hide RowFits, HeaderSize, Payload;
  }

  lemma IndexableParts(pair: Pair)
    ensures Indexable(pair) <==> 0 < |pair.key| <= MAX_KEY_LENGTH && pair.rid.pageId > HEADER_PAGE_ID
  {
  }

  // ---- Delete ----

  /** The positions below `k` that have a key. */
  function SomePositions(keys: Keys, k: nat): seq<nat> {
    if k == 0 || k > |keys| then []
    else SomePositions(keys, k - 1) + if keys[k - 1].Some? then [k - 1] else []
  }

  lemma {:induction false} LastPosition(keys: Keys, k: nat, positions: seq<nat>)
    requires k <= |keys| && positions == SomePositions(keys, k) && positions != []
    ensures var p := positions[|positions| - 1];
            && p < k && keys[p].Some? && SomePositions(keys, p) == positions[..|positions| - 1]
            && (forall i: nat :: p < i < k ==> keys[i] == None)
    decreases k
  {
    if keys[k - 1].None? {
      LastPosition(keys, k - 1, positions);
    }
  }

  /** Every key of the row is in its index. */
  ghost predicate Holding(v0: View, rid: RecordID, keys: Keys) {
    |v0.pairs| == |keys| && forall i: nat :: i < |keys| ==> KeySet(keys[i], rid) <= v0.pairs[i]
  }

  /** The first `k` indexes have lost the pairs of the row, and have room to take them back. */
  ghost predicate DeletedUpTo(v0: View, v: View, rid: RecordID, keys: Keys, k: nat) {
    && |v0.pairs| == |v.pairs| == |v.rooms| == |v.widths| == |keys| && k <= |keys|
    && v.rows == v0.rows && v.widths == v0.widths
    && (forall i: nat :: i < |keys| ==> v.pairs[i] == if i < k then v0.pairs[i] - KeySet(keys[i], rid) else v0.pairs[i])
    && (forall i: nat :: i < k && keys[i].Some? ==> SlotOf(keys[i].value, v.widths[i]) in v.rooms[i])
  }

  lemma DeletedNone(v0: View, rid: RecordID, keys: Keys)
    requires |v0.pairs| == |v0.rooms| == |v0.widths| == |keys|
    ensures DeletedUpTo(v0, v0, rid, keys, 0)
  {
  }

  lemma DeletedNothing(v0: View, v: View, rid: RecordID, keys: Keys, k: nat)
    requires DeletedUpTo(v0, v, rid, keys, k) && SomePositions(keys, k) == []
    ensures v.pairs == v0.pairs
  {
    NoPositions(keys, k);
    hide SlotOf;
  }

  lemma {:induction false} NoPositions(keys: Keys, k: nat)
    requires k <= |keys| && SomePositions(keys, k) == []
    ensures forall i: nat :: i < k ==> keys[i] == None
    decreases k
  {
    if k > 0 {
      NoPositions(keys, k - 1);
    }
  }

  lemma DeletedOneMore(v0: View, v: View, w: View, rid: RecordID, keys: Keys, k: nat)
    requires DeletedUpTo(v0, v, rid, keys, k) && k < |keys|
    requires keys[k] == None ==> w == v
    requires keys[k].Some? ==> ViewRemoved(v, w, k, Pair(keys[k].value, rid), OK)
    ensures DeletedUpTo(v0, w, rid, keys, k + 1)
  {
    hide SlotOf;
  }

  /** The slot that the removal has freed takes the pair back. */
  lemma DeletedOneLess(v0: View, v: View, w: View, rid: RecordID, keys: Keys, k: nat, p: nat, status: StatusCode)
    requires DeletedUpTo(v0, v, rid, keys, k) && Holding(v0, rid, keys)
    requires p < k && keys[p].Some? && forall i: nat :: p < i < k ==> keys[i] == None
    requires ViewInserted(v, w, p, Pair(keys[p].value, rid), status)
    requires SlotOf(keys[p].value, v.widths[p]) in v.rooms[p] ==> status == OK
    ensures status == OK && DeletedUpTo(v0, w, rid, keys, p)
  {
    hide SlotOf;
    assert KeySet(keys[p], rid) <= v0.pairs[p];
    assert v0.pairs[p] - KeySet(keys[p], rid) + KeySet(keys[p], rid) == v0.pairs[p];
  }

  lemma NoPositionsYet(keys: Keys)
    ensures SomePositions(keys, 0) == []
  {
  }

  lemma OnePosition(keys: Keys, k: nat)
    requires k < |keys|
    ensures SomePositions(keys, k + 1) == SomePositions(keys, k) + if keys[k].Some? then [k] else []
  {
  }

  lemma PairIsThere(v0: View, v: View, rid: RecordID, keys: Keys, k: nat)
    requires DeletedUpTo(v0, v, rid, keys, k) && Holding(v0, rid, keys) && k < |keys| && keys[k].Some?
    ensures Pair(keys[k].value, rid) in v.pairs[k]
  {
    hide SlotOf;
    assert KeySet(keys[k], rid) <= v0.pairs[k];
  }

  lemma NotRemoved(v0: View, v: View, w: View, rid: RecordID, keys: Keys, k: nat, status: StatusCode)
    requires DeletedUpTo(v0, v, rid, keys, k) && k < |keys| && keys[k].Some? && status != OK
    requires ViewRemoved(v, w, k, Pair(keys[k].value, rid), status)
    requires Pair(keys[k].value, rid) in v.pairs[k]
    ensures DeletedUpTo(v0, w, rid, keys, k) && status != NOT_FOUND
  {
    hide SlotOf;
  }

  lemma StepNothingOk(a: Store, t: TableInfo)
    requires TableOk(a, t)
    ensures TableStep(a, a, t) && TableKeepsNew(a, a, t) && TableUnchanged(a, a, t)
  {
    hide TableShape, Agrees, ViewOf, TableStep, TableKeepsNew;
    StepNothing(a, t);
  }

  /** The indexes hold the pairs of every row. */
  lemma RowHolds(a: Store, t: TableInfo, rid: RecordID, record: Bytes, keys: Keys)
    requires TableOk(a, t) && RowRead(a, t.first, rid, OK, record) && KeysOf(t, record, keys)
    ensures Holding(ViewOf(a, t), rid, keys) && DeletedUpTo(ViewOf(a, t), ViewOf(a, t), rid, keys, 0)
    ensures rid in HeapRows(a, t.first) && HeapRows(a, t.first)[rid] == record
  {
    var v := ViewOf(a, t);
    ViewRows(a, t);
    hide TableShape, HeapRows, RowPairs, RecordPairs, KeySet, KeyMatches, RecordKey;
    DeletedNone(v, rid, keys);
    forall i: nat | i < |keys| ensures KeySet(keys[i], rid) <= v.pairs[i] {
      KeysGivePairs(t, record, keys, i, rid);
      PairsOfLostRow(v.rows, t.schema, t.indexes[i].column, rid);
    }
  }

  lemma DeletedRows(v0: View, b: Store, t: TableInfo, rid: RecordID, keys: Keys, k: nat)
    requires DeletedUpTo(v0, ViewOf(b, t), rid, keys, k)
    ensures HeapRows(b, t.first) == v0.rows
  {
    ViewRows(b, t);
    hide ViewOf, HeapRows, SlotOf, KeySet;
  }

  lemma MakeRowLost(a: Store, b: Store, c: Store, t: TableInfo, rid: RecordID, record: Bytes, keys: Keys)
    requires TableOk(a, t) && RowRead(a, t.first, rid, OK, record) && KeysOf(t, record, keys)
    requires DeletedUpTo(ViewOf(a, t), ViewOf(b, t), rid, keys, |keys|)
    requires TableShape(c, t) && ViewOf(c, t) == ViewOf(b, t).(rows := HeapRows(b, t.first) - {rid})
    ensures RowLost(a, c, t, rid)
  {
    ViewRows(a, t);
    ViewRows(b, t);
    ViewRows(c, t);
    hide TableShape, HeapRows, ViewOf, SlotOf;
    DeletedAll(ViewOf(a, t), ViewOf(b, t), ViewOf(c, t), t, rid, record, keys);
  }

  lemma DeletedAll(v0: View, v: View, w: View, t: TableInfo, rid: RecordID, record: Bytes, keys: Keys)
    requires Agrees(v0, t) && rid in v0.rows && v0.rows[rid] == record && KeysOf(t, record, keys)
    requires DeletedUpTo(v0, v, rid, keys, |keys|) && w == v.(rows := v.rows - {rid})
    ensures Agrees(w, t)
  {
    hide RowPairs, RecordPairs, KeySet, KeyMatches, RecordKey, SlotOf;
    forall i: nat | i < |keys| ensures w.pairs[i] == RowPairs(w.rows, t.schema, t.indexes[i].column) {
      KeysGivePairs(t, record, keys, i, rid);
      PairsOfLostRow(v0.rows, t.schema, t.indexes[i].column, rid);
    }
  }

  lemma RowOnPageIf(s: Store, first: int, rid: RecordID)
    requires HeapOk(s, first)
    ensures rid in HeapRows(s, first) ==> rid.pageId in HeapPages(s, first) && rid.pageId > HEADER_PAGE_ID
  {
    hide HeapOk, HeapRows, HeapPages;
    if rid in HeapRows(s, first) {
      RowOnPage(s, first, rid);
    }
  }

  lemma RowReadStatus(s: Store, first: int, rid: RecordID, status: StatusCode, record: Bytes)
    requires RowRead(s, first, rid, status, record) && rid.pageId > HEADER_PAGE_ID
    ensures status == OK ==> rid in HeapRows(s, first) && HeapRows(s, first)[rid] == record && RowRead(s, first, rid, OK, record)
    ensures RowReadReliably(s, first, rid, status) ==> status in {OK, NOT_FOUND} && (status == OK <==> rid in HeapRows(s, first))
  {
    hide HeapRows;
  }

  lemma RowKeyed(s: Store, t: TableInfo, rid: RecordID, record: Bytes)
    requires TableOk(s, t) && rid in HeapRows(s, t.first) && HeapRows(s, t.first)[rid] == record
    ensures Keyed(record, t) && Decode(t.schema, record).Some? && Stored(record, t)
  {
    ViewRows(s, t);
    hide TableShape, HeapRows, ViewOf, RowPairs, Keyed, Decode;
  }

  // ---- The slots of the heap pages ----

  /** The pages of the heap file have the slots they had. */
  ghost predicate SlotsKept(a: Store, b: Store, first: int) {
    forall p: nat :: p in HeapPages(a, first) ==> p in HeapPages(b, first) && SlotsAt(b, p) == SlotsAt(a, p)
  }

  lemma SlotsKeptCompose(a: Store, b: Store, c: Store, first: int)
    requires SlotsKept(a, b, first) && SlotsKept(b, c, first)
    ensures SlotsKept(a, c, first)
  {
    hide HeapPages, SlotsAt;
  }

  lemma SlotsKeptSame(a: Store, first: int)
    ensures SlotsKept(a, a, first)
  {
    hide HeapPages, SlotsAt;
  }

  lemma IndexKeepsSlots(a: Store, b: Store, t: TableInfo, i: nat, pairs: set<Pair>)
    requires TableShape(a, t) && i < |t.indexes| && IndexBecomes(a, b, t.indexes[i].header, pairs)
    ensures SlotsKept(a, b, t.first)
  {
    IndexBecomesParts(a, b, t.indexes[i].header, pairs);
    HeapKept(a, b, t, i);
    hide TableShape, IndexBecomes, HeapPages, SlottedFormat.SlotsOf;
  }

  lemma InsertKeepsSlots(a: Store, b: Store, t: TableInfo, i: nat, pair: Pair, status: StatusCode)
    requires TableShape(a, t) && i < |t.indexes| && PairInserted(a, b, t.indexes[i].header, pair, status)
    ensures SlotsKept(a, b, t.first)
  {
    var h := t.indexes[i].header;
    hide TableShape, IndexBecomes, HeapPages, SlotsAt, IndexPairs, Rooms, SlotOf, Width;
    IndexKeepsSlots(a, b, t, i, if status == OK then IndexPairs(a, h) + {pair} else IndexPairs(a, h));
  }

  lemma RemoveKeepsSlots(a: Store, b: Store, t: TableInfo, i: nat, key: Bytes, value: Option<RecordID>, status: StatusCode)
    requires TableShape(a, t) && i < |t.indexes| && PairsRemoved(a, b, t.indexes[i].header, key, value, status)
    ensures SlotsKept(a, b, t.first)
  {
    hide TableShape, IndexBecomes, HeapPages, SlotsAt, IndexPairs, Rooms, SlotOf, Width, RemovalStatus;
    IndexKeepsSlots(a, b, t, i, IndexPairs(b, t.indexes[i].header));
  }

  lemma RowUpdateLifts(a: Store, b: Store, t: TableInfo, rid: RecordID, record: Bytes, status: StatusCode)
    requires TableShape(a, t) && RowUpdated(a, b, t.first, rid, record, status)
    ensures TableStep(a, b, t) && TableShape(b, t)
    ensures status == OK ==> rid in HeapRows(a, t.first) && rid in HeapRows(b, t.first)
    ensures ViewOf(b, t) == if status == OK then ViewOf(a, t).(rows := HeapRows(a, t.first)[rid := record]) else ViewOf(a, t)
    ensures RowUpdatedReliably(a, b, t.first, rid, record, status) ==> TableKeepsNew(a, b, t)
  {
    ViewRows(a, t);
    ViewRows(b, t);
    hide TableShape, HeapRows, HeapBecomes, ViewOf, HeapKeepsNew, OwnChange, TableKeepsNew, TablePages, SlotsAt;
    if status == OK {
      HeapLifts(a, b, t, HeapRows(a, t.first)[rid := record]);
    } else {
      StepNothing(a, t);
    }
  }

  /** A record that has been replaced always fits back in its slot. */
  lemma OldRecordFits(slots: SlottedFormat.Slots, i: nat, record: Bytes)
    requires SlottedFormat.CanRewrite(slots) && SlottedFormat.FreeSpace(slots) >= 0 && SlottedFormat.Live(slots, i)
    requires SlottedFormat.UpdateStatus(slots, i, record) == OK
    requires 0 < |slots[i].value| <= PAGE_SIZE
    ensures SlottedFormat.UpdateStatus(slots[i := Some(record)], i, slots[i].value) == OK
  {
    SlottedFormat.UsedUpdate(slots, i, Some(record), |slots|);
    hide SlottedFormat.Used, SlottedFormat.CanRewrite;
  }

  lemma LiveSlotSize(b: Bytes, pageId: int, i: nat)
    requires SlottedFormat.Ok(b, pageId) && SlottedFormat.Live(SlottedFormat.SlotsOf(b), i)
    ensures 0 < |SlottedFormat.SlotsOf(b)[i].value| <= PAGE_SIZE
  {
    SlottedFormat.OkParts(b, pageId);
    hide SlottedFormat.Ok, SlottedFormat.Used;
    assert SlottedFormat.SlotsOf(b)[i] == SlottedFormat.RecordOf(b, SlottedFormat.Directory(b)[i]);
  }

  /** Undoing an update cannot fail for lack of room. */
  lemma UndoFits(a: Store, b: Store, d: Store, first: int, rid: RecordID, oldRecord: Bytes, record: Bytes)
    requires HeapOk(a, first) && rid in HeapRows(a, first) && HeapRows(a, first)[rid] == oldRecord
    requires RowUpdatedReliably(a, b, first, rid, record, OK) && SlotsKept(b, d, first)
    requires rid.pageId in HeapPages(b, first)
    ensures rid.pageId > HEADER_PAGE_ID && SlottedFormat.UpdateStatus(SlotsAt(d, rid.pageId), rid.slotId, oldRecord) == OK
  {
    var chain, p := ChainOf(a, first), rid.pageId;
    HeapIs(a, first, chain);
    RowOnPage(a, first, rid);
    ChainParts(a, first, chain, p);
    var slots := SlottedFormat.SlotsOf(a[p]);
    SlottedFormat.OkSlots(a[p], p);
    PageSlots(a, p);
    assert RowAt(a, rid) == Some(oldRecord);
    UpdatedSlots(a, b, first, rid, record);
    hide HeapOk, ChainOf, HeapRows, RowUpdatedReliably, HeapPages, SlottedFormat.Ok, SlottedFormat.SlotsOf, RowsIn, SlottedFormat.UpdateStatus, SlottedFormat.CanRewrite, SlottedFormat.FreeSpace, HeapChain;
    assert SlottedFormat.Live(slots, rid.slotId) && slots[rid.slotId] == Some(oldRecord);
    LiveSlotSize(a[p], p, rid.slotId);
    OldRecordFits(slots, rid.slotId, record);
  }

  lemma UpdatedSlots(a: Store, b: Store, first: int, rid: RecordID, record: Bytes)
    requires RowUpdatedReliably(a, b, first, rid, record, OK)
    ensures rid.pageId > HEADER_PAGE_ID && rid.slotId < |SlotsAt(a, rid.pageId)|
    ensures SlottedFormat.UpdateStatus(SlotsAt(a, rid.pageId), rid.slotId, record) == OK
    ensures SlotsAt(b, rid.pageId) == SlotsAt(a, rid.pageId)[rid.slotId := Some(record)]
  {
    hide SlotsAt, SlottedFormat.UpdateStatus, HeapKeepsNew;
  }

  // ---- Update ----

  /** What has been done to one index: the old pair removed, the new one inserted. */
  datatype AppliedChange = AppliedChange(position: nat, removedOld: bool, insertedNew: bool)

  /** The changes to the first `k` indexes whose key differs. */
  function ChangesUpTo(olds: Keys, news: Keys, k: nat): seq<AppliedChange>
    requires |olds| == |news|
  {
    if k == 0 || k > |olds| then []
    else if olds[k - 1] == news[k - 1] then ChangesUpTo(olds, news, k - 1)
    else ChangesUpTo(olds, news, k - 1) + [AppliedChange(k - 1, olds[k - 1].Some?, news[k - 1].Some?)]
  }

  lemma {:induction false} LastChange(olds: Keys, news: Keys, k: nat, changes: seq<AppliedChange>)
    requires |olds| == |news| && k <= |olds| && changes == ChangesUpTo(olds, news, k) && changes != []
    ensures var c := changes[|changes| - 1];
            && c.position < k && c == AppliedChange(c.position, olds[c.position].Some?, news[c.position].Some?)
            && olds[c.position] != news[c.position]
            && ChangesUpTo(olds, news, c.position) == changes[..|changes| - 1]
            && (forall i: nat :: c.position < i < k ==> olds[i] == news[i])
    decreases k
  {
    if olds[k - 1] == news[k - 1] {
      LastChange(olds, news, k - 1, changes);
    }
  }

  lemma {:induction false} NoChanges(olds: Keys, news: Keys, k: nat)
    requires |olds| == |news| && k <= |olds| && ChangesUpTo(olds, news, k) == []
    ensures forall i: nat :: i < k ==> olds[i] == news[i]
    decreases k
  {
    if k > 0 {
      NoChanges(olds, news, k - 1);
    }
  }

  /** The old key can be put back: its bucket has room, or gets it when the new key goes. */
  ghost predicate Undoable(v: View, i: nat, oldKey: Option<Bytes>, newKey: Option<Bytes>) {
    i < |v.rooms| && i < |v.widths| && oldKey.Some? ==>
      || SlotOf(oldKey.value, v.widths[i]) in v.rooms[i]
      || (newKey.Some? && SlotOf(newKey.value, v.widths[i]) == SlotOf(oldKey.value, v.widths[i]))
  }

  /** In the first `k` indexes the pairs of the old keys have given way to those of the new ones. */
  ghost predicate ChangedUpTo(v0: View, v: View, rid: RecordID, olds: Keys, news: Keys, k: nat) {
    && |v0.pairs| == |v.pairs| == |v.rooms| == |v.widths| == |olds| == |news| && k <= |olds|
    && (forall i: nat :: i < |olds| ==>
          v.pairs[i] == if i < k then v0.pairs[i] - KeySet(olds[i], rid) + KeySet(news[i], rid) else v0.pairs[i])
    && (forall i: nat :: i < k && olds[i] != news[i] ==> Undoable(v, i, olds[i], news[i]))
  }

  /** The new keys of the row are not in the indexes yet. */
  ghost predicate Fresh(v0: View, rid: RecordID, olds: Keys, news: Keys) {
    |v0.pairs| == |olds| == |news| && forall i: nat :: i < |news| && olds[i] != news[i] ==> KeySet(news[i], rid) !! v0.pairs[i]
  }

  /** What changing the keys of one index does to the view. */
  ghost predicate ViewChanged(v: View, w: View, rid: RecordID, i: nat, oldKey: Option<Bytes>, newKey: Option<Bytes>) {
    && i < |v.pairs| == |v.rooms| == |v.widths| && |w.rooms| == |v.rooms|
    && w == v.(pairs := v.pairs[i := v.pairs[i] - KeySet(oldKey, rid) + KeySet(newKey, rid)], rooms := v.rooms[i := w.rooms[i]])
    && Undoable(w, i, oldKey, newKey)
  }

  /** The view is as before, except perhaps for the room in one index. */
  ghost predicate ViewRestored(v: View, w: View, i: nat) {
    i < |v.rooms| == |w.rooms| && w == v.(rooms := v.rooms[i := w.rooms[i]])
  }

  lemma ChangedNone(v0: View, v: View, rid: RecordID, olds: Keys, news: Keys, rows: Rows)
    requires |v0.pairs| == |v0.rooms| == |v0.widths| == |olds| == |news| && v == v0.(rows := rows)
    ensures ChangedUpTo(v0, v, rid, olds, news, 0)
  {
  }

  lemma ChangedOneMore(v0: View, v: View, w: View, rid: RecordID, olds: Keys, news: Keys, k: nat)
    requires ChangedUpTo(v0, v, rid, olds, news, k) && k < |olds|
    requires olds[k] == news[k] ==> w == v && KeySet(olds[k], rid) <= v0.pairs[k]
    requires olds[k] != news[k] ==> ViewChanged(v, w, rid, k, olds[k], news[k])
    ensures ChangedUpTo(v0, w, rid, olds, news, k + 1)
  {
    hide SlotOf, KeySet;
    forall i: nat | i < k && olds[i] != news[i] ensures Undoable(w, i, olds[i], news[i]) {
      assert Undoable(v, i, olds[i], news[i]);
    }
  }

  lemma ChangedRestored(v0: View, v: View, w: View, rid: RecordID, olds: Keys, news: Keys, k: nat)
    requires ChangedUpTo(v0, v, rid, olds, news, k) && k < |olds| && ViewRestored(v, w, k)
    ensures ChangedUpTo(v0, w, rid, olds, news, k)
  {
    hide SlotOf, KeySet;
    forall i: nat | i < k && olds[i] != news[i] ensures Undoable(w, i, olds[i], news[i]) {
      assert Undoable(v, i, olds[i], news[i]);
    }
  }

  lemma ChangesNone(olds: Keys, news: Keys)
    requires |olds| == |news|
    ensures ChangesUpTo(olds, news, 0) == []
  {
  }

  lemma ChangesOneMore(olds: Keys, news: Keys, k: nat)
    requires |olds| == |news| && k < |olds|
    ensures ChangesUpTo(olds, news, k + 1)
         == if olds[k] == news[k] then ChangesUpTo(olds, news, k)
            else ChangesUpTo(olds, news, k) + [AppliedChange(k, olds[k].Some?, news[k].Some?)]
  {
  }

  /** Both steps of a change have been made. */
  lemma ChangeDone(v: View, m: View, w: View, rid: RecordID, i: nat, oldKey: Option<Bytes>, newKey: Option<Bytes>)
    requires i < |v.pairs| == |v.rooms| == |v.widths| && oldKey != newKey
    requires oldKey == None ==> m == v
    requires oldKey.Some? ==> ViewRemoved(v, m, i, Pair(oldKey.value, rid), OK)
    requires newKey == None ==> w == m
    requires newKey.Some? ==> ViewInserted(m, w, i, Pair(newKey.value, rid), OK)
    ensures ViewChanged(v, w, rid, i, oldKey, newKey)
  {
    hide SlotOf;
    assert w.pairs[i] == v.pairs[i] - KeySet(oldKey, rid) + KeySet(newKey, rid);
    assert w.pairs == v.pairs[i := v.pairs[i] - KeySet(oldKey, rid) + KeySet(newKey, rid)];
    assert w.rooms == v.rooms[i := w.rooms[i]];
    if oldKey.Some? && newKey.Some? && SlotOf(newKey.value, v.widths[i]) != SlotOf(oldKey.value, v.widths[i]) {
      assert SlotOf(oldKey.value, v.widths[i]) in m.rooms[i] - {SlotOf(newKey.value, v.widths[i])};
    }
  }

  /** The old pair is back where it was. */
  lemma ChangeTakenBack(v: View, m: View, w: View, rid: RecordID, i: nat, oldKey: Bytes, status: StatusCode)
    requires ViewRemoved(v, m, i, Pair(oldKey, rid), OK) && ViewInserted(m, w, i, Pair(oldKey, rid), status)
    requires SlotOf(oldKey, m.widths[i]) in m.rooms[i] ==> status == OK
    ensures status == OK && ViewRestored(v, w, i)
  {
    hide SlotOf;
    assert v.pairs[i] - {Pair(oldKey, rid)} + {Pair(oldKey, rid)} == v.pairs[i];
  }

  lemma NothingChanged(v: View, i: nat)
    requires i < |v.rooms|
    ensures ViewRestored(v, v, i)
  {
  }

  /** The changes to index `p` are undone. */
  lemma ChangeUndone(v0: View, v: View, m: View, w: View, rid: RecordID, olds: Keys, news: Keys, k: nat, p: nat,
                     removeStatus: StatusCode, insertStatus: StatusCode)
    requires ChangedUpTo(v0, v, rid, olds, news, k) && Holding(v0, rid, olds) && Fresh(v0, rid, olds, news)
    requires p < k && olds[p] != news[p] && forall i: nat :: p < i < k ==> olds[i] == news[i]
    requires news[p] == None ==> m == v
    requires news[p].Some? ==> removeStatus in {OK, NOT_FOUND} && ViewRemoved(v, m, p, Pair(news[p].value, rid), removeStatus)
    requires olds[p] == None ==> w == m && insertStatus == OK
    requires olds[p].Some? ==> ViewInserted(m, w, p, Pair(olds[p].value, rid), insertStatus)
    requires olds[p].Some? && SlotOf(olds[p].value, m.widths[p]) in m.rooms[p] ==> insertStatus == OK
    ensures insertStatus == OK && ChangedUpTo(v0, w, rid, olds, news, p)
  {
    assert Undoable(v, p, olds[p], news[p]);
    hide SlotOf;
    assert KeySet(olds[p], rid) <= v0.pairs[p] && KeySet(news[p], rid) !! v0.pairs[p];
    assert (v0.pairs[p] - KeySet(olds[p], rid) + KeySet(news[p], rid)) - KeySet(news[p], rid) + KeySet(olds[p], rid) == v0.pairs[p];
    forall i: nat | i < |olds| && i != p ensures w.pairs[i] == v.pairs[i] && w.rooms[i] == v.rooms[i] {}
    forall i: nat | p < i < k ensures v.pairs[i] == v0.pairs[i] {
      assert KeySet(olds[i], rid) <= v0.pairs[i];
    }
    forall i: nat | i < p && olds[i] != news[i] ensures Undoable(w, i, olds[i], news[i]) {
      assert Undoable(v, i, olds[i], news[i]);
    }
  }

  lemma ChangedNothing(v0: View, v: View, rid: RecordID, olds: Keys, news: Keys, k: nat)
    requires ChangedUpTo(v0, v, rid, olds, news, k) && Holding(v0, rid, olds) && ChangesUpTo(olds, news, k) == []
    ensures v.pairs == v0.pairs
  {
    NoChanges(olds, news, k);
    hide SlotOf;
    forall i: nat | i < |olds| ensures v.pairs[i] == v0.pairs[i] {
      assert KeySet(olds[i], rid) <= v0.pairs[i];
    }
  }

  /** A row's only key in an index is its own. */
  lemma NewKeysAreFresh(a: Store, t: TableInfo, rid: RecordID, record: Bytes, olds: Keys, news: Keys)
    requires TableOk(a, t) && rid in HeapRows(a, t.first) && HeapRows(a, t.first)[rid] == record
    requires KeysOf(t, record, olds) && |news| == |olds|
    ensures Fresh(ViewOf(a, t), rid, olds, news)
  {
    var v := ViewOf(a, t);
    ViewRows(a, t);
    hide TableShape, HeapRows, RecordKey, KeyMatches, ViewOf, KeySet, RowPairs, RecordPairs, Keyed;
    forall i: nat | i < |news| && olds[i] != news[i] ensures KeySet(news[i], rid) !! v.pairs[i] {
      KeysGivePairs(t, record, olds, i, rid);
      OnlyOwnPair(v.rows, t.schema, t.indexes[i].column, rid);
      OtherKey(RowPairs(v.rows, t.schema, t.indexes[i].column), rid, olds[i], news[i]);
    }
  }

  lemma OtherKey(pairs: set<Pair>, rid: RecordID, oldKey: Option<Bytes>, newKey: Option<Bytes>)
    requires forall pair :: pair in pairs && pair.rid == rid ==> pair in KeySet(oldKey, rid)
    requires oldKey != newKey
    ensures KeySet(newKey, rid) !! pairs
  {
  }

  lemma OnlyOwnPair(rows: Rows, schema: Schema, column: nat, rid: RecordID)
    requires rid in rows
    ensures forall pair :: pair in RowPairs(rows, schema, column) && pair.rid == rid ==> pair in RecordPairs(schema, rows[rid], column, rid)
  {
    hide RecordKey;
  }

  /** With every key changed, rows and indexes agree. */
  lemma ChangedAll(v0: View, w: View, t: TableInfo, rid: RecordID, oldRecord: Bytes, record: Bytes, olds: Keys, news: Keys)
    requires Agrees(v0, t) && rid in v0.rows && v0.rows[rid] == oldRecord && KeysOf(t, oldRecord, olds) && KeysOf(t, record, news)
    requires ChangedUpTo(v0, w, rid, olds, news, |olds|) && w.rows == v0.rows[rid := record]
    requires Decode(t.schema, record).Some?
    ensures Agrees(w, t)
  {
    hide RowPairs, RecordPairs, KeySet, KeyMatches, RecordKey, SlotOf, Decode;
    forall i: nat | i < |olds|
      ensures w.pairs[i] == RowPairs(w.rows, t.schema, t.indexes[i].column) && !RecordKey(t.schema, record, t.indexes[i].column).BadKey?
    {
      KeysGivePairs(t, oldRecord, olds, i, rid);
      KeysGivePairs(t, record, news, i, rid);
      PairsOfChangedRow(v0.rows, t.schema, t.indexes[i].column, rid, record);
    }
  }

  lemma MakeRowReplaced(a: Store, c: Store, t: TableInfo, values: seq<Value>, rid: RecordID, oldRecord: Bytes, record: Bytes, olds: Keys, news: Keys)
    requires TableOk(a, t) && TableShape(c, t) && Serializable(t.schema, values) && Encodes(record, values)
    requires rid in HeapRows(a, t.first) && HeapRows(a, t.first)[rid] == oldRecord
    requires KeysOf(t, oldRecord, olds) && KeysOf(t, record, news)
    requires ChangedUpTo(ViewOf(a, t), ViewOf(c, t), rid, olds, news, |olds|)
    requires HeapRows(c, t.first) == HeapRows(a, t.first)[rid := record]
    ensures RowReplaced(a, c, t, values, rid, record)
  {
    SerializableParts(t.schema, values);
    RoundTrip(t.schema, record, values);
    ViewRows(a, t);
    ViewRows(c, t);
    hide TableShape, HeapRows, ViewOf, Serializable, Encodes, RowFits, Agrees, KeysOf, ChangedUpTo, Decode;
    ChangedAll(ViewOf(a, t), ViewOf(c, t), t, rid, oldRecord, record, olds, news);
  }

  lemma RowsChangedBack(rows: Rows, rid: RecordID, record: Bytes)
    requires rid in rows
    ensures rows[rid := record][rid := rows[rid]] == rows
  {
  }

  lemma KeySets(oldKey: Option<Bytes>, newKey: Option<Bytes>, rid: RecordID, pairs: set<Pair>)
    ensures KeySet(oldKey, rid) <= pairs <==> (oldKey.Some? ==> Pair(oldKey.value, rid) in pairs)
    ensures KeySet(newKey, rid) !! pairs <==> (newKey.Some? ==> Pair(newKey.value, rid) !in pairs)
  {
  }

  lemma TwoKeys(a: Option<Bytes>, b: Option<Bytes>)
    requires ShortKeys([a, b])
    ensures a.Some? ==> 0 < |a.value| <= MAX_KEY_LENGTH
    ensures b.Some? ==> 0 < |b.value| <= MAX_KEY_LENGTH
  {
    assert [a, b][0] == a && [a, b][1] == b;
  }

  lemma ViewAt(s: Store, t: TableInfo, i: nat)
    requires i < |t.indexes|
    ensures |ViewOf(s, t).pairs| == |ViewOf(s, t).rooms| == |ViewOf(s, t).widths| == |t.indexes|
    ensures ViewOf(s, t).pairs[i] == IndexPairs(s, t.indexes[i].header)
  {
    hide IndexPairs, HeapRows, Rooms, Width;
  }

  lemma NotRemovedFrom(v: View, w: View, i: nat, pair: Pair, status: StatusCode)
    requires ViewRemoved(v, w, i, pair, status) && status != OK
    ensures ViewRestored(v, w, i) && (pair in v.pairs[i] ==> status != NOT_FOUND)
  {
    hide SlotOf;
    assert v.pairs[i := v.pairs[i]] == v.pairs;
  }

  lemma ShortPair(olds: Keys, news: Keys, i: nat)
    requires |olds| == |news| && i < |olds| && ShortKeys(olds) && ShortKeys(news)
    ensures ShortKeys([olds[i], news[i]])
  {
  }

  lemma OldPairIsThere(v0: View, s: Store, t: TableInfo, rid: RecordID, olds: Keys, news: Keys, k: nat)
    requires ChangedUpTo(v0, ViewOf(s, t), rid, olds, news, k) && Holding(v0, rid, olds) && k < |olds| == |t.indexes|
    ensures KeySet(olds[k], rid) <= v0.pairs[k] == IndexPairs(s, t.indexes[k].header)
    ensures Fresh(v0, rid, olds, news) && olds[k] != news[k] ==> KeySet(news[k], rid) !! IndexPairs(s, t.indexes[k].header)
  {
    ViewAt(s, t, k);
    hide SlotOf, IndexPairs, ViewOf;
    assert KeySet(olds[k], rid) <= v0.pairs[k];
  }

  // ---- When an update succeeds ----

  /** The new record fits into the page of the row, in place of the old one. */
  ghost predicate FitsInPlace(s: Store, t: TableInfo, rid: RecordID, values: seq<Value>) {
    && rid in HeapRows(s, t.first)
    && HeaderSize(|values|) + |Payload(values, |values|)| <= SlottedFormat.FreeSpace(SlotsAt(s, rid.pageId)) + |HeapRows(s, t.first)[rid]|
  }

  /** The indexed columns of the row have these values already. */
  ghost predicate KeysStay(s: Store, t: TableInfo, rid: RecordID, values: seq<Value>) {
    && rid in HeapRows(s, t.first) && Decode(t.schema, HeapRows(s, t.first)[rid]).Some?
    && var olds := Decode(t.schema, HeapRows(s, t.first)[rid]).value;
       forall i: nat :: i < |t.indexes| ==>
         var c := t.indexes[i].column; c < |olds| && c < |values| && olds[c] == values[c]
  }

  lemma UpdateStatusOfRow(s: Store, t: TableInfo, rid: RecordID, values: seq<Value>, record: Bytes)
    requires HeapOk(s, t.first) && rid in HeapRows(s, t.first) && Encodes(record, values)
    ensures SlottedFormat.UpdateStatus(SlotsAt(s, rid.pageId), rid.slotId, record)
         == if HeaderSize(|values|) + |Payload(values, |values|)| > PAGE_SIZE then INVALID_ARGUMENT
            else if FitsInPlace(s, t, rid, values) then OK else OUT_OF_MEMORY
  {
    RowsAreReadable(s, t.first);
    assert RowAt(s, rid) == Some(HeapRows(s, t.first)[rid]);
    hide HeapRows, HeapOk, Payload, SlottedFormat.FreeSpace, SlotsAt;
  }

  lemma UpdateStatuses(a: Store, b: Store, first: int, rid: RecordID, record: Bytes, status: StatusCode)
    requires RowUpdated(a, b, first, rid, record, status) && rid.pageId > HEADER_PAGE_ID
    ensures RowUpdatedReliably(a, b, first, rid, record, status) ==>
              status == SlottedFormat.UpdateStatus(SlotsAt(a, rid.pageId), rid.slotId, record) && status != IO_ERROR
    ensures status == OK ==> HeapOk(a, first) && HeapOk(b, first) && rid in HeapRows(a, first)
                             && HeapRows(b, first) == HeapRows(a, first)[rid := record] && b.Keys == a.Keys
    ensures status != OK ==> b == a
    ensures |b| == |a|
  {
    SameKeysSameSize(a, b);
    hide SlotsAt, HeapRows, HeapOk, HeapKeepsNew, OwnChange, HeapPages, SlottedFormat.FreeSpace;
  }
}
