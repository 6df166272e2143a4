// The pages that a row needs: in the heap file, and in the indexes of its table.
module TableRooms {
  import opened Common
  import opened BucketFormat
  import SlottedFormat
  import opened RecordFormat
  import opened RecordCodecs
  import opened IndexKeys
  import opened PageChains
  import opened HeapStates
  import opened IndexStates
  import opened IndexOutcomes
  import opened TableStates
  import opened TableOutcomes

  // ---- One index ----

  /** How many pages index `i` grows by for a new pair: its bucket has room, or needs one. */
  ghost function KeyPages(v: View, i: nat, key: Option<Bytes>): nat {
    if key.Some? && i < |v.rooms| && i < |v.widths| && SlotOf(key.value, v.widths[i]) !in v.rooms[i] then 1 else 0
  }

  /** And for another key of the same row: the old pair leaves room in its own bucket. */
  ghost function ChangePages(v: View, i: nat, oldKey: Option<Bytes>, newKey: Option<Bytes>): nat {
    if oldKey == newKey then 0
    else if oldKey.Some? && newKey.Some? && i < |v.widths| && SlotOf(newKey.value, v.widths[i]) == SlotOf(oldKey.value, v.widths[i]) then 0
    else KeyPages(v, i, newKey)
  }

  /** From index `k` on the buckets are as before. */
  ghost predicate RoomsKept(v0: View, v: View, k: nat) {
    && v.widths == v0.widths && |v.rooms| == |v0.rooms|
    && forall i: nat :: k <= i < |v0.rooms| ==> v.rooms[i] == v0.rooms[i]
  }

  lemma RoomsStart(v0: View, rows: Rows)
    ensures RoomsKept(v0, v0.(rows := rows), 0)
  {
  }

  lemma RoomsCounted(s: Store, t: TableInfo)
    ensures |ViewOf(s, t).rooms| == |ViewOf(s, t).widths|
  {
    hide HeapRows, Rooms, Width, IndexPairs;
  }

  lemma RoomsSame(v0: View, v: View, k: nat)
    requires RoomsKept(v0, v, k)
    ensures RoomsKept(v0, v, k + 1)
  {
  }

  lemma RoomsInserted(v0: View, v: View, w: View, k: nat, pair: Pair, status: StatusCode)
    requires RoomsKept(v0, v, k) && ViewInserted(v, w, k, pair, status)
    ensures RoomsKept(v0, w, k + 1)
  {
    hide SlotOf;
  }

  lemma RoomsChanged(v0: View, v: View, w: View, k: nat, rid: RecordID, oldKey: Option<Bytes>, newKey: Option<Bytes>)
    requires RoomsKept(v0, v, k) && ViewChanged(v, w, rid, k, oldKey, newKey)
    ensures RoomsKept(v0, w, k + 1)
  {
    hide SlotOf, KeySet, Undoable;
  }

  lemma KeyPagesKept(v0: View, v: View, k: nat, oldKey: Option<Bytes>, newKey: Option<Bytes>)
    requires RoomsKept(v0, v, k) && |v0.rooms| == |v0.widths|
    ensures KeyPages(v, k, newKey) == KeyPages(v0, k, newKey)
    ensures ChangePages(v, k, oldKey, newKey) == ChangePages(v0, k, oldKey, newKey)
  {
    hide SlotOf;
  }

  /** What a pair that is new to its index does to the size of the store. */
  lemma PlacedPages(s: Store, u: Store, t: TableInfo, k: nat, pair: Pair, status: StatusCode, capacity: nat)
    requires k < |t.indexes| && PairPlaced(s, u, t.indexes[k].header, pair, status, capacity) && Indexable(pair)
    requires pair !in ViewOf(s, t).pairs[k]
    ensures status == if KeyPages(ViewOf(s, t), k, Some(pair.key)) > 0 && |s| >= capacity then OUT_OF_MEMORY else OK
    ensures status == OK ==> |u| == |s| + KeyPages(ViewOf(s, t), k, Some(pair.key))
  {
    hide IndexPairs, Rooms, Width, SlotOf, Indexable, HeapRows;
  }

  /** Once the old pair has gone, the new key needs a page exactly if ChangePages says so. */
  lemma PagesAfterRemoval(v: View, m: View, i: nat, rid: RecordID, oldKey: Option<Bytes>, newKey: Option<Bytes>)
    requires i < |v.rooms| == |v.widths| && oldKey != newKey
    requires oldKey == None ==> m == v
    requires oldKey.Some? ==> ViewRemoved(v, m, i, Pair(oldKey.value, rid), OK)
    ensures KeyPages(m, i, newKey) == ChangePages(v, i, oldKey, newKey)
    ensures i < |v.pairs| == |m.pairs| && newKey.Some? && Pair(newKey.value, rid) !in v.pairs[i] ==> Pair(newKey.value, rid) !in m.pairs[i]
  {
    hide SlotOf;
    if oldKey.Some? && newKey.Some? && SlotOf(newKey.value, v.widths[i]) != SlotOf(oldKey.value, v.widths[i]) {
      var slot := SlotOf(newKey.value, v.widths[i]);
      assert slot in m.rooms[i] <==> slot in m.rooms[i] - {SlotOf(oldKey.value, v.widths[i])};
      assert slot in v.rooms[i] <==> slot in v.rooms[i] - {SlotOf(oldKey.value, v.widths[i])};
    }
  }

  /** What giving a row another key in one index does to the size of the store; no page is
      needed if the new pair can take the place of the old one. */
  ghost predicate KeyChangePlaced(a: Store, b: Store, v: View, i: nat, oldKey: Option<Bytes>, newKey: Option<Bytes>, status: StatusCode, capacity: nat) {
    if status == OK then |b| == |a| + ChangePages(v, i, oldKey, newKey) else |a| + ChangePages(v, i, oldKey, newKey) > capacity
  }

  lemma ChangePlaced(a: Store, m: Store, w: Store, t: TableInfo, i: nat, rid: RecordID, oldKey: Option<Bytes>, newKey: Option<Bytes>,
                     status: StatusCode, capacity: nat)
    requires i < |t.indexes| && oldKey != newKey && |m| == |a|
    requires oldKey == None ==> m == a
    requires oldKey.Some? ==> ViewRemoved(ViewOf(a, t), ViewOf(m, t), i, Pair(oldKey.value, rid), OK)
    requires newKey == None ==> w == m && status == OK
    requires newKey.Some? ==> Indexable(Pair(newKey.value, rid)) && Pair(newKey.value, rid) !in ViewOf(a, t).pairs[i]
    requires newKey.Some? ==> PairPlaced(m, w, t.indexes[i].header, Pair(newKey.value, rid), status, capacity)
    ensures forall b: Store :: (status == OK ==> |b| == |w|) ==> KeyChangePlaced(a, b, ViewOf(a, t), i, oldKey, newKey, status, capacity)
  {
    hide *;
    ViewAt(a, t, i);
    ViewAt(m, t, i);
    PagesAfterRemoval(ViewOf(a, t), ViewOf(m, t), i, rid, oldKey, newKey);
    if newKey.Some? {
      assert newKey == Some(newKey.value);
      PlacedPages(m, w, t, i, Pair(newKey.value, rid), status, capacity);
    } else {
      NoKeyNoPage(ViewOf(m, t), i);
    }
    MakeKeyChangePlaced(a, w, ViewOf(a, t), i, oldKey, newKey, status, capacity);
  }

  lemma MakeKeyChangePlaced(a: Store, w: Store, v: View, i: nat, oldKey: Option<Bytes>, newKey: Option<Bytes>, status: StatusCode, capacity: nat)
    requires if status == OK then |w| == |a| + ChangePages(v, i, oldKey, newKey) else |a| + ChangePages(v, i, oldKey, newKey) > capacity
    ensures forall b: Store :: (status == OK ==> |b| == |w|) ==> KeyChangePlaced(a, b, v, i, oldKey, newKey, status, capacity)
  {
    hide ChangePages;
  }

  lemma RemoveKeepsSize(a: Store, b: Store, h: nat, key: Bytes, value: Option<RecordID>, status: StatusCode)
    requires PairsRemoved(a, b, h, key, value, status)
    ensures |b| == |a|
  {
    SameKeysSameSize(a, b);
  }

  // ---- All indexes ----

  /** The pages that the first `k` indexes need for the keys of a new row. */
  ghost function RowPages(v: View, keys: Keys, k: nat): nat {
    if k == 0 || k > |keys| then 0 else RowPages(v, keys, k - 1) + KeyPages(v, k - 1, keys[k - 1])
  }

  /** And for other keys of a row that is there. */
  ghost function RowChangePages(v: View, olds: Keys, news: Keys, k: nat): nat {
    if k == 0 || k > |olds| || k > |news| then 0 else RowChangePages(v, olds, news, k - 1) + ChangePages(v, k - 1, olds[k - 1], news[k - 1])
  }

  lemma {:induction false} RowPagesGrow(v: View, keys: Keys, j: nat, k: nat)
    requires j <= k <= |keys|
    ensures RowPages(v, keys, j) <= RowPages(v, keys, k)
    decreases k - j
  {
    hide KeyPages;
    if j < k {
      RowPagesGrow(v, keys, j, k - 1);
    }
  }

  lemma RowPagesStep(v: View, keys: Keys, k: nat)
    requires k < |keys|
    ensures RowPages(v, keys, k + 1) == RowPages(v, keys, k) + KeyPages(v, k, keys[k])
    ensures RowPages(v, keys, 0) == 0 && (keys[k].None? ==> KeyPages(v, k, keys[k]) == 0)
    ensures RowPages(v, keys, k + 1) <= RowPages(v, keys, |keys|)
  {
    hide KeyPages;
    RowPagesGrow(v, keys, k + 1, |keys|);
    NoKeyNoPage(v, k);
  }

  lemma RowPagesNone(v: View, keys: Keys)
    ensures RowPages(v, keys, 0) == 0
  {
  }

  lemma RowChangePagesNone(v: View, olds: Keys, news: Keys)
    ensures RowChangePages(v, olds, news, 0) == 0
  {
  }

  lemma NoKeyNoPage(v: View, i: nat)
    ensures KeyPages(v, i, None) == 0
  {
  }

  /** The pair of a new row: it takes the page that RowPages counts, or the disk is full. */
  lemma RowPairPlaced(v0: View, s: Store, u: Store, t: TableInfo, rid: RecordID, record: Bytes, keys: Keys, k: nat, status: StatusCode, capacity: nat)
    requires Agrees(v0, t) && rid !in v0.rows && InsertedUpTo(v0, ViewOf(s, t), rid, record, keys, k)
    requires k < |keys| == |t.indexes| && keys[k].Some? && RoomsKept(v0, ViewOf(s, t), k) && |v0.rooms| == |v0.widths|
    requires Indexable(Pair(keys[k].value, rid)) && PairPlaced(s, u, t.indexes[k].header, Pair(keys[k].value, rid), status, capacity)
    ensures status == OK ==> |u| == |s| + KeyPages(v0, k, keys[k])
    ensures status != OK ==> |s| + RowPages(v0, keys, |keys|) - RowPages(v0, keys, k) > capacity
  {
    hide *;
    FreshPair(v0, ViewOf(s, t), t, rid, record, keys, k);
    PlacedPages(s, u, t, k, Pair(keys[k].value, rid), status, capacity);
    KeyPagesKept(v0, ViewOf(s, t), k, None, keys[k]);
    assert keys[k] == Some(keys[k].value);
    RowPagesStep(v0, keys, k);
  }

  lemma FreshPair(v0: View, v: View, t: TableInfo, rid: RecordID, record: Bytes, keys: Keys, k: nat)
    requires Agrees(v0, t) && rid !in v0.rows && InsertedUpTo(v0, v, rid, record, keys, k) && k < |keys| && keys[k].Some?
    ensures k < |v.pairs| && Pair(keys[k].value, rid) !in v.pairs[k]
  {
    NoPairsOf(v0.rows, t.schema, t.indexes[k].column, rid, keys[k].value);
    hide RowPairs, Stored;
  }

  lemma {:induction false} RowChangePagesGrow(v: View, olds: Keys, news: Keys, j: nat, k: nat)
    requires j <= k <= |olds| == |news|
    ensures RowChangePages(v, olds, news, j) <= RowChangePages(v, olds, news, k)
    decreases k - j
  {
    hide ChangePages;
    if j < k {
      RowChangePagesGrow(v, olds, news, j, k - 1);
    }
  }

  lemma RowChangePagesStep(v: View, olds: Keys, news: Keys, k: nat)
    requires k < |olds| == |news|
    ensures RowChangePages(v, olds, news, k + 1) == RowChangePages(v, olds, news, k) + ChangePages(v, k, olds[k], news[k])
    ensures RowChangePages(v, olds, news, 0) == 0 && (olds[k] == news[k] ==> ChangePages(v, k, olds[k], news[k]) == 0)
    ensures RowChangePages(v, olds, news, k + 1) <= RowChangePages(v, olds, news, |olds|)
  {
    RowChangePagesGrow(v, olds, news, k + 1, |olds|);
    hide SlotOf, KeyPages;
  }

  /** A row needs at most one page in each index. */
  lemma {:induction false} PagesAreFew(v: View, olds: Keys, news: Keys, k: nat)
    requires k <= |olds| == |news|
    ensures RowChangePages(v, olds, news, k) <= k && RowPages(v, news, k) <= k
  {
    hide SlotOf;
    if k > 0 {
      PagesAreFew(v, olds, news, k - 1);
    }
  }

  /** One index after the other takes the pages that RowChangePages counts, or the disk is full. */
  lemma KeyChangeCounted(a: Store, s: Store, u: Store, v0: View, v: View, olds: Keys, news: Keys, k: nat, status: StatusCode, capacity: nat)
    requires k < |olds| == |news| && RoomsKept(v0, v, k) && |v0.rooms| == |v0.widths|
    requires |s| == |a| + RowChangePages(v0, olds, news, k)
    requires KeyChangePlaced(s, u, v, k, olds[k], news[k], status, capacity)
    ensures status == OK ==> |u| == |a| + RowChangePages(v0, olds, news, k + 1)
    ensures status != OK ==> |a| + RowChangePages(v0, olds, news, |olds|) > capacity
  {
    KeyPagesKept(v0, v, k, olds[k], news[k]);
    RowChangePagesStep(v0, olds, news, k);
    hide ChangePages, KeyPages, RowChangePages, RoomsKept;
  }

  // ---- Rows by their values ----

  /** The keys of a row with these values. */
  function KeysFor(t: TableInfo, values: seq<Value>): Keys {
    seq(|t.indexes|, (i: nat) requires i < |t.indexes| => KeyAt(values, t.indexes[i].column))
  }

  function KeyAt(values: seq<Value>, column: nat): Option<Bytes> {
    if column < |values| && !values[column].Null? then KeyOf(values[column]) else None
  }

  lemma KeysAreFor(t: TableInfo, record: Bytes, values: seq<Value>, keys: Keys)
    requires Decode(t.schema, record) == Some(values) && KeysOf(t, record, keys)
    ensures keys == KeysFor(t, values)
  {
    hide Decode, KeyOf;
    forall i: nat | i < |keys| ensures keys[i] == KeyAt(values, t.indexes[i].column) {
      assert KeyMatches(keys[i], RecordKey(t.schema, record, t.indexes[i].column));
    }
  }

  function RecordSize(values: seq<Value>): nat {
    HeaderSize(|values|) + |Payload(values, |values|)|
  }

  lemma RecordSizeIs(values: seq<Value>, record: Bytes)
    ensures Encodes(record, values) ==> |record| == RecordSize(values)
    ensures RecordSize(values) == HeaderSize(|values|) + |Payload(values, |values|)|
  {
    hide HeaderSize, Payload;
  }

  /** How many pages the table grows by for a new row. */
  ghost function InsertPages(s: Store, t: TableInfo, values: seq<Value>): nat {
    HeapGrowth(s, t.first, RecordSize(values)) + RowPages(ViewOf(s, t), KeysFor(t, values), |t.indexes|)
  }

  /** A page of the file or an empty page can take the row, and the disk has the pages that
      file and indexes need for it. */
  ghost predicate RoomForRow(s: Store, t: TableInfo, values: seq<Value>, capacity: nat) {
    && (HeapHasRoom(s, t.first, RecordSize(values)) || RoomFor([], RecordSize(values)))
    && |s| + InsertPages(s, t, values) <= capacity
  }

  /** What INSERT returns on a working disk. */
  ghost predicate InsertStatusIs(s: Store, t: TableInfo, values: seq<Value>, status: StatusCode, capacity: nat) {
    if Insertable(t, values) then status == (if RoomForRow(s, t, values, capacity) then OK else OUT_OF_MEMORY)
    else status == INVALID_ARGUMENT || (status == OUT_OF_MEMORY && RecordSize(values) > LIMIT16)
  }

  lemma InsertStatusMeans(s: Store, t: TableInfo, values: seq<Value>, capacity: nat)
    ensures forall status: StatusCode :: InsertStatusIs(s, t, values, status, capacity) <==>
              if Insertable(t, values) then status == (if RoomForRow(s, t, values, capacity) then OK else OUT_OF_MEMORY)
              else status == INVALID_ARGUMENT || (status == OUT_OF_MEMORY && RecordSize(values) > LIMIT16)
    ensures RoomForRow(s, t, values, capacity) <==>
              && (HeapHasRoom(s, t.first, RecordSize(values)) || RoomFor([], RecordSize(values)))
              && |s| + InsertPages(s, t, values) <= capacity
    ensures InsertPages(s, t, values) == HeapGrowth(s, t.first, RecordSize(values)) + RowPages(ViewOf(s, t), KeysFor(t, values), |t.indexes|)
    ensures |KeysFor(t, values)| == |t.indexes|
  {
    hide Insertable, HeapHasRoom, RoomFor, RecordSize, HeapGrowth, RowPages, ViewOf, KeyAt;
  }

  /** A table without indexes and with an empty page takes every row that fits a page. */
  lemma EmptyPageTakesRow(s: Store, t: TableInfo, values: seq<Value>, p: nat, capacity: nat)
    requires p in HeapPages(s, t.first) && SlotsAt(s, p) == [] && t.indexes == [] && RecordSize(values) <= 4076 && |s| <= capacity
    ensures InsertPages(s, t, values) == 0 && RoomForRow(s, t, values, capacity)
  {
    EmptyPageRoom(RecordSize(values));
    assert HeapHasRoom(s, t.first, RecordSize(values));
    hide HeapPages, SlotsAt, RecordSize, RoomFor, HeapHasRoom, ViewOf, KeyAt, KeyPages;
  }

  lemma EmptyPageRoom(size: nat)
    ensures RoomFor([], size) <==> size <= 4076
  {
    assert SlottedFormat.Total([]) == 0;
  }

  /** The heap file and then the indexes decide. */
  lemma InsertDecided(a: Store, t: TableInfo, values: seq<Value>, record: Bytes, keys: Keys, heap: StatusCode, capacity: nat)
    requires Serializable(t.schema, values) && KeysExist(t, values) && Encodes(record, values)
    requires Decode(t.schema, record) == Some(values) && KeysOf(t, record, keys) && heap == HeapStatus(a, t.first, |record|, capacity)
    ensures InsertPages(a, t, values) == HeapGrowth(a, t.first, |record|) + RowPages(ViewOf(a, t), keys, |keys|)
    ensures heap != OK ==> InsertStatusIs(a, t, values, heap, capacity)
    ensures heap == OK && |a| + InsertPages(a, t, values) <= capacity ==> InsertStatusIs(a, t, values, OK, capacity)
    ensures heap == OK && |a| + InsertPages(a, t, values) > capacity ==> InsertStatusIs(a, t, values, OUT_OF_MEMORY, capacity)
  {
    hide *;
    KeysAreFor(t, record, values, keys);
    RecordSizeIs(values, record);
    InsertableIs(t, values);
    HeapStatusParts(a, t.first, |record|, capacity);
    InsertStatusMeans(a, t, values, capacity);
  }

  /** How many pages the indexes grow by when a row gets other values. */
  ghost function UpdatePages(s: Store, t: TableInfo, rid: RecordID, values: seq<Value>): nat {
    if rid in HeapRows(s, t.first) && Decode(t.schema, HeapRows(s, t.first)[rid]).Some? then
      RowChangePages(ViewOf(s, t), KeysFor(t, Decode(t.schema, HeapRows(s, t.first)[rid]).value), KeysFor(t, values), |t.indexes|)
    else
      0
  }

  /** The row can have the new values: they fit in place of the old record, and the disk has
      the pages that the indexes need for the new keys. */
  ghost predicate RoomForUpdate(s: Store, t: TableInfo, rid: RecordID, values: seq<Value>, capacity: nat) {
    FitsInPlace(s, t, rid, values) && |s| + UpdatePages(s, t, rid, values) <= capacity
  }

  /** What updating a row returns on a working disk. */
  ghost predicate UpdateStatusIs(s: Store, t: TableInfo, rid: RecordID, values: seq<Value>, status: StatusCode, capacity: nat) {
    if Insertable(t, values) then status == (if RoomForUpdate(s, t, rid, values, capacity) then OK else OUT_OF_MEMORY)
    else status == INVALID_ARGUMENT || (status == OUT_OF_MEMORY && RecordSize(values) > LIMIT16)
  }

  lemma UpdateStatusMeans(s: Store, t: TableInfo, rid: RecordID, values: seq<Value>, capacity: nat)
    ensures forall status: StatusCode :: UpdateStatusIs(s, t, rid, values, status, capacity) <==>
              if Insertable(t, values) then status == (if RoomForUpdate(s, t, rid, values, capacity) then OK else OUT_OF_MEMORY)
              else status == INVALID_ARGUMENT || (status == OUT_OF_MEMORY && RecordSize(values) > LIMIT16)
    ensures RoomForUpdate(s, t, rid, values, capacity) <==> FitsInPlace(s, t, rid, values) && |s| + UpdatePages(s, t, rid, values) <= capacity
  {
    hide Insertable, FitsInPlace, RecordSize, UpdatePages;
  }

  lemma UpdatePagesAre(s: Store, t: TableInfo, rid: RecordID, values: seq<Value>, oldRecord: Bytes, record: Bytes, olds: Keys, news: Keys)
    requires rid in HeapRows(s, t.first) && HeapRows(s, t.first)[rid] == oldRecord && KeysOf(t, oldRecord, olds) && KeysOf(t, record, news)
    requires Decode(t.schema, oldRecord).Some? && Decode(t.schema, record) == Some(values)
    ensures UpdatePages(s, t, rid, values) == RowChangePages(ViewOf(s, t), olds, news, |olds|) && |olds| == |news| == |t.indexes|
  {
    KeysAreFor(t, record, values, news);
    KeysAreFor(t, oldRecord, Decode(t.schema, oldRecord).value, olds);
    hide HeapRows, Decode, KeysFor, RowChangePages, ViewOf, RecordKey, KeyMatches;
  }

  /** Without a change of keys no page is needed, and never more than one for each index. */
  lemma UpdatePagesAreFew(s: Store, t: TableInfo, rid: RecordID, values: seq<Value>)
    ensures UpdatePages(s, t, rid, values) <= |t.indexes|
    ensures KeysStay(s, t, rid, values) ==> UpdatePages(s, t, rid, values) == 0
  {
    hide HeapRows, Decode, ViewOf, KeyOf;
    if rid in HeapRows(s, t.first) && Decode(t.schema, HeapRows(s, t.first)[rid]).Some? {
      var olds, news := KeysFor(t, Decode(t.schema, HeapRows(s, t.first)[rid]).value), KeysFor(t, values);
      PagesAreFew(ViewOf(s, t), olds, news, |t.indexes|);
      if KeysStay(s, t, rid, values) {
        assert olds == news;
        SameKeysNoPages(ViewOf(s, t), olds, |t.indexes|);
      }
    }
  }

  lemma {:induction false} SameKeysNoPages(v: View, keys: Keys, k: nat)
    requires k <= |keys|
    ensures RowChangePages(v, keys, keys, k) == 0
  {
    hide SlotOf;
    if k > 0 {
      SameKeysNoPages(v, keys, k - 1);
    }
  }
}
