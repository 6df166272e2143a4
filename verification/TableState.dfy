// What the pages of a table mean: rows, and for every index the key/record pairs of the
// rows.
module TableStates {
  import opened Common
  import opened BucketFormat
  import opened RecordFormat
  import opened RecordCodecs
  import opened IndexKeys
  import opened PageChains
  import opened HeapStates
  import opened IndexStates
  import opened IndexOutcomes

  /** An index of a table: the indexed column and the header page. */
  datatype IndexInfo = IndexInfo(column: nat, header: nat)

  datatype TableInfo = TableInfo(schema: Schema, first: nat, indexes: seq<IndexInfo>)

  // ---- Shape ----

  /** The pages of the heap file (owner 0) and of the indexes. */
  ghost function OwnerPages(s: Store, t: TableInfo, owner: nat): set<nat> {
    if owner == 0 then HeapPages(s, t.first)
    else if owner <= |t.indexes| then IndexPages(s, t.indexes[owner - 1].header)
    else {}
  }

  ghost predicate OwnersDisjoint(s: Store, t: TableInfo) {
    forall x: nat, y: nat :: x < y <= |t.indexes| ==> OwnerPages(s, t, x) !! OwnerPages(s, t, y)
  }

  ghost predicate OwnersOk(s: Store, t: TableInfo) {
    HeapOk(s, t.first) && forall i: nat :: i < |t.indexes| ==> IndexOk(s, t.indexes[i].header)
  }

  /** The heap file and the indexes are in order and share no page. */
  ghost predicate TableShape(s: Store, t: TableInfo) {
    OwnersOk(s, t) && OwnersDisjoint(s, t)
  }

  ghost function TablePages(s: Store, t: TableInfo): set<nat> {
    set o: nat, p: nat | o <= |t.indexes| && p in OwnerPages(s, t, o) :: p
  }

  /** A change of the pages of one table. */
  ghost predicate TableStep(a: Store, b: Store, t: TableInfo) {
    TableShape(a, t) && TableShape(b, t) && OwnChange(a, b, TablePages(a, t), TablePages(b, t))
  }

  /** Every page that has been allocated belongs to the table. */
  ghost predicate TableKeepsNew(a: Store, b: Store, t: TableInfo) {
    NewOwned(a, b, TablePages(b, t))
  }

  // ---- Contents ----

  /** The rows, and for every index its pairs, the buckets that have room, and the number
      of buckets. */
  datatype View = View(rows: Rows, pairs: seq<set<Pair>>, rooms: seq<set<nat>>, widths: seq<nat>)

  ghost function ViewOf(s: Store, t: TableInfo): (v: View)
    ensures |v.pairs| == |v.rooms| == |v.widths| == |t.indexes|
    ensures v.rows == HeapRows(s, t.first)
    ensures forall i: nat :: i < |t.indexes| ==>
              && v.pairs[i] == IndexPairs(s, t.indexes[i].header)
              && v.rooms[i] == Rooms(s, t.indexes[i].header)
              && v.widths[i] == Width(s, t.indexes[i].header)
  {
    View(HeapRows(s, t.first),
         seq(|t.indexes|, i requires 0 <= i < |t.indexes| => IndexPairs(s, t.indexes[i].header)),
         seq(|t.indexes|, i requires 0 <= i < |t.indexes| => Rooms(s, t.indexes[i].header)),
         seq(|t.indexes|, i requires 0 <= i < |t.indexes| => Width(s, t.indexes[i].header)))
  }

  // ---- Changes of one owner ----

  /** Owner `o` has changed, and the pages of the others are as before. */
  ghost predicate OwnerChange(a: Store, b: Store, t: TableInfo, o: nat) {
    && o <= |t.indexes|
    && OwnChange(a, b, OwnerPages(a, t, o), OwnerPages(b, t, o))
    && (forall x: nat :: x <= |t.indexes| && x != o ==> OwnerPages(b, t, x) == OwnerPages(a, t, x))
  }

  lemma OwnersAllocated(s: Store, t: TableInfo, o: nat)
    requires OwnersOk(s, t) && o <= |t.indexes|
    ensures forall p: nat :: p in OwnerPages(s, t, o) ==> p in s && p >= 1
  {
    hide IndexShape, HeapChain;
    if o > 0 {
      var h := t.indexes[o - 1].header;
      IndexChains(s, h);
      PagesAllocated(s, h, ChainsFor(s, h));
    } else {
      HeapIs(s, t.first, ChainOf(s, t.first));
      HeapAllocated(s, t.first, ChainOf(s, t.first));
    }
  }

  lemma HeapAllocated(s: Store, first: int, chain: seq<nat>)
    requires HeapChain(s, first, chain)
    ensures forall p: nat :: p in chain ==> p in s && p >= 1
  {
  }

  lemma OthersDisjoint(a: Store, b: Store, t: TableInfo, o: nat, x: nat)
    requires TableShape(a, t) && OwnerChange(a, b, t, o) && x <= |t.indexes| && x != o
    ensures OwnerPages(b, t, x) !! OwnerPages(b, t, o)
  {
    OwnersAllocated(a, t, x);
    hide OwnerPages, OwnersOk;
    if x < o {
      assert OwnerPages(a, t, x) !! OwnerPages(a, t, o);
    } else {
      assert OwnerPages(a, t, o) !! OwnerPages(a, t, x);
    }
    OthersKeep(a, b, OwnerPages(a, t, o), OwnerPages(b, t, o), OwnerPages(a, t, x));
  }

  lemma StillDisjoint(a: Store, b: Store, t: TableInfo, o: nat)
    requires TableShape(a, t) && OwnerChange(a, b, t, o)
    ensures OwnersDisjoint(b, t)
  {
    hide OwnerPages, OwnersOk, OwnChange;
    forall x: nat, y: nat | x < y <= |t.indexes| ensures OwnerPages(b, t, x) !! OwnerPages(b, t, y) {
      if x == o {
        OthersDisjoint(a, b, t, o, y);
      } else if y == o {
        OthersDisjoint(a, b, t, o, x);
      } else {
        assert OwnerPages(a, t, x) !! OwnerPages(a, t, y);
      }
    }
  }

  lemma OnlyOwnerGrows(a: Store, b: Store, t: TableInfo, o: nat)
    requires OwnerChange(a, b, t, o)
    ensures forall p: nat :: p in TablePages(a, t) ==> p in TablePages(b, t)
    ensures forall p: nat :: p in TablePages(b, t) && p !in TablePages(a, t) ==> p in OwnerPages(b, t, o) && p !in OwnerPages(a, t, o)
    ensures forall p: nat :: p in OwnerPages(a, t, o) ==> p in TablePages(a, t)
    ensures forall p: nat :: p in OwnerPages(b, t, o) ==> p in TablePages(b, t)
  {
    hide OwnerPages;
    forall p: nat | p in TablePages(a, t) ensures p in TablePages(b, t) {
      var x: nat :| x <= |t.indexes| && p in OwnerPages(a, t, x);
      assert p in OwnerPages(b, t, x);
    }
    forall p: nat | p in TablePages(b, t) && p !in TablePages(a, t) ensures p in OwnerPages(b, t, o) && p !in OwnerPages(a, t, o) {
      var x: nat :| x <= |t.indexes| && p in OwnerPages(b, t, x);
      assert p !in OwnerPages(a, t, x);
    }
  }

  lemma OwnerStep(a: Store, b: Store, t: TableInfo, o: nat)
    requires TableShape(a, t) && OwnersOk(b, t) && OwnerChange(a, b, t, o)
    ensures TableStep(a, b, t)
    ensures NewOwned(a, b, OwnerPages(b, t, o)) ==> TableKeepsNew(a, b, t)
  {
    hide *;
    StillDisjoint(a, b, t, o);
    OnlyOwnerGrows(a, b, t, o);
    OwnerChangeParts(a, b, t, o);
    WiderChange(a, b, OwnerPages(a, t, o), OwnerPages(b, t, o), TablePages(a, t), TablePages(b, t));
    MakeTableStep(a, b, t);
    MakeTableKeepsNew(a, b, t);
  }

  lemma OwnerChangeParts(a: Store, b: Store, t: TableInfo, o: nat)
    requires OwnerChange(a, b, t, o)
    ensures o <= |t.indexes| && OwnChange(a, b, OwnerPages(a, t, o), OwnerPages(b, t, o))
  {
    hide OwnChange, OwnerPages;
  }

  lemma WiderChange(a: Store, b: Store, before: set<nat>, after: set<nat>, all: set<nat>, allAfter: set<nat>)
    requires OwnChange(a, b, before, after)
    requires forall p: nat :: p in all ==> p in allAfter
    requires forall p: nat :: p in allAfter && p !in all ==> p in after && p !in before
    requires forall p: nat :: p in before ==> p in all
    requires forall p: nat :: p in after ==> p in allAfter
    ensures OwnChange(a, b, all, allAfter)
    ensures NewOwned(a, b, after) ==> NewOwned(a, b, allAfter)
  {
  }

  lemma MakeTableStep(a: Store, b: Store, t: TableInfo)
    requires TableShape(a, t) && OwnersOk(b, t) && OwnersDisjoint(b, t) && OwnChange(a, b, TablePages(a, t), TablePages(b, t))
    ensures TableStep(a, b, t)
  {
    hide OwnersOk, OwnersDisjoint, OwnChange, TablePages;
  }

  lemma MakeTableKeepsNew(a: Store, b: Store, t: TableInfo)
    ensures NewOwned(a, b, TablePages(b, t)) ==> TableKeepsNew(a, b, t)
  {
    hide NewOwned, TablePages;
  }

  lemma StepCompose(a: Store, b: Store, c: Store, t: TableInfo)
    requires TableStep(a, b, t) && TableStep(b, c, t)
    ensures TableStep(a, c, t)
    ensures TableKeepsNew(a, b, t) && TableKeepsNew(b, c, t) ==> TableKeepsNew(a, c, t)
  {
    hide TableShape, TablePages;
  }

  lemma StepNothing(a: Store, t: TableInfo)
    requires TableShape(a, t)
    ensures TableStep(a, a, t) && TableKeepsNew(a, a, t)
  {
    hide TableShape, TablePages;
  }

  /** A change of the heap file leaves the indexes alone. */
  lemma HeapLifts(a: Store, b: Store, t: TableInfo, rows: Rows)
    requires TableShape(a, t) && HeapBecomes(a, b, t.first, rows)
    ensures TableStep(a, b, t) && ViewOf(b, t) == ViewOf(a, t).(rows := rows)
    ensures HeapKeepsNew(a, b, t.first) ==> TableKeepsNew(a, b, t)
  {
    forall i: nat | i < |t.indexes|
      ensures IndexOk(b, t.indexes[i].header)
      ensures IndexPairs(b, t.indexes[i].header) == IndexPairs(a, t.indexes[i].header)
      ensures IndexPages(b, t.indexes[i].header) == IndexPages(a, t.indexes[i].header)
      ensures Width(b, t.indexes[i].header) == Width(a, t.indexes[i].header)
      ensures Rooms(b, t.indexes[i].header) == Rooms(a, t.indexes[i].header)
    {
      assert OwnerPages(a, t, 0) !! OwnerPages(a, t, i + 1);
      hide HeapPages, IndexPages, HeapOk, IndexOk, HeapRows, IndexPairs, Rooms, Width;
      IndexFrame(a, b, t.indexes[i].header);
    }
    hide HeapPages, IndexPages, HeapOk, IndexOk, HeapRows, IndexPairs, Rooms, Width;
    assert OwnerChange(a, b, t, 0);
    OwnerStep(a, b, t, 0);
    assert ViewOf(b, t).pairs == ViewOf(a, t).pairs;
    assert ViewOf(b, t).rooms == ViewOf(a, t).rooms;
    assert ViewOf(b, t).widths == ViewOf(a, t).widths;
  }

  /** Index `j` is as before. */
  ghost predicate IndexSame(a: Store, b: Store, t: TableInfo, j: nat) {
    j < |t.indexes| ==>
      && IndexOk(b, t.indexes[j].header)
      && IndexPairs(b, t.indexes[j].header) == IndexPairs(a, t.indexes[j].header)
      && IndexPages(b, t.indexes[j].header) == IndexPages(a, t.indexes[j].header)
      && Width(b, t.indexes[j].header) == Width(a, t.indexes[j].header)
      && Rooms(b, t.indexes[j].header) == Rooms(a, t.indexes[j].header)
  }

  lemma OtherIndexKept(a: Store, b: Store, t: TableInfo, i: nat, j: nat)
    requires TableShape(a, t) && i < |t.indexes| && j < |t.indexes| && j != i
    requires OwnChange(a, b, IndexPages(a, t.indexes[i].header), IndexPages(b, t.indexes[i].header))
    ensures IndexSame(a, b, t, j)
  {
    if i < j {
      assert OwnerPages(a, t, i + 1) !! OwnerPages(a, t, j + 1);
    } else {
      assert OwnerPages(a, t, j + 1) !! OwnerPages(a, t, i + 1);
    }
    hide HeapPages, IndexPages, HeapOk, IndexOk, HeapRows, IndexPairs, Rooms, Width;
    IndexFrame(a, b, t.indexes[j].header);
  }

  lemma HeapKept(a: Store, b: Store, t: TableInfo, i: nat)
    requires TableShape(a, t) && i < |t.indexes|
    requires OwnChange(a, b, IndexPages(a, t.indexes[i].header), IndexPages(b, t.indexes[i].header))
    ensures HeapOk(b, t.first) && HeapPages(b, t.first) == HeapPages(a, t.first) && HeapRows(b, t.first) == HeapRows(a, t.first)
    ensures forall p: nat :: p in HeapPages(a, t.first) ==> p in a && p in b && b[p] == a[p]
  {
    OwnersAllocated(a, t, 0);
    assert OwnerPages(a, t, 0) !! OwnerPages(a, t, i + 1);
    hide HeapPages, IndexPages, HeapOk, IndexOk, HeapRows;
    HeapFrame(a, b, t.first);
  }

  lemma IndexOwner(a: Store, b: Store, t: TableInfo, i: nat)
    requires TableShape(a, t) && i < |t.indexes| && IndexOk(b, t.indexes[i].header)
    requires OwnChange(a, b, IndexPages(a, t.indexes[i].header), IndexPages(b, t.indexes[i].header))
    requires HeapOk(b, t.first) && HeapPages(b, t.first) == HeapPages(a, t.first)
    requires forall j: nat :: j != i ==> IndexSame(a, b, t, j)
    ensures OwnersOk(b, t) && OwnerChange(a, b, t, i + 1)
  {
    hide HeapPages, IndexPages, HeapOk, IndexOk, IndexPairs, Rooms, Width, TableShape, OwnChange;
    forall j: nat | j < |t.indexes| ensures IndexOk(b, t.indexes[j].header) {
      if j != i { assert IndexSame(a, b, t, j); }
    }
    forall x: nat | x <= |t.indexes| && x != i + 1 ensures OwnerPages(b, t, x) == OwnerPages(a, t, x) {
      if x > 0 { assert IndexSame(a, b, t, x - 1); }
    }
  }

  lemma IndexView(a: Store, b: Store, t: TableInfo, i: nat, pairs: set<Pair>)
    requires i < |t.indexes| && IndexPairs(b, t.indexes[i].header) == pairs
    requires Width(b, t.indexes[i].header) == Width(a, t.indexes[i].header)
    requires HeapRows(b, t.first) == HeapRows(a, t.first)
    requires forall j: nat :: j != i ==> IndexSame(a, b, t, j)
    ensures var v := ViewOf(a, t);
            ViewOf(b, t) == v.(pairs := v.pairs[i := pairs], rooms := v.rooms[i := Rooms(b, t.indexes[i].header)])
  {
    hide HeapRows, IndexPairs, Rooms, Width, IndexOk, IndexPages;
    var v := ViewOf(a, t);
    forall j: nat | j < |t.indexes|
      ensures ViewOf(b, t).pairs[j] == v.pairs[i := pairs][j]
      ensures ViewOf(b, t).rooms[j] == v.rooms[i := Rooms(b, t.indexes[i].header)][j]
      ensures ViewOf(b, t).widths[j] == v.widths[j]
    {
      if j != i { assert IndexSame(a, b, t, j); }
    }
  }

  /** A change of one index leaves the rows and the other indexes alone. */
  lemma IndexLifts(a: Store, b: Store, t: TableInfo, i: nat, pairs: set<Pair>)
    requires TableShape(a, t) && i < |t.indexes| && IndexBecomes(a, b, t.indexes[i].header, pairs)
    ensures TableStep(a, b, t)
    ensures var v := ViewOf(a, t);
            ViewOf(b, t) == v.(pairs := v.pairs[i := pairs], rooms := v.rooms[i := Rooms(b, t.indexes[i].header)])
    ensures NewOwned(a, b, IndexPages(b, t.indexes[i].header)) ==> TableKeepsNew(a, b, t)
  {
    hide *;
    IndexBecomesParts(a, b, t.indexes[i].header, pairs);
    HeapKept(a, b, t, i);
    forall j: nat | j != i ensures IndexSame(a, b, t, j) {
      if j < |t.indexes| {
        OtherIndexKept(a, b, t, i, j);
      } else {
        NoIndexSame(a, b, t, j);
      }
    }
    IndexOwner(a, b, t, i);
    OwnerStep(a, b, t, i + 1);
    OwnerOfIndex(b, t, i);
    IndexView(a, b, t, i, pairs);
  }

  lemma NoIndexSame(a: Store, b: Store, t: TableInfo, j: nat)
    requires j >= |t.indexes|
    ensures IndexSame(a, b, t, j)
  {
  }

  lemma OwnerOfIndex(b: Store, t: TableInfo, i: nat)
    requires i < |t.indexes|
    ensures OwnerPages(b, t, i + 1) == IndexPages(b, t.indexes[i].header)
  {
  }

  lemma IndexBecomesParts(a: Store, b: Store, h: nat, pairs: set<Pair>)
    requires IndexBecomes(a, b, h, pairs)
    ensures IndexOk(a, h) && IndexOk(b, h) && OwnChange(a, b, IndexPages(a, h), IndexPages(b, h))
    ensures IndexPairs(b, h) == pairs && Width(b, h) == Width(a, h)
  {
    hide IndexOk, IndexPages, IndexPairs, Width, OwnChange;
  }

  // ---- What an index operation does to the view ----

  ghost predicate ViewInserted(v: View, w: View, i: nat, pair: Pair, status: StatusCode) {
    && i < |v.pairs| == |v.rooms| == |v.widths| && |w.rooms| == |v.rooms|
    && w == v.(pairs := v.pairs[i := if status == OK then v.pairs[i] + {pair} else v.pairs[i]], rooms := v.rooms[i := w.rooms[i]])
    && w.rooms[i] - {SlotOf(pair.key, v.widths[i])} == v.rooms[i] - {SlotOf(pair.key, v.widths[i])}
  }

  lemma InsertLifts(a: Store, b: Store, t: TableInfo, i: nat, pair: Pair, status: StatusCode)
    requires TableShape(a, t) && i < |t.indexes| && PairInserted(a, b, t.indexes[i].header, pair, status)
    ensures TableStep(a, b, t) && ViewInserted(ViewOf(a, t), ViewOf(b, t), i, pair, status)
  {
    var h := t.indexes[i].header;
    hide TableShape, TableStep, TableKeepsNew, IndexBecomes, SlotOf, Rooms, IndexPairs, Width;
    IndexLifts(a, b, t, i, if status == OK then IndexPairs(a, h) + {pair} else IndexPairs(a, h));
  }

  lemma InsertLiftsReliably(a: Store, b: Store, t: TableInfo, i: nat, pair: Pair, status: StatusCode)
    requires TableShape(a, t) && i < |t.indexes| && PairInserted(a, b, t.indexes[i].header, pair, status)
    requires PairInsertedReliably(a, b, t.indexes[i].header, pair, status)
    ensures TableKeepsNew(a, b, t)
    ensures status != OK ==> b == a && status in {INVALID_ARGUMENT, OUT_OF_MEMORY}
    ensures Indexable(pair) ==> status != INVALID_ARGUMENT
    ensures Indexable(pair) && SlotOf(pair.key, ViewOf(a, t).widths[i]) in ViewOf(a, t).rooms[i] ==> status == OK
  {
    var h := t.indexes[i].header;
    hide TableShape, TableStep, TableKeepsNew, IndexBecomes, SlotOf, Rooms, IndexPairs, Width, Indexable, IndexPages;
    IndexLifts(a, b, t, i, if status == OK then IndexPairs(a, h) + {pair} else IndexPairs(a, h));
  }

  ghost predicate ViewRemoved(v: View, w: View, i: nat, pair: Pair, status: StatusCode) {
    && i < |v.pairs| == |v.rooms| == |v.widths| && |w.rooms| == |v.rooms|
    && w == v.(pairs := v.pairs[i := if status == OK then v.pairs[i] - {pair} else v.pairs[i]], rooms := v.rooms[i := w.rooms[i]])
    && v.rooms[i] <= w.rooms[i] && w.rooms[i] - {SlotOf(pair.key, v.widths[i])} == v.rooms[i] - {SlotOf(pair.key, v.widths[i])}
    && (status == OK ==> SlotOf(pair.key, v.widths[i]) in w.rooms[i] && pair in v.pairs[i])
    && (status == NOT_FOUND ==> pair !in v.pairs[i])
  }

  lemma RemoveLifts(a: Store, b: Store, t: TableInfo, i: nat, pair: Pair, status: StatusCode)
    requires TableShape(a, t) && i < |t.indexes| && PairsRemoved(a, b, t.indexes[i].header, pair.key, Some(pair.rid), status)
    ensures TableStep(a, b, t) && TableKeepsNew(a, b, t) && ViewRemoved(ViewOf(a, t), ViewOf(b, t), i, pair, status)
    ensures |pair.key| <= MAX_KEY_LENGTH ==> status != INVALID_ARGUMENT
  {
    var h := t.indexes[i].header;
    RemovedPair(a, b, h, pair, status);
    hide TableShape, TableStep, TableKeepsNew, IndexBecomes, SlotOf, Rooms, IndexPairs, Width, IndexPages, Matching;
    IndexLifts(a, b, t, i, IndexPairs(b, h));
    assert NewOwned(a, b, IndexPages(b, h));
  }

  lemma RemovedPair(a: Store, b: Store, h: nat, pair: Pair, status: StatusCode)
    requires PairsRemoved(a, b, h, pair.key, Some(pair.rid), status)
    ensures status == OK ==> IndexPairs(b, h) == IndexPairs(a, h) - {pair} && pair in IndexPairs(a, h)
    ensures status == NOT_FOUND ==> pair !in IndexPairs(a, h)
    ensures status != OK ==> b == a
  {
    hide IndexBecomes, SlotOf, Rooms, IndexPairs, Width, IndexPages;
    assert forall x: Pair :: Matches(x, pair.key, Some(pair.rid)) <==> x == pair;
    assert pair in IndexPairs(a, h) ==> pair in Matching(IndexPairs(a, h), pair.key, Some(pair.rid));
  }

  // ---- Rows and keys agree ----

  datatype KeyResult = NoKey | HasKey(key: Bytes) | BadKey

  /** The index key of a record: none if the column is NULL. */
  function RecordKey(schema: Schema, record: Bytes, column: nat): KeyResult {
    match ValueOf(schema, record, column)
    case None => BadKey
    case Some(value) =>
      if value.Null? then NoKey else match KeyOf(value) case None => BadKey case Some(key) => HasKey(key)
  }

  /** The pair that a record contributes to an index, if any. */
  function RecordPairs(schema: Schema, record: Bytes, column: nat, rid: RecordID): set<Pair> {
    match RecordKey(schema, record, column)
    case HasKey(key) => {Pair(key, rid)}
    case _ => {}
  }

  ghost function RowPairs(rows: Rows, schema: Schema, column: nat): set<Pair> {
    set rid, pair | rid in rows && pair in RecordPairs(schema, rows[rid], column, rid) :: pair
  }

  ghost predicate Keyed(record: Bytes, t: TableInfo) {
    forall i: nat :: i < |t.indexes| ==> !RecordKey(t.schema, record, t.indexes[i].column).BadKey?
  }

  /** A record of the table: it can be decoded, and so can its index keys. */
  ghost predicate Stored(record: Bytes, t: TableInfo) {
    Decode(t.schema, record).Some? && Keyed(record, t)
  }

  /** Every index holds exactly the pairs of the rows whose column is not NULL. */
  ghost predicate Agrees(v: View, t: TableInfo) {
    && |v.pairs| == |t.indexes|
    && (forall rid :: rid in v.rows ==> Stored(v.rows[rid], t))
    && (forall i: nat :: i < |t.indexes| ==> v.pairs[i] == RowPairs(v.rows, t.schema, t.indexes[i].column))
  }

  /** A table in order: its parts are, and rows and indexes agree. */
  ghost predicate TableOk(s: Store, t: TableInfo) {
    TableShape(s, t) && Agrees(ViewOf(s, t), t)
  }

  lemma PairsOfNewRow(rows: Rows, schema: Schema, column: nat, rid: RecordID, record: Bytes)
    requires rid !in rows
    ensures RowPairs(rows[rid := record], schema, column) == RowPairs(rows, schema, column) + RecordPairs(schema, record, column, rid)
  {
    hide RecordKey;
    var more := rows[rid := record];
    forall pair ensures pair in RowPairs(more, schema, column)
                   <==> pair in RowPairs(rows, schema, column) + RecordPairs(schema, record, column, rid) {
      if pair in RowPairs(rows, schema, column) {
        var r :| r in rows && pair in RecordPairs(schema, rows[r], column, r);
        assert r in more && more[r] == rows[r];
      }
      if pair in RecordPairs(schema, record, column, rid) {
        assert rid in more && more[rid] == record;
      }
    }
  }

  lemma PairsOfLostRow(rows: Rows, schema: Schema, column: nat, rid: RecordID)
    requires rid in rows
    ensures RowPairs(rows - {rid}, schema, column) == RowPairs(rows, schema, column) - RecordPairs(schema, rows[rid], column, rid)
    ensures RecordPairs(schema, rows[rid], column, rid) <= RowPairs(rows, schema, column)
  {
    hide RecordKey;
    var fewer := rows - {rid};
    forall pair ensures pair in RowPairs(fewer, schema, column)
                   <==> pair in RowPairs(rows, schema, column) - RecordPairs(schema, rows[rid], column, rid) {
      if pair in RowPairs(rows, schema, column) && pair !in RecordPairs(schema, rows[rid], column, rid) {
        var r :| r in rows && pair in RecordPairs(schema, rows[r], column, r);
        assert r in fewer && fewer[r] == rows[r];
      }
    }
  }

  lemma PairsOfChangedRow(rows: Rows, schema: Schema, column: nat, rid: RecordID, record: Bytes)
    requires rid in rows
    ensures RowPairs(rows[rid := record], schema, column)
         == RowPairs(rows, schema, column) - RecordPairs(schema, rows[rid], column, rid) + RecordPairs(schema, record, column, rid)
    ensures RecordPairs(schema, rows[rid], column, rid) <= RowPairs(rows, schema, column)
  {
    PairsOfLostRow(rows, schema, column, rid);
    assert (rows - {rid})[rid := record] == rows[rid := record];
    hide RowPairs, RecordPairs;
    PairsOfNewRow(rows - {rid}, schema, column, rid, record);
  }

  lemma NoPairsOf(rows: Rows, schema: Schema, column: nat, rid: RecordID, key: Bytes)
    requires rid !in rows
    ensures Pair(key, rid) !in RowPairs(rows, schema, column)
  {
    hide RecordKey;
  }
}
