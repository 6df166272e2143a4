// Building an index over the rows of a table: what the store looks like meanwhile, and
// what the table is afterwards.
module IndexBuilds {
  import opened Common
  import opened BucketFormat
  import SlottedFormat
  import opened RecordFormat
  import opened RecordCodecs
  import opened PageChains
  import opened HeapStates
  import opened HeapScans
  import opened IndexStates
  import opened IndexOutcomes
  import opened IndexCounts
  import opened TableStates
  import opened TableOutcomes
  import opened Databases

  /** Nothing that was allocated in `a` has changed, and the index with header page `h`
      owns none of it. */
  ghost predicate Building(a: Store, s: Store, h: nat) {
    IndexOk(s, h) && forall p: nat :: p in a ==> p in s && s[p] == a[p] && p !in IndexPages(s, h)
  }

  ghost predicate AllKeyed(rows: Rows, schema: Schema, column: nat) {
    forall rid :: rid in rows ==> !RecordKey(schema, rows[rid], column).BadKey?
  }

  /** A complete index of a column has been built on new pages, and nothing else has changed. */
  ghost predicate IndexAdded(a: Store, s: Store, schema: Schema, first: int, column: nat, h: nat) {
    && h >= 1 && Building(a, s, h) && NewOwned(a, s, IndexPages(s, h))
    && IndexPairs(s, h) == RowPairs(HeapRows(a, first), schema, column) && AllKeyed(HeapRows(a, first), schema, column)
  }

  lemma AddedParts(a: Store, s: Store, schema: Schema, first: int, column: nat, h: nat)
    requires IndexAdded(a, s, schema, first, column, h)
    ensures h >= 1 && Building(a, s, h) && NewOwned(a, s, IndexPages(s, h)) && IndexOk(s, h)
    ensures IndexPairs(s, h) == RowPairs(HeapRows(a, first), schema, column)
    ensures forall rid :: rid in HeapRows(a, first) ==> !RecordKey(schema, HeapRows(a, first)[rid], column).BadKey?
  {
    hide IndexOk, NewOwned, IndexPages, IndexPairs, RowPairs, HeapRows, RecordKey;
  }

  lemma BuildingStart(a: Store, s: Store, h: nat, n: nat)
    requires IndexCreated(a, s, h, n)
    ensures Building(a, s, h) && NewOwned(a, s, IndexPages(s, h)) && IndexPairs(s, h) == {} && h >= 1
  {
    hide IndexOk, IndexPairs, IndexPages, Width;
  }

  lemma BuildingStep(a: Store, s: Store, u: Store, h: nat, pair: Pair, status: StatusCode)
    requires Building(a, s, h) && PairInserted(s, u, h, pair, status)
    ensures Building(a, u, h)
    ensures IndexPairs(u, h) == if status == OK then IndexPairs(s, h) + {pair} else IndexPairs(s, h)
    ensures NewOwned(a, s, IndexPages(s, h)) && NewOwned(s, u, IndexPages(u, h)) ==> NewOwned(a, u, IndexPages(u, h))
  {
    hide IndexOk, IndexPairs, IndexPages, Width, Rooms, SlotOf;
    assert OwnChange(s, u, IndexPages(s, h), IndexPages(u, h));
  }

  lemma ReliableStep(s: Store, u: Store, h: nat, pair: Pair, status: StatusCode)
    requires PairInsertedReliably(s, u, h, pair, status)
    ensures NewOwned(s, u, IndexPages(u, h)) && status in {OK, INVALID_ARGUMENT, OUT_OF_MEMORY}
    ensures Indexable(pair) ==> status != INVALID_ARGUMENT
  {
    hide IndexPairs, IndexPages, Width, Rooms, SlotOf, Indexable, NewOwned;
  }

  /** The bucket pages of an index of 64 buckets that has been filled with these pairs. */
  ghost function IndexNeeds(pairs: set<Pair>): nat {
    PagesNeeded(pairs, 64, 64)
  }

  /** The store has grown by the header page and the bucket pages that the pairs need. */
  ghost predicate Counted(a: Store, s: Store, h: nat) {
    Width(s, h) == 64 && |s| == |a| + 1 + IndexNeeds(IndexPairs(s, h))
  }

  lemma CountedStart(a: Store, s: Store, h: nat)
    requires IndexCreated(a, s, h, 64)
    ensures Counted(a, s, h)
  {
    NothingNeeded(64, 64);
    hide IndexOk, IndexPairs, IndexPages, Width, PagesNeeded;
  }

  /** Only the pages of the index are new, so it has just the pages that it needs. */
  lemma CountedIsTight(a: Store, s: Store, h: nat)
    requires Counted(a, s, h) && Building(a, s, h) && NewOwned(a, s, IndexPages(s, h))
    ensures Tight(s, h)
  {
    BuildingUndone(a, s, h);
    BuildingIn(a, s, h);
    SizeWithout(a, s, IndexPages(s, h));
    hide Building, NewOwned, IndexPages, IndexPairs, Width, PagesNeeded;
  }

  lemma BuildingIn(a: Store, s: Store, h: nat)
    requires Building(a, s, h)
    ensures IndexPages(s, h) <= s.Keys && IndexOk(s, h)
  {
    hide IndexShape;
    IndexChains(s, h);
    PagesAllocated(s, h, ChainsFor(s, h));
  }

  lemma SizeWithout(a: Store, s: Store, pages: set<nat>)
    requires s - pages == a && pages <= s.Keys
    ensures |s| == |a| + |pages|
  {
    assert s.Keys == a.Keys + pages;
    assert |s| == |s.Keys| && |a| == |a.Keys|;
  }

  /** One more pair: the store has what the pairs need then, or the disk cannot hold it. */
  lemma CountedStep(a: Store, s: Store, u: Store, h: nat, pair: Pair, status: StatusCode, capacity: nat)
    requires Counted(a, s, h) && Building(a, s, h) && NewOwned(a, s, IndexPages(s, h)) && Indexable(pair)
    requires PairInserted(s, u, h, pair, status) && PairPlaced(s, u, h, pair, status, capacity)
    ensures if status == OK then Counted(a, u, h) else |a| + 1 + IndexNeeds(IndexPairs(s, h) + {pair}) > capacity
  {
    hide *;
    CountedIsTight(a, s, h);
    CountedParts(a, s, h);
    CountedParts(a, u, h);
    InsertedParts(s, u, h, pair, status);
    if pair in IndexPairs(s, h) {
      PlacedAgain(s, u, h, pair, status, capacity);
      assert IndexPairs(s, h) + {pair} == IndexPairs(s, h);
    } else {
      InsertWhenTight(s, u, h, pair, status, capacity);
      NeedsAre(IndexPairs(s, h));
      NeedsAre(IndexPairs(s, h) + {pair});
    }
  }

  lemma CountedParts(a: Store, s: Store, h: nat)
    ensures Counted(a, s, h) <==> Width(s, h) == 64 && |s| == |a| + 1 + IndexNeeds(IndexPairs(s, h))
  {
    hide Width, IndexPairs, IndexNeeds;
  }

  lemma NeedsAre(pairs: set<Pair>)
    ensures IndexNeeds(pairs) == PagesNeeded(pairs, 64, 64)
  {
    hide PagesNeeded;
  }

  lemma InsertedParts(s: Store, u: Store, h: nat, pair: Pair, status: StatusCode)
    requires PairInserted(s, u, h, pair, status)
    ensures IndexPairs(u, h) == if status == OK then IndexPairs(s, h) + {pair} else IndexPairs(s, h)
    ensures Width(u, h) == Width(s, h)
  {
    hide IndexOk, IndexPairs, IndexPages, Width, Rooms, SlotOf, OwnChange;
  }

  lemma PlacedAgain(s: Store, u: Store, h: nat, pair: Pair, status: StatusCode, capacity: nat)
    requires PairPlaced(s, u, h, pair, status, capacity) && pair in IndexPairs(s, h) && Indexable(pair)
    ensures status == OK && |u| == |s|
  {
    hide IndexPairs, Width, Rooms, SlotOf, Indexable;
  }

  /** Fewer pairs need no more pages. */
  lemma SomeRowsNeed(rows: Rows, schema: Schema, column: nat, rids: seq<RecordID>)
    ensures IndexNeeds(PairsOfRows(rows, schema, column, rids)) <= IndexNeeds(RowPairs(rows, schema, column))
  {
    SomeRowsPairs(rows, schema, column, rids);
    hide PairsOfRows, RowPairs;
    NeededGrows(PairsOfRows(rows, schema, column, rids), RowPairs(rows, schema, column), 64, 64);
  }

  lemma SomeRowsPairs(rows: Rows, schema: Schema, column: nat, rids: seq<RecordID>)
    ensures PairsOfRows(rows, schema, column, rids) <= RowPairs(rows, schema, column)
  {
    hide RecordPairs;
  }

  /** At most a page for every row. */
  lemma RowsNeed(rows: Rows, schema: Schema, column: nat)
    ensures IndexNeeds(RowPairs(rows, schema, column)) <= |rows|
  {
    hide *;
    var pairs := RowPairs(rows, schema, column);
    NeedsAre(pairs);
    NeededIsSmall(pairs, 64, 64);
    AllInBuckets(pairs);
    OnePairEach(rows, schema, column);
  }

  lemma AllInBuckets(pairs: set<Pair>)
    ensures (set pair | pair in pairs && SlotOf(pair.key, 64) < 64) == pairs
  {
    hide StableHash;
  }

  lemma {:induction false} OnePairEach(rows: Rows, schema: Schema, column: nat)
    ensures |RowPairs(rows, schema, column)| <= |rows|
    decreases |rows|
  {
    NoRowNoPair(rows, schema, column);
    hide *;
    if rid :| rid in rows {
      PairsOfLostRow(rows, schema, column, rid);
      OneRowFewer(rows, rid);
      OnePairEach(rows - {rid}, schema, column);
      OnePair(schema, rows[rid], column, rid);
      OneMorePair(RowPairs(rows, schema, column), RecordPairs(schema, rows[rid], column, rid));
    }
  }

  lemma NoRowNoPair(rows: Rows, schema: Schema, column: nat)
    ensures (forall rid :: rid !in rows) ==> |RowPairs(rows, schema, column)| == 0
  {
    hide RecordPairs;
    if forall rid :: rid !in rows {
      assert RowPairs(rows, schema, column) == {};
    }
  }

  lemma OneRowFewer(rows: Rows, rid: RecordID)
    requires rid in rows
    ensures |rows - {rid}| == |rows| - 1
  {
    assert rows.Keys == (rows - {rid}).Keys + {rid};
    assert |rows.Keys| == |rows| && |(rows - {rid}).Keys| == |rows - {rid}|;
  }

  lemma OneMorePair(pairs: set<Pair>, own: set<Pair>)
    requires own <= pairs && |own| <= 1
    ensures |pairs| <= |pairs - own| + 1
  {
    assert pairs == (pairs - own) + own;
  }

  lemma OnePair(schema: Schema, record: Bytes, column: nat, rid: RecordID)
    ensures |RecordPairs(schema, record, column, rid)| <= 1
  {
    hide RecordKey;
  }

  /** Once the pages of the index are gone, everything is as before. */
  lemma BuildingUndone(a: Store, s: Store, h: nat)
    requires Building(a, s, h) && NewOwned(a, s, IndexPages(s, h))
    ensures s - IndexPages(s, h) == a
  {
    hide IndexOk, IndexPages;
  }

  lemma GivenBack(a: Store, s: Store, b: Store, h: nat)
    requires Building(a, s, h) && NewOwned(a, s, IndexPages(s, h)) && Freed(s, b, IndexPages(s, h), true)
    ensures b == a
  {
    hide IndexOk, IndexPages;
    FreedExactly(s, b, IndexPages(s, h));
    BuildingUndone(a, s, h);
  }

  lemma BuildingPages(a: Store, s: Store, h: nat)
    requires Building(a, s, h)
    ensures IndexOk(s, h) && forall p: nat :: p in a ==> p in s && s[p] == a[p]
  {
    hide IndexOk, IndexPages;
  }

  /** The pages of an index under construction were not pinned, since they were not there. */
  lemma NotPinnedYet(a: Store, s: Store, h: nat, pins: map<nat, int>)
    requires Building(a, s, h) && forall p :: p in pins ==> p in a
    ensures forall p: nat :: p in IndexPages(s, h) ==> p !in pins
  {
    hide IndexOk, IndexPages;
  }

  /** The table is meanwhile as it was. */
  lemma TableMeanwhile(a: Store, s: Store, t: TableInfo, h: nat)
    requires TableOk(a, t) && Building(a, s, h)
    ensures HeapOk(s, t.first) && HeapRows(s, t.first) == HeapRows(a, t.first) && ScanOrder(s, t.first) == ScanOrder(a, t.first)
  {
    hide *;
    TableOkParts(a, t);
    BuildingPages(a, s, h);
    HeapPagesAllocated(a, t);
    HeapFrame(a, s, t.first);
    ScanFrame(a, s, t.first);
  }

  lemma HeapPagesAllocated(a: Store, t: TableInfo)
    requires TableShape(a, t)
    ensures forall p: nat :: p in HeapPages(a, t.first) ==> p in a && p >= 1
  {
    OwnersAllocated(a, t, 0);
    hide HeapPages, IndexPages, OwnersOk, OwnersDisjoint;
    assert OwnerPages(a, t, 0) == HeapPages(a, t.first);
  }

  // ---- The pairs found so far ----

  /** The pairs of the rows `rids`. */
  ghost function PairsOfRows(rows: Rows, schema: Schema, column: nat, rids: seq<RecordID>): set<Pair> {
    set rid, pair | rid in rids && rid in rows && pair in RecordPairs(schema, rows[rid], column, rid) :: pair
  }

  ghost predicate KeyedRows(rows: Rows, schema: Schema, column: nat, rids: seq<RecordID>) {
    forall rid :: rid in rids && rid in rows ==> !RecordKey(schema, rows[rid], column).BadKey?
  }

  lemma NoRowsYet(rows: Rows, schema: Schema, column: nat, order: seq<RecordID>)
    ensures PairsOfRows(rows, schema, column, order[..0]) == {} && KeyedRows(rows, schema, column, order[..0])
  {
    hide RecordPairs, RecordKey;
  }

  lemma OneMoreRow(rows: Rows, schema: Schema, column: nat, order: seq<RecordID>, k: nat, key: Option<Bytes>)
    requires k < |order| && order[k] in rows && KeyMatches(key, RecordKey(schema, rows[order[k]], column))
    requires KeyedRows(rows, schema, column, order[..k])
    ensures PairsOfRows(rows, schema, column, order[..k + 1]) == PairsOfRows(rows, schema, column, order[..k]) + KeySet(key, order[k])
    ensures KeyedRows(rows, schema, column, order[..k + 1])
  {
    assert order[..k + 1] == order[..k] + [order[k]];
    assert RecordPairs(schema, rows[order[k]], column, order[k]) == KeySet(key, order[k]);
    hide RecordKey, KeySet, RecordPairs, KeyMatches;
    forall pair
      ensures pair in PairsOfRows(rows, schema, column, order[..k + 1])
         <==> pair in PairsOfRows(rows, schema, column, order[..k]) || pair in RecordPairs(schema, rows[order[k]], column, order[k])
    {
      if pair in PairsOfRows(rows, schema, column, order[..k]) {
        var rid :| rid in order[..k] && rid in rows && pair in RecordPairs(schema, rows[rid], column, rid);
        assert rid in order[..k + 1];
      }
      if pair in RecordPairs(schema, rows[order[k]], column, order[k]) {
        assert order[k] in order[..k + 1];
      }
    }
  }

  lemma AllRowsFound(s: Store, first: int, schema: Schema, column: nat)
    requires HeapOk(s, first)
    ensures PairsOfRows(HeapRows(s, first), schema, column, ScanOrder(s, first)) == RowPairs(HeapRows(s, first), schema, column)
    ensures KeyedRows(HeapRows(s, first), schema, column, ScanOrder(s, first)) ==>
              forall rid :: rid in HeapRows(s, first) ==> !RecordKey(schema, HeapRows(s, first)[rid], column).BadKey?
  {
    ScanListsEachRowOnce(s, first);
    hide HeapOk, HeapRows, ScanOrder, RecordPairs, RecordKey;
    var rows, order := HeapRows(s, first), ScanOrder(s, first);
    forall pair | pair in RowPairs(rows, schema, column) ensures pair in PairsOfRows(rows, schema, column, order) {
      var rid :| rid in rows && pair in RecordPairs(schema, rows[rid], column, rid);
      assert rid in order;
    }
  }

  // ---- The table with its new index ----

  function WithIndex(t: TableInfo, column: nat, h: nat): TableInfo {
    t.(indexes := t.indexes + [IndexInfo(column, h)])
  }

  lemma WithIndexOwners(s: Store, t: TableInfo, column: nat, h: nat)
    ensures forall o: nat :: o <= |t.indexes| ==> OwnerPages(s, WithIndex(t, column, h), o) == OwnerPages(s, t, o)
    ensures OwnerPages(s, WithIndex(t, column, h), |t.indexes| + 1) == IndexPages(s, h)
  {
    hide HeapPages, IndexPages;
  }

  lemma WithIndexPages(s: Store, t: TableInfo, column: nat, h: nat)
    ensures TablePages(s, WithIndex(t, column, h)) == TablePages(s, t) + IndexPages(s, h)
  {
    WithIndexOwners(s, t, column, h);
    hide OwnerPages, IndexPages;
    var t2 := WithIndex(t, column, h);
    assert |t2.indexes| == |t.indexes| + 1;
    hide WithIndex;
    forall p: nat ensures p in TablePages(s, t2) <==> p in TablePages(s, t) || p in IndexPages(s, h) {
      if p in TablePages(s, t2) {
        var o: nat :| o <= |t2.indexes| && p in OwnerPages(s, t2, o);
        assert o <= |t.indexes| ==> p in OwnerPages(s, t, o);
      }
      if p in TablePages(s, t) {
        var o: nat :| o <= |t.indexes| && p in OwnerPages(s, t, o);
        assert p in OwnerPages(s, t2, o);
      }
      if p in IndexPages(s, h) {
        assert p in OwnerPages(s, t2, |t.indexes| + 1);
      }
    }
  }

  lemma WithIndexShape(s: Store, t: TableInfo, column: nat, h: nat)
    requires TableShape(s, t) && IndexOk(s, h) && IndexPages(s, h) !! TablePages(s, t)
    ensures TableShape(s, WithIndex(t, column, h))
  {
    WithIndexOwners(s, t, column, h);
    hide OwnerPages, IndexPages, HeapOk, IndexOk;
    var t2 := WithIndex(t, column, h);
    forall x: nat, y: nat | x < y <= |t2.indexes| ensures OwnerPages(s, t2, x) !! OwnerPages(s, t2, y) {
      OwnerInTable(s, t, x);
    }
    forall i: nat | i < |t2.indexes| ensures IndexOk(s, t2.indexes[i].header) {}
    assert OwnersOk(s, t2);
  }

  lemma WithIndexAgrees(s: Store, t: TableInfo, column: nat, h: nat)
    requires Agrees(ViewOf(s, t), t) && IndexPairs(s, h) == RowPairs(HeapRows(s, t.first), t.schema, column)
    requires forall rid :: rid in HeapRows(s, t.first) ==> !RecordKey(t.schema, HeapRows(s, t.first)[rid], column).BadKey?
    ensures Agrees(ViewOf(s, WithIndex(t, column, h)), WithIndex(t, column, h))
  {
    hide RecordKey, IndexPairs, RowPairs, Rooms, Width, HeapRows, Decode;
    var t2 := WithIndex(t, column, h);
    var v, w := ViewOf(s, t), ViewOf(s, t2);
    forall rid | rid in w.rows ensures Stored(w.rows[rid], t2) {
      assert Stored(v.rows[rid], t);
    }
    forall i: nat | i < |t2.indexes| ensures w.pairs[i] == RowPairs(w.rows, t2.schema, t2.indexes[i].column) {
      if i < |t.indexes| { assert t2.indexes[i] == t.indexes[i] && v.pairs[i] == w.pairs[i]; }
    }
  }

  /** Once the index holds the pair of every row whose column is not NULL, it is an index
      of the table. */
  lemma IndexBuilt(a: Store, s: Store, t: TableInfo, column: nat, h: nat)
    requires TableOk(a, t) && Building(a, s, h)
    requires IndexPairs(s, h) == RowPairs(HeapRows(a, t.first), t.schema, column)
    requires forall rid :: rid in HeapRows(a, t.first) ==> !RecordKey(t.schema, HeapRows(a, t.first)[rid], column).BadKey?
    ensures TableOk(s, WithIndex(t, column, h)) && TablePages(s, WithIndex(t, column, h)) == TablePages(a, t) + IndexPages(s, h)
    ensures HeapRows(s, t.first) == HeapRows(a, t.first)
  {
    hide *;
    TableOkParts(a, t);
    TableAllocated(a, t);
    BuildingPages(a, s, h);
    TableFrameOk(a, s, t);
    TableOkParts(s, t);
    IndexApart(a, s, t, h);
    WithIndexShape(s, t, column, h);
    WithIndexPages(s, t, column, h);
    WithIndexAgrees(s, t, column, h);
    MakeTableOk(s, WithIndex(t, column, h));
  }

  lemma IndexApart(a: Store, s: Store, t: TableInfo, h: nat)
    requires Building(a, s, h) && forall p: nat :: p in TablePages(a, t) ==> p in a
    ensures IndexPages(s, h) !! TablePages(a, t)
  {
    hide IndexOk, IndexPages, TablePages;
  }

  lemma MakeTableOk(s: Store, t: TableInfo)
    requires TableShape(s, t) && Agrees(ViewOf(s, t), t)
    ensures TableOk(s, t)
  {
    hide TableShape, Agrees, ViewOf;
  }

  // ---- A new table ----

  /** A page that has just been formatted is a heap file without rows. */
  lemma EmptyHeap(s: Store, p: nat)
    requires p >= 1 && p in s && SlottedFormat.Ok(s[p], p) && SlottedFormat.SlotsOf(s[p]) == []
    requires SlottedFormat.NextPageId(s[p]) == INVALID_PAGE_ID
    ensures HeapOk(s, p) && HeapRows(s, p) == map[] && HeapPages(s, p) == {p}
  {
    hide SlottedFormat.Ok, SlottedFormat.SlotsOf, SlottedFormat.NextPageId;
    assert Linked(HeapLinks(s), p, [p]);
    assert HeapChain(s, p, [p]);
    HeapIs(s, p, [p]);
    assert SlotsAt(s, p) == [];
    hide HeapChain, HeapOk, HeapLinks;
    assert RowsIn(s, [p]) == map[];
  }

  lemma EmptyTable(s: Store, schema: Schema, p: nat)
    requires HeapOk(s, p) && HeapRows(s, p) == map[] && HeapPages(s, p) == {p}
    ensures TableOk(s, TableInfo(schema, p, [])) && TablePages(s, TableInfo(schema, p, [])) == {p}
  {
    hide HeapOk, HeapRows, HeapPages;
    var t := TableInfo(schema, p, []);
    assert OwnerPages(s, t, 0) == {p};
    forall q: nat ensures q in TablePages(s, t) <==> q == p {
      if q in TablePages(s, t) {
        var o: nat :| o <= |t.indexes| && q in OwnerPages(s, t, o);
      }
    }
  }
}
