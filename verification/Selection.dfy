// What a statement selects: the rows that satisfy WHERE, the record ids that its plan goes
// through, and when the two agree (src/query/executor.cpp).
module Selections {
  import opened Common
  import opened BucketFormat
  import opened RecordFormat
  import opened RecordCodecs
  import opened IndexKeys
  import opened CatalogFormat
  import opened Catalogs
  import opened PageChains
  import opened HeapStates
  import opened HeapScans
  import opened IndexStates
  import opened IndexOutcomes
  import opened TableStates
  import opened TableOutcomes
  import opened TableEntries
  import opened Queries
  import opened Operators
  import opened Planners

  // ---- The rows that satisfy WHERE ----

  /** The rows that satisfy WHERE, in scan order. */
  ghost function Chosen(s: Store, t: TableInfo, conditions: seq<Condition>): seq<RecordID> {
    Selected(s, t.schema, conditions, ScanOrder(s, t.first))
  }

  /** `rids` lists each row that satisfies WHERE once, as often as the scan would. */
  ghost predicate Matched(s: Store, t: TableInfo, conditions: seq<Condition>, rids: seq<RecordID>) {
    && multiset(rids) == multiset(Chosen(s, t, conditions)) && NoneTwice(rids)
    && (forall rid :: rid in rids <==> rid in HeapRows(s, t.first) && MeetsAll(t.schema, HeapRows(s, t.first)[rid], conditions))
  }

  /** `records` is what `rids` hold. */
  ghost predicate RecordsOf(s: Store, rids: seq<RecordID>, records: seq<Bytes>) {
    |records| == |rids| && forall k: nat :: k < |rids| ==> RowIs(s, records[k], rids[k])
  }

  lemma ChosenMembers(s: Store, t: TableInfo, conditions: seq<Condition>)
    requires HeapOk(s, t.first)
    ensures forall rid :: rid in Chosen(s, t, conditions) <==>
              rid in HeapRows(s, t.first) && MeetsAll(t.schema, HeapRows(s, t.first)[rid], conditions)
    ensures NoneTwice(Chosen(s, t, conditions))
  {
    var order := ScanOrder(s, t.first);
    ScanListsEachRowOnce(s, t.first);
    assert NoneTwice(order);
    hide HeapRows, ScanOrder, MeetsAll, HeapOk, NoneTwice, Picked;
    SelectedOnce(s, t.schema, conditions, order);
    forall rid ensures rid in Chosen(s, t, conditions) <==>
                       rid in HeapRows(s, t.first) && MeetsAll(t.schema, HeapRows(s, t.first)[rid], conditions) {
      SelectedMembers(s, t.schema, conditions, order, rid);
      if rid in HeapRows(s, t.first) {
        PickedRow(s, t.first, t.schema, conditions, rid);
      }
    }
  }

  lemma SameMultisetMembers(a: seq<RecordID>, b: seq<RecordID>)
    requires multiset(a) == multiset(b)
    ensures forall rid :: rid in a <==> rid in b
    ensures |a| == |b|
    ensures NoneTwice(b) ==> NoneTwice(a)
  {
    forall rid ensures rid in a <==> rid in b {
      assert rid in multiset(a) <==> rid in multiset(b);
    }
    assert |multiset(a)| == |multiset(b)|;
    if NoneTwice(b) {
      forall x: nat, y: nat | x < y < |a| ensures a[x] != a[y] {
        CountOnce(b, a[x]);
        if a[x] == a[y] {
          TwiceCounted(a, x, y);
          assert false;
        }
      }
    }
  }

  lemma TwiceCounted(a: seq<RecordID>, x: nat, y: nat)
    requires x < y < |a| && a[x] == a[y]
    ensures multiset(a)[a[x]] >= 2
  {
    assert a == a[..y] + a[y..];
    assert a[x] == a[..y][x] && a[x] in a[..y] && a[y] == a[y..][0] && a[y] in a[y..];
    assert multiset(a) == multiset(a[..y]) + multiset(a[y..]);
  }

  lemma MakeMatched(s: Store, t: TableInfo, conditions: seq<Condition>, rids: seq<RecordID>)
    requires HeapOk(s, t.first) && multiset(rids) == multiset(Chosen(s, t, conditions))
    ensures Matched(s, t, conditions, rids)
  {
    ChosenMembers(s, t, conditions);
    hide Chosen, HeapRows, MeetsAll, NoneTwice, HeapOk;
    SameMultisetMembers(rids, Chosen(s, t, conditions));
  }

  // ---- What the plan goes through ----

  /** The index leads to records only, and if it is not one of table `name`, whose first
      page is `first`, to no record of that table. */
  ghost predicate IndexReadable(s: Store, x: IndexMeta, name: Bytes, first: int) {
    && x.header > 0 && IndexOk(s, x.header)
    && (forall pair :: pair in IndexPairs(s, x.header) ==>
          Readable(s, pair.rid) && (x.table != name ==> pair.rid.pageId !in HeapPages(s, first)))
  }

  ghost predicate IndexesReadable(s: Store, indexes: Indexes, name: Bytes, first: int) {
    forall key :: key in indexes ==> IndexReadable(s, indexes[key], name, first)
  }

  lemma ReadableIndex(s: Store, indexes: Indexes, name: Bytes, first: int, key: Bytes)
    requires IndexesReadable(s, indexes, name, first) && key in indexes
    ensures IndexReadable(s, indexes[key], name, first) && indexes[key].header > 0 && IndexOk(s, indexes[key].header)
  {
    hide IndexReadable;
    assert IndexReadable(s, indexes[key], name, first);
    ReadableParts(s, indexes[key], name, first);
  }

  lemma ReadableParts(s: Store, x: IndexMeta, name: Bytes, first: int)
    requires IndexReadable(s, x, name, first)
    ensures x.header > 0 && IndexOk(s, x.header)
    ensures forall pair :: pair in IndexPairs(s, x.header) ==> Readable(s, pair.rid)
    ensures x.table != name ==> forall pair :: pair in IndexPairs(s, x.header) ==> pair.rid.pageId !in HeapPages(s, first)
  {
    hide IndexOk, IndexPairs, Readable, HeapPages;
  }

  /** The record ids that the plan goes through: those of the scan, or those that the index
      has for the key of the deciding condition. */
  ghost predicate PlanOrder(s: Store, t: TableInfo, indexes: Indexes, name: Bytes, conditions: seq<Condition>, order: seq<RecordID>) {
    && ((forall k: nat :: !Served(indexes, name, conditions, k)) ==> order == ScanOrder(s, t.first))
    && (forall k: nat :: FirstServed(indexes, name, conditions, k) ==> LookupOrder(s, indexes[EntryKey(name, conditions[k])], conditions[k], order))
  }

  ghost predicate LookupOrder(s: Store, x: IndexMeta, condition: Condition, order: seq<RecordID>) {
    x.header > 0 && KeyOf(condition.target).Some? && LookedUp(s, x.header, KeyOf(condition.target).value, order)
  }

  lemma FirstIfAny(indexes: Indexes, name: Bytes, conditions: seq<Condition>, k: nat) returns (first: nat)
    requires Served(indexes, name, conditions, k)
    ensures FirstServed(indexes, name, conditions, first)
    decreases k
  {
    hide EntryKey;
    if j: nat :| j < k && Served(indexes, name, conditions, j) {
      first := FirstIfAny(indexes, name, conditions, j);
    } else {
      first := k;
    }
  }

  /** Either the plan scans, or one condition decides which index it reads. */
  lemma PlanCases(indexes: Indexes, name: Bytes, conditions: seq<Condition>) returns (scans: bool, k: nat)
    ensures scans ==> forall j: nat :: !Served(indexes, name, conditions, j)
    ensures !scans ==> FirstServed(indexes, name, conditions, k)
  {
    hide Served;
    scans, k := true, 0;
    if j: nat :| Served(indexes, name, conditions, j) {
      k := FirstIfAny(indexes, name, conditions, j);
      scans := false;
    }
  }

  /** Through an index of the table itself, a plan selects just the rows that satisfy WHERE. */
  lemma PlanSelects(s: Store, t: TableInfo, conditions: seq<Condition>, i: nat, key: Bytes, order: seq<RecordID>)
    requires TableOk(s, t) && i < |t.indexes| && IndexedBy(t, conditions, i, key) && LookedUp(s, t.indexes[i].header, key, order)
    ensures multiset(Selected(s, t.schema, conditions, order)) == multiset(Chosen(s, t, conditions))
    ensures forall rid :: rid in order ==> rid in HeapRows(s, t.first)
  {
    PlansAgree(s, t, conditions, i, key, order);
    var k: nat :| k < |conditions| && EqualsKey(t.schema, conditions[k], t.indexes[i].column, key);
    LookupFindsEquals(s, t, i, conditions[k], order);
    hide HeapRows, TableOk, Selected, ScanOrder, KeyOf, IndexPairs, PositionOf;
  }

  lemma OwnLookup(s: Store, tables: Tables, indexes: Indexes, indexNames: map<Bytes, Bytes>, name: Bytes, t: TableInfo,
                  conditions: seq<Condition>, k: nat, order: seq<RecordID>)
    requires TableOk(s, t) && WellFormed(tables, indexes, indexNames) && Loaded(tables, indexes, name, t)
    requires FirstServed(indexes, name, conditions, k) && OwnPlan(indexes, name, conditions)
    requires LookupOrder(s, indexes[EntryKey(name, conditions[k])], conditions[k], order)
    ensures multiset(Selected(s, t.schema, conditions, order)) == multiset(Chosen(s, t, conditions))
    ensures forall rid :: rid in order ==> rid in HeapRows(s, t.first)
  {
    var i: nat := OwnIndex(tables, indexes, indexNames, name, t, conditions, k);
    var key := KeyOf(conditions[k].target).value;
    assert conditions[k].op == EQ && LookedUp(s, t.indexes[i].header, key, order);
    hide TableOk, WellFormed, Loaded, KeyOf, LookedUp, PositionOf, EntryKey, HeapRows, Chosen, Selected;
    assert EqualsKey(t.schema, conditions[k], t.indexes[i].column, key);
    PlanSelects(s, t, conditions, i, key, order);
  }

  /** Unless the planner uses the index of another table, the plan selects just the rows
      that satisfy WHERE, and can read them. */
  lemma OwnOrder(s: Store, tables: Tables, indexes: Indexes, indexNames: map<Bytes, Bytes>, name: Bytes, t: TableInfo,
                 conditions: seq<Condition>, order: seq<RecordID>)
    requires TableOk(s, t) && WellFormed(tables, indexes, indexNames) && Loaded(tables, indexes, name, t)
    requires OwnPlan(indexes, name, conditions) && PlanOrder(s, t, indexes, name, conditions, order)
    ensures multiset(Selected(s, t.schema, conditions, order)) == multiset(Chosen(s, t, conditions))
    ensures Matched(s, t, conditions, Selected(s, t.schema, conditions, order))
    ensures forall rid :: rid in order ==> rid in HeapRows(s, t.first)
    ensures Decodable(s, t.schema, order)
  {
    TableOkParts(s, t);
    ScanListsEachRowOnce(s, t.first);
    hide TableOk, WellFormed, Loaded, OwnPlan, Served, FirstServed, LookupOrder, HeapRows, ScanOrder, Selected, EntryKey, HeapOk, Matched, Decodable;
    var scans: bool, k: nat := PlanCases(indexes, name, conditions);
    if !scans {
      OwnLookup(s, tables, indexes, indexNames, name, t, conditions, k, order);
    }
    MakeMatched(s, t, conditions, Selected(s, t.schema, conditions, order));
    RowsAreDecodable(s, t, order);
  }

  lemma RowsAreDecodable(s: Store, t: TableInfo, rids: seq<RecordID>)
    requires TableOk(s, t) && forall rid :: rid in rids ==> rid in HeapRows(s, t.first)
    ensures Decodable(s, t.schema, rids)
  {
    TableOkParts(s, t);
    RowsAreReadable(s, t.first);
    RowsDecodeIn(s, t);
    hide TableOk, HeapRows, Decode, RowAt, HeapOk;
  }

  lemma RowsDecodeIn(s: Store, t: TableInfo)
    requires TableOk(s, t)
    ensures forall rid :: rid in HeapRows(s, t.first) ==> Decode(t.schema, HeapRows(s, t.first)[rid]).Some?
  {
    ViewRows(s, t);
    hide TableShape, ViewOf, HeapRows, RowPairs, Keyed, Decode;
  }

  /** If the planner uses the index of another table, it comes upon no row of its own. */
  lemma ForeignOrder(s: Store, t: TableInfo, indexes: Indexes, name: Bytes, conditions: seq<Condition>, order: seq<RecordID>)
    requires HeapOk(s, t.first) && IndexesReadable(s, indexes, name, t.first)
    requires !OwnPlan(indexes, name, conditions) && PlanOrder(s, t, indexes, name, conditions, order)
    ensures forall rid :: rid in order ==> rid !in HeapRows(s, t.first)
    ensures forall rid :: rid in Selected(s, t.schema, conditions, order) ==> rid !in HeapRows(s, t.first)
  {
    var k: nat :| FirstServed(indexes, name, conditions, k) && indexes[EntryKey(name, conditions[k])].table != name;
    var x := indexes[EntryKey(name, conditions[k])];
    ReadableIndex(s, indexes, name, t.first, EntryKey(name, conditions[k]));
    ReadableParts(s, x, name, t.first);
    RowsAreReadable(s, t.first);
    assert LookupOrder(s, x, conditions[k], order);
    hide IndexesReadable, PlanOrder, OwnPlan, FirstServed, EntryKey, HeapRows, HeapPages, HeapOk, IndexOk, IndexPairs, KeyOf, Readable, RowAt, Picked;
    forall rid | rid in order ensures rid !in HeapRows(s, t.first) {
      assert Pair(KeyOf(conditions[k].target).value, rid) in IndexPairs(s, x.header);
    }
    forall rid | rid in Selected(s, t.schema, conditions, order) ensures rid in order {
      SelectedMembers(s, t.schema, conditions, order, rid);
    }
  }

  // ---- What SELECT shows ----

  const STAR: Bytes := [42]

  /** No list of columns, or one that starts with a star, stands for all columns. */
  predicate AllColumns(fields: seq<Bytes>) {
    fields == [] || fields[0] == STAR
  }

  ghost predicate FieldsExist(schema: Schema, fields: seq<Bytes>) {
    AllColumns(fields) || forall k: nat :: k < |fields| ==> HasColumn(schema, fields[k])
  }

  function Positions(schema: Schema, fields: seq<Bytes>): (positions: seq<nat>)
    ensures |positions| == |fields|
    ensures forall k: nat :: k < |fields| ==> positions[k] == PositionOf(schema, fields[k])
  {
    seq(|fields|, (k: nat) requires k < |fields| => PositionOf(schema, fields[k]))
  }

  /** The columns that SELECT shows; none means all. */
  function FieldPositions(schema: Schema, fields: seq<Bytes>): Option<seq<nat>> {
    if AllColumns(fields) then None else Some(Positions(schema, fields))
  }

  /** `row` is what SELECT shows of record `rid`: all columns, or the chosen ones. */
  ghost predicate ShownRow(s: Store, schema: Schema, fields: Option<seq<nat>>, rid: RecordID, row: seq<Value>) {
    && RowAt(s, rid).Some? && Decode(schema, RowAt(s, rid).value).Some?
    && var values := Decode(schema, RowAt(s, rid).value).value;
       match fields
       case None => row == values
       case Some(indices) =>
         InRange(indices, |values|) && row == ChosenValues(values, indices) && Projectable(schema, RowAt(s, rid).value, indices)
  }

  ghost predicate Shown(s: Store, schema: Schema, fields: Option<seq<nat>>, rids: seq<RecordID>, rows: seq<seq<Value>>) {
    |rows| == |rids| && forall k: nat :: k < |rids| ==> ShownRow(s, schema, fields, rids[k], rows[k])
  }

  lemma ShowWhole(s: Store, schema: Schema, record: Bytes, rid: RecordID, row: seq<Value>)
    requires RowIs(s, record, rid) && Decode(schema, record) == Some(row)
    ensures ShownRow(s, schema, None, rid, row)
  {
    hide RowAt, Decode;
  }

  lemma ShowChosen(s: Store, schema: Schema, conditions: seq<Condition>, fields: seq<nat>, record: Bytes, rid: RecordID)
    requires ProjectedRow(s, schema, conditions, fields, record, rid)
    ensures InRange(fields, |schema|) && Decode(ChosenColumns(schema, fields), record).Some?
    ensures ShownRow(s, schema, Some(fields), rid, Decode(ChosenColumns(schema, fields), record).value)
  {
    hide RowAt, Decode, MeetsAll, Projectable;
  }

  lemma NothingShown(s: Store, schema: Schema, fields: Option<seq<nat>>)
    ensures Shown(s, schema, fields, [], [])
  {
  }

  lemma OneMoreShown(s: Store, schema: Schema, fields: Option<seq<nat>>, rids: seq<RecordID>, rows: seq<seq<Value>>, rid: RecordID, row: seq<Value>)
    requires Shown(s, schema, fields, rids, rows) && ShownRow(s, schema, fields, rid, row)
    ensures Shown(s, schema, fields, rids + [rid], rows + [row])
  {
    hide ShownRow;
  }

  /** The columns can be cut out of every row that satisfies WHERE. */
  ghost predicate RowsProject(s: Store, t: TableInfo, conditions: seq<Condition>, fields: Option<seq<nat>>) {
    fields.Some? ==>
      forall rid :: rid in HeapRows(s, t.first) && MeetsAll(t.schema, HeapRows(s, t.first)[rid], conditions) ==>
        Projectable(t.schema, HeapRows(s, t.first)[rid], fields.value)
  }

  /** Rows that could be shown can be cut out, and the other way round. */
  lemma ProjectsExactly(s: Store, t: TableInfo, conditions: seq<Condition>, fields: Option<seq<nat>>, order: seq<RecordID>, rids: seq<RecordID>,
                        rows: seq<seq<Value>>)
    requires HeapOk(s, t.first) && forall rid :: rid in order ==> rid in HeapRows(s, t.first)
    ensures RowsProject(s, t, conditions, fields) && fields.Some? ==> AllProjectable(s, t.schema, conditions, fields.value, order)
    ensures Matched(s, t, conditions, rids) && Shown(s, t.schema, fields, rids, rows) ==> RowsProject(s, t, conditions, fields)
  {
    RowsAreReadable(s, t.first);
    hide HeapRows, HeapOk, RowAt, MeetsAll, Projectable, Decode, Chosen, NoneTwice;
    if Matched(s, t, conditions, rids) && Shown(s, t.schema, fields, rids, rows) && fields.Some? {
      forall rid | rid in HeapRows(s, t.first) && MeetsAll(t.schema, HeapRows(s, t.first)[rid], conditions)
        ensures Projectable(t.schema, HeapRows(s, t.first)[rid], fields.value)
      {
        assert rid in rids;
        var k: nat :| k < |rids| && rids[k] == rid;
        assert ShownRow(s, t.schema, fields, rids[k], rows[k]);
      }
    }
  }
}
