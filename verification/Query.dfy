// What a WHERE clause selects, and why an index lookup selects the same rows as a scan.
module Queries {
  import opened Common
  import opened BucketFormat
  import opened RecordFormat
  import opened RecordCodecs
  import opened IndexKeys
  import opened CatalogFormat
  import opened Catalogs
  import opened PageChains
  import opened HeapStates
  import opened HeapScans
  import opened IndexStates
  import opened IndexOutcomes
  import opened TableStates
  import opened TableOutcomes

  datatype CompareOp = EQ | GT | LT | GE | LE

  /** `column op target`, with the column by its name; the target has the type of the column
      and is not NULL. */
  datatype Condition = Condition(column: Bytes, op: CompareOp, target: Value)

  /** The byte-wise lexicographic order. */
  predicate LexLess(a: Bytes, b: Bytes) {
    b != [] && (a == [] || a[0] < b[0] || (a[0] == b[0] && LexLess(a[1..], b[1..])))
  }

  predicate CompareIntegers(left: int, right: int, op: CompareOp) {
    match op
    case EQ => left == right
    case GT => left > right
    case LT => left < right
    case GE => left >= right
    case LE => left <= right
  }

  predicate CompareStrings(left: Bytes, right: Bytes, op: CompareOp) {
    match op
    case EQ => left == right
    case GT => LexLess(right, left)
    case LT => LexLess(left, right)
    case GE => !LexLess(left, right)
    case LE => !LexLess(right, left)
  }

  /** Whether a value satisfies a condition; NULL satisfies none. */
  predicate Satisfies(value: Value, condition: Condition) {
    match value
    case Null => false
    case Integer(i) => condition.target.Integer? && CompareIntegers(i, condition.target.i, condition.op)
    case Text(s) => condition.target.Text? && CompareStrings(s, condition.target.s, condition.op)
    case Boolean(b) => condition.target.Boolean? && condition.op == EQ && b == condition.target.b
  }

  /** Whether a record satisfies a condition. */
  predicate Meets(schema: Schema, record: Bytes, condition: Condition) {
    match ValueOf(schema, record, PositionOf(schema, condition.column))
    case None => false
    case Some(value) => Satisfies(value, condition)
  }

  predicate MeetsAll(schema: Schema, record: Bytes, conditions: seq<Condition>) {
    forall k: nat :: k < |conditions| ==> Meets(schema, record, conditions[k])
  }

  /** There is a record under `rid`, and it satisfies the conditions. */
  ghost predicate Picked(s: Store, schema: Schema, conditions: seq<Condition>, rid: RecordID) {
    RowAt(s, rid).Some? && MeetsAll(schema, RowAt(s, rid).value, conditions)
  }

  /** The record ids of `rids`, in order, whose records satisfy the conditions. */
  ghost function Selected(s: Store, schema: Schema, conditions: seq<Condition>, rids: seq<RecordID>): seq<RecordID> {
    if rids == [] then []
    else
      var rest := Selected(s, schema, conditions, rids[1..]);
      if Picked(s, schema, conditions, rids[0]) then [rids[0]] + rest else rest
  }

  lemma {:induction false} SelectedMembers(s: Store, schema: Schema, conditions: seq<Condition>, rids: seq<RecordID>, rid: RecordID)
    ensures rid in Selected(s, schema, conditions, rids) <==> rid in rids && Picked(s, schema, conditions, rid)
    decreases |rids|
  {
    hide Picked;
    if rids != [] {
      SelectedMembers(s, schema, conditions, rids[1..], rid);
    }
  }

  lemma {:induction false} SelectedOnce(s: Store, schema: Schema, conditions: seq<Condition>, rids: seq<RecordID>)
    requires NoneTwice(rids)
    ensures NoneTwice(Selected(s, schema, conditions, rids))
    decreases |rids|
  {
    hide Picked;
    if rids != [] {
      forall x: nat, y: nat | x < y < |rids[1..]| ensures rids[1..][x] != rids[1..][y] {
        assert rids[x + 1] != rids[y + 1];
      }
      SelectedOnce(s, schema, conditions, rids[1..]);
      SelectedMembers(s, schema, conditions, rids[1..], rids[0]);
      assert rids[0] !in rids[1..];
    }
  }

  /** A row of a heap file is picked exactly if it satisfies the conditions. */
  lemma PickedRow(s: Store, first: int, schema: Schema, conditions: seq<Condition>, rid: RecordID)
    requires HeapOk(s, first) && rid in HeapRows(s, first)
    ensures Picked(s, schema, conditions, rid) <==> MeetsAll(schema, HeapRows(s, first)[rid], conditions)
  {
    RowsAreReadable(s, first);
    hide HeapRows, HeapOk, MeetsAll, RowAt;
  }

  /** Two lists without repetition and with the same members are permutations of each other. */
  lemma {:induction false} SameMembersSameMultiset(a: seq<RecordID>, b: seq<RecordID>)
    requires NoneTwice(a) && NoneTwice(b) && forall rid :: rid in a <==> rid in b
    ensures multiset(a) == multiset(b)
  {
    forall rid ensures multiset(a)[rid] == multiset(b)[rid] {
      CountOnce(a, rid);
      CountOnce(b, rid);
    }
  }

  lemma {:induction false} CountOnce(s: seq<RecordID>, rid: RecordID)
    requires NoneTwice(s)
    ensures multiset(s)[rid] == if rid in s then 1 else 0
    decreases |s|
  {
    if s != [] {
      var init, last := s[..|s| - 1], s[|s| - 1];
      assert s == init + [last];
      forall x: nat, y: nat | x < y < |init| ensures init[x] != init[y] {
        assert s[x] != s[y];
      }
      CountOnce(init, rid);
      assert last !in init;
    }
  }

  // ---- The index plan ----

  ghost predicate EqualsKey(schema: Schema, condition: Condition, column: nat, key: Bytes) {
    condition.op == EQ && PositionOf(schema, condition.column) == column && KeyOf(condition.target) == Some(key)
  }

  /** The conditions have an equality on the column of index `i` whose value has the key `key`. */
  ghost predicate IndexedBy(t: TableInfo, conditions: seq<Condition>, i: nat, key: Bytes) {
    i < |t.indexes| && exists k: nat :: k < |conditions| && EqualsKey(t.schema, conditions[k], t.indexes[i].column, key)
  }

  /** An equality holds exactly for the value that has the key of its target. */
  lemma EqualityMeansKey(schema: Schema, record: Bytes, condition: Condition)
    requires condition.op == EQ && KeyOf(condition.target).Some?
    ensures Meets(schema, record, condition) <==>
              RecordKey(schema, record, PositionOf(schema, condition.column)) == HasKey(KeyOf(condition.target).value)
  {
    hide Decode, PositionOf;
    var column := PositionOf(schema, condition.column);
    if ValueOf(schema, record, column).Some? {
      var value := ValueOf(schema, record, column).value;
      hide ValueOf;
      if KeyOf(value).Some? && KeyOf(value) == KeyOf(condition.target) {
        KeysAreInjective(value, condition.target);
      }
      hide KeyOf;
      assert Satisfies(value, condition) <==> !value.Null? && value == condition.target;
    }
  }

  /** An index lookup returns exactly the rows that satisfy the indexed equality. */
  lemma LookupFindsEquals(s: Store, t: TableInfo, i: nat, condition: Condition, rids: seq<RecordID>)
    requires TableOk(s, t) && i < |t.indexes| && condition.op == EQ && PositionOf(t.schema, condition.column) == t.indexes[i].column
    requires KeyOf(condition.target).Some? && LookedUp(s, t.indexes[i].header, KeyOf(condition.target).value, rids)
    ensures forall rid: RecordID :: rid in rids <==>
              rid in HeapRows(s, t.first) && Meets(t.schema, HeapRows(s, t.first)[rid], condition)
  {
    var key, v := KeyOf(condition.target).value, ViewOf(s, t);
    var column := PositionOf(t.schema, condition.column);
    ViewRows(s, t);
    ViewAt(s, t, i);
    assert v.pairs[i] == RowPairs(v.rows, t.schema, column);
    hide ViewOf, TableShape, HeapRows, Agrees, KeyOf, Meets, NoneTwice, IndexPairs, PositionOf;
    forall rid: RecordID ensures rid in rids <==> rid in v.rows && Meets(t.schema, v.rows[rid], condition) {
      assert rid in rids <==> Pair(key, rid) in RowPairs(v.rows, t.schema, column);
      PairMeansKey(v.rows, t.schema, column, rid, key);
      if rid in v.rows {
        EqualityMeansKey(t.schema, v.rows[rid], condition);
      }
    }
  }

  lemma PairMeansKey(rows: Rows, schema: Schema, column: nat, rid: RecordID, key: Bytes)
    ensures Pair(key, rid) in RowPairs(rows, schema, column) <==> rid in rows && RecordKey(schema, rows[rid], column) == HasKey(key)
  {
    hide RecordKey;
    if rid in rows && RecordKey(schema, rows[rid], column) == HasKey(key) {
      assert Pair(key, rid) in RecordPairs(schema, rows[rid], column, rid);
    }
  }

  /** The index plan selects the same rows as the scan: whenever a lookup succeeds, filtering
      its result gives a permutation of what filtering the scan gives. */
  lemma PlansAgree(s: Store, t: TableInfo, conditions: seq<Condition>, i: nat, key: Bytes, rids: seq<RecordID>)
    requires TableOk(s, t) && IndexedBy(t, conditions, i, key) && LookedUp(s, t.indexes[i].header, key, rids)
    ensures multiset(Selected(s, t.schema, conditions, rids)) == multiset(Selected(s, t.schema, conditions, ScanOrder(s, t.first)))
  {
    var k: nat :| k < |conditions| && EqualsKey(t.schema, conditions[k], t.indexes[i].column, key);
    var order := ScanOrder(s, t.first);
    TableOkParts(s, t);
    LookupFindsEquals(s, t, i, conditions[k], rids);
    ScanListsEachRowOnce(s, t.first);
    assert NoneTwice(rids) && NoneTwice(order);
    hide TableOk, HeapRows, ScanOrder, LookedUp, KeyOf, Meets, NoneTwice, HeapOk, Picked, PositionOf;
    SelectedOnce(s, t.schema, conditions, rids);
    SelectedOnce(s, t.schema, conditions, order);
    forall rid ensures rid in Selected(s, t.schema, conditions, rids) <==> rid in Selected(s, t.schema, conditions, order) {
      SelectedMembers(s, t.schema, conditions, rids, rid);
      SelectedMembers(s, t.schema, conditions, order, rid);
      if rid in HeapRows(s, t.first) {
        PickedRow(s, t.first, t.schema, conditions, rid);
      }
    }
    SameMembersSameMultiset(Selected(s, t.schema, conditions, rids), Selected(s, t.schema, conditions, order));
  }
}
