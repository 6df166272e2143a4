// Which index the planner finds for a table, and when it is an index of that table
// (src/query/executor.cpp, src/catalog/catalog_manager.cpp).
module Planners {
  import opened Common
  import opened RecordFormat
  import opened IndexKeys
  import opened CatalogFormat
  import opened Catalogs
  import opened TableStates
  import opened TableEntries
  import opened Queries
  import opened Operators

  // ---- The choice ----

  /** The index that is entered under the key of a column. */
  function EntryKey(name: Bytes, condition: Condition): Bytes {
    MakeIndexKey(name, condition.column)
  }

  /** Condition `k` is an equality, and there is an entry under the key of its column. */
  ghost predicate Served(indexes: Indexes, name: Bytes, conditions: seq<Condition>, k: nat) {
    k < |conditions| && conditions[k].op == EQ && EntryKey(name, conditions[k]) in indexes
  }

  /** Condition `k` is the one that decides the plan. */
  ghost predicate FirstServed(indexes: Indexes, name: Bytes, conditions: seq<Condition>, k: nat) {
    Served(indexes, name, conditions, k) && forall j: nat :: j < k ==> !Served(indexes, name, conditions, j)
  }

  lemma FirstServedIsOne(indexes: Indexes, name: Bytes, conditions: seq<Condition>, k: nat)
    requires forall j: nat :: j < k ==> !Served(indexes, name, conditions, j)
    ensures Served(indexes, name, conditions, k) ==> forall j: nat :: FirstServed(indexes, name, conditions, j) <==> j == k
    ensures k >= |conditions| ==> forall j: nat :: !Served(indexes, name, conditions, j)
  {
    hide EntryKey;
  }

  /** The planner uses no index, or one of the table itself. */
  ghost predicate OwnPlan(indexes: Indexes, name: Bytes, conditions: seq<Condition>) {
    forall k: nat :: FirstServed(indexes, name, conditions, k) ==> indexes[EntryKey(name, conditions[k])].table == name
  }

  /** The conditions are on columns that exist, and if an index serves one of them, the
      target of the first such condition has a key. */
  ghost predicate Answerable(indexes: Indexes, name: Bytes, schema: Schema, conditions: seq<Condition>) {
    && ColumnsExist(conditions, schema)
    && !(exists k: nat :: FirstServed(indexes, name, conditions, k) && KeyOf(conditions[k].target).None?)
  }

  lemma AnswerableIs(indexes: Indexes, name: Bytes, schema: Schema, conditions: seq<Condition>)
    ensures Answerable(indexes, name, schema, conditions) <==>
              && ColumnsExist(conditions, schema)
              && !(exists k: nat :: FirstServed(indexes, name, conditions, k) && KeyOf(conditions[k].target).None?)
    ensures ColumnsExist(conditions, schema) ==>
              forall k: nat :: FirstServed(indexes, name, conditions, k) ==> HasColumn(schema, conditions[k].column)
  {
    hide KeyOf, HasColumn, EntryKey;
  }

  /** The plan looks up the key of condition `k` in the index that is entered for it. */
  ghost predicate LooksUp(indexes: Indexes, name: Bytes, conditions: seq<Condition>, k: nat, plan: FilterPlan) {
    && FirstServed(indexes, name, conditions, k) && plan.source.FromIndex?
    && KeyOf(conditions[k].target) == Some(plan.source.indexScan.encodedKey)
    && plan.source.indexScan.index.headerPageId == indexes[EntryKey(name, conditions[k])].header
  }

  /** What building a plan returns: the first condition that an index serves decides. */
  ghost predicate PlanStatusIs(indexes: Indexes, name: Bytes, schema: Schema, conditions: seq<Condition>, status: StatusCode) {
    && ((forall k: nat :: !Served(indexes, name, conditions, k)) ==> status == OK)
    && forall k: nat :: FirstServed(indexes, name, conditions, k) ==>
         status == if !HasColumn(schema, conditions[k].column) then NOT_FOUND
                   else if KeyOf(conditions[k].target).None? then INVALID_ARGUMENT else OK
  }

  lemma EntriesHaveHeaders(tables: Tables, indexes: Indexes, indexNames: map<Bytes, Bytes>)
    requires WellFormed(tables, indexes, indexNames)
    ensures forall key :: key in indexes ==> indexes[key].header > 0
  {
    hide TableFits, HasColumn, KeyOfIndex;
    assert forall key :: key in indexes ==> IndexFits(indexes[key]);
  }

  // ---- When the index is one of the table ----

  /** If the entry is one of the table, the plan reads an index of the table on the column
      of the condition. */
  lemma OwnIndex(tables: Tables, indexes: Indexes, indexNames: map<Bytes, Bytes>, name: Bytes, t: TableInfo, conditions: seq<Condition>, k: nat)
    returns (i: nat)
    requires WellFormed(tables, indexes, indexNames) && Loaded(tables, indexes, name, t)
    requires FirstServed(indexes, name, conditions, k) && OwnPlan(indexes, name, conditions)
    ensures HasColumn(t.schema, conditions[k].column) && i < |t.indexes|
    ensures t.indexes[i].column == PositionOf(t.schema, conditions[k].column)
    ensures t.indexes[i].header == indexes[EntryKey(name, conditions[k])].header
  {
    var key := EntryKey(name, conditions[k]);
    var x := indexes[key];
    assert x.table == name && KeyOfIndex(x) == key && IndexFits(x);
    SameKeyExactly(name, x.column, name, conditions[k].column);
    assert HasColumn(tables[name].schema, x.column) && tables[name].name == name;
    assert InfoOf(x, t.schema) in InfosOf(indexes, name, t.schema);
    hide WellFormed, HasColumn, PositionOf, InfosOf, EntryKey, FirstServed;
    assert InfoOf(x, t.schema) in InfosIn(t);
    i :| i < |t.indexes| && t.indexes[i] == InfoOf(x, t.schema);
  }

  /** No entry that another table has looks like one of this table. */
  ghost predicate OwnEntries(indexes: Indexes, name: Bytes) {
    forall key :: key in indexes && name + [DOT] <= key ==> indexes[key].table == name
  }

  /** The planner never uses the index of another table, whatever the conditions, exactly if
      every entry whose key starts with the name and a dot is one of the table. */
  lemma OwnPlanExactly(indexes: Indexes, name: Bytes)
    ensures OwnEntries(indexes, name) <==> forall conditions: seq<Condition> :: OwnPlan(indexes, name, conditions)
  {
    if OwnEntries(indexes, name) {
      forall conditions: seq<Condition>, k: nat | FirstServed(indexes, name, conditions, k)
        ensures indexes[EntryKey(name, conditions[k])].table == name
      {
        assert name + [DOT] <= EntryKey(name, conditions[k]);
      }
    } else {
      var key :| key in indexes && name + [DOT] <= key && indexes[key].table != name;
      var condition := Condition(key[|name| + 1..], EQ, Null);
      assert EntryKey(name, condition) == key;
      assert FirstServed(indexes, name, [condition], 0);
      assert !OwnPlan(indexes, name, [condition]);
    }
  }

  // ---- Names ----

  /** Two tables have a key in common exactly if one name continues the other after a dot. */
  lemma SharedKeys(t1: Bytes, t2: Bytes)
    ensures (exists c1: Bytes, c2: Bytes :: MakeIndexKey(t1, c1) == MakeIndexKey(t2, c2)) <==>
              t1 == t2 || t1 + [DOT] <= t2 || t2 + [DOT] <= t1
  {
    if c1: Bytes, c2: Bytes :| MakeIndexKey(t1, c1) == MakeIndexKey(t2, c2) {
      SameKeyExactly(t1, c1, t2, c2);
    }
    if t1 == t2 {
      assert MakeIndexKey(t1, []) == MakeIndexKey(t2, []);
    } else if t1 + [DOT] <= t2 {
      DottedNamesCollide(t1, t2[|t1| + 1..], []);
      assert t1 + [DOT] + t2[|t1| + 1..] == t2;
    } else if t2 + [DOT] <= t1 {
      DottedNamesCollide(t2, t1[|t2| + 1..], []);
      assert t2 + [DOT] + t1[|t2| + 1..] == t1;
    }
  }

  /** No table name continues another one after a dot. */
  ghost predicate NamesApart(tables: Tables) {
    forall a, b :: a in tables && b in tables && a != b ==> !(a + [DOT] <= b)
  }

  lemma KeyOfPrefix(name: Bytes, key: Bytes)
    requires name + [DOT] <= key
    ensures MakeIndexKey(name, key[|name| + 1..]) == key
  {
  }

  lemma EntryParts(tables: Tables, indexes: Indexes, indexNames: map<Bytes, Bytes>, key: Bytes)
    requires WellFormed(tables, indexes, indexNames) && key in indexes
    ensures indexes[key].table in tables && MakeIndexKey(indexes[key].table, indexes[key].column) == key
  {
    hide HasColumn, TableFits, IndexFits;
  }

  /** If no name continues another one after a dot, every table has its own entries. */
  lemma ApartMeansOwn(tables: Tables, indexes: Indexes, indexNames: map<Bytes, Bytes>, name: Bytes)
    requires WellFormed(tables, indexes, indexNames) && NamesApart(tables) && name in tables
    ensures OwnEntries(indexes, name)
  {
    hide WellFormed, MakeIndexKey;
    forall key | key in indexes && name + [DOT] <= key ensures indexes[key].table == name {
      EntryParts(tables, indexes, indexNames, key);
      KeyOfPrefix(name, key);
      SharedKeys(name, indexes[key].table);
    }
  }

  lemma NoDotNoPrefix(a: Bytes, b: Bytes)
    requires DOT !in b
    ensures !(a + [DOT] <= b)
  {
    assert (a + [DOT])[|a|] == DOT;
    if |a| < |b| {
      assert b[|a|] in b;
    }
  }

  /** Names without dots are apart. */
  lemma DotFreeNamesAreApart(tables: Tables)
    requires forall name :: name in tables ==> DOT !in name
    ensures NamesApart(tables)
  {
    forall a, b | a in tables && b in tables && a != b ensures !(a + [DOT] <= b) {
      NoDotNoPrefix(a, b);
    }
  }
}
