// The catalog: the tables and indexes that exist, kept on page 0
// (src/catalog/catalog_manager.cpp).
module Catalogs {
  import opened Common
  import opened ByteFormat
  import opened Disk
  import opened Buffer
  import opened RecordFormat
  import opened CatalogFormat
  import opened PageChains
  import opened IndexStates
  import opened IndexOutcomes
  import opened HashIndexes

  type Tables = map<Bytes, TableMeta>
  type Indexes = map<Bytes, IndexMeta>

  const DOT: byte := 46

  /** The key under which the index of a column is kept. */
  function MakeIndexKey(table: Bytes, column: Bytes): Bytes {
    table + [DOT] + column
  }

  /** With a dot in a table name, two columns can share a key. */
  lemma DottedNamesCollide(a: Bytes, b: Bytes, c: Bytes)
    ensures MakeIndexKey(a + [DOT] + b, c) == MakeIndexKey(a, b + [DOT] + c)
  {
    assert (a + [DOT] + b) + [DOT] + c == a + [DOT] + (b + [DOT] + c);
  }

  /** Two columns have the same key exactly if they are the same, or one table name continues
      the other after a dot and the column names make up for it. */
  lemma SameKeyExactly(t1: Bytes, c1: Bytes, t2: Bytes, c2: Bytes)
    ensures MakeIndexKey(t1, c1) == MakeIndexKey(t2, c2) <==>
              || (t1 == t2 && c1 == c2)
              || (t1 + [DOT] <= t2 && c1 == t2[|t1| + 1..] + [DOT] + c2)
              || (t2 + [DOT] <= t1 && c2 == t1[|t2| + 1..] + [DOT] + c1)
  {
    KeysDiffer(t1, c1, t2, c2);
    KeysDiffer(t2, c2, t1, c1);
    if t1 == t2 {
      assert MakeIndexKey(t1, c1)[|t1| + 1..] == c1 && MakeIndexKey(t2, c2)[|t2| + 1..] == c2;
    }
  }

  lemma KeysDiffer(t1: Bytes, c1: Bytes, t2: Bytes, c2: Bytes)
    ensures |t1| < |t2| ==>
              (MakeIndexKey(t1, c1) == MakeIndexKey(t2, c2) <==> t1 + [DOT] <= t2 && c1 == t2[|t1| + 1..] + [DOT] + c2)
    ensures |t1| == |t2| && MakeIndexKey(t1, c1) == MakeIndexKey(t2, c2) ==> t1 == t2
  {
    var k1, k2 := MakeIndexKey(t1, c1), MakeIndexKey(t2, c2);
    if k1 == k2 {
      assert t1 == k1[..|t1|] && t2 == k2[..|t2|] && c1 == k1[|t1| + 1..] && k1[|t1|] == DOT;
      if |t1| < |t2| {
        assert t1 + [DOT] == k1[..|t1| + 1] == t2[..|t1| + 1];
        assert c1 == k2[|t1| + 1..] == t2[|t1| + 1..] + [DOT] + c2;
      }
    }
    if t1 + [DOT] <= t2 && c1 == t2[|t1| + 1..] + [DOT] + c2 {
      assert t2 == t1 + [DOT] + t2[|t1| + 1..];
      DottedNamesCollide(t1, t2[|t1| + 1..], c2);
    }
  }

  // ---- Lists of entries ----

  /** `list` has every entry of the map once, in any order. */
  ghost predicate ListsTables(list: seq<TableMeta>, tables: Tables) {
    && |list| == |tables|
    && (forall k: nat :: k < |list| ==> list[k].name in tables && tables[list[k].name] == list[k])
    && (forall j: nat, k: nat :: j < k < |list| ==> list[j].name != list[k].name)
    && (forall name :: name in tables ==> Lists(list, name))
  }

  ghost predicate Lists(list: seq<TableMeta>, name: Bytes) {
    exists k: nat :: k < |list| && list[k].name == name
  }

  ghost predicate ListsKey(list: seq<IndexMeta>, key: Bytes) {
    exists k: nat :: k < |list| && KeyOfIndex(list[k]) == key
  }

  lemma ListsMore(list: seq<TableMeta>, t: TableMeta)
    ensures forall name :: Lists(list + [t], name) <==> Lists(list, name) || t.name == name
  {
    var more := list + [t];
    forall name ensures Lists(more, name) <==> Lists(list, name) || t.name == name {
      assert more[|list|].name == t.name;
      if k: nat :| k < |list| && list[k].name == name {
        assert more[k].name == name;
      }
    }
  }

  lemma ListsKeyMore(list: seq<IndexMeta>, x: IndexMeta)
    ensures forall key :: ListsKey(list + [x], key) <==> ListsKey(list, key) || KeyOfIndex(x) == key
  {
    hide KeyOfIndex;
    var more := list + [x];
    forall key ensures ListsKey(more, key) <==> ListsKey(list, key) || KeyOfIndex(x) == key {
      assert more[|list|] == x;
      if k: nat :| k < |list| && KeyOfIndex(list[k]) == key {
        assert more[k] == list[k];
      }
    }
  }

  function KeyOfIndex(x: IndexMeta): Bytes {
    MakeIndexKey(x.table, x.column)
  }

  ghost predicate ListsIndexes(list: seq<IndexMeta>, indexes: Indexes) {
    && |list| == |indexes|
    && (forall k: nat :: k < |list| ==> KeyOfIndex(list[k]) in indexes && indexes[KeyOfIndex(list[k])] == list[k])
    && (forall j: nat, k: nat :: j < k < |list| ==> KeyOfIndex(list[j]) != KeyOfIndex(list[k]))
    && (forall key :: key in indexes ==> ListsKey(list, key))
  }

  /** The tables of a list; a second entry of the same name is ignored. */
  function TableMap(list: seq<TableMeta>): Tables {
    if list == [] then map[]
    else
      var tables, t := TableMap(list[..|list| - 1]), list[|list| - 1];
      if t.name in tables then tables else tables[t.name := t]
  }

  function IndexMap(list: seq<IndexMeta>): Indexes {
    if list == [] then map[] else IndexMap(list[..|list| - 1])[KeyOfIndex(list[|list| - 1]) := list[|list| - 1]]
  }

  lemma {:induction false} TableMapMembers(list: seq<TableMeta>)
    requires forall j: nat, k: nat :: j < k < |list| ==> list[j].name != list[k].name
    ensures forall name :: name in TableMap(list) <==> Lists(list, name)
    ensures forall k: nat :: k < |list| ==> list[k].name in TableMap(list) && TableMap(list)[list[k].name] == list[k]
    decreases |list|
  {
    if list != [] {
      TableMapMembers(list[..|list| - 1]);
      ListsMore(list[..|list| - 1], list[|list| - 1]);
      assert list == list[..|list| - 1] + [list[|list| - 1]];
      hide Lists;
    }
  }

  lemma {:induction false} IndexMapMembers(list: seq<IndexMeta>)
    requires forall j: nat, k: nat :: j < k < |list| ==> KeyOfIndex(list[j]) != KeyOfIndex(list[k])
    ensures forall key :: key in IndexMap(list) <==> ListsKey(list, key)
    ensures forall k: nat :: k < |list| ==> KeyOfIndex(list[k]) in IndexMap(list) && IndexMap(list)[KeyOfIndex(list[k])] == list[k]
    decreases |list|
  {
    hide KeyOfIndex;
    if list != [] {
      IndexMapMembers(list[..|list| - 1]);
      ListsKeyMore(list[..|list| - 1], list[|list| - 1]);
      assert list == list[..|list| - 1] + [list[|list| - 1]];
      hide ListsKey;
    }
  }

  /** Loading a list of every entry gives back the map. */
  lemma ListedTablesAreAll(list: seq<TableMeta>, tables: Tables)
    requires ListsTables(list, tables)
    ensures TableMap(list) == tables
  {
    TableMapMembers(list);
    hide TableMap;
  }

  lemma ListedIndexesAreAll(list: seq<IndexMeta>, indexes: Indexes)
    requires ListsIndexes(list, indexes)
    ensures IndexMap(list) == indexes
  {
    IndexMapMembers(list);
    hide IndexMap, KeyOfIndex;
  }

  // ---- Well-formed catalogs ----

  ghost predicate HasColumn(schema: Schema, column: Bytes) {
    exists k: nat :: k < |schema| && schema[k].name == column
  }

  /** The first column of that name; the number of columns if there is none. */
  function PositionOf(schema: Schema, column: Bytes): nat {
    if schema == [] || schema[0].name == column then 0 else 1 + PositionOf(schema[1..], column)
  }

  lemma {:induction false} PositionFound(schema: Schema, column: Bytes)
    ensures PositionOf(schema, column) <= |schema|
    ensures PositionOf(schema, column) < |schema| <==> HasColumn(schema, column)
    ensures PositionOf(schema, column) < |schema| ==> schema[PositionOf(schema, column)].name == column
    ensures forall k: nat :: k < |schema| && k < PositionOf(schema, column) ==> schema[k].name != column
    decreases |schema|
  {
    if schema != [] && schema[0].name != column {
      PositionFound(schema[1..], column);
      assert HasColumn(schema, column) ==> HasColumn(schema[1..], column) by {
        if k: nat :| k < |schema| && schema[k].name == column { assert schema[1..][k - 1].name == column; }
      }
    }
  }

  /** The search for a column by its name, which catalog, executor and storage share. */
  method FindColumn(schema: Schema, column: Bytes) returns (found: bool, position: nat)
    ensures found <==> HasColumn(schema, column)
    ensures found ==> position == PositionOf(schema, column) < |schema|
  {
    hide PositionOf;
    PositionFound(schema, column);
    position := 0;
    while position < |schema|
      invariant position <= |schema| && position <= PositionOf(schema, column)
    {
      if schema[position].name == column {
        return true, position;
      }
      position := position + 1;
    }
    found := false;
  }

  /** Entries are kept under their own names and can be stored, and every index is on a
      column of a table. */
  ghost predicate WellFormed(tables: Tables, indexes: Indexes, names: map<Bytes, Bytes>) {
    && (forall name :: name in tables ==> tables[name].name == name && TableFits(tables[name]))
    && (forall key :: key in indexes ==>
          && KeyOfIndex(indexes[key]) == key && IndexFits(indexes[key])
          && indexes[key].table in tables && HasColumn(tables[indexes[key].table].schema, indexes[key].column)
          && indexes[key].name in names && names[indexes[key].name] == key)
    && (forall name :: name in names ==> names[name] in indexes && indexes[names[name]].name == name)
  }

  /** Page 0 holds this catalog. */
  ghost predicate OnPage(s: Store, tables: Tables, indexes: Indexes) {
    exists ts: seq<TableMeta>, xs: seq<IndexMeta> ::
      ListsTables(ts, tables) && ListsIndexes(xs, indexes) && PageHolds0(s, ts, xs)
  }

  ghost predicate PageHolds0(s: Store, ts: seq<TableMeta>, xs: seq<IndexMeta>) {
    0 in s && UsedBytes(ts, xs) <= PAGE_SIZE && s[0] == CatalogBytes(ts, xs)
  }

  lemma ListedFits(ts: seq<TableMeta>, xs: seq<IndexMeta>, tables: Tables, indexes: Indexes, names: map<Bytes, Bytes>)
    requires WellFormed(tables, indexes, names) && ListsTables(ts, tables) && ListsIndexes(xs, indexes)
    ensures CatalogFits(ts, xs)
  {
    hide TableFits, IndexFits, HasColumn, KeyOfIndex;
  }

  /** Whatever the order of the entries on page 0, parsing it yields lists of exactly the
      tables and indexes that were stored. */
  lemma StoredCatalogReadsBack(s: Store, tables: Tables, indexes: Indexes, names: map<Bytes, Bytes>)
    requires WellFormed(tables, indexes, names) && OnPage(s, tables, indexes)
    ensures 0 in s && ParseCatalog(s[0]).Some?
    ensures ListsTables(ParseCatalog(s[0]).value.0, tables) && ListsIndexes(ParseCatalog(s[0]).value.1, indexes)
  {
    var ts: seq<TableMeta>, xs: seq<IndexMeta> :| ListsTables(ts, tables) && ListsIndexes(xs, indexes) && PageHolds0(s, ts, xs);
    ListedFits(ts, xs, tables, indexes, names);
    hide WellFormed, ListsTables, ListsIndexes, CatalogFits, CatalogBytes, ParseCatalog, UsedBytes;
    CatalogReadsBack(ts, xs);
  }

  // ---- Writing the page ----

  /** Lists the tables; the order, which the source sorts by name, does not matter. */
  method ListTables(tables: Tables) returns (list: seq<TableMeta>)
    requires forall name :: name in tables ==> tables[name].name == name
    ensures ListsTables(list, tables)
  {
    hide Lists;
    list := [];
    var todo := tables;
    while todo != map[]
      invariant forall name :: name in todo ==> name in tables && todo[name] == tables[name]
      invariant |list| + |todo| == |tables|
      invariant forall k: nat :: k < |list| ==> list[k].name in tables && tables[list[k].name] == list[k] && list[k].name !in todo
      invariant forall j: nat, k: nat :: j < k < |list| ==> list[j].name != list[k].name
      invariant forall name :: name in tables && name !in todo ==> Lists(list, name)
      decreases |todo|
    {
      var name :| name in todo;
      ListsMore(list, tables[name]);
      list := list + [tables[name]];
      todo := todo - {name};
    }
  }

  method ListIndexes(indexes: Indexes) returns (list: seq<IndexMeta>)
    requires forall key :: key in indexes ==> KeyOfIndex(indexes[key]) == key
    ensures ListsIndexes(list, indexes)
  {
    hide KeyOfIndex, ListsKey;
    list := [];
    var todo := indexes;
    while todo != map[]
      invariant forall key :: key in todo ==> key in indexes && todo[key] == indexes[key]
      invariant |list| + |todo| == |indexes|
      invariant forall k: nat :: k < |list| ==> KeyOfIndex(list[k]) in indexes && indexes[KeyOfIndex(list[k])] == list[k] && KeyOfIndex(list[k]) !in todo
      invariant forall j: nat, k: nat :: j < k < |list| ==> KeyOfIndex(list[j]) != KeyOfIndex(list[k])
      invariant forall key :: key in indexes && key !in todo ==> ListsKey(list, key)
      decreases |todo|
    {
      var key :| key in todo;
      ListsKeyMore(list, indexes[key]);
      list := list + [indexes[key]];
      todo := todo - {key};
    }
  }

  /** Appends bytes to a page that is being written, if they fit. */
  method Append(written: Bytes, part: Bytes) returns (ok: bool, extended: Bytes)
    ensures ok <==> |written| + |part| <= PAGE_SIZE
    ensures extended == if ok then written + part else written
  {
    ok := |written| + |part| <= PAGE_SIZE;
    extended := if ok then written + part else written;
  }

  /** Appends a table entry; its size is filled in once the columns are there. */
  method WriteTable(t: TableMeta, written: Bytes) returns (ok: bool, extended: Bytes)
    ensures ok <==> |written| + |TableBytes(t)| <= PAGE_SIZE
    ensures ok ==> extended == written + TableBytes(t)
  {
    hide *;
    TableLayout(t);
    FieldSizes();
    var front := U16(|t.name|) + U16(|t.schema|) + U16(0) + I32(t.first) + t.name;
    FrontSize(t);
    ok, extended := Append(written, U16(0) + front);
    if !ok {
      return;
    }
    NoColumns();
    ghost var start := extended;
    for k := 0 to |t.schema|
      invariant extended == start + ColumnsBytes(t.schema[..k]) && |extended| <= PAGE_SIZE
      invariant |ColumnsBytes(t.schema[..k])| <= |ColumnsBytes(t.schema)|
    {
      OneMoreColumn(t.schema, k);
      OnePartMore(start, ColumnsBytes(t.schema[..k]), ColumnBytes(t.schema[k]));
      ok, extended := Append(extended, ColumnBytes(t.schema[k]));
      if !ok {
        return;
      }
    }
    assert t.schema[..|t.schema|] == t.schema;
    SizeFilledIn(t, written, extended);
    extended := Put(extended, |written|, U16(|extended| - |written|));
    ok := true;
  }

  lemma OnePartMore(start: Bytes, before: Bytes, part: Bytes)
    ensures start + before + part == start + (before + part)
  {
  }

  lemma FieldSizes()
    ensures forall v: nat :: |U16(v)| == 2
    ensures forall v: int :: |I32(v)| == 4
    ensures PAGE_SIZE == 4096
  {
  }

  lemma FrontSize(t: TableMeta)
    ensures |U16(0) + (U16(|t.name|) + U16(|t.schema|) + U16(0) + I32(t.first) + t.name)| == 12 + |t.name|
  {
    hide U16, I32;
  }

  lemma NoColumns()
    ensures forall schema: Schema :: ColumnsBytes(schema[..0]) == []
  {
  }

  lemma {:induction false} ColumnsAppend(columns: seq<Column>, c: Column)
    ensures ColumnsBytes(columns + [c]) == ColumnsBytes(columns) + ColumnBytes(c)
    decreases |columns|
  {
    hide ColumnBytes;
    if columns == [] {
      assert [c][1..] == [];
      assert columns + [c] == [c];
    } else {
      ColumnsAppend(columns[1..], c);
      assert (columns + [c])[1..] == columns[1..] + [c];
    }
  }

  lemma OneMoreColumn(schema: Schema, k: nat)
    requires k < |schema|
    ensures ColumnsBytes(schema[..k + 1]) == ColumnsBytes(schema[..k]) + ColumnBytes(schema[k])
    ensures |ColumnsBytes(schema[..k + 1])| <= |ColumnsBytes(schema)|
  {
    hide ColumnBytes;
    assert schema[..k + 1] == schema[..k] + [schema[k]];
    ColumnsAppend(schema[..k], schema[k]);
    PrefixIsShorter(schema[..k + 1], schema[k + 1..]);
    assert schema[..k + 1] + schema[k + 1..] == schema;
  }

  lemma {:induction false} PrefixIsShorter(a: seq<Column>, b: seq<Column>)
    ensures |ColumnsBytes(a)| <= |ColumnsBytes(a + b)|
    decreases |a|
  {
    hide ColumnBytes;
    if a != [] {
      PrefixIsShorter(a[1..], b);
      assert (a + b)[1..] == a[1..] + b;
    }
  }

  lemma SizeFilledIn(t: TableMeta, written: Bytes, extended: Bytes)
    requires extended == written + (U16(0) + (U16(|t.name|) + U16(|t.schema|) + U16(0) + I32(t.first) + t.name)) + ColumnsBytes(t.schema)
    ensures Put(extended, |written|, U16(|extended| - |written|)) == written + TableBytes(t)
  {
    FrontSize(t);
    TableLayout(t);
    hide TableBytes, ColumnsBytes, I32, U16, Put;
    var size := |extended| - |written|;
    var rest := U16(|t.name|) + U16(|t.schema|) + U16(0) + I32(t.first) + t.name + ColumnsBytes(t.schema);
    assert extended == written + U16(0) + rest;
    PutInMiddle(written, U16(0), rest, U16(size));
    assert written + U16(size) + rest == written + TableBytes(t);
  }

  lemma PutInMiddle(x: Bytes, y: Bytes, z: Bytes, w: Bytes)
    requires |w| == |y|
    ensures Put(x + y + z, |x|, w) == x + w + z
  {
    assert (x + y + z)[..|x|] == x;
    assert (x + y + z)[|x| + |w|..] == z;
  }

  /** Appends an index entry. */
  method WriteIndex(x: IndexMeta, written: Bytes) returns (ok: bool, extended: Bytes)
    ensures ok <==> |written| + |IndexBytes(x)| <= PAGE_SIZE
    ensures ok ==> extended == written + IndexBytes(x)
  {
    hide *;
    IndexLayout(x);
    FieldSizes();
    var size := 12 + |x.name| + |x.table| + |x.column|;
    ok, extended := Append(written, U16(size) + U16(|x.name|) + U16(|x.table|) + U16(|x.column|) + I32(x.header));
    if !ok {
      return;
    }
    ok, extended := Append(extended, x.name + (x.table + x.column));
    if ok {
      assert extended == written + IndexBytes(x);
    }
  }

  // ---- The size of a catalog ----

  /** The sum of the sizes. */
  ghost function Total(sizes: map<Bytes, nat>): nat
    decreases |sizes|
  {
    if sizes == map[] then 0
    else
      var key :| key in sizes;
      sizes[key] + Total(sizes - {key})
  }

  /** The sum does not depend on the order. */
  lemma {:induction false} TotalTakes(sizes: map<Bytes, nat>, key: Bytes)
    requires key in sizes
    ensures Total(sizes) == sizes[key] + Total(sizes - {key})
    decreases |sizes|
  {
    var first :| first in sizes && Total(sizes) == sizes[first] + Total(sizes - {first});
    if first != key {
      TotalTakes(sizes - {first}, key);
      TotalTakes(sizes - {key}, first);
      assert (sizes - {first}) - {key} == (sizes - {key}) - {first};
    }
  }

  function TableSizes(tables: Tables): map<Bytes, nat> {
    map name | name in tables :: |TableBytes(tables[name])|
  }

  function IndexSizes(indexes: Indexes): map<Bytes, nat> {
    map key | key in indexes :: |IndexBytes(indexes[key])|
  }

  /** The bytes that a catalog takes on page 0. */
  ghost function CatalogSize(tables: Tables, indexes: Indexes): nat {
    16 + Total(TableSizes(tables)) + Total(IndexSizes(indexes))
  }

  lemma TableSizesWithout(tables: Tables, name: Bytes)
    requires name in tables
    ensures name in TableSizes(tables) && TableSizes(tables)[name] == |TableBytes(tables[name])|
    ensures TableSizes(tables) - {name} == TableSizes(tables - {name})
  {
    hide TableBytes;
  }

  lemma NoTableSizes(tables: Tables)
    requires ListsTables([], tables)
    ensures TablesBytes([]) == [] && Total(TableSizes(tables)) == 0
  {
    assert tables == map[];
    hide TableBytes;
  }

  lemma FirstTableSizes(list: seq<TableMeta>, tables: Tables)
    requires ListsTables(list, tables) && list != []
    ensures list[0].name in tables && tables[list[0].name] == list[0]
    ensures |TablesBytes(list)| == |TableBytes(list[0])| + |TablesBytes(list[1..])|
  {
    hide TableBytes;
  }

  lemma {:induction false} ListedTableSize(list: seq<TableMeta>, tables: Tables)
    requires ListsTables(list, tables)
    ensures |TablesBytes(list)| == Total(TableSizes(tables))
    decreases |list|
  {
    hide *;
    if list == [] {
      NoTableSizes(tables);
    } else {
      var name := list[0].name;
      FirstTableSizes(list, tables);
      RestIsListed(list, tables);
      TableSizesWithout(tables, name);
      ListedTableSize(list[1..], tables - {name});
      TotalTakes(TableSizes(tables), name);
    }
  }

  lemma RestIsListed(list: seq<TableMeta>, tables: Tables)
    requires ListsTables(list, tables) && list != []
    ensures ListsTables(list[1..], tables - {list[0].name}) && list[0].name in tables
  {
    var name, rest := list[0].name, list[1..];
    forall other | other in tables && other != name ensures Lists(rest, other) {
      assert Lists(list, other);
      var k: nat :| k < |list| && list[k].name == other;
      assert rest[k - 1].name == other;
    }
  }

  lemma IndexSizesWithout(indexes: Indexes, key: Bytes)
    requires key in indexes
    ensures key in IndexSizes(indexes) && IndexSizes(indexes)[key] == |IndexBytes(indexes[key])|
    ensures IndexSizes(indexes) - {key} == IndexSizes(indexes - {key})
  {
    hide IndexBytes;
  }

  lemma NoIndexSizes(indexes: Indexes)
    requires ListsIndexes([], indexes)
    ensures IndexesBytes([]) == [] && Total(IndexSizes(indexes)) == 0
  {
    assert indexes == map[];
    hide IndexBytes, KeyOfIndex;
  }

  lemma FirstIndexSizes(list: seq<IndexMeta>, indexes: Indexes)
    requires ListsIndexes(list, indexes) && list != []
    ensures KeyOfIndex(list[0]) in indexes && indexes[KeyOfIndex(list[0])] == list[0]
    ensures |IndexesBytes(list)| == |IndexBytes(list[0])| + |IndexesBytes(list[1..])|
  {
    hide IndexBytes, KeyOfIndex;
  }

  lemma {:induction false} ListedIndexSize(list: seq<IndexMeta>, indexes: Indexes)
    requires ListsIndexes(list, indexes)
    ensures |IndexesBytes(list)| == Total(IndexSizes(indexes))
    decreases |list|
  {
    hide *;
    if list == [] {
      NoIndexSizes(indexes);
    } else {
      var key := KeyOfIndex(list[0]);
      FirstIndexSizes(list, indexes);
      RestIsKeyed(list, indexes);
      IndexSizesWithout(indexes, key);
      ListedIndexSize(list[1..], indexes - {key});
      TotalTakes(IndexSizes(indexes), key);
    }
  }

  lemma KeyInRest(list: seq<IndexMeta>, key: Bytes)
    requires ListsKey(list, key) && list != [] && key != KeyOfIndex(list[0])
    ensures ListsKey(list[1..], key)
  {
    hide KeyOfIndex;
    var k: nat :| k < |list| && KeyOfIndex(list[k]) == key;
    assert list[1..][k - 1] == list[k];
  }

  lemma RestIsKeyed(list: seq<IndexMeta>, indexes: Indexes)
    requires ListsIndexes(list, indexes) && list != []
    ensures ListsIndexes(list[1..], indexes - {KeyOfIndex(list[0])}) && KeyOfIndex(list[0]) in indexes
  {
    hide KeyOfIndex, ListsKey;
    var key, rest := KeyOfIndex(list[0]), list[1..];
    forall other | other in indexes && other != key ensures ListsKey(rest, other) {
      KeyInRest(list, other);
    }
    forall k: nat | k < |rest| ensures rest[k] == list[k + 1] {}
  }

  /** Every order of the entries takes the same space. */
  lemma ListedSize(ts: seq<TableMeta>, xs: seq<IndexMeta>, tables: Tables, indexes: Indexes)
    requires ListsTables(ts, tables) && ListsIndexes(xs, indexes)
    ensures UsedBytes(ts, xs) == CatalogSize(tables, indexes)
  {
    hide ListsTables, ListsIndexes, TablesBytes, IndexesBytes, Total, TableSizes, IndexSizes;
    ListedTableSize(ts, tables);
    ListedIndexSize(xs, indexes);
  }

  // ---- Writing all entries ----

  lemma {:induction false} TablesAppend(ts: seq<TableMeta>, t: TableMeta)
    ensures TablesBytes(ts + [t]) == TablesBytes(ts) + TableBytes(t)
    decreases |ts|
  {
    hide TableBytes;
    if ts == [] {
      assert [t][1..] == [];
      assert ts + [t] == [t];
    } else {
      TablesAppend(ts[1..], t);
      assert (ts + [t])[1..] == ts[1..] + [t];
    }
  }

  lemma {:induction false} TablesPrefix(a: seq<TableMeta>, b: seq<TableMeta>)
    ensures |TablesBytes(a)| <= |TablesBytes(a + b)|
    decreases |a|
  {
    hide TableBytes;
    if a != [] {
      TablesPrefix(a[1..], b);
      assert (a + b)[1..] == a[1..] + b;
    }
  }

  lemma OneMoreTable(ts: seq<TableMeta>, k: nat)
    requires k < |ts|
    ensures TablesBytes(ts[..k + 1]) == TablesBytes(ts[..k]) + TableBytes(ts[k])
    ensures |TablesBytes(ts[..k + 1])| <= |TablesBytes(ts)|
  {
    hide TableBytes, TablesBytes;
    assert ts[..k + 1] == ts[..k] + [ts[k]];
    TablesAppend(ts[..k], ts[k]);
    TablesPrefix(ts[..k + 1], ts[k + 1..]);
    assert ts[..k + 1] + ts[k + 1..] == ts;
  }

  lemma {:induction false} IndexesAppend(xs: seq<IndexMeta>, x: IndexMeta)
    ensures IndexesBytes(xs + [x]) == IndexesBytes(xs) + IndexBytes(x)
    decreases |xs|
  {
    hide IndexBytes;
    if xs == [] {
      assert [x][1..] == [];
      assert xs + [x] == [x];
    } else {
      IndexesAppend(xs[1..], x);
      assert (xs + [x])[1..] == xs[1..] + [x];
    }
  }

  lemma {:induction false} IndexesPrefix(a: seq<IndexMeta>, b: seq<IndexMeta>)
    ensures |IndexesBytes(a)| <= |IndexesBytes(a + b)|
    decreases |a|
  {
    hide IndexBytes;
    if a != [] {
      IndexesPrefix(a[1..], b);
      assert (a + b)[1..] == a[1..] + b;
    }
  }

  lemma OneMoreIndex(xs: seq<IndexMeta>, k: nat)
    requires k < |xs|
    ensures IndexesBytes(xs[..k + 1]) == IndexesBytes(xs[..k]) + IndexBytes(xs[k])
    ensures |IndexesBytes(xs[..k + 1])| <= |IndexesBytes(xs)|
  {
    hide IndexBytes, IndexesBytes;
    assert xs[..k + 1] == xs[..k] + [xs[k]];
    IndexesAppend(xs[..k], xs[k]);
    IndexesPrefix(xs[..k + 1], xs[k + 1..]);
    assert xs[..k + 1] + xs[k + 1..] == xs;
  }

  lemma NoEntries()
    ensures forall ts: seq<TableMeta> :: TablesBytes(ts[..0]) == []
    ensures forall xs: seq<IndexMeta> :: IndexesBytes(xs[..0]) == []
    ensures forall ts: seq<TableMeta> :: ts[..|ts|] == ts
    ensures forall xs: seq<IndexMeta> :: xs[..|xs|] == xs
    ensures PAGE_SIZE == 4096
  {
  }

  lemma CatalogImage(ts: seq<TableMeta>, xs: seq<IndexMeta>, body: Bytes)
    requires body == TablesBytes(ts) + IndexesBytes(xs)
    ensures UsedBytes(ts, xs) == 16 + |body|
    ensures 16 + |body| <= PAGE_SIZE ==>
              HeaderBytes(|ts|, |xs|, 16 + |body|) + body + Zeros(PAGE_SIZE - (16 + |body|)) == CatalogBytes(ts, xs)
  {
    hide TablesBytes, IndexesBytes, HeaderBytes;
    if 16 + |body| <= PAGE_SIZE {
      var header, rest := HeaderBytes(|ts|, |xs|, 16 + |body|), Zeros(PAGE_SIZE - (16 + |body|));
      assert header + body + rest == header + TablesBytes(ts) + IndexesBytes(xs) + rest;
    }
  }

  /** The page of a catalog, if it fits. The room for the header is filled in at the end. */
  method SerializeCatalog(ts: seq<TableMeta>, xs: seq<IndexMeta>) returns (ok: bool, image: Bytes)
    ensures ok <==> UsedBytes(ts, xs) <= PAGE_SIZE
    ensures ok ==> image == CatalogBytes(ts, xs)
  {
    hide *;
    NoEntries();
    image := Zeros(16);
    CatalogImage(ts, xs, TablesBytes(ts) + IndexesBytes(xs));
    for k := 0 to |ts|
      invariant image == Zeros(16) + TablesBytes(ts[..k])
    {
      OneMoreTable(ts, k);
      ghost var before := TablesBytes(ts[..k]);
      ok, image := WriteTable(ts[k], image);
      if !ok {
        return;
      }
      assert (Zeros(16) + before) + TableBytes(ts[k]) == Zeros(16) + (before + TableBytes(ts[k]));
    }
    for k := 0 to |xs|
      invariant image == Zeros(16) + TablesBytes(ts) + IndexesBytes(xs[..k])
    {
      OneMoreIndex(xs, k);
      ghost var before := IndexesBytes(xs[..k]);
      ok, image := WriteIndex(xs[k], image);
      if !ok {
        return;
      }
      assert (Zeros(16) + TablesBytes(ts) + before) + IndexBytes(xs[k]) == Zeros(16) + TablesBytes(ts) + (before + IndexBytes(xs[k]));
    }
    var used := |image|;
    assert image[16..] == TablesBytes(ts) + IndexesBytes(xs);
    if used > PAGE_SIZE {
      return false, image;
    }
    image := HeaderBytes(|ts|, |xs|, used) + image[16..] + Zeros(PAGE_SIZE - used);
    ok := true;
  }
}
