// Finding a table by its name (src/storage/table_storage.cpp).
module TableLoads {
  import opened Common
  import opened RecordFormat
  import opened CatalogFormat
  import opened Catalogs
  import opened CatalogManagers
  import opened PageChains
  import opened HeapStates
  import opened IndexStates
  import opened TableStates
  import opened TableOutcomes
  import opened TableEntries
  import opened BucketFormat
  import opened Queries
  import opened Planners
  import opened Selections
  import opened StatementOutcomes
  import opened Databases
  import IndexBuilds
  import opened Engines

  // ---- The order of the indexes ----

  ghost predicate SameTable(t: TableInfo, u: TableInfo) {
    t.schema == u.schema && t.first == u.first && InfosIn(t) == InfosIn(u)
  }

  lemma ShapeHasNoIndexTwice(s: Store, t: TableInfo)
    requires TableShape(s, t)
    ensures NoIndexTwice(t)
  {
    hide HeapPages, OwnersOk;
    forall i: nat, j: nat | i < j < |t.indexes| ensures t.indexes[i] != t.indexes[j] {
      assert OwnerPages(s, t, i + 1) !! OwnerPages(s, t, j + 1);
      assert t.indexes[i].header in OwnerPages(s, t, i + 1);
    }
  }

  /** Where index `i` of one table is among the indexes of the other. */
  lemma SamePlace(t: TableInfo, u: TableInfo, i: nat) returns (j: nat)
    requires SameTable(t, u) && i < |u.indexes|
    ensures j < |t.indexes| && t.indexes[j] == u.indexes[i]
  {
    assert u.indexes[i] in InfosIn(u);
    j :| j < |t.indexes| && t.indexes[j] == u.indexes[i];
  }

  lemma SameOwner(s: Store, t: TableInfo, u: TableInfo, o: nat) returns (p: nat)
    requires SameTable(t, u) && o <= |u.indexes|
    ensures p <= |t.indexes| && OwnerPages(s, u, o) == OwnerPages(s, t, p)
    ensures o == 0 <==> p == 0
    ensures o > 0 && p > 0 ==> t.indexes[p - 1] == u.indexes[o - 1]
  {
    hide HeapPages, IndexPages;
    p := 0;
    if o > 0 {
      p := SamePlace(t, u, o - 1);
      p := p + 1;
    }
  }

  lemma DifferentPlaces(t: TableInfo, u: TableInfo, x: nat, y: nat, p: nat, q: nat)
    requires NoIndexTwice(u) && x < y <= |u.indexes| && p <= |t.indexes| && 0 < q <= |t.indexes|
    requires x == 0 <==> p == 0
    requires x > 0 ==> p > 0 && t.indexes[p - 1] == u.indexes[x - 1]
    requires t.indexes[q - 1] == u.indexes[y - 1]
    ensures p != q
  {
    assert x > 0 ==> u.indexes[x - 1] != u.indexes[y - 1];
  }

  lemma Disjoint(s: Store, t: TableInfo, p: nat, q: nat)
    requires TableShape(s, t) && p <= |t.indexes| && q <= |t.indexes| && p != q
    ensures OwnerPages(s, t, p) !! OwnerPages(s, t, q)
  {
    hide OwnerPages, OwnersOk;
    assert if p < q then OwnerPages(s, t, p) !! OwnerPages(s, t, q) else OwnerPages(s, t, q) !! OwnerPages(s, t, p);
  }

  lemma OwnersStayApart(s: Store, t: TableInfo, u: TableInfo, x: nat, y: nat)
    requires TableShape(s, t) && SameTable(t, u) && NoIndexTwice(u) && x < y <= |u.indexes|
    ensures OwnerPages(s, u, x) !! OwnerPages(s, u, y)
  {
    hide *;
    var p: nat := SameOwner(s, t, u, x);
    var q: nat := SameOwner(s, t, u, y);
    DifferentPlaces(t, u, x, y, p, q);
    Disjoint(s, t, p, q);
  }

  lemma SameShape(s: Store, t: TableInfo, u: TableInfo)
    requires TableShape(s, t) && SameTable(t, u) && NoIndexTwice(u)
    ensures TableShape(s, u)
  {
    forall x: nat, y: nat | x < y <= |u.indexes| ensures OwnerPages(s, u, x) !! OwnerPages(s, u, y) {
      OwnersStayApart(s, t, u, x, y);
    }
    hide OwnerPages, HeapOk, IndexOk;
    forall i: nat | i < |u.indexes| ensures IndexOk(s, u.indexes[i].header) {
      var j: nat := SamePlace(t, u, i);
    }
    assert OwnersOk(s, u);
  }

  lemma SamePages(s: Store, t: TableInfo, u: TableInfo)
    requires SameTable(t, u)
    ensures TablePages(s, u) <= TablePages(s, t)
  {
    hide OwnerPages, SameTable;
    forall p: nat | p in TablePages(s, u) ensures p in TablePages(s, t) {
      var o: nat :| o <= |u.indexes| && p in OwnerPages(s, u, o);
      var q: nat := SameOwner(s, t, u, o);
    }
  }

  lemma SameAgrees(s: Store, t: TableInfo, u: TableInfo)
    requires Agrees(ViewOf(s, t), t) && SameTable(t, u)
    ensures Agrees(ViewOf(s, u), u)
  {
    hide RecordKey, IndexPairs, RowPairs, Rooms, Width, HeapRows, Decode, SameTable;
    var v, w := ViewOf(s, t), ViewOf(s, u);
    SameHead(t, u);
    forall rid | rid in w.rows ensures Stored(w.rows[rid], u) {
      assert Stored(v.rows[rid], t);
      forall i: nat | i < |u.indexes| ensures !RecordKey(u.schema, w.rows[rid], u.indexes[i].column).BadKey? {
        var j: nat := SamePlace(t, u, i);
      }
    }
    forall i: nat | i < |u.indexes| ensures w.pairs[i] == RowPairs(w.rows, u.schema, u.indexes[i].column) {
      var j: nat := SamePlace(t, u, i);
      assert v.pairs[j] == RowPairs(v.rows, t.schema, t.indexes[j].column);
    }
  }

  lemma SameHead(t: TableInfo, u: TableInfo)
    requires SameTable(t, u)
    ensures t.schema == u.schema && t.first == u.first && SameTable(u, t)
  {
  }

  /** In which order the indexes of a table are listed does not matter. */
  lemma IndexOrderDoesNotMatter(s: Store, t: TableInfo, u: TableInfo)
    requires TableOk(s, t) && SameTable(t, u) && NoIndexTwice(u)
    ensures TableOk(s, u) && TablePages(s, u) == TablePages(s, t) && NoIndexTwice(t)
  {
    hide *;
    TableOkParts(s, t);
    ShapeHasNoIndexTwice(s, t);
    SameHead(t, u);
    SameShape(s, t, u);
    SamePages(s, t, u);
    SamePages(s, u, t);
    SameAgrees(s, t, u);
    IndexBuilds.MakeTableOk(s, u);
  }

  lemma SameStatement(a: Store, b: Store, t: TableInfo, u: TableInfo)
    requires TableOk(a, t) && SameTable(t, u) && NoIndexTwice(u) && StatementStep(a, b, u)
    ensures StatementStep(a, b, t)
  {
    hide *;
    IndexOrderDoesNotMatter(a, t, u);
    StepParts(a, b, u);
    SameHead(t, u);
    IndexOrderDoesNotMatter(b, u, t);
    TableOkParts(a, t);
    TableOkParts(b, t);
    MakeStatementStep(a, b, t);
  }

  lemma MakeStatementStep(a: Store, b: Store, t: TableInfo)
    requires TableOk(b, t) && TableShape(a, t) && TableShape(b, t)
    requires OwnChange(a, b, TablePages(a, t), TablePages(b, t)) && NewOwned(a, b, TablePages(b, t))
    ensures StatementStep(a, b, t)
  {
    hide TableOk, TableShape, TablePages, OwnChange, NewOwned;
  }

  // ---- Loading ----

  /** A table that is loaded by its name is in order. */
  lemma LoadedTableIsOk(s: Store, tables: Tables, indexes: Indexes, indexNames: Names, names: seq<Bytes>, db: seq<TableInfo>, lost: set<nat>, name: Bytes, t: TableInfo)
    returns (k: nat)
    requires EngineOk(s, tables, indexes, indexNames, names, db, lost) && Loaded(tables, indexes, name, t)
    ensures TableOk(s, t) && k < |db| && k < |names| && names[k] == name && SameTable(db[k], t)
  {
    hide *;
    EngineParts(s, tables, indexes, indexNames, names, db, lost);
    k := NamePlace(tables, indexes, names, db, name);
    DbTable(s, db, lost, k);
    SameEntry(tables, indexes, name, db[k], t);
    IndexOrderDoesNotMatter(s, db[k], t);
  }

  lemma NamePlace(tables: Tables, indexes: Indexes, names: seq<Bytes>, db: seq<TableInfo>, name: Bytes) returns (k: nat)
    requires Describes(tables, indexes, names, db) && (exists t: TableInfo :: Loaded(tables, indexes, name, t))
    ensures k < |db| && k < |names| && names[k] == name && name in tables && TableIs(tables[name], indexes, db[k])
  {
    hide TableIs, AllDifferent, NoIndexTwice;
    assert name in tables && Named(names, name);
    k :| k < |names| && names[k] == name;
  }

  lemma SameEntry(tables: Tables, indexes: Indexes, name: Bytes, t: TableInfo, u: TableInfo)
    requires name in tables && TableIs(tables[name], indexes, t) && Loaded(tables, indexes, name, u)
    ensures SameTable(t, u) && NoIndexTwice(u)
  {
    hide InfosIn, InfosOf, NoIndexTwice;
  }

  // ---- The indexes of all tables ----

  /** The pairs of an index are rows of its table. */
  lemma PairsAreRows(s: Store, t: TableInfo, i: nat)
    requires TableOk(s, t) && i < |t.indexes|
    ensures IndexOk(s, t.indexes[i].header)
    ensures forall pair :: pair in IndexPairs(s, t.indexes[i].header) ==> pair.rid in HeapRows(s, t.first)
  {
    hide *;
    TableOkParts(s, t);
    ViewRows(s, t);
    ViewAt(s, t, i);
    PairsOfView(ViewOf(s, t), t, i);
  }

  lemma PairsOfView(v: View, t: TableInfo, i: nat)
    requires Agrees(v, t) && i < |t.indexes| && i < |v.pairs|
    ensures forall pair :: pair in v.pairs[i] ==> pair.rid in v.rows
  {
    hide Stored, RecordKey, RowPairs;
    assert v.pairs[i] == RowPairs(v.rows, t.schema, t.indexes[i].column);
    forall pair | pair in v.pairs[i] ensures pair.rid in v.rows {
      PairMeansKey(v.rows, t.schema, t.indexes[i].column, pair.rid, pair.key);
    }
  }

  lemma HeapPagesApart(s: Store, db: seq<TableInfo>, lost: set<nat>, j: nat, k: nat)
    requires DbOk(s, db, lost) && j < |db| && k < |db| && j != k
    ensures HeapPages(s, db[j].first) !! HeapPages(s, db[k].first)
  {
    hide OwnerPages, TableOk, Owned, LostPages;
    OwnerInTable(s, db[j], 0);
    OwnerInTable(s, db[k], 0);
    assert if j < k then TablePages(s, db[j]) !! TablePages(s, db[k]) else TablePages(s, db[k]) !! TablePages(s, db[j]);
    HeapIsOwner(s, db[j]);
    HeapIsOwner(s, db[k]);
    hide TablePages;
  }

  lemma HeapIsOwner(s: Store, t: TableInfo)
    ensures OwnerPages(s, t, 0) == HeapPages(s, t.first)
  {
    hide HeapPages;
  }

  /** Every index of the catalog leads to rows of its own table. */
  lemma EveryIndexIsReadable(s: Store, tables: Tables, indexes: Indexes, indexNames: Names, names: seq<Bytes>, db: seq<TableInfo>, lost: set<nat>,
                             name: Bytes, t: TableInfo)
    requires EngineOk(s, tables, indexes, indexNames, names, db, lost) && Loaded(tables, indexes, name, t)
    ensures IndexesReadable(s, indexes, name, t.first)
  {
    assert HEADER_PAGE_ID == 0;
    hide *;
    EngineParts(s, tables, indexes, indexNames, names, db, lost);
    var j: nat := LoadedTableIsOk(s, tables, indexes, indexNames, names, db, lost, name, t);
    SameHead(db[j], t);
    forall key | key in indexes ensures IndexReadable(s, indexes[key], name, t.first) {
      var k: nat, i: nat := FindIndexOfTable(tables, indexes, indexNames, names, db, key);
      DbTable(s, db, lost, k);
      TableOkParts(s, db[k]);
      PairsAreRows(s, db[k], i);
      RowsAreReadable(s, db[k].first);
      if indexes[key].table != name {
        HeapPagesApart(s, db, lost, j, k);
      }
      MakeIndexReadable(s, indexes[key], name, t.first, db[k].first);
    }
    MakeIndexesReadable(s, indexes, name, t.first);
  }

  lemma MakeIndexReadable(s: Store, x: IndexMeta, name: Bytes, first: int, own: int)
    requires x.header > 0 && IndexOk(s, x.header) && forall pair :: pair in IndexPairs(s, x.header) ==> pair.rid in HeapRows(s, own)
    requires forall rid :: rid in HeapRows(s, own) ==> Readable(s, rid) && rid.pageId in HeapPages(s, own)
    requires x.table != name ==> HeapPages(s, first) !! HeapPages(s, own)
    ensures IndexReadable(s, x, name, first)
  {
    hide IndexOk, IndexPairs, Readable, HeapPages, HeapRows;
  }

  lemma MakeIndexesReadable(s: Store, indexes: Indexes, name: Bytes, first: int)
    requires forall key :: key in indexes ==> IndexReadable(s, indexes[key], name, first)
    ensures IndexesReadable(s, indexes, name, first)
  {
    hide IndexReadable;
  }

  /** A statement on a table that has been found by its name keeps the engine in order,
      and the rows of the other tables. */
  lemma LoadedStatementKeepsEngine(a: Store, b: Store, tables: Tables, indexes: Indexes, indexNames: Names,
                                   names: seq<Bytes>, db: seq<TableInfo>, lost: set<nat>, name: Bytes, t: TableInfo, k: nat)
    requires EngineOk(a, tables, indexes, indexNames, names, db, lost) && Loaded(tables, indexes, name, t) && StatementStep(a, b, t)
    requires k < |db| && SameTable(db[k], t)
    ensures EngineOk(b, tables, indexes, indexNames, names, db, lost)
    ensures forall j: nat :: j < |db| && j != k ==> HeapRows(b, db[j].first) == HeapRows(a, db[j].first)
  {
    hide *;
    EngineParts(a, tables, indexes, indexNames, names, db, lost);
    DbTable(a, db, lost, k);
    LoadedParts(tables, indexes, name, t);
    SameStatement(a, b, db[k], t);
    StatementKeepsEngine(a, b, tables, indexes, indexNames, names, db, lost, k);
  }

  /** The keys of the indexes that have been listed so far. */
  ghost predicate ListedFor(indexes: Indexes, todo: Indexes, name: Bytes, schema: Schema, found: seq<IndexInfo>) {
    && (forall x :: x in found <==> exists key :: key in indexes && key !in todo && indexes[key].table == name && x == InfoOf(indexes[key], schema))
    && (forall i: nat, j: nat :: i < j < |found| ==> found[i] != found[j])
  }

  lemma ColumnsTellApart(tables: Tables, indexes: Indexes, indexNames: Names, name: Bytes, key: Bytes, other: Bytes)
    requires WellFormed(tables, indexes, indexNames) && name in tables && key in indexes && other in indexes && key != other
    requires indexes[key].table == name && indexes[other].table == name
    ensures InfoOf(indexes[key], tables[name].schema) != InfoOf(indexes[other], tables[name].schema)
  {
    var schema := tables[name].schema;
    assert HasColumn(schema, indexes[key].column) && HasColumn(schema, indexes[other].column);
    assert KeyOfIndex(indexes[key]) == key && KeyOfIndex(indexes[other]) == other;
    assert indexes[key].column != indexes[other].column;
    hide WellFormed, HasColumn, KeyOfIndex, PositionOf;
    PositionFound(schema, indexes[key].column);
    PositionFound(schema, indexes[other].column);
  }

  lemma ListedNothing(indexes: Indexes, name: Bytes, schema: Schema)
    ensures ListedFor(indexes, indexes, name, schema, [])
  {
    hide InfoOf;
  }

  lemma ListedOneMore(tables: Tables, indexes: Indexes, indexNames: Names, todo: Indexes, name: Bytes, found: seq<IndexInfo>, key: Bytes)
    requires WellFormed(tables, indexes, indexNames) && name in tables
    requires ListedFor(indexes, todo, name, tables[name].schema, found)
    requires key in todo && key in indexes && todo.Keys <= indexes.Keys
    ensures ListedFor(indexes, todo - {key}, name, tables[name].schema,
                      if indexes[key].table == name then found + [InfoOf(indexes[key], tables[name].schema)] else found)
  {
    var schema := tables[name].schema;
    var rest := todo - {key};
    var x := InfoOf(indexes[key], schema);
    if indexes[key].table == name {
      forall other | other in indexes && other !in todo && indexes[other].table == name ensures InfoOf(indexes[other], schema) != x {
        ColumnsTellApart(tables, indexes, indexNames, name, key, other);
      }
      assert x !in found;
    }
    hide InfoOf, WellFormed;
    var more := if indexes[key].table == name then found + [x] else found;
    forall y ensures y in more <==> exists other :: other in indexes && other !in rest && indexes[other].table == name && y == InfoOf(indexes[other], schema) {
      if y in found {
        var other :| other in indexes && other !in todo && indexes[other].table == name && y == InfoOf(indexes[other], schema);
        assert other !in rest;
      }
      if y in more && y !in found {
        assert key in indexes && key !in rest && indexes[key].table == name && y == InfoOf(indexes[key], schema);
      }
    }
  }

  lemma ListedAll(tables: Tables, indexes: Indexes, name: Bytes, found: seq<IndexInfo>, first: nat)
    requires name in tables && tables[name].name == name && tables[name].first == first
    requires ListedFor(indexes, map[], name, tables[name].schema, found)
    ensures Loaded(tables, indexes, name, TableInfo(tables[name].schema, first, found))
  {
    hide InfoOf;
    var t := TableInfo(tables[name].schema, first, found);
    assert InfosIn(t) == InfosOf(indexes, name, tables[name].schema);
  }

  lemma TableEntry(tables: Tables, indexes: Indexes, indexNames: Names, name: Bytes)
    requires WellFormed(tables, indexes, indexNames) && name in tables
    ensures tables[name].name == name && tables[name].first > 0
    ensures forall key :: key in indexes && indexes[key].table == name ==>
              indexes[key].header > HEADER_PAGE_ID && HasColumn(tables[name].schema, indexes[key].column)
  {
    hide HasColumn, KeyOfIndex;
    assert TableFits(tables[name]);
    assert forall key :: key in indexes ==> IndexFits(indexes[key]);
  }

  lemma InfoIs(x: IndexMeta, schema: Schema, position: nat)
    requires x.header > HEADER_PAGE_ID && position == PositionOf(schema, x.column)
    ensures InfoOf(x, schema) == IndexInfo(position, x.header)
  {
    hide PositionOf;
  }

  /** The columns, the first page and the indexes of a table, by its name. */
  method LoadTable(catalog: CatalogManager, name: Bytes) returns (status: StatusCode, t: TableInfo)
    requires catalog.Valid()
    ensures catalog.status != OK ==> status == catalog.status
    ensures catalog.status == OK ==>
              status == if name == [] then INVALID_ARGUMENT else if name !in catalog.tables then NOT_FOUND else OK
    ensures status == OK ==> Loaded(catalog.tables, catalog.indexes, name, t)
  {
    hide *;
    t := TableInfo([], 0, []);
    catalog.MakeValid();
    if catalog.status != OK {
      return catalog.status, t;
    }
    if name == [] {
      return INVALID_ARGUMENT, t;
    }
    if name !in catalog.tables {
      return NOT_FOUND, t;
    }
    var tables, indexes := catalog.tables, catalog.indexes;
    TableEntry(tables, indexes, catalog.indexNames, name);
    var schema := tables[name].schema;
    var found: seq<IndexInfo> := [];
    var todo := indexes;
    ListedNothing(indexes, name, schema);
    while todo != map[]
      invariant todo.Keys <= indexes.Keys && forall key :: key in todo ==> todo[key] == indexes[key]
      invariant ListedFor(indexes, todo, name, schema, found)
      decreases |todo|
    {
      var key :| key in todo;
      ListedOneMore(tables, indexes, catalog.indexNames, todo, name, found, key);
      if indexes[key].table == name {
        var hasColumn, position := FindColumn(schema, indexes[key].column);
        InfoIs(indexes[key], schema, position);
        found := found + [IndexInfo(position, indexes[key].header)];
      }
      todo := todo - {key};
    }
    ListedAll(tables, indexes, name, found, tables[name].first);
    t := TableInfo(schema, tables[name].first, found);
    status := OK;
  }
}
