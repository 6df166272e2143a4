// The engine as a whole: the catalog in memory, its copy on page 0, and the pages of the
// tables and indexes that it names.
module Engines {
  import opened Common
  import opened RecordFormat
  import opened CatalogFormat
  import opened Catalogs
  import opened CatalogManagers
  import opened PageChains
  import opened HeapStates
  import opened IndexStates
  import opened TableStates
  import opened TableOutcomes
  import opened TableEntries
  import opened StatementOutcomes
  import opened Databases
  import opened IndexBuilds

  ghost predicate Named(names: seq<Bytes>, name: Bytes) {
    exists k: nat :: k < |names| && names[k] == name
  }

  ghost predicate AllDifferent(names: seq<Bytes>) {
    forall j: nat, k: nat :: j < k < |names| ==> names[j] != names[k]
  }

  /** The catalog names exactly the tables of `db`, with their indexes; table `k` is
      called `names[k]`. */
  ghost predicate Describes(tables: Tables, indexes: Indexes, names: seq<Bytes>, db: seq<TableInfo>) {
    && |names| == |db| && AllDifferent(names)
    && (forall k: nat :: k < |db| ==> names[k] in tables && TableIs(tables[names[k]], indexes, db[k]))
    && (forall name :: name in tables ==> Named(names, name))
  }

  /** Page 0 says what the catalog in memory says. */
  ghost predicate PageSays(s: Store, tables: Tables, indexes: Indexes) {
    && 0 in s && ParseCatalog(s[0]).Some?
    && ListsTables(ParseCatalog(s[0]).value.0, tables) && ListsIndexes(ParseCatalog(s[0]).value.1, indexes)
  }

  /** The engine is in order: every page belongs to the catalog, or to one table; rows and
      indexes agree; and the catalog, in memory and on page 0, names just these tables. */
  ghost predicate EngineOk(s: Store, tables: Tables, indexes: Indexes, indexNames: Names, names: seq<Bytes>, db: seq<TableInfo>, lost: set<nat>) {
    && DbOk(s, db, lost)
    && WellFormed(tables, indexes, indexNames)
    && Describes(tables, indexes, names, db)
    && PageSays(s, tables, indexes)
  }

  lemma EngineParts(s: Store, tables: Tables, indexes: Indexes, indexNames: Names, names: seq<Bytes>, db: seq<TableInfo>, lost: set<nat>)
    requires EngineOk(s, tables, indexes, indexNames, names, db, lost)
    ensures DbOk(s, db, lost) && WellFormed(tables, indexes, indexNames) && Describes(tables, indexes, names, db)
    ensures PageSays(s, tables, indexes) && 0 in s
  {
    hide DbOk, WellFormed, Describes;
  }

  lemma MakeEngineOk(s: Store, tables: Tables, indexes: Indexes, indexNames: Names, names: seq<Bytes>, db: seq<TableInfo>, lost: set<nat>)
    requires DbOk(s, db, lost) && WellFormed(tables, indexes, indexNames) && Describes(tables, indexes, names, db)
    requires PageSays(s, tables, indexes)
    ensures EngineOk(s, tables, indexes, indexNames, names, db, lost)
  {
    hide DbOk, WellFormed, Describes, PageSays;
  }

  // ---- Restart ----

  lemma FindIndexOfTable(tables: Tables, indexes: Indexes, indexNames: Names, names: seq<Bytes>, db: seq<TableInfo>, key: Bytes)
    returns (k: nat, i: nat)
    requires WellFormed(tables, indexes, indexNames) && Describes(tables, indexes, names, db) && key in indexes
    ensures indexes[key].header > HEADER_PAGE_ID
    ensures k < |db| && i < |db[k].indexes| && db[k].indexes[i].header == indexes[key].header
    ensures k < |names| && names[k] == indexes[key].table
  {
    hide TableFits, HasColumn, KeyOfIndex, AllDifferent, PositionOf;
    var x := indexes[key];
    assert IndexFits(x) && x.table in tables && Named(names, x.table);
    k :| k < |names| && names[k] == x.table;
    assert tables[names[k]].name == names[k];
    assert InfoOf(x, db[k].schema) in InfosOf(indexes, x.table, db[k].schema);
    assert InfoOf(x, db[k].schema) in InfosIn(db[k]);
    i :| i < |db[k].indexes| && db[k].indexes[i] == InfoOf(x, db[k].schema);
  }

  lemma HeaderOfTable(s: Store, t: TableInfo, i: nat)
    requires TableOk(s, t) && i < |t.indexes|
    ensures GoodHeader(s, t.indexes[i].header)
  {
    hide *;
    TableOkParts(s, t);
    var h := t.indexes[i].header;
    IndexChains(s, h);
    IndexStates.ShapeParts(s, h, ChainsFor(s, h));
  }

  lemma DescribedIndex(s: Store, tables: Tables, indexes: Indexes, indexNames: Names, names: seq<Bytes>, db: seq<TableInfo>, lost: set<nat>, key: Bytes)
    requires EngineOk(s, tables, indexes, indexNames, names, db, lost) && key in indexes
    ensures HeaderIsGood(s, indexes[key])
  {
    hide *;
    EngineParts(s, tables, indexes, indexNames, names, db, lost);
    var k: nat, i: nat := FindIndexOfTable(tables, indexes, indexNames, names, db, key);
    DbTable(s, db, lost, k);
    HeaderOfTable(s, db[k], i);
    MakeHeaderIsGood(s, indexes[key]);
  }

  ghost predicate HeaderIsGood(s: Store, x: IndexMeta) {
    x.header > HEADER_PAGE_ID && GoodHeader(s, x.header)
  }

  lemma MakeHeaderIsGood(s: Store, x: IndexMeta)
    requires x.header > HEADER_PAGE_ID && GoodHeader(s, x.header)
    ensures HeaderIsGood(s, x)
  {
    hide GoodHeader;
  }

  /** Starting the engine again on the pages that it left loads the catalog that it had. */
  lemma RestartRestores(s: Store, tables: Tables, indexes: Indexes, indexNames: Names, names: seq<Bytes>, db: seq<TableInfo>, lost: set<nat>)
    requires EngineOk(s, tables, indexes, indexNames, names, db, lost)
    ensures LoadedCatalog(s) == Some((tables, indexes, indexNames))
  {
    hide *;
    EngineParts(s, tables, indexes, indexNames, names, db, lost);
    PageSaysParts(s, tables, indexes);
    forall key | key in indexes ensures HeaderIsGood(s, indexes[key]) {
      DescribedIndex(s, tables, indexes, indexNames, names, db, lost, key);
    }
    MakeHeadersGood(s, indexes);
    var ts, xs := ParseCatalog(s[0]).value.0, ParseCatalog(s[0]).value.1;
    LoadRestoresListed(s, ts, xs, tables, indexes, indexNames);
  }

  lemma PageSaysParts(s: Store, tables: Tables, indexes: Indexes)
    requires PageSays(s, tables, indexes)
    ensures 0 in s && ParseCatalog(s[0]).Some?
    ensures ListsTables(ParseCatalog(s[0]).value.0, tables) && ListsIndexes(ParseCatalog(s[0]).value.1, indexes)
  {
    hide ParseCatalog, ListsTables, ListsIndexes;
  }

  lemma MakeHeadersGood(s: Store, indexes: Indexes)
    requires forall key :: key in indexes ==> HeaderIsGood(s, indexes[key])
    ensures HeadersGood(s, indexes)
  {
    hide GoodHeader;
  }

  lemma StoredSays(s: Store, tables: Tables, indexes: Indexes, indexNames: Names)
    requires WellFormed(tables, indexes, indexNames) && OnPage(s, tables, indexes)
    ensures PageSays(s, tables, indexes)
  {
    hide *;
    StoredCatalogReadsBack(s, tables, indexes, indexNames);
    MakePageSays(s, tables, indexes);
  }

  lemma MakePageSays(s: Store, tables: Tables, indexes: Indexes)
    requires 0 in s && ParseCatalog(s[0]).Some?
    requires ListsTables(ParseCatalog(s[0]).value.0, tables) && ListsIndexes(ParseCatalog(s[0]).value.1, indexes)
    ensures PageSays(s, tables, indexes)
  {
    hide ParseCatalog, ListsTables, ListsIndexes;
  }

  lemma SamePageSays(a: Store, b: Store, tables: Tables, indexes: Indexes)
    requires PageSays(a, tables, indexes) && 0 in b && b[0] == a[0]
    ensures PageSays(b, tables, indexes)
  {
    hide ParseCatalog, ListsTables, ListsIndexes;
  }

  /** A new file, with nothing but an empty page 0, is an engine without tables. */
  lemma FreshEngine()
    ensures EngineOk(map[0 := Zeros(PAGE_SIZE)], map[], map[], map[], [], [], {})
  {
    var s: Store := map[0 := Zeros(PAGE_SIZE)];
    assert ParseCatalog(s[0]) == Some(([], []));
    hide ParseCatalog;
  }

  // ---- Statements on one table ----

  /** INSERT, UPDATE and DELETE keep the engine in order. */
  lemma StatementKeepsEngine(a: Store, b: Store, tables: Tables, indexes: Indexes, indexNames: Names,
                             names: seq<Bytes>, db: seq<TableInfo>, lost: set<nat>, k: nat)
    requires EngineOk(a, tables, indexes, indexNames, names, db, lost) && k < |db| && StatementStep(a, b, db[k])
    ensures EngineOk(b, tables, indexes, indexNames, names, db, lost)
    ensures forall j: nat :: j < |db| && j != k ==> HeapRows(b, db[j].first) == HeapRows(a, db[j].first)
  {
    hide *;
    EngineParts(a, tables, indexes, indexNames, names, db, lost);
    StatementKeepsDb(a, b, db, lost, k);
    SamePageSays(a, b, tables, indexes);
    MakeEngineOk(b, tables, indexes, indexNames, names, db, lost);
  }

  // ---- CREATE TABLE ----

  /** A table beside which others have been given new pages. */
  lemma KeptBeside(a: Store, s: Store, t: TableInfo, pages: set<nat>)
    requires TableOk(a, t) && forall p: nat :: p in a ==> p in s && s[p] == a[p] && p !in pages
    ensures TableOk(s, t) && TablePages(s, t) == TablePages(a, t) && TablePages(s, t) !! pages
    ensures HeapRows(s, t.first) == HeapRows(a, t.first)
  {
    hide *;
    TableOkParts(a, t);
    TableAllocated(a, t);
    TableFrameOk(a, s, t);
  }

  /** New pages make no difference to the tables, nor to the pages that are lost. */
  lemma TablesBeside(a: Store, s: Store, db: seq<TableInfo>, lost: set<nat>, pages: set<nat>)
    requires DbOk(a, db, lost) && forall p: nat :: p in a ==> p in s && s[p] == a[p] && p !in pages
    ensures forall j: nat :: j < |db| ==>
              && TableOk(s, db[j]) && TablePages(s, db[j]) == TablePages(a, db[j]) && TablePages(s, db[j]) !! pages
              && HeapRows(s, db[j].first) == HeapRows(a, db[j].first)
    ensures forall p: nat :: Owned(s, db, p) <==> Owned(a, db, p)
    ensures LostPages(s, lost) && lost !! pages
  {
    hide TableOk, TablePages, HeapRows, Disk.IsZeroPage, Owned;
    forall j: nat | j < |db|
      ensures TableOk(s, db[j]) && TablePages(s, db[j]) == TablePages(a, db[j]) && TablePages(s, db[j]) !! pages
      ensures HeapRows(s, db[j].first) == HeapRows(a, db[j].first)
    {
      KeptBeside(a, s, db[j], pages);
    }
    forall p: nat ensures Owned(s, db, p) <==> Owned(a, db, p) {
      SameOwned(a, s, db, p);
    }
  }

  lemma LostIn(s: Store, lost: set<nat>)
    requires LostPages(s, lost)
    ensures forall p: nat :: p in lost ==> p in s && p >= 1
  {
    hide Disk.IsZeroPage;
  }

  lemma TableAddedDb(a: Store, b: Store, db: seq<TableInfo>, lost: set<nat>, schema: Schema, p: nat)
    requires DbOk(a, db, lost) && p >= 1 && p !in a && p in b && b == a[p := b[p]]
    requires TableOk(b, TableInfo(schema, p, [])) && TablePages(b, TableInfo(schema, p, [])) == {p}
    ensures DbOk(b, db + [TableInfo(schema, p, [])], lost)
    ensures forall j: nat :: j < |db| ==> HeapRows(b, db[j].first) == HeapRows(a, db[j].first)
  {
    var t := TableInfo(schema, p, []);
    var more := db + [t];
    hide TableOk, TablePages, HeapRows, Owned, LostPages;
    TablesBeside(a, b, db, lost, {p});
    forall j: nat, k: nat | j < k < |more| ensures TablePages(b, more[j]) !! TablePages(b, more[k]) {
      if k < |db| { assert TablePages(a, db[j]) !! TablePages(a, db[k]); }
    }
    forall q: nat | q in b && q != 0 ensures Owned(b, more, q) <==> q !in lost {
      OwnedOrNew(b, db, t, q);
    }
  }

  lemma OwnedOrNew(b: Store, db: seq<TableInfo>, t: TableInfo, q: nat)
    ensures Owned(b, db + [t], q) <==> Owned(b, db, q) || q in TablePages(b, t)
  {
    hide TablePages;
    var more := db + [t];
    assert more[|db|] == t;
    if j: nat :| j < |db| && q in TablePages(b, db[j]) {
      assert q in TablePages(b, more[j]);
    }
  }

  lemma TableAddedDescribes(tables: Tables, indexes: Indexes, indexNames: Names, names: seq<Bytes>, db: seq<TableInfo>,
                            m: TableMeta, t: TableInfo)
    requires WellFormed(tables, indexes, indexNames) && Describes(tables, indexes, names, db)
    requires m.name !in tables && m.schema == t.schema && m.first == t.first && t.indexes == []
    ensures Describes(tables[m.name := m], indexes, names + [m.name], db + [t])
  {
    hide TableFits, IndexFits, HasColumn, KeyOfIndex, InfoOf;
    var more, all := tables[m.name := m], names + [m.name];
    assert forall key :: key in indexes ==> indexes[key].table in tables;
    assert InfosOf(indexes, m.name, m.schema) == {};
    assert TableIs(m, indexes, t);
    assert forall k: nat :: k < |db| ==> names[k] in tables && names[k] != m.name;
    hide WellFormed, TableIs;
    forall name | name in more ensures Named(all, name) {
      if name == m.name {
        assert all[|names|] == name;
      } else {
        var k: nat :| k < |names| && names[k] == name;
        assert all[k] == name;
      }
    }
  }

  /** A table has been created: on a page of its own, and in the catalog. */
  lemma TableAddedKeepsEngine(a: Store, s: Store, b: Store, tables: Tables, indexes: Indexes, indexNames: Names,
                              names: seq<Bytes>, db: seq<TableInfo>, lost: set<nat>, m: TableMeta, p: nat)
    requires EngineOk(a, tables, indexes, indexNames, names, db, lost)
    requires p >= 1 && p !in a && p in s && s == a[p := s[p]] && m.first == p && m.name !in tables
    requires TableOk(s, TableInfo(m.schema, p, [])) && TablePages(s, TableInfo(m.schema, p, [])) == {p}
    requires WellFormed(tables[m.name := m], indexes, indexNames)
    requires OnlyHeader(s, b) && OnPage(b, tables[m.name := m], indexes)
    ensures EngineOk(b, tables[m.name := m], indexes, indexNames, names + [m.name], db + [TableInfo(m.schema, p, [])], lost)
    ensures forall j: nat :: j < |db| ==> HeapRows(b, db[j].first) == HeapRows(a, db[j].first)
  {
    hide *;
    EngineParts(a, tables, indexes, indexNames, names, db, lost);
    TableAddedDb(a, s, db, lost, m.schema, p);
    HeaderParts(s, b);
    CatalogPageKeepsDb(s, b, db + [TableInfo(m.schema, p, [])], lost);
    assert forall j: nat :: j < |db| ==> (db + [TableInfo(m.schema, p, [])])[j] == db[j];
    TableAddedDescribes(tables, indexes, indexNames, names, db, m, TableInfo(m.schema, p, []));
    StoredSays(b, tables[m.name := m], indexes, indexNames);
    MakeEngineOk(b, tables[m.name := m], indexes, indexNames, names + [m.name], db + [TableInfo(m.schema, p, [])], lost);
  }

  lemma HeaderParts(s: Store, b: Store)
    requires OnlyHeader(s, b)
    ensures 0 in s && 0 in b && b == s[0 := b[0]]
  {
  }

  // ---- CREATE INDEX ----

  lemma IndexAddedDb(a: Store, s: Store, db: seq<TableInfo>, lost: set<nat>, k: nat, t2: TableInfo, pages: set<nat>)
    requires DbOk(a, db, lost) && k < |db| && TableOk(s, t2) && TablePages(s, t2) == TablePages(a, db[k]) + pages
    requires forall p: nat :: p in a ==> p in s && s[p] == a[p] && p !in pages
    requires forall p: nat :: p in s && p !in a ==> p in pages
    ensures DbOk(s, db[k := t2], lost)
    ensures forall j: nat :: j < |db| ==> HeapRows(s, db[j].first) == HeapRows(a, db[j].first)
  {
    hide TableOk, TablePages, HeapRows, Owned, LostPages;
    TablesBeside(a, s, db, lost, pages);
    TablesStayApart(a, s, db, k, t2, pages);
    forall p: nat | p in s && p != 0 ensures Owned(s, db[k := t2], p) <==> p !in lost {
      OwnedWith(s, db, k, t2, pages, p);
      assert p !in a ==> p !in lost by { LostIn(a, lost); }
    }
  }

  lemma TablesStayApart(a: Store, s: Store, db: seq<TableInfo>, k: nat, t2: TableInfo, pages: set<nat>)
    requires TablesApart(a, db)
    requires k < |db| && TablePages(s, t2) == TablePages(a, db[k]) + pages
    requires forall j: nat :: j < |db| ==> TablePages(s, db[j]) == TablePages(a, db[j]) && TablePages(s, db[j]) !! pages
    ensures TablesApart(s, db[k := t2])
  {
    hide TablePages;
    var more := db[k := t2];
    forall i: nat, j: nat | i < j < |db| ensures TablePages(s, more[i]) !! TablePages(s, more[j]) {
      assert TablePages(a, db[i]) !! TablePages(a, db[j]);
    }
  }

  lemma OwnedWith(s: Store, db: seq<TableInfo>, k: nat, t2: TableInfo, pages: set<nat>, p: nat)
    requires k < |db| && TablePages(s, t2) == TablePages(s, db[k]) + pages
    ensures Owned(s, db[k := t2], p) <==> Owned(s, db, p) || p in pages
  {
    hide TablePages;
    var more := db[k := t2];
    if j: nat :| j < |db| && p in TablePages(s, db[j]) {
      assert p in TablePages(s, more[j]);
    }
    if p in pages {
      assert p in TablePages(s, more[k]);
    }
  }

  lemma InfoAdded(indexes: Indexes, x: IndexMeta, table: Bytes, schema: Schema)
    requires KeyOfIndex(x) !in indexes
    ensures InfosOf(indexes[KeyOfIndex(x) := x], table, schema)
         == InfosOf(indexes, table, schema) + if x.table == table then {InfoOf(x, schema)} else {}
  {
    hide KeyOfIndex, InfoOf;
    var more := indexes[KeyOfIndex(x) := x];
    forall info | info in InfosOf(indexes, table, schema) ensures info in InfosOf(more, table, schema) {
      var key :| key in indexes && indexes[key].table == table && info == InfoOf(indexes[key], schema);
      assert more[key] == indexes[key];
    }
    if x.table == table {
      assert more[KeyOfIndex(x)] == x;
    }
  }

  lemma IndexAddedDescribes(tables: Tables, indexes: Indexes, names: seq<Bytes>, db: seq<TableInfo>, k: nat, x: IndexMeta, h: nat)
    requires Describes(tables, indexes, names, db) && k < |db| && names[k] == x.table && x.header == h && h >= 1
    requires KeyOfIndex(x) !in indexes && forall name :: name in tables ==> tables[name].name == name
    ensures Describes(tables, indexes[KeyOfIndex(x) := x], names, db[k := WithIndex(db[k], PositionOf(db[k].schema, x.column), h)])
  {
    hide KeyOfIndex, PositionOf, Named;
    var column := PositionOf(db[k].schema, x.column);
    var t2, more := WithIndex(db[k], column, h), indexes[KeyOfIndex(x) := x];
    assert InfosIn(t2) == InfosIn(db[k]) + {IndexInfo(column, h)};
    forall j: nat | j < |db| ensures TableIs(tables[names[j]], more, db[k := t2][j]) {
      InfoAdded(indexes, x, names[j], db[j].schema);
      if j != k { assert names[j] != names[k]; }
    }
  }

  /** An index has been created: on pages of its own, and in the catalog. */
  lemma IndexAddedKeepsEngine(a: Store, s: Store, b: Store, tables: Tables, indexes: Indexes, indexNames: Names,
                              names: seq<Bytes>, db: seq<TableInfo>, lost: set<nat>, k: nat, x: IndexMeta, h: nat)
    requires EngineOk(a, tables, indexes, indexNames, names, db, lost) && k < |db| && names[k] == x.table && x.header == h && h >= 1
    requires Building(a, s, h) && NewOwned(a, s, IndexPages(s, h))
    requires TableOk(s, WithIndex(db[k], PositionOf(db[k].schema, x.column), h))
    requires TablePages(s, WithIndex(db[k], PositionOf(db[k].schema, x.column), h)) == TablePages(a, db[k]) + IndexPages(s, h)
    requires WellFormed(tables, indexes[KeyOfIndex(x) := x], indexNames[x.name := KeyOfIndex(x)]) && KeyOfIndex(x) !in indexes
    requires OnlyHeader(s, b) && OnPage(b, tables, indexes[KeyOfIndex(x) := x])
    ensures EngineOk(b, tables, indexes[KeyOfIndex(x) := x], indexNames[x.name := KeyOfIndex(x)], names,
                     db[k := WithIndex(db[k], PositionOf(db[k].schema, x.column), h)], lost)
    ensures forall j: nat :: j < |db| ==> HeapRows(b, db[j].first) == HeapRows(a, db[j].first)
  {
    hide *;
    EngineParts(a, tables, indexes, indexNames, names, db, lost);
    WellFormedNames(tables, indexes, indexNames);
    var t2 := WithIndex(db[k], PositionOf(db[k].schema, x.column), h);
    BuildingOwns(a, s, h);
    IndexAddedDb(a, s, db, lost, k, t2, IndexPages(s, h));
    HeaderParts(s, b);
    CatalogPageKeepsDb(s, b, db[k := t2], lost);
    SameFirst(db, k, t2, PositionOf(db[k].schema, x.column), h);
    IndexAddedDescribes(tables, indexes, names, db, k, x, h);
    StoredSays(b, tables, indexes[KeyOfIndex(x) := x], indexNames[x.name := KeyOfIndex(x)]);
    MakeEngineOk(b, tables, indexes[KeyOfIndex(x) := x], indexNames[x.name := KeyOfIndex(x)], names, db[k := t2], lost);
  }

  lemma SameFirst(db: seq<TableInfo>, k: nat, t2: TableInfo, column: nat, h: nat)
    requires k < |db| && t2 == WithIndex(db[k], column, h)
    ensures forall j: nat :: j < |db| ==> db[k := t2][j].first == db[j].first
  {
  }

  lemma BuildingOwns(a: Store, s: Store, h: nat)
    requires Building(a, s, h) && NewOwned(a, s, IndexPages(s, h))
    ensures forall p: nat :: p in a ==> p in s && s[p] == a[p] && p !in IndexPages(s, h)
    ensures forall p: nat :: p in s && p !in a ==> p in IndexPages(s, h)
  {
    hide IndexOk, IndexPages;
  }
}
