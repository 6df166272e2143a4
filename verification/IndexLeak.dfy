// Pages that no table owns: which they are follows from the pages and the catalog alone,
// and only an index that the catalog has refused adds to them.
module IndexLeaks {
  import opened Common
  import Disk
  import opened BucketFormat
  import SlottedFormat
  import opened RecordFormat
  import opened CatalogFormat
  import opened Catalogs
  import opened CatalogManagers
  import opened PageChains
  import opened HeapStates
  import opened IndexStates
  import opened IndexOutcomes
  import opened IndexHeaders
  import opened TableStates
  import opened TableOutcomes
  import opened PageTags
  import opened Databases
  import opened IndexBuilds
  import opened TableEntries
  import opened Engines
  import opened TableLoads

  // ---- Which pages are lost ----

  lemma DescribedLoads(s: Store, tables: Tables, indexes: Indexes, indexNames: Names, names: seq<Bytes>, db: seq<TableInfo>,
                       lost: set<nat>, k: nat)
    requires EngineOk(s, tables, indexes, indexNames, names, db, lost) && k < |db|
    ensures k < |names| && Loaded(tables, indexes, names[k], db[k])
  {
    EngineParts(s, tables, indexes, indexNames, names, db, lost);
    DbTable(s, db, lost, k);
    TableOkParts(s, db[k]);
    ShapeHasNoIndexTwice(s, db[k]);
    hide EngineOk, DbOk, WellFormed, PageSays, TableIs, NoIndexTwice, AllDifferent, Named;
  }

  lemma OwnedEitherWay(s: Store, tables: Tables, indexes: Indexes, indexNames: Names, names: seq<Bytes>, db: seq<TableInfo>, lost: set<nat>,
                       names2: seq<Bytes>, db2: seq<TableInfo>, lost2: set<nat>, p: nat)
    requires EngineOk(s, tables, indexes, indexNames, names, db, lost)
    requires EngineOk(s, tables, indexes, indexNames, names2, db2, lost2) && Owned(s, db, p)
    ensures Owned(s, db2, p)
  {
    hide EngineOk, TablePages, Loaded, SameTable, TableOk;
    var k: nat :| k < |db| && p in TablePages(s, db[k]);
    DescribedLoads(s, tables, indexes, indexNames, names, db, lost, k);
    var j: nat := LoadedTableIsOk(s, tables, indexes, indexNames, names2, db2, lost2, names[k], db[k]);
    SamePages(s, db2[j], db[k]);
    assert p in TablePages(s, db2[j]);
  }

  /** The lost pages are determined by the pages and the catalog, in whatever order the
      tables and their indexes are listed. */
  lemma LostIsDetermined(s: Store, tables: Tables, indexes: Indexes, indexNames: Names, names: seq<Bytes>, db: seq<TableInfo>, lost: set<nat>,
                         names2: seq<Bytes>, db2: seq<TableInfo>, lost2: set<nat>)
    requires EngineOk(s, tables, indexes, indexNames, names, db, lost)
    requires EngineOk(s, tables, indexes, indexNames, names2, db2, lost2)
    ensures lost == lost2
  {
    EngineParts(s, tables, indexes, indexNames, names, db, lost);
    EngineParts(s, tables, indexes, indexNames, names2, db2, lost2);
    LostIn(s, lost);
    LostIn(s, lost2);
    hide EngineOk, TableOk, TablesApart, LostPages, Owned, WellFormed, Describes, PageSays;
    forall p: nat ensures p in lost <==> p in lost2 {
      if Owned(s, db, p) {
        OwnedEitherWay(s, tables, indexes, indexNames, names, db, lost, names2, db2, lost2, p);
      }
      if Owned(s, db2, p) {
        OwnedEitherWay(s, tables, indexes, indexNames, names2, db2, lost2, names, db, lost, p);
      }
    }
  }

  // ---- What a refused index leaves behind ----

  lemma LeakedParts(a: Store, b: Store, schema: Schema, first: int, column: nat, h: nat)
    requires IndexAdded(a, b, schema, first, column, h)
    ensures h >= 1 && IndexOk(b, h) && Building(a, b, h) && NewOwned(a, b, IndexPages(b, h)) && h in IndexPages(b, h)
    ensures forall p: nat :: p in a ==> p in b && b[p] == a[p] && p !in IndexPages(b, h)
    ensures forall p: nat :: p in b && p !in a ==> p in IndexPages(b, h)
    ensures forall p: nat :: p in IndexPages(b, h) ==> p in b && p >= 1 && !Disk.IsZeroPage(b[p])
  {
    AddedParts(a, b, schema, first, column, h);
    assert h in IndexPages(b, h);
    BuildingOwns(a, b, h);
    hide IndexOk, IndexPages, RowPairs, IndexPairs, HeapRows, Disk.IsZeroPage;
    forall p: nat | p in IndexPages(b, h) ensures p in b && p >= 1 && !Disk.IsZeroPage(b[p]) {
      IndexPageIsNotZero(b, h, p);
      IndexPagePositive(b, h, p);
    }
  }

  lemma IndexPagePositive(s: Store, h: nat, p: nat)
    requires IndexOk(s, h) && p in IndexPages(s, h)
    ensures p >= 1
  {
    hide *;
    IndexChains(s, h);
    IndexIs(s, h, ChainsFor(s, h));
    PagesAllocated(s, h, ChainsFor(s, h));
  }

  lemma LeakedDb(a: Store, b: Store, db: seq<TableInfo>, lost: set<nat>, pages: set<nat>)
    requires DbOk(a, db, lost)
    requires forall p: nat :: p in a ==> p in b && b[p] == a[p] && p !in pages
    requires forall p: nat :: p in b && p !in a ==> p in pages
    requires forall p: nat :: p in pages ==> p in b && p >= 1 && !Disk.IsZeroPage(b[p])
    ensures DbOk(b, db, lost + pages)
    ensures forall j: nat :: j < |db| ==> HeapRows(b, db[j].first) == HeapRows(a, db[j].first)
  {
    TablesBeside(a, b, db, lost, pages);
    LostIn(a, lost);
    hide TableOk, TablePages, HeapRows, Owned, TablesApart, LostPages;
    NotOwned(b, db, pages);
    StillApart(a, b, db);
    MoreLost(b, lost, pages);
  }

  lemma NotOwned(s: Store, db: seq<TableInfo>, pages: set<nat>)
    requires forall j: nat :: j < |db| ==> TablePages(s, db[j]) !! pages
    ensures forall p: nat :: p in pages ==> !Owned(s, db, p)
  {
    hide TablePages;
  }

  lemma StillApart(a: Store, b: Store, db: seq<TableInfo>)
    requires TablesApart(a, db) && forall j: nat :: j < |db| ==> TablePages(b, db[j]) == TablePages(a, db[j])
    ensures TablesApart(b, db)
  {
    hide TablePages;
    forall i: nat, j: nat | i < j < |db| ensures TablePages(b, db[i]) !! TablePages(b, db[j]) {
      assert TablePages(a, db[i]) !! TablePages(a, db[j]);
    }
  }

  lemma MoreLost(s: Store, lost: set<nat>, pages: set<nat>)
    requires LostPages(s, lost) && forall p: nat :: p in pages ==> p in s && p >= 1 && !Disk.IsZeroPage(s[p])
    ensures LostPages(s, lost + pages)
  {
    hide Disk.IsZeroPage;
  }

  /** The engine goes on with the pages of the index lost: every table, the catalog and
      page 0 are as they were. */
  lemma LeakKeepsEngine(a: Store, b: Store, tables: Tables, indexes: Indexes, indexNames: Names, names: seq<Bytes>, db: seq<TableInfo>,
                        lost: set<nat>, schema: Schema, first: int, column: nat, h: nat)
    requires EngineOk(a, tables, indexes, indexNames, names, db, lost) && IndexAdded(a, b, schema, first, column, h)
    ensures EngineOk(b, tables, indexes, indexNames, names, db, lost + IndexPages(b, h))
    ensures IndexPages(b, h) != {} && lost !! IndexPages(b, h) && b != a && 0 in a && 0 in b && b[0] == a[0]
    ensures forall j: nat :: j < |db| ==> HeapRows(b, db[j].first) == HeapRows(a, db[j].first)
  {
    hide *;
    EngineParts(a, tables, indexes, indexNames, names, db, lost);
    LeakedParts(a, b, schema, first, column, h);
    LeakedDb(a, b, db, lost, IndexPages(b, h));
    DbLost(a, db, lost);
    LostIn(a, lost);
    SamePageSays(a, b, tables, indexes);
    MakeEngineOk(b, tables, indexes, indexNames, names, db, lost + IndexPages(b, h));
  }

  lemma DbLost(s: Store, db: seq<TableInfo>, lost: set<nat>)
    requires DbOk(s, db, lost)
    ensures LostPages(s, lost)
  {
    hide TableOk, TablesApart, LostPages;
  }

  /** The engine is in order if `pages` are added to the lost ones, and only then, however
      its tables are listed. */
  ghost predicate LeftBehind(b: Store, tables: Tables, indexes: Indexes, indexNames: Names, names: seq<Bytes>, db: seq<TableInfo>,
                             lost: set<nat>, pages: set<nat>) {
    && pages != {} && lost !! pages && EngineOk(b, tables, indexes, indexNames, names, db, lost + pages)
    && (forall names2: seq<Bytes>, db2: seq<TableInfo>, lost2: set<nat> ::
          EngineOk(b, tables, indexes, indexNames, names2, db2, lost2) ==> lost2 == lost + pages)
  }

  /** An index that is left without an entry in the catalog has just its own pages lost. */
  lemma LeakIsLost(a: Store, b: Store, tables: Tables, indexes: Indexes, indexNames: Names, names: seq<Bytes>, db: seq<TableInfo>,
                   lost: set<nat>, schema: Schema, first: int, column: nat, h: nat)
    requires EngineOk(a, tables, indexes, indexNames, names, db, lost) && IndexAdded(a, b, schema, first, column, h)
    ensures LeftBehind(b, tables, indexes, indexNames, names, db, lost, IndexPages(b, h))
    ensures b != a && 0 in a && 0 in b && b[0] == a[0]
    ensures forall j: nat :: j < |db| ==> HeapRows(b, db[j].first) == HeapRows(a, db[j].first)
  {
    hide *;
    LeakKeepsEngine(a, b, tables, indexes, indexNames, names, db, lost, schema, first, column, h);
    var more := lost + IndexPages(b, h);
    forall names2: seq<Bytes>, db2: seq<TableInfo>, lost2: set<nat> | EngineOk(b, tables, indexes, indexNames, names2, db2, lost2)
      ensures lost2 == more
    {
      LostIsDetermined(b, tables, indexes, indexNames, names, db, more, names2, db2, lost2);
    }
    MakeLeftBehind(b, tables, indexes, indexNames, names, db, lost, IndexPages(b, h));
  }

  lemma MakeLeftBehind(b: Store, tables: Tables, indexes: Indexes, indexNames: Names, names: seq<Bytes>, db: seq<TableInfo>,
                       lost: set<nat>, pages: set<nat>)
    requires pages != {} && lost !! pages && EngineOk(b, tables, indexes, indexNames, names, db, lost + pages)
    requires forall names2: seq<Bytes>, db2: seq<TableInfo>, lost2: set<nat> ::
               EngineOk(b, tables, indexes, indexNames, names2, db2, lost2) ==> lost2 == lost + pages
    ensures LeftBehind(b, tables, indexes, indexNames, names, db, lost, pages)
  {
    hide EngineOk;
  }
}
