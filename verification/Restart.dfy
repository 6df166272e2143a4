// Closing the engine and opening its file again: the free pages are found from the bytes
// alone (src/storage/disk_manager.cpp, src/main.cpp).
module Restarts {
  import opened Common
  import opened Disk
  import opened Clock
  import opened Buffer
  import opened CatalogFormat
  import opened Catalogs
  import opened CatalogManagers
  import opened PageChains
  import opened TableStates
  import opened IndexStates
  import opened PageTags
  import opened Databases
  import opened Engines

  /** The pages of a file once it is open: a new file gets its page 0. */
  function Opened(file: seq<Bytes>): seq<Bytes> {
    if |file| == 0 then [Zeros(PAGE_SIZE)] else file
  }

  /** The pages of a file that has just been opened. */
  function Reopened(file: seq<Bytes>): Store {
    map p: nat | p < |file| && p !in ZeroPages(file) :: file[p]
  }

  /** The file, with its free pages, has every allocated page as it should be; free pages
      are zero. */
  ghost predicate Flushed(s: Store, file: seq<Bytes>, free: set<nat>) {
    && (forall p: nat :: p in s <==> p < |file| && p !in free)
    && (forall p: nat :: p in s ==> file[p] == s[p])
    && free <= ZeroPages(file)
  }

  ghost predicate NoZeroPage(s: Store) {
    forall p: nat :: p in s && p >= 1 ==> !IsZeroPage(s[p])
  }

  /** Opening a file finds just the pages that were free exactly if no allocated page,
      apart from the catalog, is all zero. */
  lemma ReopenIsExact(s: Store, file: seq<Bytes>, free: set<nat>)
    requires Flushed(s, file, free)
    ensures Reopened(file) == s <==> NoZeroPage(s)
    ensures free == ZeroPages(file) <==> NoZeroPage(s)
  {
    hide IsZeroPage;
    if NoZeroPage(s) {
      forall p: nat ensures p in ZeroPages(file) <==> p in free {
        assert p in ZeroPages(file) ==> p !in s;
      }
    } else {
      var p: nat :| p in s && p >= 1 && IsZeroPage(s[p]);
      assert p in ZeroPages(file) && p !in Reopened(file);
    }
  }

  /** In an engine that is in order every page but the catalog page can be told from a
      free page. */
  lemma EngineHasNoZeroPage(s: Store, tables: Tables, indexes: Indexes, indexNames: Names, names: seq<Bytes>, db: seq<TableInfo>, lost: set<nat>)
    requires EngineOk(s, tables, indexes, indexNames, names, db, lost)
    ensures NoZeroPage(s)
  {
    EngineParts(s, tables, indexes, indexNames, names, db, lost);
    hide EngineOk, WellFormed, Describes, PageSays, TableOk, TablePages, IsZeroPage;
    forall p: nat | p in s && p >= 1 ensures !IsZeroPage(s[p]) {
      if p !in lost {
        var k: nat :| k < |db| && p in TablePages(s, db[k]);
        TablePagesAreNotZero(s, db[k], p);
      }
    }
  }

  /** After the pool has been flushed and the file opened again, every page is back, no
      page is lost or revived, and the catalog loads as it was. */
  lemma CleanRestart(s: Store, file: seq<Bytes>, free: set<nat>, tables: Tables, indexes: Indexes, indexNames: Names,
                     names: seq<Bytes>, db: seq<TableInfo>, lost: set<nat>)
    requires EngineOk(s, tables, indexes, indexNames, names, db, lost) && Flushed(s, file, free)
    ensures Reopened(file) == s && ZeroPages(file) == free
    ensures EngineOk(Reopened(file), tables, indexes, indexNames, names, db, lost)
    ensures LoadedCatalog(Reopened(file)) == Some((tables, indexes, indexNames))
  {
    hide *;
    EngineHasNoZeroPage(s, tables, indexes, indexNames, names, db, lost);
    ReopenIsExact(s, file, free);
    RestartRestores(s, tables, indexes, indexNames, names, db, lost);
  }

  // ---- Closing and opening ----

  /** The destructor of the pool: every dirty page goes to the file, unless the disk fails. */
  method ShutDown(bpm: BufferPoolManager)
    requires bpm.Valid()
    modifies bpm.Repr
    ensures bpm.Valid() && bpm.Store() == old(bpm.Store()) && bpm.Pins() == old(bpm.Pins())
    ensures bpm.disk.reliable ==> Flushed(old(bpm.Store()), bpm.disk.pages, bpm.disk.freePages)
  {
    hide *;
    bpm.FlushAllPages();
    bpm.Parts();
    bpm.StoreDomain();
    if bpm.disk.reliable {
      MakeFlushed(bpm.Store(), bpm.disk);
    }
  }

  lemma MakeFlushed(s: Store, disk: DiskManager)
    requires disk.Valid() && disk.reliable && forall p: nat :: p in s <==> p < |disk.pages| && p !in disk.freePages
    requires forall p: nat :: p in s ==> p < |disk.pages| && disk.pages[p] == s[p]
    ensures Flushed(s, disk.pages, disk.freePages)
  {
    hide ZeroPages;
  }

  lemma {:induction false} EnteredHeaders(s: Store, tables: Tables, list: seq<IndexMeta>)
    ensures Entered(s, tables, list).Some? ==>
              forall k: nat :: k < |list| ==> list[k].header > HEADER_PAGE_ID && GoodHeader(s, list[k].header)
    decreases |list|
  {
    hide GoodHeader, HasColumn;
    if list != [] {
      EnteredHeaders(s, tables, list[..|list| - 1]);
    }
  }

  lemma LoadedHeaders(s: Store)
    requires LoadedCatalog(s).Some?
    ensures 0 in s && ParseCatalog(s[0]).Some?
    ensures forall k: nat :: k < |ParseCatalog(s[0]).value.1| ==>
              ParseCatalog(s[0]).value.1[k].header > 0 && ParseCatalog(s[0]).value.1[k].header in s
  {
    hide ParseCatalog, Entered, TableMap;
    EnteredHeaders(s, TableMap(ParseCatalog(s[0]).value.0), ParseCatalog(s[0]).value.1);
  }

  /** What the program does on start: it opens the file, makes a pool and loads the catalog.
      A file that an engine in order has left gives the same engine again, whatever the
      size of the pool; on a disk that fails the catalog may refuse to load, and is
      otherwise the same. */
  method Start(file: seq<Bytes>, poolSize: nat, reliable: bool, capacity: nat, ghost s: Store, ghost free: set<nat>, ghost tables: Tables, ghost indexes: Indexes,
               ghost indexNames: Names, ghost names: seq<Bytes>, ghost db: seq<TableInfo>, ghost lost: set<nat>)
    returns (bpm: BufferPoolManager, catalog: CatalogManager)
    requires poolSize >= 1 && |file| <= capacity && 1 <= capacity <= MAX_PAGES && forall p :: 0 <= p < |file| ==> |file[p]| == PAGE_SIZE
    requires EngineOk(s, tables, indexes, indexNames, names, db, lost) && Flushed(s, Opened(file), free)
    ensures bpm.Valid() && bpm.Pins() == map[] && bpm.Store() == s && |bpm.pages| == poolSize
    ensures catalog.bpm == bpm && catalog.Valid() && bpm.disk.reliable == reliable && bpm.disk.capacity == capacity
    ensures fresh(bpm.Repr) && fresh(catalog) && catalog !in bpm.Repr
    ensures reliable ==> bpm.Ready() && catalog.status == OK
    ensures catalog.status == OK ==> catalog.tables == tables && catalog.indexes == indexes && catalog.indexNames == indexNames
  {
    hide *;
    CleanRestart(s, Opened(file), free, tables, indexes, indexNames, names, db, lost);
    LoadedHeaders(s);
    OpenedIs(file);
    var disk := new DiskManager.Open(file, reliable, capacity);
    var replacer := new ClockReplacer(poolSize);
    bpm := new BufferPoolManager(poolSize, disk, replacer);
    ReopenedIs(Opened(file), disk);
    bpm.ReadyParts();
    forall p: nat | p in s ensures p !in bpm.disk.freePages {
      bpm.InStore(p);
    }
    catalog := new CatalogManager(bpm);
    bpm.ReadyParts();
  }

  lemma OpenedIs(file: seq<Bytes>)
    ensures Opened(file) == if |file| == 0 then [Zeros(PAGE_SIZE)] else file
  {
  }

  lemma ReopenedIs(file: seq<Bytes>, disk: DiskManager)
    requires disk.pages == file && disk.freePages == ZeroPages(file)
    ensures (map id: nat | id in disk.Allocated() :: disk.pages[id]) == Reopened(file)
  {
    hide ZeroPages;
  }
}
