// The catalog manager: the catalog in memory, and its copy on page 0
// (src/catalog/catalog_manager.cpp).
module CatalogManagers {
  import opened Common
  import opened ByteFormat
  import opened Disk
  import opened Buffer
  import opened RecordFormat
  import opened CatalogFormat
  import opened Catalogs
  import opened CatalogRefusals
  import opened PageChains
  import opened IndexStates
  import opened IndexOutcomes
  import opened HashIndexes

  type Names = map<Bytes, Bytes>

  // ---- Reading the page ----

  method ReadColumns(b: Bytes, end: nat, start: nat, n: nat) returns (r: Option<(seq<Column>, nat)>)
    ensures r == ParseColumns(b, end, start, n, [])
  {
    hide ParseColumn;
    var cursor: nat := start;
    var columns := [];
    for k := 0 to n
      invariant ParseColumns(b, end, start, n, []) == ParseColumns(b, end, cursor, n - k, columns)
    {
      match ParseColumn(b, end, cursor)
      case None => return None;
      case Some(parsed) =>
        columns := columns + [parsed.0];
        cursor := parsed.1;
    }
    r := Some((columns, cursor));
  }

  method ReadTable(b: Bytes, limit: nat, start: nat) returns (r: Option<(TableMeta, nat)>)
    ensures r == ParseTable(b, limit, start)
  {
    hide ParseColumns;
    if start + 12 > limit || limit > |b| {
      return None;
    }
    var size, n, count, first := GetU16(b, start), GetU16(b, start + 2), GetU16(b, start + 4), GetI32(b, start + 8);
    hide GetU16, GetI32;
    if size < 12 || start + size > limit || first <= HEADER_PAGE_ID {
      return None;
    }
    if 12 + n > size || n == 0 {
      return None;
    }
    var columns := ReadColumns(b, start + size, start + 12 + n, count);
    match columns
    case None => return None;
    case Some(parsed) =>
      if parsed.1 != start + size {
        return None;
      }
      r := Some((TableMeta(Slice(b, start + 12, n), parsed.0, first), start + size));
  }

  method ReadTables(b: Bytes, limit: nat, start: nat, n: nat) returns (r: Option<(seq<TableMeta>, nat)>)
    ensures r == ParseTables(b, limit, start, n, [])
  {
    hide ParseTable;
    var cursor: nat := start;
    var tables := [];
    for k := 0 to n
      invariant ParseTables(b, limit, start, n, []) == ParseTables(b, limit, cursor, n - k, tables)
    {
      var table := ReadTable(b, limit, cursor);
      match table
      case None => return None;
      case Some(parsed) =>
        tables := tables + [parsed.0];
        cursor := parsed.1;
    }
    r := Some((tables, cursor));
  }

  method ReadIndexes(b: Bytes, limit: nat, start: nat, n: nat) returns (r: Option<(seq<IndexMeta>, nat)>)
    ensures r == ParseIndexes(b, limit, start, n, [])
  {
    hide ParseIndex;
    var cursor: nat := start;
    var indexes := [];
    for k := 0 to n
      invariant ParseIndexes(b, limit, start, n, []) == ParseIndexes(b, limit, cursor, n - k, indexes)
    {
      match ParseIndex(b, limit, cursor)
      case None => return None;
      case Some(parsed) =>
        indexes := indexes + [parsed.0];
        cursor := parsed.1;
    }
    r := Some((indexes, cursor));
  }

  /** Reads a catalog page, from the header on. */
  method ReadCatalog(b: Bytes) returns (r: Option<(seq<TableMeta>, seq<IndexMeta>)>)
    ensures r == ParseCatalog(b)
  {
    hide GetU16, GetU32, ParseTables, ParseIndexes;
    var magic := GetU32(b, 0);
    if magic == 0 {
      return Some(([], []));
    }
    var version, tableCount, indexCount, used := GetU16(b, 4), GetU16(b, 6), GetU16(b, 8), GetU16(b, 10);
    if magic != CATALOG_MAGIC || version != 1 || used < 16 || used > PAGE_SIZE {
      return None;
    }
    var tables := ReadTables(b, used, 16, tableCount);
    if tables.None? {
      return None;
    }
    var indexes := ReadIndexes(b, used, tables.value.1, indexCount);
    if indexes.None? || indexes.value.1 != used {
      return None;
    }
    r := Some((tables.value.0, indexes.value.0));
  }

  // ---- What parsing accepts ----

  lemma ParsedColumnFits(b: Bytes, end: nat, cursor: nat)
    ensures ParseColumn(b, end, cursor).Some? ==> ColumnFits(ParseColumn(b, end, cursor).value.0)
  {
  }

  lemma {:induction false} ParsedColumnsFit(b: Bytes, end: nat, cursor: nat, n: nat, done: seq<Column>)
    requires forall k: nat :: k < |done| ==> ColumnFits(done[k])
    ensures var r := ParseColumns(b, end, cursor, n, done);
            r.Some? ==> forall k: nat :: k < |r.value.0| ==> ColumnFits(r.value.0[k])
    decreases n
  {
    hide ParseColumn, ColumnFits;
    if n > 0 {
      match ParseColumn(b, end, cursor)
      case None =>
      case Some(parsed) =>
        ParsedColumnFits(b, end, cursor);
        ParsedColumnsFit(b, end, parsed.1, n - 1, done + [parsed.0]);
    }
  }

  lemma ParsedTableFits(b: Bytes, limit: nat, cursor: nat)
    ensures ParseTable(b, limit, cursor).Some? ==> TableFits(ParseTable(b, limit, cursor).value.0)
  {
    hide ColumnFits, ParseColumns, GetU16, GetI32;
    if ParseTable(b, limit, cursor).Some? {
      var size, n, count := GetU16(b, cursor), GetU16(b, cursor + 2), GetU16(b, cursor + 4);
      ParsedColumnsFit(b, cursor + size, cursor + 12 + n, count, []);
    }
  }

  lemma {:induction false} ParsedTablesFit(b: Bytes, limit: nat, cursor: nat, n: nat, done: seq<TableMeta>)
    requires forall k: nat :: k < |done| ==> TableFits(done[k])
    ensures var r := ParseTables(b, limit, cursor, n, done);
            r.Some? ==> forall k: nat :: k < |r.value.0| ==> TableFits(r.value.0[k])
    decreases n
  {
    hide ParseTable, TableFits;
    if n > 0 {
      match ParseTable(b, limit, cursor)
      case None =>
      case Some(parsed) =>
        ParsedTableFits(b, limit, cursor);
        ParsedTablesFit(b, limit, parsed.1, n - 1, done + [parsed.0]);
    }
  }

  lemma ParsedIndexFits(b: Bytes, limit: nat, cursor: nat)
    ensures ParseIndex(b, limit, cursor).Some? ==> IndexFits(ParseIndex(b, limit, cursor).value.0)
  {
    hide GetU16, GetI32;
  }

  lemma {:induction false} ParsedIndexesFit(b: Bytes, limit: nat, cursor: nat, n: nat, done: seq<IndexMeta>)
    requires forall k: nat :: k < |done| ==> IndexFits(done[k])
    ensures var r := ParseIndexes(b, limit, cursor, n, done);
            r.Some? ==> forall k: nat :: k < |r.value.0| ==> IndexFits(r.value.0[k])
    decreases n
  {
    hide ParseIndex, IndexFits;
    if n > 0 {
      match ParseIndex(b, limit, cursor)
      case None =>
      case Some(parsed) =>
        ParsedIndexFits(b, limit, cursor);
        ParsedIndexesFit(b, limit, parsed.1, n - 1, done + [parsed.0]);
    }
  }

  /** Whatever bytes are parsed, the entries can be stored again. */
  lemma ParsedCatalogFits(b: Bytes)
    ensures ParseCatalog(b).Some? ==> CatalogFits(ParseCatalog(b).value.0, ParseCatalog(b).value.1)
  {
    hide *;
    if ParseCatalog(b).Some? {
      ParsedCatalogParts(b);
      if ParseCatalog(b).value.0 != [] || ParseCatalog(b).value.1 != [] {
        var limit := GetU16(b, 10);
        ParsedTablesFit(b, limit, 16, GetU16(b, 6), []);
        ParsedIndexesFit(b, limit, ParseTables(b, limit, 16, GetU16(b, 6), []).value.1, GetU16(b, 8), []);
      }
      MakeCatalogFits(ParseCatalog(b).value.0, ParseCatalog(b).value.1);
    }
  }

  lemma ParsedCatalogParts(b: Bytes)
    requires ParseCatalog(b).Some?
    ensures || ParseCatalog(b).value == ([], [])
            || var tables := ParseTables(b, GetU16(b, 10), 16, GetU16(b, 6), []);
               && tables.Some? && tables.value.0 == ParseCatalog(b).value.0
               && ParseIndexes(b, GetU16(b, 10), tables.value.1, GetU16(b, 8), []).Some?
               && ParseIndexes(b, GetU16(b, 10), tables.value.1, GetU16(b, 8), []).value.0 == ParseCatalog(b).value.1
  {
    hide GetU16, GetU32, ParseTables, ParseIndexes;
  }

  lemma MakeCatalogFits(tables: seq<TableMeta>, indexes: seq<IndexMeta>)
    requires forall k: nat :: k < |tables| ==> TableFits(tables[k])
    requires forall k: nat :: k < |indexes| ==> IndexFits(indexes[k])
    ensures CatalogFits(tables, indexes)
  {
    hide TableFits, IndexFits;
  }

  // ---- Loading ----

  /** The index of entry `x` can be opened, and neither its column nor its name is taken. */
  ghost predicate CanEnter(s: Store, tables: Tables, indexes: Indexes, names: Names, x: IndexMeta) {
    && x.table in tables && HasColumn(tables[x.table].schema, x.column)
    && x.header > HEADER_PAGE_ID && GoodHeader(s, x.header)
    && KeyOfIndex(x) !in indexes && x.name !in names
  }

  /** The indexes of a list, entered one by one. */
  ghost function Entered(s: Store, tables: Tables, list: seq<IndexMeta>): Option<(Indexes, Names)> {
    if list == [] then Some((map[], map[]))
    else
      var x := list[|list| - 1];
      match Entered(s, tables, list[..|list| - 1])
      case None => None
      case Some(done) =>
        if CanEnter(s, tables, done.0, done.1, x) then Some((done.0[KeyOfIndex(x) := x], done.1[x.name := KeyOfIndex(x)])) else None
  }

  /** The catalog that page 0 describes, if it is one that can be used. */
  ghost function LoadedCatalog(s: Store): Option<(Tables, Indexes, Names)> {
    if 0 !in s then None
    else
      match ParseCatalog(s[0])
      case None => None
      case Some(parsed) =>
        match Entered(s, TableMap(parsed.0), parsed.1)
        case None => None
        case Some(entered) => Some((TableMap(parsed.0), entered.0, entered.1))
  }

  lemma {:induction false} TableMapFits(list: seq<TableMeta>)
    requires forall k: nat :: k < |list| ==> TableFits(list[k])
    ensures forall name :: name in TableMap(list) ==> TableMap(list)[name].name == name && TableFits(TableMap(list)[name])
    decreases |list|
  {
    hide TableFits;
    if list != [] {
      TableMapFits(list[..|list| - 1]);
    }
  }

  /** One more entry keeps a catalog well formed. */
  lemma WellFormedIndex(tables: Tables, indexes: Indexes, names: Names, x: IndexMeta)
    requires WellFormed(tables, indexes, names) && IndexFits(x)
    requires x.table in tables && HasColumn(tables[x.table].schema, x.column)
    requires KeyOfIndex(x) !in indexes && x.name !in names
    ensures WellFormed(tables, indexes[KeyOfIndex(x) := x], names[x.name := KeyOfIndex(x)])
  {
    hide TableFits, IndexFits, HasColumn, KeyOfIndex;
  }

  lemma WellFormedTable(tables: Tables, indexes: Indexes, names: Names, t: TableMeta)
    requires WellFormed(tables, indexes, names) && TableFits(t) && t.name !in tables
    ensures WellFormed(tables[t.name := t], indexes, names)
  {
    hide TableFits, IndexFits, HasColumn, KeyOfIndex;
  }

  lemma {:induction false} EnteredWellFormed(s: Store, tables: Tables, list: seq<IndexMeta>)
    requires forall name :: name in tables ==> tables[name].name == name && TableFits(tables[name])
    requires forall k: nat :: k < |list| ==> IndexFits(list[k])
    ensures Entered(s, tables, list).Some? ==> WellFormed(tables, Entered(s, tables, list).value.0, Entered(s, tables, list).value.1)
    decreases |list|
  {
    hide TableFits, IndexFits, HasColumn, KeyOfIndex, GoodHeader;
    if list != [] && Entered(s, tables, list).Some? {
      EnteredWellFormed(s, tables, list[..|list| - 1]);
      var done := Entered(s, tables, list[..|list| - 1]).value;
      hide WellFormed;
      WellFormedIndex(tables, done.0, done.1, list[|list| - 1]);
    }
  }

  /** Whatever page 0 holds, a catalog that has been loaded is well formed. */
  lemma LoadedIsWellFormed(s: Store)
    ensures LoadedCatalog(s).Some? ==>
              WellFormed(LoadedCatalog(s).value.0, LoadedCatalog(s).value.1, LoadedCatalog(s).value.2)
  {
    hide ParseCatalog, TableMap, Entered, WellFormed, TableFits, IndexFits;
    if LoadedCatalog(s).Some? {
      var parsed := ParseCatalog(s[0]).value;
      ParsedCatalogFits(s[0]);
      TableMapFits(parsed.0);
      EnteredWellFormed(s, TableMap(parsed.0), parsed.1);
    }
  }

  // ---- Loading what was stored ----

  /** The names of the entries, with their keys. */
  ghost predicate NamesListed(list: seq<IndexMeta>, names: Names) {
    && (forall name :: name in names ==> exists k: nat :: k < |list| && list[k].name == name && names[name] == KeyOfIndex(list[k]))
    && (forall k: nat :: k < |list| ==> list[k].name in names && names[list[k].name] == KeyOfIndex(list[k]))
  }

  lemma NamesListedMore(list: seq<IndexMeta>, names: Names, x: IndexMeta)
    requires NamesListed(list, names) && forall k: nat :: k < |list| ==> list[k].name != x.name
    ensures NamesListed(list + [x], names[x.name := KeyOfIndex(x)])
  {
    hide KeyOfIndex;
    var more, all := list + [x], names[x.name := KeyOfIndex(x)];
    forall name | name in all ensures exists k: nat :: k < |more| && more[k].name == name && all[name] == KeyOfIndex(more[k]) {
      if name == x.name {
        assert more[|list|] == x;
      } else {
        var k: nat :| k < |list| && list[k].name == name && names[name] == KeyOfIndex(list[k]);
        assert more[k] == list[k];
      }
    }
  }

  ghost predicate Enterable(s: Store, tables: Tables, list: seq<IndexMeta>) {
    && (forall k: nat :: k < |list| ==>
          && list[k].table in tables && HasColumn(tables[list[k].table].schema, list[k].column)
          && list[k].header > HEADER_PAGE_ID && GoodHeader(s, list[k].header))
    && (forall j: nat, k: nat :: j < k < |list| ==> KeyOfIndex(list[j]) != KeyOfIndex(list[k]) && list[j].name != list[k].name)
  }

  lemma {:induction false} AllEntered(s: Store, tables: Tables, list: seq<IndexMeta>)
    requires Enterable(s, tables, list)
    ensures Entered(s, tables, list).Some? && Entered(s, tables, list).value.0 == IndexMap(list)
    ensures NamesListed(list, Entered(s, tables, list).value.1)
    decreases |list|
  {
    hide HasColumn, KeyOfIndex, GoodHeader, NamesListed;
    if list == [] {
      EmptyNames();
    } else {
      var before, x := list[..|list| - 1], list[|list| - 1];
      assert list == before + [x];
      AllEntered(s, tables, before);
      IndexMapMembers(before);
      NotYetNamed(before, Entered(s, tables, before).value.1, x.name);
      NotYetKeyed(before, KeyOfIndex(x));
      NamesListedMore(before, Entered(s, tables, before).value.1, x);
    }
  }

  lemma EmptyNames()
    ensures NamesListed([], map[])
  {
  }

  lemma NotYetNamed(list: seq<IndexMeta>, names: Names, name: Bytes)
    requires NamesListed(list, names) && forall k: nat :: k < |list| ==> list[k].name != name
    ensures name !in names
  {
    hide KeyOfIndex;
  }

  lemma NotYetKeyed(list: seq<IndexMeta>, key: Bytes)
    requires forall k: nat :: k < |list| ==> KeyOfIndex(list[k]) != key
    ensures !ListsKey(list, key)
  {
    hide KeyOfIndex;
  }

  lemma SameNames(list: seq<IndexMeta>, tables: Tables, indexes: Indexes, names: Names, loaded: Names)
    requires WellFormed(tables, indexes, names) && ListsIndexes(list, indexes) && NamesListed(list, loaded)
    ensures loaded == names
  {
    hide KeyOfIndex, TableFits, IndexFits, HasColumn;
    forall name | name in names ensures name in loaded && loaded[name] == names[name] {
      var key := names[name];
      assert ListsKey(list, key);
      var k: nat :| k < |list| && KeyOfIndex(list[k]) == key;
      assert indexes[KeyOfIndex(list[k])] == list[k];
    }
    forall name | name in loaded ensures name in names {
      var k: nat :| k < |list| && list[k].name == name && loaded[name] == KeyOfIndex(list[k]);
      assert indexes[KeyOfIndex(list[k])] == list[k];
    }
  }

  ghost predicate HeadersGood(s: Store, indexes: Indexes) {
    forall key :: key in indexes ==> indexes[key].header > HEADER_PAGE_ID && GoodHeader(s, indexes[key].header)
  }

  lemma ListedEnterable(s: Store, list: seq<IndexMeta>, tables: Tables, indexes: Indexes, names: Names)
    requires WellFormed(tables, indexes, names) && ListsIndexes(list, indexes) && HeadersGood(s, indexes)
    ensures Enterable(s, tables, list)
  {
    hide KeyOfIndex, TableFits, IndexFits, HasColumn, GoodHeader, ListsKey;
    forall j: nat, k: nat | j < k < |list| ensures list[j].name != list[k].name {
      assert names[list[j].name] == KeyOfIndex(list[j]) && names[list[k].name] == KeyOfIndex(list[k]);
    }
  }

  lemma LoadRestoresListed(s: Store, ts: seq<TableMeta>, xs: seq<IndexMeta>, tables: Tables, indexes: Indexes, names: Names)
    requires WellFormed(tables, indexes, names) && HeadersGood(s, indexes)
    requires 0 in s && ParseCatalog(s[0]) == Some((ts, xs)) && ListsTables(ts, tables) && ListsIndexes(xs, indexes)
    ensures LoadedCatalog(s) == Some((tables, indexes, names))
  {
    hide *;
    ListedTablesAreAll(ts, tables);
    ListedIndexesAreAll(xs, indexes);
    ListedEnterable(s, xs, tables, indexes, names);
    AllEntered(s, tables, xs);
    SameNames(xs, tables, indexes, names, Entered(s, tables, xs).value.1);
    LoadedIs(s, ts, xs, tables, indexes, names);
  }

  /** Loading page 0 after the catalog has been stored there restores the same tables,
      schemas, indexes and index names, whatever the order of the entries. */
  lemma LoadRestoresStored(s: Store, tables: Tables, indexes: Indexes, names: Names)
    requires WellFormed(tables, indexes, names) && OnPage(s, tables, indexes) && HeadersGood(s, indexes)
    ensures LoadedCatalog(s) == Some((tables, indexes, names))
  {
    hide *;
    StoredCatalogReadsBack(s, tables, indexes, names);
    LoadRestoresListed(s, ParseCatalog(s[0]).value.0, ParseCatalog(s[0]).value.1, tables, indexes, names);
  }

  lemma LoadedIs(s: Store, ts: seq<TableMeta>, xs: seq<IndexMeta>, tables: Tables, indexes: Indexes, names: Names)
    requires 0 in s && ParseCatalog(s[0]) == Some((ts, xs)) && TableMap(ts) == tables
    requires Entered(s, tables, xs) == Some((indexes, names))
    ensures LoadedCatalog(s) == Some((tables, indexes, names))
  {
    hide ParseCatalog, TableMap, Entered;
  }

  // ---- Outcomes ----

  /** Nothing but page 0 has changed. */
  ghost predicate OnlyHeader(a: Store, b: Store) {
    0 in a && 0 in b && b == a[0 := b[0]]
  }

  /** What storing the catalog does: it is refused if it does not fit, and page 0 is as
      before; otherwise page 0 has it, or is as before if it could not be written. */
  ghost predicate Persisted(a: Store, b: Store, tables: Tables, indexes: Indexes, status: StatusCode) {
    && (CatalogSize(tables, indexes) > PAGE_SIZE ==> status == OUT_OF_MEMORY && b == a)
    && (CatalogSize(tables, indexes) <= PAGE_SIZE ==> status in {OK, IO_ERROR})
    && (status == OK ==> OnlyHeader(a, b) && OnPage(b, tables, indexes))
    && (b == a || (OnlyHeader(a, b) && OnPage(b, tables, indexes)))
  }

  lemma RefusedPersist(a: Store, tables: Tables, indexes: Indexes)
    ensures CatalogSize(tables, indexes) > PAGE_SIZE ==> Persisted(a, a, tables, indexes, OUT_OF_MEMORY)
    ensures CatalogSize(tables, indexes) <= PAGE_SIZE ==> Persisted(a, a, tables, indexes, IO_ERROR)
  {
    hide CatalogSize, OnPage;
  }

  lemma DonePersist(a: Store, b: Store, ts: seq<TableMeta>, xs: seq<IndexMeta>, tables: Tables, indexes: Indexes)
    requires 0 in a && ListsTables(ts, tables) && ListsIndexes(xs, indexes) && UsedBytes(ts, xs) <= PAGE_SIZE
    requires UsedBytes(ts, xs) == CatalogSize(tables, indexes) && b == a[0 := CatalogBytes(ts, xs)]
    ensures Persisted(a, b, tables, indexes, OK) && Persisted(a, b, tables, indexes, IO_ERROR)
  {
    hide ListsTables, ListsIndexes, CatalogBytes, CatalogSize, UsedBytes;
    assert PageHolds0(b, ts, xs);
  }

  lemma PersistParts(a: Store, b: Store, tables: Tables, indexes: Indexes, status: StatusCode)
    requires Persisted(a, b, tables, indexes, status)
    ensures status in {OK, OUT_OF_MEMORY, IO_ERROR}
    ensures status == OUT_OF_MEMORY <==> CatalogSize(tables, indexes) > PAGE_SIZE
    ensures status == OUT_OF_MEMORY ==> b == a
    ensures b == a || (OnlyHeader(a, b) && OnPage(b, tables, indexes))
    ensures status == OK ==> OnlyHeader(a, b) && OnPage(b, tables, indexes)
  {
    hide CatalogSize, OnPage, OnlyHeader;
  }

  lemma WellFormedNames(tables: Tables, indexes: Indexes, names: Names)
    requires WellFormed(tables, indexes, names)
    ensures forall name :: name in tables ==> tables[name].name == name
    ensures forall key :: key in indexes ==> KeyOfIndex(indexes[key]) == key
  {
    hide KeyOfIndex, TableFits, IndexFits, HasColumn;
  }

  /** The entries of the catalog stand under their own names. */
  ghost predicate SelfNamed(tables: Tables, indexes: Indexes) {
    && (forall name :: name in tables ==> tables[name].name == name)
    && (forall key :: key in indexes ==> KeyOfIndex(indexes[key]) == key)
  }

  lemma SelfNamedParts(tables: Tables, indexes: Indexes)
    requires SelfNamed(tables, indexes)
    ensures forall name :: name in tables ==> tables[name].name == name
    ensures forall key :: key in indexes ==> KeyOfIndex(indexes[key]) == key
  {
    hide KeyOfIndex;
  }

  lemma WellFormedSelfNamed(tables: Tables, indexes: Indexes, names: Names)
    requires WellFormed(tables, indexes, names)
    ensures SelfNamed(tables, indexes)
    ensures forall t: TableMeta :: SelfNamed(tables[t.name := t], indexes)
  {
    WellFormedNames(tables, indexes, names);
    hide WellFormed, KeyOfIndex;
  }

  /** Once a table with a nameless column has been stored, the catalog cannot be loaded. */
  lemma NamelessIsNotLoaded(s: Store, before: Tables, indexes: Indexes, names: Names, t: TableMeta)
    requires WellFormed(before, indexes, names) && TableStorable(t) && !AllNamed(t.schema)
    requires OnPage(s, before[t.name := t], indexes)
    ensures LoadedCatalog(s).None?
  {
    var tables := before[t.name := t];
    StorableTables(before, indexes, names);
    hide WellFormed, AllNamed, TableStorable, CatalogBytes, UsedBytes, ListsIndexes, ParseCatalog, TableMap, Entered;
    var ts: seq<TableMeta>, xs: seq<IndexMeta> :| ListsTables(ts, tables) && ListsIndexes(xs, indexes) && PageHolds0(s, ts, xs);
    assert Lists(ts, t.name);
    var k: nat :| k < |ts| && ts[k].name == t.name;
    assert tables[ts[k].name] == ts[k] && !AllNamed(ts[k].schema);
    assert forall j: nat :: j < |ts| ==> tables[ts[j].name] == ts[j] && TableStorable(ts[j]);
    Refused(ts, xs);
  }

  lemma StorableTables(tables: Tables, indexes: Indexes, names: Names)
    requires WellFormed(tables, indexes, names)
    ensures forall name :: name in tables ==> TableStorable(tables[name])
  {
    forall name | name in tables ensures TableStorable(tables[name]) {
      assert TableFits(tables[name]);
      hide WellFormed;
      StorableFits(tables[name]);
    }
  }

  predicate TableAccepted(tables: Tables, t: TableMeta) {
    t.name != [] && t.first > HEADER_PAGE_ID && t.schema != [] && t.name !in tables
  }

  /** What CreateTable does: on success the table is in the catalog and on page 0;
      otherwise the catalog is as before, and page 0 is as before too, or keeps the
      catalog with the table if it could not be written. */
  ghost predicate TableEntered(a: Store, b: Store, before: Tables, after: Tables, indexes: Indexes, t: TableMeta, result: StatusCode) {
    && (result == OK ==> TableAccepted(before, t) && after == before[t.name := t] && OnlyHeader(a, b) && OnPage(b, after, indexes))
    && (result != OK ==>
          after == before && (b == a || (result == IO_ERROR && OnlyHeader(a, b) && OnPage(b, before[t.name := t], indexes))))
  }

  lemma TableRefused(a: Store, before: Tables, indexes: Indexes, t: TableMeta, result: StatusCode)
    requires result != OK
    ensures TableEntered(a, a, before, before, indexes, t, result)
  {
  }

  lemma TablePersisted(a: Store, b: Store, before: Tables, indexes: Indexes, t: TableMeta, result: StatusCode)
    requires TableAccepted(before, t) && Persisted(a, b, before[t.name := t], indexes, result)
    ensures result == OK ==> TableEntered(a, b, before, before[t.name := t], indexes, t, result)
    ensures result != OK ==> TableEntered(a, b, before, before, indexes, t, result)
  {
    hide CatalogSize, OnPage;
  }

  lemma AcceptedFits(tables: Tables, indexes: Indexes, names: Names, t: TableMeta)
    requires WellFormed(tables, indexes, names) && TableAccepted(tables, t)
    requires forall k: nat :: k < |t.schema| ==> ColumnFits(t.schema[k])
    ensures WellFormed(tables[t.name := t], indexes, names)
  {
    hide WellFormed, ColumnFits;
    WellFormedTable(tables, indexes, names, t);
  }

  ghost predicate IndexAccepted(tables: Tables, indexes: Indexes, names: Names, x: IndexMeta) {
    && x.name != [] && x.table != [] && x.column != []
    && x.table in tables && HasColumn(tables[x.table].schema, x.column)
    && KeyOfIndex(x) !in indexes && x.name !in names
  }

  /** Only pages of the index may be gone or changed; page 0 is as before, or keeps the
      catalog that could not be written. */
  ghost predicate IndexGivenBack(a: Store, b: Store, tables: Tables, indexes: Indexes, h: nat) {
    && b.Keys <= a.Keys
    && (forall p: nat :: p in a && p != 0 && p !in IndexPages(a, h) ==> p in b && b[p] == a[p])
    && (0 in a ==> 0 in b && (b[0] == a[0] || OnPage(b, tables, indexes)))
  }

  /** What CreateIndex does: an index that is refused stays as it is, and one that is
      accepted but cannot be stored is given back. */
  ghost predicate IndexEntered(a: Store, b: Store, tables: Tables, before: Indexes, after: Indexes, names: Names, namesAfter: Names,
                               x: IndexMeta, h: nat, result: StatusCode) {
    if result == OK then
      && IndexAccepted(tables, before, names, x)
      && after == before[KeyOfIndex(x) := x] && namesAfter == names[x.name := KeyOfIndex(x)]
      && OnlyHeader(a, b) && OnPage(b, tables, after)
    else
      && after == before && namesAfter == names
      && if IndexAccepted(tables, before, names, x) then b == a || IndexGivenBack(a, b, tables, before[KeyOfIndex(x) := x], h) else b == a
  }

  lemma IndexRefused(a: Store, tables: Tables, indexes: Indexes, names: Names, x: IndexMeta, h: nat, result: StatusCode)
    requires result != OK
    ensures IndexEntered(a, a, tables, indexes, indexes, names, names, x, h, result)
  {
    hide IndexAccepted;
  }

  lemma IndexStored(a: Store, b: Store, tables: Tables, indexes: Indexes, names: Names, x: IndexMeta, h: nat)
    requires IndexAccepted(tables, indexes, names, x)
    requires Persisted(a, b, tables, indexes[KeyOfIndex(x) := x], OK)
    ensures IndexEntered(a, b, tables, indexes, indexes[KeyOfIndex(x) := x], names, names[x.name := KeyOfIndex(x)], x, h, OK)
  {
    hide CatalogSize, OnPage, IndexAccepted, OnlyHeader, KeyOfIndex;
  }

  lemma AcceptedIndexFits(tables: Tables, indexes: Indexes, names: Names, x: IndexMeta)
    requires WellFormed(tables, indexes, names) && IndexAccepted(tables, indexes, names, x) && x.header > HEADER_PAGE_ID
    ensures WellFormed(tables, indexes[KeyOfIndex(x) := x], names[x.name := KeyOfIndex(x)])
  {
    hide WellFormed, HasColumn, KeyOfIndex;
    WellFormedIndex(tables, indexes, names, x);
  }

  /** The index is still there after the catalog could not be stored. */
  lemma IndexOutlivesPersist(a: Store, b: Store, h: nat)
    requires IndexOk(a, h) && (b == a || OnlyHeader(a, b))
    ensures IndexOk(b, h) && IndexPages(b, h) == IndexPages(a, h)
    ensures forall p: nat :: p in IndexPages(a, h) ==> p in a && p >= 1
  {
    var chains := ChainsFor(a, h);
    IndexChains(a, h);
    PagesAllocated(a, h, chains);
    IndexIs(a, h, chains);
    assert h >= 1 && h in a;
    hide IndexOk, IndexPages, ChainsFor, IndexShape;
    IndexFrame(a, b, h);
  }

  lemma GiveBack(a: Store, m: Store, b: Store, tables: Tables, indexes: Indexes, h: nat, reliable: bool)
    requires m == a || (OnlyHeader(a, m) && OnPage(m, tables, indexes))
    requires Freed(m, b, IndexPages(a, h), reliable) && 0 !in IndexPages(a, h)
    ensures IndexGivenBack(a, b, tables, indexes, h)
    ensures reliable && m == a ==> b == a - IndexPages(a, h)
  {
    if 0 in m {
      OnPageOnly(m, b, tables, indexes);
    }
    hide IndexPages, OnPage;
    if reliable && m == a {
      FreedExactly(a, b, IndexPages(a, h));
    }
  }

  lemma OnPageOnly(m: Store, b: Store, tables: Tables, indexes: Indexes)
    requires 0 in m && (0 in b ==> b[0] == m[0])
    ensures 0 in b && OnPage(m, tables, indexes) ==> OnPage(b, tables, indexes)
  {
    hide ListsTables, ListsIndexes, CatalogBytes, UsedBytes;
    if 0 in b && OnPage(m, tables, indexes) {
      var ts: seq<TableMeta>, xs: seq<IndexMeta> :| ListsTables(ts, tables) && ListsIndexes(xs, indexes) && PageHolds0(m, ts, xs);
      assert PageHolds0(b, ts, xs);
    }
  }

  lemma IndexUndone(a: Store, b: Store, tables: Tables, indexes: Indexes, names: Names, x: IndexMeta, h: nat, result: StatusCode)
    requires IndexAccepted(tables, indexes, names, x) && IndexGivenBack(a, b, tables, indexes[KeyOfIndex(x) := x], h) && result != OK
    ensures IndexEntered(a, b, tables, indexes, indexes, names, names, x, h, result)
  {
    hide IndexAccepted, IndexGivenBack, KeyOfIndex;
  }

  lemma IndexAcceptedIs(tables: Tables, indexes: Indexes, names: Names, x: IndexMeta)
    ensures MakeIndexKey(x.table, x.column) == KeyOfIndex(x)
    ensures IndexAccepted(tables, indexes, names, x) <==>
              && x.name != [] && x.table != [] && x.column != []
              && x.table in tables && HasColumn(tables[x.table].schema, x.column)
              && KeyOfIndex(x) !in indexes && x.name !in names
  {
    hide HasColumn;
  }

  class CatalogManager {
    const bpm: BufferPoolManager
    var status: StatusCode
    var tables: Tables
    var indexes: Indexes
    var indexNames: Names

    /** A catalog that has been loaded is well formed. */
    ghost predicate Valid()
      reads this
    {
      status == OK ==> WellFormed(tables, indexes, indexNames)
    }

    /** The header pages that page 0 names are allocated. */
    ghost predicate HeadersAllocated()
      reads bpm.Repr
    {
      && 0 in bpm.Store()
      && (ParseCatalog(bpm.Store()[0]).Some? ==>
            forall k: nat :: k < |ParseCatalog(bpm.Store()[0]).value.1| ==>
              ParseCatalog(bpm.Store()[0]).value.1[k].header !in bpm.disk.freePages)
    }

    constructor (bpm: BufferPoolManager)
      requires bpm.Valid() && 0 in bpm.Store()
      requires ParseCatalog(bpm.Store()[0]).Some? ==>
                 forall k: nat :: k < |ParseCatalog(bpm.Store()[0]).value.1| ==>
                   ParseCatalog(bpm.Store()[0]).value.1[k].header !in bpm.disk.freePages
      modifies bpm.Repr
      ensures this.bpm == bpm && bpm.Valid() && bpm.Pins() == old(bpm.Pins()) && bpm.Store() == old(bpm.Store())
      ensures Valid() && (status == OK ==> LoadedCatalog(bpm.Store()) == Some((tables, indexes, indexNames)))
      ensures old(bpm.Ready()) && LoadedCatalog(old(bpm.Store())).Some? ==> status == OK
    {
      hide *;
      this.bpm := bpm;
      status, tables, indexes, indexNames := OK, map[], map[], map[];
      new;
      assert HeadersAllocated() by { MakeHeadersAllocated(); }
      status := Load();
      LoadedIsWellFormed(bpm.Store());
      MakeValid();
    }

    lemma MakeHeadersAllocated()
      requires 0 in bpm.Store()
      requires ParseCatalog(bpm.Store()[0]).Some? ==>
                 forall k: nat :: k < |ParseCatalog(bpm.Store()[0]).value.1| ==>
                   ParseCatalog(bpm.Store()[0]).value.1[k].header !in bpm.disk.freePages
      ensures HeadersAllocated()
    {
      hide ParseCatalog;
    }

    lemma MakeValid()
      ensures (status == OK ==> WellFormed(tables, indexes, indexNames)) <==> Valid()
    {
      hide WellFormed;
    }

    lemma Constants()
      ensures PAGE_SIZE == 4096 && HEADER_PAGE_ID == 0 && INVALID_PAGE_ID == -1
    {
    }

    /** Loads the catalog from page 0; on failure the catalog must not be used. */
    method Load() returns (result: StatusCode)
      requires bpm.Valid() && HeadersAllocated() && this !in bpm.Repr
      modifies this, bpm.Repr
      ensures bpm.Valid() && bpm.Pins() == old(bpm.Pins()) && bpm.Store() == old(bpm.Store())
      ensures result in {OK, IO_ERROR}
      ensures result == OK ==> LoadedCatalog(old(bpm.Store())) == Some((tables, indexes, indexNames))
      ensures old(bpm.Ready()) && LoadedCatalog(old(bpm.Store())).Some? ==> result == OK
    {
      hide *;
      ghost var s := bpm.Store();
      AllocatedParts();
      bpm.ReadyParts();
      tables, indexes, indexNames := map[], map[], map[];
      var fetched, read := ReadHeaderPage();
      LoadedParts(s);
      ParsedHeaders(s[0]);
      if !fetched || read.None? {
        return IO_ERROR;
      }
      bpm.ReadyParts();
      tables := EnterTables(read.value.0);
      result := EnterIndexes(read.value.1);
    }

    /** What page 0 says. */
    method ReadHeaderPage() returns (fetched: bool, read: Option<(seq<TableMeta>, seq<IndexMeta>)>)
      requires bpm.Valid() && 0 in bpm.Store()
      modifies bpm.Repr
      ensures bpm.Valid() && bpm.Pins() == old(bpm.Pins()) && bpm.Store() == old(bpm.Store())
      ensures bpm.disk.freePages == old(bpm.disk.freePages)
      ensures old(bpm.Ready()) ==> fetched
      ensures fetched ==> read == ParseCatalog(old(bpm.Store())[0])
    {
      hide *;
      Constants();
      bpm.ReadyParts();
      bpm.PinsArePositive();
      bpm.InStore(0);
      read := None;
      var page := bpm.FetchPage(HEADER_PAGE_ID);
      if page == null {
        return false, read;
      }
      bpm.HoldsParts(page, 0);
      read := ReadCatalog(page.data[..]);
      var unpinned := bpm.UnpinPage(HEADER_PAGE_ID, false);
      fetched := true;
    }

    static lemma ParsedHeaders(b: Bytes)
      ensures ParseCatalog(b).Some? ==>
                forall k: nat :: k < |ParseCatalog(b).value.1| ==> ParseCatalog(b).value.1[k].header > HEADER_PAGE_ID
    {
      ParsedCatalogFits(b);
      hide ParseCatalog, TableFits;
    }

    lemma LoadedParts(s: Store)
      requires 0 in s
      ensures LoadedCatalog(s).Some? ==> ParseCatalog(s[0]).Some? && Entered(s, TableMap(ParseCatalog(s[0]).value.0), ParseCatalog(s[0]).value.1).Some?
      ensures ParseCatalog(s[0]).Some? && Entered(s, TableMap(ParseCatalog(s[0]).value.0), ParseCatalog(s[0]).value.1).Some? ==>
                var ts, xs := ParseCatalog(s[0]).value.0, ParseCatalog(s[0]).value.1;
                LoadedCatalog(s) == Some((TableMap(ts), Entered(s, TableMap(ts), xs).value.0, Entered(s, TableMap(ts), xs).value.1))
    {
      hide ParseCatalog, TableMap, Entered;
    }

    static method EnterTables(list: seq<TableMeta>) returns (tables: Tables)
      ensures tables == TableMap(list)
    {
      tables := map[];
      for k := 0 to |list|
        invariant tables == TableMap(list[..k])
      {
        assert list[..k + 1][..k] == list[..k];
        if list[k].name !in tables {
          tables := tables[list[k].name := list[k]];
        }
      }
      assert list[..|list|] == list;
    }

    /** Opens the indexes of the list and enters them. */
    method EnterIndexes(list: seq<IndexMeta>) returns (result: StatusCode)
      requires bpm.Valid() && this !in bpm.Repr && indexes == map[] && indexNames == map[]
      requires forall k: nat :: k < |list| ==> list[k].header > HEADER_PAGE_ID && list[k].header !in bpm.disk.freePages
      modifies `indexes, `indexNames, bpm.Repr
      ensures bpm.Valid() && bpm.Pins() == old(bpm.Pins()) && bpm.Store() == old(bpm.Store())
      ensures result in {OK, IO_ERROR}
      ensures result == OK ==> Entered(bpm.Store(), tables, list) == Some((indexes, indexNames))
      ensures old(bpm.Ready()) && Entered(old(bpm.Store()), tables, list).Some? ==> result == OK
    {
      hide *;
      Constants();
      bpm.ReadyParts();
      ghost var s := bpm.Store();
      EnteredStart(s, tables, list);
      for k := 0 to |list|
        invariant bpm.Valid() && bpm.Pins() == old(bpm.Pins()) && bpm.Store() == s
        invariant tables == old(tables)
        invariant bpm.disk.freePages == old(bpm.disk.freePages)
        invariant Entered(s, tables, list[..k]) == Some((indexes, indexNames))
        modifies `indexes, `indexNames, bpm.Repr
      {
        bpm.ReadyParts();
        EnteredStep(s, tables, list, k, indexes, indexNames);
        var x := list[k];
        if x.table !in tables {
          return IO_ERROR;
        }
        var found, position := FindColumn(tables[x.table].schema, x.column);
        if !found {
          return IO_ERROR;
        }
        var index := new HashIndex(bpm, x.header);
        var status, bucketCount := index.ValidateHeader();
        if status != OK {
          return status;
        }
        var key := MakeIndexKey(x.table, x.column);
        if key in indexes || x.name in indexNames {
          return IO_ERROR;
        }
        indexNames := indexNames[x.name := key];
        indexes := indexes[key := x];
      }
      assert list[..|list|] == list;
      result := OK;
    }

    static lemma EnteredStart(s: Store, tables: Tables, list: seq<IndexMeta>)
      ensures Entered(s, tables, list[..0]) == Some((map[], map[]))
    {
    }

    /** Entry `k` can be entered exactly if every check on it passes; if not, the list cannot. */
    static lemma EnteredStep(s: Store, tables: Tables, list: seq<IndexMeta>, k: nat, indexes: Indexes, names: Names)
      requires k < |list| && Entered(s, tables, list[..k]) == Some((indexes, names))
      ensures MakeIndexKey(list[k].table, list[k].column) == KeyOfIndex(list[k]) && HEADER_PAGE_ID == 0
      ensures CanEnter(s, tables, indexes, names, list[k]) <==>
                && list[k].table in tables && HasColumn(tables[list[k].table].schema, list[k].column)
                && list[k].header > HEADER_PAGE_ID && GoodHeader(s, list[k].header)
                && KeyOfIndex(list[k]) !in indexes && list[k].name !in names
      ensures CanEnter(s, tables, indexes, names, list[k]) ==>
                Entered(s, tables, list[..k + 1]) == Some((indexes[KeyOfIndex(list[k]) := list[k]], names[list[k].name := KeyOfIndex(list[k])]))
      ensures !CanEnter(s, tables, indexes, names, list[k]) ==> Entered(s, tables, list).None?
    {
      assert list[..k + 1][..k] == list[..k];
      hide CanEnter, GoodHeader, HasColumn;
      if !CanEnter(s, tables, indexes, names, list[k]) {
        NeverEntered(s, tables, list, k + 1);
      }
    }

    static lemma {:induction false} NeverEntered(s: Store, tables: Tables, list: seq<IndexMeta>, k: nat)
      requires k <= |list| && Entered(s, tables, list[..k]).None?
      ensures Entered(s, tables, list).None?
      decreases |list| - k
    {
      hide CanEnter;
      if k == |list| {
        assert list[..k] == list;
      } else {
        assert list[..k + 1][..k] == list[..k];
        NeverEntered(s, tables, list, k + 1);
      }
    }

    lemma AllocatedParts()
      requires HeadersAllocated()
      ensures 0 in bpm.Store()
      ensures ParseCatalog(bpm.Store()[0]).Some? ==>
                 forall k: nat :: k < |ParseCatalog(bpm.Store()[0]).value.1| ==>
                   ParseCatalog(bpm.Store()[0]).value.1[k].header !in bpm.disk.freePages
    {
      hide ParseCatalog;
    }

    /** Stores the catalog on page 0. */
    method Persist() returns (result: StatusCode)
      requires bpm.Valid() && 0 in bpm.Store() && SelfNamed(tables, indexes) && this !in bpm.Repr
      modifies bpm.Repr
      ensures bpm.Valid() && bpm.Pins() == old(bpm.Pins())
      ensures Persisted(old(bpm.Store()), bpm.Store(), tables, indexes, result)
      ensures old(bpm.Ready()) ==> result != IO_ERROR
      ensures result == OK ==> |bpm.disk.pages| > 0 && 0 in bpm.Store() && bpm.disk.pages[0] == bpm.Store()[0]
    {
      hide *;
      Constants();
      SelfNamedParts(tables, indexes);
      ghost var a := bpm.Store();
      ghost var ready := bpm.Ready();
      bpm.ReadyParts();
      bpm.InStore(0);
      bpm.PinsArePositive();
      var ts := ListTables(tables);
      var xs := ListIndexes(indexes);
      ListedSize(ts, xs, tables, indexes);
      RefusedPersist(a, tables, indexes);
      var ok, image := SerializeCatalog(ts, xs);
      if !ok {
        return OUT_OF_MEMORY;
      }
      CatalogParts(ts, xs);
      DonePersist(a, a[0 := image], ts, xs, tables, indexes);
      ok := WriteHeaderPage(image);
      result := if ok then OK else IO_ERROR;
    }

    /** Replaces page 0 and writes it to the file. */
    method WriteHeaderPage(image: Bytes) returns (ok: bool)
      requires bpm.Valid() && 0 in bpm.Store() && |image| == PAGE_SIZE
      modifies bpm.Repr
      ensures bpm.Valid() && bpm.Pins() == old(bpm.Pins())
      ensures bpm.Store() == old(bpm.Store()) || bpm.Store() == old(bpm.Store())[0 := image]
      ensures old(bpm.Ready()) ==> ok
      ensures ok ==> bpm.Store() == old(bpm.Store())[0 := image]
      ensures ok ==> |bpm.disk.pages| > 0 && bpm.disk.pages[0] == image
    {
      hide *;
      Constants();
      bpm.ReadyParts();
      bpm.InStore(0);
      bpm.PinsArePositive();
      var page := bpm.FetchPage(HEADER_PAGE_ID);
      if page == null {
        return false;
      }
      bpm.HoldsParts(page, 0);
      label Fetched:
      forall i | 0 <= i < PAGE_SIZE {
        page.data[i] := image[i];
      }
      page.dirty := true;
      assert page.data[..] == image;
      bpm.WroteThrough@Fetched(0);
      bpm.HoldsParts(page, 0);
      var unpinned := bpm.UnpinPage(HEADER_PAGE_ID, true);
      assert bpm.Pins() == old(bpm.Pins());
      ok := bpm.FlushPage(HEADER_PAGE_ID);
    }

    /** Enters a table and stores the catalog; if that fails the entry is taken out again.
        A column without a name is accepted and stored, but then the catalog cannot be
        loaded again. */
    method CreateTable(name: Bytes, schema: Schema, first: Int32) returns (result: StatusCode)
      requires bpm.Valid() && 0 in bpm.Store() && Valid() && this !in bpm.Repr
      requires forall k: nat :: k < |schema| ==> schema[k].length < 0x1_0000_0000
      modifies `tables, bpm.Repr
      ensures bpm.Valid() && bpm.Pins() == old(bpm.Pins())
      ensures result != OK || AllNamed(schema) ==> Valid()
      ensures result == OK && !AllNamed(schema) ==> LoadedCatalog(bpm.Store()).None?
      ensures TableEntered(old(bpm.Store()), bpm.Store(), old(tables), tables, indexes, TableMeta(name, schema, first), result)
      ensures old(bpm.Ready()) ==>
                && (result == OK <==> status == OK && TableAccepted(old(tables), TableMeta(name, schema, first))
                                      && CatalogSize(old(tables)[name := TableMeta(name, schema, first)], indexes) <= PAGE_SIZE)
                && (result != OK ==> bpm.Store() == old(bpm.Store()))
                && (result != OK && status == OK && TableAccepted(old(tables), TableMeta(name, schema, first)) ==> result == OUT_OF_MEMORY)
    {
      hide *;
      Constants();
      ghost var t := TableMeta(name, schema, first);
      ghost var a, before := bpm.Store(), tables;
      TableAcceptedIs(tables, t);
      MakeValid();
      forall result: StatusCode | result != OK ensures TableEntered(a, a, tables, tables, indexes, t, result) {
        TableRefused(a, tables, indexes, t, result);
      }
      if status != OK {
        return status;
      }
      if name == [] {
        return INVALID_ARGUMENT;
      }
      if first <= HEADER_PAGE_ID {
        return INVALID_ARGUMENT;
      }
      if |schema| == 0 {
        return INVALID_ARGUMENT;
      }
      if name in tables {
        return INVALID_ARGUMENT;
      }
      AcceptedStorable(tables, t);
      WellFormedSelfNamed(tables, indexes, indexNames);
      if AllNamed(schema) {
        StorableFits(t);
        StorableAccepted(tables, indexes, indexNames, t);
      }
      tables := tables[name := TableMeta(name, schema, first)];
      bpm.ReadyParts();
      result := Persist();
      PersistParts(a, bpm.Store(), tables, indexes, result);
      TablePersisted(a, bpm.Store(), before, indexes, t, result);
      if result != OK {
        tables := tables - {name};
        assert tables == before;
      } else if !AllNamed(schema) {
        NamelessIsNotLoaded(bpm.Store(), before, indexes, indexNames, t);
      }
      MakeValid();
    }

    static lemma AcceptedStorable(tables: Tables, t: TableMeta)
      requires TableAccepted(tables, t) && forall k: nat :: k < |t.schema| ==> t.schema[k].length < 0x1_0000_0000
      ensures TableStorable(t)
    {
    }

    static lemma StorableAccepted(tables: Tables, indexes: Indexes, names: Names, t: TableMeta)
      requires WellFormed(tables, indexes, names) && TableAccepted(tables, t) && TableFits(t)
      ensures WellFormed(tables[t.name := t], indexes, names)
    {
      hide WellFormed, ColumnFits;
      WellFormedTable(tables, indexes, names, t);
    }

    lemma TableAcceptedIs(before: Tables, t: TableMeta)
      ensures TableAccepted(before, t) <==> t.name != [] && t.first > HEADER_PAGE_ID && t.schema != [] && t.name !in before
    {
    }

    /** Enters an index and stores the catalog; if that fails the entry is taken out again
        and the pages of the index are given back. */
    method CreateIndex(name: Bytes, table: Bytes, column: Bytes, header: Int32) returns (result: StatusCode)
      requires bpm.Valid() && 0 in bpm.Store() && Valid() && this !in bpm.Repr
      requires header > HEADER_PAGE_ID && IndexOk(bpm.Store(), header)
      requires forall p: nat :: p in IndexPages(bpm.Store(), header) ==> p !in bpm.Pins()
      modifies `indexes, `indexNames, bpm.Repr
      ensures bpm.Valid() && bpm.Pins() == old(bpm.Pins()) && Valid()
      ensures IndexEntered(old(bpm.Store()), bpm.Store(), tables, old(indexes), indexes, old(indexNames), indexNames,
                           IndexMeta(name, table, column, header), header, result)
      ensures old(bpm.Ready()) && status == OK ==>
                var x := IndexMeta(name, table, column, header);
                && (result == OK <==> IndexAccepted(tables, old(indexes), old(indexNames), x)
                                      && CatalogSize(tables, old(indexes)[KeyOfIndex(x) := x]) <= PAGE_SIZE)
                && (result != OK ==> bpm.Store() == if IndexAccepted(tables, old(indexes), old(indexNames), x)
                                                    then old(bpm.Store()) - IndexPages(old(bpm.Store()), header) else old(bpm.Store()))
      ensures status != OK ==> result == status && bpm.Store() == old(bpm.Store())
      ensures status == OK && name == [] ==> result == INVALID_ARGUMENT
      ensures old(bpm.Ready()) && status == OK && result != OK ==>
                IndexAccepted(tables, old(indexes), old(indexNames), IndexMeta(name, table, column, header)) ==> result == OUT_OF_MEMORY
    {
      hide *;
      Constants();
      ghost var x := IndexMeta(name, table, column, header);
      ghost var a, before, names := bpm.Store(), indexes, indexNames;
      IndexAcceptedIs(tables, indexes, indexNames, x);
      MakeValid();
      forall result: StatusCode | result != OK
        ensures IndexEntered(a, a, tables, indexes, indexes, indexNames, indexNames, x, header, result)
      {
        IndexRefused(a, tables, indexes, indexNames, x, header, result);
      }
      if status != OK {
        return status;
      }
      if name == [] || table == [] || column == [] {
        return INVALID_ARGUMENT;
      }
      if table !in tables {
        return NOT_FOUND;
      }
      var found, position := FindColumn(tables[table].schema, column);
      if !found {
        return NOT_FOUND;
      }
      var key := MakeIndexKey(table, column);
      if key in indexes {
        return INVALID_ARGUMENT;
      }
      if name in indexNames {
        return INVALID_ARGUMENT;
      }
      result := StoreIndex(IndexMeta(name, table, column, header));
    }

    /** The second half of CreateIndex, for an index that is accepted. */
    method StoreIndex(x: IndexMeta) returns (result: StatusCode)
      requires bpm.Valid() && 0 in bpm.Store() && Valid() && status == OK && this !in bpm.Repr
      requires x.header > HEADER_PAGE_ID && IndexOk(bpm.Store(), x.header)
      requires forall p: nat :: p in IndexPages(bpm.Store(), x.header) ==> p !in bpm.Pins()
      requires IndexAccepted(tables, indexes, indexNames, x)
      modifies `indexes, `indexNames, bpm.Repr
      ensures bpm.Valid() && bpm.Pins() == old(bpm.Pins()) && Valid()
      ensures IndexEntered(old(bpm.Store()), bpm.Store(), tables, old(indexes), indexes, old(indexNames), indexNames, x, x.header, result)
      ensures old(bpm.Ready()) ==>
                && (result == OK <==> CatalogSize(tables, old(indexes)[KeyOfIndex(x) := x]) <= PAGE_SIZE)
                && (result != OK ==> bpm.Store() == old(bpm.Store()) - IndexPages(old(bpm.Store()), x.header) && result == OUT_OF_MEMORY)
    {
      hide *;
      Constants();
      ghost var a, before, names := bpm.Store(), indexes, indexNames;
      IndexAcceptedIs(tables, indexes, indexNames, x);
      MakeValid();
      AcceptedIndexFits(tables, indexes, indexNames, x);
      Enter(x);
      WellFormedSelfNamed(tables, indexes, indexNames);
      bpm.ReadyParts();
      result := Persist();
      PersistParts(a, bpm.Store(), tables, indexes, result);
      if result == OK {
        IndexStored(a, bpm.Store(), tables, before, names, x, x.header);
      } else {
        bpm.ReadyParts();
        result := UndoIndex(x, result, a, before, names);
      }
      MakeValid();
    }

    method Enter(x: IndexMeta)
      modifies `indexes, `indexNames
      ensures indexes == old(indexes)[KeyOfIndex(x) := x] && indexNames == old(indexNames)[x.name := KeyOfIndex(x)]
    {
      var key := MakeIndexKey(x.table, x.column);
      indexNames := indexNames[x.name := key];
      indexes := indexes[key := x];
    }

    method TakeOut(x: IndexMeta, ghost before: Indexes, ghost names: Names)
      requires KeyOfIndex(x) !in before && x.name !in names
      requires indexes == before[KeyOfIndex(x) := x] && indexNames == names[x.name := KeyOfIndex(x)]
      modifies `indexes, `indexNames
      ensures indexes == before && indexNames == names
    {
      var key := MakeIndexKey(x.table, x.column);
      indexes := indexes - {key};
      indexNames := indexNames - {x.name};
    }

    /** The end of CreateIndex when the catalog could not be stored. */
    method UndoIndex(x: IndexMeta, failure: StatusCode, ghost a: Store, ghost before: Indexes, ghost names: Names) returns (result: StatusCode)
      requires bpm.Valid() && this !in bpm.Repr && failure != OK && x.header > HEADER_PAGE_ID
      requires IndexOk(a, x.header)
      requires bpm.Store() == a || (OnlyHeader(a, bpm.Store()) && OnPage(bpm.Store(), tables, before[KeyOfIndex(x) := x]))
      requires forall p: nat :: p in IndexPages(a, x.header) ==> p !in bpm.Pins()
      requires IndexAccepted(tables, before, names, x)
      requires indexes == before[KeyOfIndex(x) := x] && indexNames == names[x.name := KeyOfIndex(x)]
      modifies `indexes, `indexNames, bpm.Repr
      ensures bpm.Valid() && bpm.Pins() == old(bpm.Pins()) && result != OK
      ensures indexes == before && indexNames == names
      ensures IndexEntered(a, bpm.Store(), tables, before, indexes, names, indexNames, x, x.header, result)
      ensures old(bpm.Ready()) ==> result == failure
      ensures old(bpm.Ready()) && old(bpm.Store()) == a ==> bpm.Store() == a - IndexPages(a, x.header)
    {
      hide *;
      Constants();
      IndexAcceptedIs(tables, before, names, x);
      var cleanup := GiveBackIndex(x.header, a, tables, before[KeyOfIndex(x) := x]);
      TakeOut(x, before, names);
      result := if cleanup != OK then IO_ERROR else failure;
      IndexUndone(a, bpm.Store(), tables, before, names, x, x.header, result);
    }

    /** Destroys an index that could not be stored; `a` is the state before. */
    method GiveBackIndex(header: nat, ghost a: Store, ghost tables: Tables, ghost indexes: Indexes) returns (cleanup: StatusCode)
      requires bpm.Valid() && IndexOk(a, header)
      requires bpm.Store() == a || (OnlyHeader(a, bpm.Store()) && OnPage(bpm.Store(), tables, indexes))
      requires forall p: nat :: p in IndexPages(a, header) ==> p !in bpm.Pins()
      modifies bpm.Repr
      ensures bpm.Valid() && bpm.Pins() == old(bpm.Pins())
      ensures IndexGivenBack(a, bpm.Store(), tables, indexes, header)
      ensures old(bpm.Ready()) ==> cleanup == OK && (old(bpm.Store()) == a ==> bpm.Store() == a - IndexPages(a, header))
    {
      hide *;
      ghost var m := bpm.Store();
      IndexOutlivesPersist(a, m, header);
      bpm.ReadyParts();
      var index := new HashIndex(bpm, header);
      cleanup := index.Destroy();
      GiveBack(a, m, bpm.Store(), tables, indexes, header, cleanup == OK && bpm.disk.reliable);
    }
  }
}
