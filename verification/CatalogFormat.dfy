// The catalog page: every table with its columns, and every index
// (docs/file_format.md, section 5).
module CatalogFormat {
  import opened Common
  import opened ByteFormat
  import opened RecordFormat

  const CATALOG_MAGIC: nat := 0x31544143

  datatype TableMeta = TableMeta(name: Bytes, schema: Schema, first: Int32)

  datatype IndexMeta = IndexMeta(name: Bytes, table: Bytes, column: Bytes, header: Int32)

  // ---- Writing ----

  function TypeCode(kind: TypeId): byte {
    match kind
    case INTEGER => 0
    case VARCHAR => 1
    case BOOLEAN => 2
  }

  function ColumnBytes(c: Column): Bytes {
    U16(|c.name|) + [TypeCode(c.kind), 0] + U32(c.length) + c.name
  }

  function ColumnsBytes(columns: seq<Column>): Bytes {
    if columns == [] then [] else ColumnBytes(columns[0]) + ColumnsBytes(columns[1..])
  }

  function TableBytes(t: TableMeta): Bytes {
    U16(12 + |t.name| + |ColumnsBytes(t.schema)|) + U16(|t.name|) + U16(|t.schema|) + U16(0) + I32(t.first)
    + t.name + ColumnsBytes(t.schema)
  }

  function TablesBytes(tables: seq<TableMeta>): Bytes {
    if tables == [] then [] else TableBytes(tables[0]) + TablesBytes(tables[1..])
  }

  function IndexBytes(x: IndexMeta): Bytes {
    U16(12 + |x.name| + |x.table| + |x.column|) + U16(|x.name|) + U16(|x.table|) + U16(|x.column|) + I32(x.header)
    + x.name + x.table + x.column
  }

  function IndexesBytes(indexes: seq<IndexMeta>): Bytes {
    if indexes == [] then [] else IndexBytes(indexes[0]) + IndexesBytes(indexes[1..])
  }

  function HeaderBytes(tableCount: nat, indexCount: nat, used: nat): (h: Bytes)
    ensures |h| == 16
  {
    U32(CATALOG_MAGIC) + U16(1) + U16(tableCount) + U16(indexCount) + U16(used) + U32(0)
  }

  function UsedBytes(tables: seq<TableMeta>, indexes: seq<IndexMeta>): nat {
    16 + |TablesBytes(tables)| + |IndexesBytes(indexes)|
  }

  /** The whole page, if everything fits. */
  function CatalogBytes(tables: seq<TableMeta>, indexes: seq<IndexMeta>): Bytes {
    if UsedBytes(tables, indexes) <= PAGE_SIZE then
      HeaderBytes(|tables|, |indexes|, UsedBytes(tables, indexes)) + TablesBytes(tables) + IndexesBytes(indexes)
      + Zeros(PAGE_SIZE - UsedBytes(tables, indexes))
    else
      []
  }

  // ---- Reading ----

  function KindOf(code: nat): Option<TypeId> {
    if code == 0 then Some(INTEGER) else if code == 1 then Some(VARCHAR) else if code == 2 then Some(BOOLEAN) else None
  }

  /** The column entry at `cursor`, which must end by `end`. */
  function ParseColumn(b: Bytes, end: nat, cursor: nat): Option<(Column, nat)> {
    if cursor + 8 > end || end > |b| then None
    else
      var n := GetU16(b, cursor);
      var kind := KindOf(b[cursor + 2] as nat);
      if kind.None? || cursor + 8 + n > end || n == 0 then None
      else Some((Column(Slice(b, cursor + 8, n), kind.value, GetU32(b, cursor + 4)), cursor + 8 + n))
  }

  /** `n` more columns after those in `done`. */
  function ParseColumns(b: Bytes, end: nat, cursor: nat, n: nat, done: seq<Column>): Option<(seq<Column>, nat)>
    decreases n
  {
    if n == 0 then Some((done, cursor))
    else
      match ParseColumn(b, end, cursor)
      case None => None
      case Some(parsed) => ParseColumns(b, end, parsed.1, n - 1, done + [parsed.0])
  }

  function ParseTable(b: Bytes, limit: nat, cursor: nat): Option<(TableMeta, nat)> {
    if cursor + 12 > limit || limit > |b| then None
    else
      var size, n, count, first := GetU16(b, cursor), GetU16(b, cursor + 2), GetU16(b, cursor + 4), GetI32(b, cursor + 8);
      if size < 12 || cursor + size > limit || first <= HEADER_PAGE_ID then None
      else if cursor + 12 + n > cursor + size || n == 0 then None
      else
        match ParseColumns(b, cursor + size, cursor + 12 + n, count, [])
        case None => None
        case Some(parsed) =>
          if parsed.1 != cursor + size then None
          else Some((TableMeta(Slice(b, cursor + 12, n), parsed.0, first), cursor + size))
  }

  function ParseTables(b: Bytes, limit: nat, cursor: nat, n: nat, done: seq<TableMeta>): Option<(seq<TableMeta>, nat)>
    decreases n
  {
    if n == 0 then Some((done, cursor))
    else
      match ParseTable(b, limit, cursor)
      case None => None
      case Some(parsed) => ParseTables(b, limit, parsed.1, n - 1, done + [parsed.0])
  }

  function ParseIndex(b: Bytes, limit: nat, cursor: nat): Option<(IndexMeta, nat)> {
    if cursor + 12 > limit || limit > |b| then None
    else
      var size, n, m, k, header := GetU16(b, cursor), GetU16(b, cursor + 2), GetU16(b, cursor + 4), GetU16(b, cursor + 6), GetI32(b, cursor + 8);
      if size < 12 || cursor + size > limit || header <= HEADER_PAGE_ID then None
      else if 12 + n + m + k != size || n == 0 || m == 0 || k == 0 then None
      else Some((IndexMeta(Slice(b, cursor + 12, n), Slice(b, cursor + 12 + n, m), Slice(b, cursor + 12 + n + m, k), header), cursor + size))
  }

  function ParseIndexes(b: Bytes, limit: nat, cursor: nat, n: nat, done: seq<IndexMeta>): Option<(seq<IndexMeta>, nat)>
    decreases n
  {
    if n == 0 then Some((done, cursor))
    else
      match ParseIndex(b, limit, cursor)
      case None => None
      case Some(parsed) => ParseIndexes(b, limit, parsed.1, n - 1, done + [parsed.0])
  }

  /** What a catalog page says: nothing at all before the first catalog has been stored. */
  function ParseCatalog(b: Bytes): Option<(seq<TableMeta>, seq<IndexMeta>)> {
    if GetU32(b, 0) == 0 then Some(([], []))
    else if GetU32(b, 0) != CATALOG_MAGIC || GetU16(b, 4) != 1 || GetU16(b, 10) < 16 || GetU16(b, 10) > PAGE_SIZE then None
    else
      var limit := GetU16(b, 10);
      match ParseTables(b, limit, 16, GetU16(b, 6), [])
      case None => None
      case Some(tables) =>
        match ParseIndexes(b, limit, tables.1, GetU16(b, 8), [])
        case None => None
        case Some(indexes) => if indexes.1 != limit then None else Some((tables.0, indexes.0))
  }

  // ---- Reading back what was written ----

  predicate ColumnFits(c: Column) {
    c.name != [] && c.length < 0x1_0000_0000
  }

  predicate TableFits(t: TableMeta) {
    t.name != [] && t.first > HEADER_PAGE_ID && forall k: nat :: k < |t.schema| ==> ColumnFits(t.schema[k])
  }

  predicate IndexFits(x: IndexMeta) {
    x.name != [] && x.table != [] && x.column != [] && x.header > HEADER_PAGE_ID
  }

  predicate CatalogFits(tables: seq<TableMeta>, indexes: seq<IndexMeta>) {
    && (forall k: nat :: k < |tables| ==> TableFits(tables[k]))
    && (forall k: nat :: k < |indexes| ==> IndexFits(indexes[k]))
  }

  /** `part` stands in `b` at `cursor`. */
  predicate At(b: Bytes, cursor: nat, part: Bytes) {
    cursor + |part| <= |b| && b[cursor..cursor + |part|] == part
  }

  lemma AtSplit(b: Bytes, cursor: nat, x: Bytes, y: Bytes)
    requires At(b, cursor, x + y)
    ensures At(b, cursor, x) && At(b, cursor + |x|, y)
  {
    var whole := b[cursor..cursor + |x + y|];
    assert b[cursor..cursor + |x|] == whole[..|x|];
    assert b[cursor + |x|..cursor + |x| + |y|] == whole[|x|..];
  }

  lemma AtU16(b: Bytes, cursor: nat, v: nat)
    requires At(b, cursor, U16(v)) && v < 0x1_0000
    ensures GetU16(b, cursor) == v
  {
    assert b[cursor] == b[cursor..cursor + 2][0] && b[cursor + 1] == b[cursor..cursor + 2][1];
  }

  lemma AtU32(b: Bytes, cursor: nat, v: nat)
    requires At(b, cursor, U32(v)) && v < 0x1_0000_0000
    ensures GetU32(b, cursor) == v
  {
    assert b == Put(b, cursor, U32(v)) by {
      forall x: nat | x < |b| ensures b[x] == Put(b, cursor, U32(v))[x] {
        PutAt(b, cursor, U32(v), x);
        if cursor <= x < cursor + 4 { assert b[x] == b[cursor..cursor + 4][x - cursor]; }
      }
    }
    hide GetU32, U32, Put;
    GetPutU32(b, cursor, v);
  }

  lemma AtI32(b: Bytes, cursor: nat, v: int)
    requires At(b, cursor, I32(v)) && IsInt32(v)
    ensures GetI32(b, cursor) == v
  {
    hide U32, GetU32;
    AtU32(b, cursor, v % 0x1_0000_0000);
  }

  lemma AtString(b: Bytes, cursor: nat, s: Bytes)
    requires At(b, cursor, s)
    ensures Slice(b, cursor, |s|) == s
  {
  }

  lemma ColumnReadsBack(b: Bytes, end: nat, cursor: nat, c: Column)
    requires At(b, cursor, ColumnBytes(c)) && cursor + |ColumnBytes(c)| <= end <= |b| <= PAGE_SIZE && ColumnFits(c)
    ensures ParseColumn(b, end, cursor) == Some((c, cursor + |ColumnBytes(c)|)) && |ColumnBytes(c)| == 8 + |c.name|
  {
    var front := U16(|c.name|) + [TypeCode(c.kind), 0];
    AtSplit(b, cursor, front + U32(c.length), c.name);
    AtSplit(b, cursor, front, U32(c.length));
    AtSplit(b, cursor, U16(|c.name|), [TypeCode(c.kind), 0]);
    assert b[cursor + 2] == b[cursor + 2..cursor + 2 + 2][0];
    hide At, GetU16, GetU32, U16, U32;
    AtU16(b, cursor, |c.name|);
    AtU32(b, cursor + 4, c.length);
    AtString(b, cursor + 8, c.name);
  }

  lemma {:induction false} ColumnsReadBack(b: Bytes, end: nat, cursor: nat, columns: seq<Column>, done: seq<Column>)
    requires At(b, cursor, ColumnsBytes(columns)) && cursor + |ColumnsBytes(columns)| <= end <= |b| <= PAGE_SIZE
    requires forall k: nat :: k < |columns| ==> ColumnFits(columns[k])
    ensures ParseColumns(b, end, cursor, |columns|, done) == Some((done + columns, cursor + |ColumnsBytes(columns)|))
    decreases |columns|
  {
    hide At, ParseColumn, ColumnBytes, ColumnFits;
    if columns == [] {
      assert done + columns == done;
    } else {
      AtSplit(b, cursor, ColumnBytes(columns[0]), ColumnsBytes(columns[1..]));
      ColumnReadsBack(b, end, cursor, columns[0]);
      ColumnsReadBack(b, end, cursor + |ColumnBytes(columns[0])|, columns[1..], done + [columns[0]]);
      assert (done + [columns[0]]) + columns[1..] == done + columns;
    }
  }

  /** Every column takes at least 9 bytes. */
  lemma {:induction false} ColumnsAreLong(columns: seq<Column>)
    requires forall k: nat :: k < |columns| ==> ColumnFits(columns[k])
    ensures 9 * |columns| <= |ColumnsBytes(columns)|
    decreases |columns|
  {
    if columns != [] {
      assert |ColumnBytes(columns[0])| == 8 + |columns[0].name|;
      hide ColumnBytes;
      ColumnsAreLong(columns[1..]);
    }
  }

  lemma EntryFields(b: Bytes, cursor: nat, v: nat, w: nat, x: nat, y: nat, page: Int32, rest: Bytes)
    requires At(b, cursor, U16(v) + U16(w) + U16(x) + U16(y) + I32(page) + rest)
    requires v < 0x1_0000 && w < 0x1_0000 && x < 0x1_0000 && y < 0x1_0000
    ensures GetU16(b, cursor) == v && GetU16(b, cursor + 2) == w && GetU16(b, cursor + 4) == x && GetU16(b, cursor + 6) == y
    ensures GetI32(b, cursor + 8) == page && At(b, cursor + 12, rest)
  {
    hide At, GetU16, GetI32, U16, I32;
    AtSplit(b, cursor, U16(v) + U16(w) + U16(x) + U16(y) + I32(page), rest);
    AtSplit(b, cursor, U16(v) + U16(w) + U16(x) + U16(y), I32(page));
    AtSplit(b, cursor, U16(v) + U16(w) + U16(x), U16(y));
    AtSplit(b, cursor, U16(v) + U16(w), U16(x));
    AtSplit(b, cursor, U16(v), U16(w));
    AtU16(b, cursor, v);
    AtU16(b, cursor + 2, w);
    AtU16(b, cursor + 4, x);
    AtU16(b, cursor + 6, y);
    Int32IsInt32(page);
    AtI32(b, cursor + 8, page);
  }

  lemma Int32IsInt32(page: Int32)
    ensures IsInt32(page)
  {
  }

  lemma TableLayout(t: TableMeta)
    ensures TableBytes(t) == U16(12 + |t.name| + |ColumnsBytes(t.schema)|) + U16(|t.name|) + U16(|t.schema|) + U16(0) + I32(t.first)
                           + (t.name + ColumnsBytes(t.schema))
    ensures |TableBytes(t)| == 12 + |t.name| + |ColumnsBytes(t.schema)|
  {
    hide U16, I32, ColumnsBytes;
  }

  lemma ParseTableIs(b: Bytes, limit: nat, cursor: nat, t: TableMeta, size: nat)
    requires cursor + size <= limit <= |b| && size >= 12 + |t.name| && t.name != [] && t.first > HEADER_PAGE_ID
    requires GetU16(b, cursor) == size && GetU16(b, cursor + 2) == |t.name| && GetU16(b, cursor + 4) == |t.schema|
    requires GetI32(b, cursor + 8) == t.first && Slice(b, cursor + 12, |t.name|) == t.name
    requires ParseColumns(b, cursor + size, cursor + 12 + |t.name|, |t.schema|, []) == Some((t.schema, cursor + size))
    ensures ParseTable(b, limit, cursor) == Some((t, cursor + size))
  {
    hide GetU16, GetI32, Slice, ParseColumns;
  }

  lemma TableFitsParts(t: TableMeta)
    requires TableFits(t)
    ensures t.name != [] && t.first > HEADER_PAGE_ID && forall k: nat :: k < |t.schema| ==> ColumnFits(t.schema[k])
    ensures PAGE_SIZE == 4096
  {
    hide ColumnFits;
  }

  lemma TableReadsBack(b: Bytes, limit: nat, cursor: nat, t: TableMeta)
    requires At(b, cursor, TableBytes(t)) && cursor + |TableBytes(t)| <= limit <= |b| <= PAGE_SIZE && TableFits(t)
    ensures ParseTable(b, limit, cursor) == Some((t, cursor + |TableBytes(t)|)) && |TableBytes(t)| >= 12
  {
    hide *;
    TableLayout(t);
    TableFitsParts(t);
    ColumnsAreLong(t.schema);
    var size := 12 + |t.name| + |ColumnsBytes(t.schema)|;
    EntryFields(b, cursor, size, |t.name|, |t.schema|, 0, t.first, t.name + ColumnsBytes(t.schema));
    AtSplit(b, cursor + 12, t.name, ColumnsBytes(t.schema));
    AtString(b, cursor + 12, t.name);
    ColumnsReadBack(b, cursor + size, cursor + 12 + |t.name|, t.schema, []);
    assert [] + t.schema == t.schema;
    ParseTableIs(b, limit, cursor, t, size);
  }

  lemma {:induction false} TablesReadBack(b: Bytes, limit: nat, cursor: nat, tables: seq<TableMeta>, done: seq<TableMeta>)
    requires At(b, cursor, TablesBytes(tables)) && cursor + |TablesBytes(tables)| <= limit <= |b| <= PAGE_SIZE
    requires forall k: nat :: k < |tables| ==> TableFits(tables[k])
    ensures ParseTables(b, limit, cursor, |tables|, done) == Some((done + tables, cursor + |TablesBytes(tables)|))
    ensures |tables| <= |TablesBytes(tables)|
    decreases |tables|
  {
    hide At, ParseTable, TableBytes, TableFits;
    if tables == [] {
      assert done + tables == done;
    } else {
      AtSplit(b, cursor, TableBytes(tables[0]), TablesBytes(tables[1..]));
      TableReadsBack(b, limit, cursor, tables[0]);
      TablesReadBack(b, limit, cursor + |TableBytes(tables[0])|, tables[1..], done + [tables[0]]);
      assert (done + [tables[0]]) + tables[1..] == done + tables;
    }
  }

  lemma IndexLayout(x: IndexMeta)
    ensures IndexBytes(x) == U16(12 + |x.name| + |x.table| + |x.column|) + U16(|x.name|) + U16(|x.table|) + U16(|x.column|) + I32(x.header)
                           + (x.name + (x.table + x.column))
    ensures |IndexBytes(x)| == 12 + |x.name| + |x.table| + |x.column|
  {
    hide U16, I32;
  }

  lemma IndexReadsBack(b: Bytes, limit: nat, cursor: nat, x: IndexMeta)
    requires At(b, cursor, IndexBytes(x)) && cursor + |IndexBytes(x)| <= limit <= |b| <= PAGE_SIZE && IndexFits(x)
    ensures ParseIndex(b, limit, cursor) == Some((x, cursor + |IndexBytes(x)|)) && |IndexBytes(x)| >= 12
  {
    IndexLayout(x);
    hide At, GetU16, GetI32, U16, I32, IndexBytes;
    EntryFields(b, cursor, 12 + |x.name| + |x.table| + |x.column|, |x.name|, |x.table|, |x.column|, x.header, x.name + (x.table + x.column));
    AtSplit(b, cursor + 12, x.name, x.table + x.column);
    AtSplit(b, cursor + 12 + |x.name|, x.table, x.column);
    AtString(b, cursor + 12, x.name);
    AtString(b, cursor + 12 + |x.name|, x.table);
    AtString(b, cursor + 12 + |x.name| + |x.table|, x.column);
  }

  lemma {:induction false} IndexesReadBack(b: Bytes, limit: nat, cursor: nat, indexes: seq<IndexMeta>, done: seq<IndexMeta>)
    requires At(b, cursor, IndexesBytes(indexes)) && cursor + |IndexesBytes(indexes)| <= limit <= |b| <= PAGE_SIZE
    requires forall k: nat :: k < |indexes| ==> IndexFits(indexes[k])
    ensures ParseIndexes(b, limit, cursor, |indexes|, done) == Some((done + indexes, cursor + |IndexesBytes(indexes)|))
    ensures |indexes| <= |IndexesBytes(indexes)|
    decreases |indexes|
  {
    hide At, ParseIndex, IndexBytes, IndexFits;
    if indexes == [] {
      assert done + indexes == done;
    } else {
      AtSplit(b, cursor, IndexBytes(indexes[0]), IndexesBytes(indexes[1..]));
      IndexReadsBack(b, limit, cursor, indexes[0]);
      IndexesReadBack(b, limit, cursor + |IndexBytes(indexes[0])|, indexes[1..], done + [indexes[0]]);
      assert (done + [indexes[0]]) + indexes[1..] == done + indexes;
    }
  }

  lemma HeaderFields(b: Bytes, tableCount: nat, indexCount: nat, used: nat)
    requires At(b, 0, HeaderBytes(tableCount, indexCount, used))
    requires tableCount < 0x1_0000 && indexCount < 0x1_0000 && used < 0x1_0000
    ensures GetU32(b, 0) == CATALOG_MAGIC && GetU16(b, 4) == 1
    ensures GetU16(b, 6) == tableCount && GetU16(b, 8) == indexCount && GetU16(b, 10) == used
  {
    assert CATALOG_MAGIC < 0x1_0000_0000;
    hide At, GetU16, GetU32, U16, U32;
    AtSplit(b, 0, U32(CATALOG_MAGIC) + U16(1) + U16(tableCount) + U16(indexCount) + U16(used), U32(0));
    AtSplit(b, 0, U32(CATALOG_MAGIC) + U16(1) + U16(tableCount) + U16(indexCount), U16(used));
    AtSplit(b, 0, U32(CATALOG_MAGIC) + U16(1) + U16(tableCount), U16(indexCount));
    AtSplit(b, 0, U32(CATALOG_MAGIC) + U16(1), U16(tableCount));
    AtSplit(b, 0, U32(CATALOG_MAGIC), U16(1));
    AtU32(b, 0, CATALOG_MAGIC);
    AtU16(b, 4, 1);
    AtU16(b, 6, tableCount);
    AtU16(b, 8, indexCount);
    AtU16(b, 10, used);
  }

  /** Parsing the page of a catalog that fits gives back exactly its tables and indexes. */
  lemma CatalogReadsBack(tables: seq<TableMeta>, indexes: seq<IndexMeta>)
    requires CatalogFits(tables, indexes) && UsedBytes(tables, indexes) <= PAGE_SIZE
    ensures |CatalogBytes(tables, indexes)| == PAGE_SIZE
    ensures ParseCatalog(CatalogBytes(tables, indexes)) == Some((tables, indexes))
  {
    hide *;
    var b := CatalogBytes(tables, indexes);
    var used := UsedBytes(tables, indexes);
    CatalogParts(tables, indexes);
    CatalogFitsParts(tables, indexes);
    TablesReadBack(b, used, 16, tables, []);
    IndexesReadBack(b, used, 16 + |TablesBytes(tables)|, indexes, []);
    HeaderFields(b, |tables|, |indexes|, used);
    assert [] + tables == tables && [] + indexes == indexes;
    ParseCatalogIs(b, tables, indexes, used);
  }

  lemma CatalogFitsParts(tables: seq<TableMeta>, indexes: seq<IndexMeta>)
    requires CatalogFits(tables, indexes)
    ensures forall k: nat :: k < |tables| ==> TableFits(tables[k])
    ensures forall k: nat :: k < |indexes| ==> IndexFits(indexes[k])
    ensures UsedBytes(tables, indexes) == 16 + |TablesBytes(tables)| + |IndexesBytes(indexes)| && PAGE_SIZE == 4096
  {
    hide TableFits, IndexFits, TablesBytes, IndexesBytes;
  }

  lemma ParseCatalogIs(b: Bytes, tables: seq<TableMeta>, indexes: seq<IndexMeta>, used: nat)
    requires GetU32(b, 0) == CATALOG_MAGIC && GetU16(b, 4) == 1 && GetU16(b, 10) == used && 16 <= used <= PAGE_SIZE
    requires GetU16(b, 6) == |tables| && GetU16(b, 8) == |indexes|
    requires ParseTables(b, used, 16, |tables|, []) == Some((tables, 16 + |TablesBytes(tables)|))
    requires ParseIndexes(b, used, 16 + |TablesBytes(tables)|, |indexes|, []) == Some((indexes, used))
    ensures ParseCatalog(b) == Some((tables, indexes))
  {
    assert CATALOG_MAGIC != 0;
    hide GetU16, GetU32, ParseTables, ParseIndexes, TablesBytes;
  }

  lemma CatalogParts(tables: seq<TableMeta>, indexes: seq<IndexMeta>)
    requires UsedBytes(tables, indexes) <= PAGE_SIZE
    ensures var b := CatalogBytes(tables, indexes);
            && |b| == PAGE_SIZE && At(b, 0, HeaderBytes(|tables|, |indexes|, UsedBytes(tables, indexes)))
            && At(b, 16, TablesBytes(tables)) && At(b, 16 + |TablesBytes(tables)|, IndexesBytes(indexes))
  {
    hide *;
    var header, ts, xs := HeaderBytes(|tables|, |indexes|, UsedBytes(tables, indexes)), TablesBytes(tables), IndexesBytes(indexes);
    var b, rest := CatalogBytes(tables, indexes), Zeros(PAGE_SIZE - UsedBytes(tables, indexes));
    CatalogBytesAre(tables, indexes);
    WholeAt(b);
    AtSplit(b, 0, header + ts + xs, rest);
    AtSplit(b, 0, header + ts, xs);
    AtSplit(b, 0, header, ts);
  }

  lemma WholeAt(b: Bytes)
    ensures At(b, 0, b)
  {
    assert b[0..|b|] == b;
  }

  lemma CatalogBytesAre(tables: seq<TableMeta>, indexes: seq<IndexMeta>)
    requires UsedBytes(tables, indexes) <= PAGE_SIZE
    ensures var used := UsedBytes(tables, indexes);
            CatalogBytes(tables, indexes) == HeaderBytes(|tables|, |indexes|, used) + TablesBytes(tables) + IndexesBytes(indexes) + Zeros(PAGE_SIZE - used)
    ensures UsedBytes(tables, indexes) == 16 + |TablesBytes(tables)| + |IndexesBytes(indexes)|
  {
    hide HeaderBytes, TablesBytes, IndexesBytes;
  }
}
