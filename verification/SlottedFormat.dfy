// The layout of a slotted page: a header, a slot directory that grows upwards and
// records that are packed against the end of the page (docs/file_format.md, section 2).
module SlottedFormat {
  import opened Common
  import opened ByteFormat

  const SLOT_COUNT_OFFSET: nat := 4
  const FREE_POINTER_OFFSET: nat := 6
  const NEXT_PAGE_ID_OFFSET: nat := 8

  /** The records of a page by slot; a hole is a slot whose record was deleted. */
  type Slots = seq<Option<Bytes>>

  /** The header takes 16 bytes and every slot entry 4. */
  function DirectoryEnd(slotCount: nat): nat {
    16 + 4 * slotCount
  }

  function RecordSize(record: Option<Bytes>): nat {
    if record.Some? then |record.value| else 0
  }

  /** The bytes that the first `k` slots need. */
  function Used(slots: Slots, k: nat): nat
    requires k <= |slots|
  {
    if k == 0 then 0 else Used(slots, k - 1) + RecordSize(slots[k - 1])
  }

  function Total(slots: Slots): nat {
    Used(slots, |slots|)
  }

  /** One entry of the slot directory; (0, 0) marks a hole. */
  datatype Entry = Entry(offset: nat, length: nat) {
    predicate IsHole() {
      offset == 0 && length == 0
    }
  }

  /** The header and the slot directory of a page, decoded. */
  datatype Layout = Layout(pageId: int, nextPageId: int, freePointer: nat, directory: seq<Entry>)

  function SlotCount(b: Bytes): nat {
    GetU16(b, SLOT_COUNT_OFFSET)
  }

  function FreePointer(b: Bytes): nat {
    GetU16(b, FREE_POINTER_OFFSET)
  }

  function NextPageId(b: Bytes): int {
    GetI32(b, NEXT_PAGE_ID_OFFSET)
  }

  function StoredPageId(b: Bytes): int {
    GetI32(b, 0)
  }

  function EntryAt(b: Bytes, i: nat): Entry {
    Entry(GetU16(b, DirectoryEnd(i)), GetU16(b, DirectoryEnd(i) + 2))
  }

  predicate Initialized(b: Bytes, pageId: int) {
    && StoredPageId(b) == pageId
    && DirectoryEnd(SlotCount(b)) <= FreePointer(b) <= PAGE_SIZE
  }

  function Directory(b: Bytes): (directory: seq<Entry>)
    ensures |directory| == SlotCount(b)
    ensures forall i: nat :: i < SlotCount(b) ==> directory[i] == EntryAt(b, i)
  {
    seq(SlotCount(b), (i: nat) => EntryAt(b, i))
  }

  function LayoutOf(b: Bytes): Layout {
    Layout(StoredPageId(b), NextPageId(b), FreePointer(b), Directory(b))
  }

  /** The entry is a hole, or its record lies between the free pointer and the page end. */
  predicate EntryOk(entry: Entry, freePointer: nat) {
    entry.IsHole() || (0 < entry.length && freePointer <= entry.offset && entry.offset + entry.length <= PAGE_SIZE)
  }

  /** `order` lists the live slots, each once, from the page end down: every record
      ends where the one before it starts, and the last one starts at `bottom`. */
  ghost predicate Tiles(directory: seq<Entry>, order: seq<nat>, bottom: nat)
  {
    if order == [] then bottom == PAGE_SIZE
    else
      var last := order[|order| - 1];
      && last < |directory| && last !in order[..|order| - 1]
      && directory[last].length > 0 && directory[last].offset == bottom
      && Tiles(directory, order[..|order| - 1], bottom + directory[last].length)
  }

  ghost predicate PackedBy(directory: seq<Entry>, order: seq<nat>, freePointer: nat) {
    && Tiles(directory, order, freePointer)
    && (forall i: nat :: i in order ==> i < |directory| && !directory[i].IsHole())
    && (forall i: nat :: i < |directory| ==> directory[i].IsHole() || i in order)
  }

  ghost predicate Packed(directory: seq<Entry>, freePointer: nat) {
    exists order: seq<nat> :: PackedBy(directory, order, freePointer)
  }

  ghost predicate LayoutOk(layout: Layout) {
    var directory := layout.directory;
    && DirectoryEnd(|directory|) <= layout.freePointer <= PAGE_SIZE
    && (forall i: nat :: i < |directory| ==> EntryOk(directory[i], layout.freePointer))
    && (directory != [] ==> !directory[|directory| - 1].IsHole())
    && Packed(directory, layout.freePointer)
  }

  function RecordOf(b: Bytes, entry: Entry): Option<Bytes> {
    if !entry.IsHole() && entry.offset + entry.length <= |b|
      then Some(b[entry.offset..entry.offset + entry.length]) else None
  }

  function Records(b: Bytes, directory: seq<Entry>): (slots: Slots)
    ensures |slots| == |directory|
    ensures forall i: nat :: i < |slots| ==> slots[i] == RecordOf(b, directory[i])
  {
    seq(|directory|, i requires 0 <= i < |directory| => RecordOf(b, directory[i]))
  }

  function SlotsOf(b: Bytes): Slots {
    Records(b, Directory(b))
  }

  /** What every page of a heap file satisfies. */
  ghost predicate Ok(b: Bytes, pageId: int) {
    && |b| == PAGE_SIZE
    && Initialized(b, pageId)
    && LayoutOk(LayoutOf(b))
    && Total(SlotsOf(b)) == PAGE_SIZE - FreePointer(b)
  }

  // ---- What the operations do to the slots ----

  /** The first hole, or the number of slots if there is none. */
  function FirstHole(slots: Slots): (i: nat)
    ensures i <= |slots|
    ensures forall j: nat :: j < i ==> slots[j].Some?
    ensures i < |slots| ==> slots[i].None?
    decreases |slots|
  {
    if slots == [] then 0
    else
      var i := FirstHole(slots[..|slots| - 1]);
      if i < |slots| - 1 || slots[i].None? then i else |slots|
  }

  /** The slots once `data` is stored in slot `i`, which may be one past the last. */
  function WithRecord(slots: Slots, i: nat, data: Bytes): Slots {
    if i < |slots| then slots[i := Some(data)] else slots + [Some(data)]
  }

  function FreeSpace(slots: Slots): int {
    PAGE_SIZE - DirectoryEnd(|slots|) - Total(slots)
  }

  /** A record fits when its bytes do, plus a directory entry if no slot can be reused. */
  predicate Fits(slots: Slots, data: Bytes) {
    |data| + (if FirstHole(slots) < |slots| then 0 else 4) <= FreeSpace(slots)
  }

  /** Without the trailing holes. */
  function Trim(slots: Slots): (t: Slots)
    ensures t <= slots
    ensures t == [] || t[|t| - 1].Some?
    ensures forall i: nat :: |t| <= i < |slots| ==> slots[i].None?
    decreases |slots|
  {
    if slots != [] && slots[|slots| - 1].None? then Trim(slots[..|slots| - 1]) else slots
  }

  lemma {:induction false} UsedPrefix(a: Slots, b: Slots, k: nat)
    requires k <= |a| && k <= |b| && a[..k] == b[..k]
    ensures Used(a, k) == Used(b, k)
    decreases k
  {
    if k > 0 {
      assert a[k - 1] == a[..k][k - 1] == b[..k][k - 1] == b[k - 1];
      assert a[..k - 1] == a[..k][..k - 1] && b[..k - 1] == b[..k][..k - 1];
      UsedPrefix(a, b, k - 1);
    }
  }

  /** Changing one slot changes the used bytes by the difference of the two records. */
  lemma {:induction false} UsedUpdate(slots: Slots, i: nat, record: Option<Bytes>, k: nat)
    requires i < |slots| && k <= |slots|
    ensures Used(slots[i := record], k)
         == if k <= i then Used(slots, k) else Used(slots, k) - RecordSize(slots[i]) + RecordSize(record)
    decreases k
  {
    if k > 0 {
      UsedUpdate(slots, i, record, k - 1);
    }
  }

  lemma UsedAppend(slots: Slots, record: Option<Bytes>)
    ensures Total(slots + [record]) == Total(slots) + RecordSize(record)
  {
    UsedPrefix(slots + [record], slots, |slots|);
  }

  lemma {:induction false} UsedMonotone(slots: Slots, j: nat, k: nat)
    requires j <= k <= |slots|
    ensures Used(slots, j) <= Used(slots, k)
    decreases k
  {
    if j < k {
      UsedMonotone(slots, j, k - 1);
    }
  }

  lemma {:induction false} TrimTotal(slots: Slots)
    ensures Total(Trim(slots)) == Total(slots)
    decreases |slots|
  {
    if slots != [] && slots[|slots| - 1].None? {
      TrimTotal(slots[..|slots| - 1]);
      UsedPrefix(slots, slots[..|slots| - 1], |slots| - 1);
    }
  }

  lemma {:induction false} TilesFrame(d: seq<Entry>, e: seq<Entry>, order: seq<nat>, bottom: nat)
    requires Tiles(d, order, bottom)
    requires forall k: nat :: k < |order| && order[k] < |d| ==> order[k] < |e| && d[order[k]] == e[order[k]]
    ensures Tiles(e, order, bottom)
    decreases |order|
  {
    if order != [] {
      var last := order[|order| - 1];
      TilesFrame(d, e, order[..|order| - 1], bottom + d[last].length);
    }
  }

  // ---- Inserting ----

  /** The page after `data` has been stored from `start` on and entered in `slot`. */
  function Inserted(b: Bytes, slot: nat, start: nat, data: Bytes): (c: Bytes)
    ensures |c| == |b|
  {
    var b1 := Put(b, start, data);
    var b2 := Put(b1, DirectoryEnd(slot), U16(start));
    var b3 := Put(b2, DirectoryEnd(slot) + 2, U16(|data|));
    var b4 := if slot == SlotCount(b) then Put(b3, SLOT_COUNT_OFFSET, U16(slot + 1)) else b3;
    Put(b4, FREE_POINTER_OFFSET, U16(start))
  }

  /** The conditions under which the code gets as far as storing the record. */
  predicate CanInsert(b: Bytes, slot: nat, start: nat, data: Bytes) {
    && |b| == PAGE_SIZE && slot <= SlotCount(b)
    && start + |data| == FreePointer(b) <= PAGE_SIZE
    && DirectoryEnd(slot + 1) <= start && DirectoryEnd(SlotCount(b)) <= start
  }

  function WithEntry(directory: seq<Entry>, slot: nat, entry: Entry): seq<Entry> {
    if slot < |directory| then directory[slot := entry] else directory + [entry]
  }

  /** Outside the record, its directory entry, the slot count and the free pointer,
      an insertion changes no byte. */
  lemma InsertedElsewhere(b: Bytes, slot: nat, start: nat, data: Bytes, x: nat)
    requires CanInsert(b, slot, start, data)
    requires x < PAGE_SIZE && !(start <= x < start + |data|)
    requires !(DirectoryEnd(slot) <= x < DirectoryEnd(slot + 1)) && x != 6 && x != 7
    requires slot == SlotCount(b) ==> x != 4 && x != 5
    ensures Inserted(b, slot, start, data)[x] == b[x]
  {
    var d := DirectoryEnd(slot);
    var b1 := Put(b, start, data);
    var b2 := Put(b1, d, U16(start));
    var b3 := Put(b2, d + 2, U16(|data|));
    var b4 := if slot == SlotCount(b) then Put(b3, SLOT_COUNT_OFFSET, U16(slot + 1)) else b3;
    assert Inserted(b, slot, start, data) == Put(b4, FREE_POINTER_OFFSET, U16(start));
    hide U16, GetU16, Put, Inserted;
    PutAt(b, start, data, x);
    PutAt(b1, d, U16(start), x);
    PutAt(b2, d + 2, U16(|data|), x);
    PutAt(b3, SLOT_COUNT_OFFSET, U16(slot + 1), x);
    PutAt(b4, FREE_POINTER_OFFSET, U16(start), x);
  }

  lemma InsertedHeader(b: Bytes, slot: nat, start: nat, data: Bytes)
    requires CanInsert(b, slot, start, data)
    ensures StoredPageId(Inserted(b, slot, start, data)) == StoredPageId(b)
    ensures NextPageId(Inserted(b, slot, start, data)) == NextPageId(b)
    ensures FreePointer(Inserted(b, slot, start, data)) == start
  {
    var c := Inserted(b, slot, start, data);
    forall x: nat | x < 4 || 8 <= x < 16 ensures c[x] == b[x] { InsertedElsewhere(b, slot, start, data, x); }
    SameI32(c, b, 0);
    SameI32(c, b, NEXT_PAGE_ID_OFFSET);
    var b3 := Put(Put(Put(b, start, data), DirectoryEnd(slot), U16(start)), DirectoryEnd(slot) + 2, U16(|data|));
    GetPutU16(if slot == SlotCount(b) then Put(b3, SLOT_COUNT_OFFSET, U16(slot + 1)) else b3, FREE_POINTER_OFFSET, start);
  }

  lemma InsertedCount(b: Bytes, slot: nat, start: nat, data: Bytes)
    requires CanInsert(b, slot, start, data)
    ensures SlotCount(Inserted(b, slot, start, data)) == if slot == SlotCount(b) then slot + 1 else SlotCount(b)
  {
    var c := Inserted(b, slot, start, data);
    if slot == SlotCount(b) {
      var b3 := Put(Put(Put(b, start, data), DirectoryEnd(slot), U16(start)), DirectoryEnd(slot) + 2, U16(|data|));
      GetPutU16(b3, SLOT_COUNT_OFFSET, slot + 1);
      SameU16(c, Put(b3, SLOT_COUNT_OFFSET, U16(slot + 1)), SLOT_COUNT_OFFSET);
    } else {
      InsertedElsewhere(b, slot, start, data, 4);
      InsertedElsewhere(b, slot, start, data, 5);
      SameU16(c, b, SLOT_COUNT_OFFSET);
    }
  }

  lemma InsertedEntry(b: Bytes, slot: nat, start: nat, data: Bytes)
    requires CanInsert(b, slot, start, data)
    ensures EntryAt(Inserted(b, slot, start, data), slot) == Entry(start, |data|)
  {
    var c := Inserted(b, slot, start, data);
    var b1 := Put(b, start, data);
    var b2 := Put(b1, DirectoryEnd(slot), U16(start));
    var b3 := Put(b2, DirectoryEnd(slot) + 2, U16(|data|));
    var d := DirectoryEnd(slot);
    GetPutU16(b1, d, start);
    GetPutU16(b2, d + 2, |data|);
    var b4 := if slot == SlotCount(b) then Put(b3, SLOT_COUNT_OFFSET, U16(slot + 1)) else b3;
    assert c == Put(b4, FREE_POINTER_OFFSET, U16(start)) && 16 <= d && d + 4 <= PAGE_SIZE == |b|;
    hide GetU16, U16, Put, Inserted, CanInsert, DirectoryEnd;
    forall x: nat | d <= x < d + 4 ensures c[x] == b3[x] && (x < d + 2 ==> b3[x] == b2[x]) {
      PutAt(b3, SLOT_COUNT_OFFSET, U16(slot + 1), x);
      PutAt(b4, FREE_POINTER_OFFSET, U16(start), x);
      PutAt(b2, d + 2, U16(|data|), x);
    }
    SameU16(c, b2, d);
    SameU16(c, b3, d + 2);
  }

  lemma InsertedOtherEntry(b: Bytes, slot: nat, start: nat, data: Bytes, i: nat)
    requires CanInsert(b, slot, start, data) && i < SlotCount(b) && i != slot
    ensures EntryAt(Inserted(b, slot, start, data), i) == EntryAt(b, i)
  {
    var c := Inserted(b, slot, start, data);
    forall x: nat | DirectoryEnd(i) <= x < DirectoryEnd(i + 1) ensures c[x] == b[x] {
      InsertedElsewhere(b, slot, start, data, x);
    }
    hide GetU16, Inserted;
    SameU16(c, b, DirectoryEnd(i));
    SameU16(c, b, DirectoryEnd(i) + 2);
  }

  lemma InsertedBody(b: Bytes, slot: nat, start: nat, data: Bytes, x: nat)
    requires CanInsert(b, slot, start, data) && x < |data|
    ensures Inserted(b, slot, start, data)[start + x] == data[x]
  {
  }

  /** The record area after an insertion: the new record, then the old area. */
  lemma InsertedArea(b: Bytes, slot: nat, start: nat, data: Bytes)
    requires CanInsert(b, slot, start, data)
    ensures Inserted(b, slot, start, data)[start..start + |data|] == data
    ensures forall x: nat :: start + |data| <= x < PAGE_SIZE ==> Inserted(b, slot, start, data)[x] == b[x]
  {
    var c := Inserted(b, slot, start, data);
    forall x: nat | start + |data| <= x < PAGE_SIZE ensures c[x] == b[x] { InsertedElsewhere(b, slot, start, data, x); }
    hide GetU16, Inserted;
    forall x: nat | x < |data| ensures c[start..start + |data|][x] == data[x] { InsertedBody(b, slot, start, data, x); }
  }

  lemma InsertedDirectory(b: Bytes, slot: nat, start: nat, data: Bytes)
    requires CanInsert(b, slot, start, data)
    ensures Directory(Inserted(b, slot, start, data)) == WithEntry(Directory(b), slot, Entry(start, |data|))
  {
    InsertedCount(b, slot, start, data);
    InsertedEntry(b, slot, start, data);
    hide Inserted, EntryAt, Directory;
    forall i: nat | i < SlotCount(b) && i != slot ensures EntryAt(Inserted(b, slot, start, data), i) == EntryAt(b, i) {
      InsertedOtherEntry(b, slot, start, data, i);
    }
  }

  /** An insertion, seen in the header and the directory. */
  lemma InsertedLayout(b: Bytes, slot: nat, start: nat, data: Bytes)
    requires CanInsert(b, slot, start, data)
    ensures LayoutOf(Inserted(b, slot, start, data))
         == LayoutOf(b).(freePointer := start, directory := WithEntry(Directory(b), slot, Entry(start, |data|)))
  {
    InsertedHeader(b, slot, start, data);
    InsertedDirectory(b, slot, start, data);
    hide Inserted, Directory;
  }

  /** A record in the old record area is still there after an insertion. */
  lemma RecordStays(b: Bytes, c: Bytes, top: nat, entry: Entry)
    requires top <= |b| == |c| == PAGE_SIZE && EntryOk(entry, top)
    requires forall x: nat :: top <= x < PAGE_SIZE ==> c[x] == b[x]
    ensures RecordOf(c, entry) == RecordOf(b, entry)
  {
    if !entry.IsHole() {
      assert c[entry.offset..entry.offset + entry.length] == b[entry.offset..entry.offset + entry.length];
    }
  }

  lemma InsertedSlots(b: Bytes, c: Bytes, directory: seq<Entry>, slot: nat, start: nat, data: Bytes)
    requires start + |data| <= |b| == |c| == PAGE_SIZE && c[start..start + |data|] == data
    requires forall x: nat :: start + |data| <= x < PAGE_SIZE ==> c[x] == b[x]
    requires slot <= |directory| && 0 < |data|
    requires forall i: nat :: i < |directory| ==> EntryOk(directory[i], start + |data|)
    ensures Records(c, WithEntry(directory, slot, Entry(start, |data|))) == WithRecord(Records(b, directory), slot, data)
  {
    forall i: nat | i < |directory| && i != slot ensures RecordOf(c, directory[i]) == RecordOf(b, directory[i]) {
      RecordStays(b, c, start + |data|, directory[i]);
    }
  }

  lemma TilesExtend(directory: seq<Entry>, order: seq<nat>, last: nat, bottom: nat)
    requires last < |directory| && last !in order
    requires directory[last].length > 0 && directory[last].offset == bottom
    requires Tiles(directory, order, bottom + directory[last].length)
    ensures Tiles(directory, order + [last], bottom)
  {
    assert (order + [last])[..|order|] == order;
  }

  lemma InsertedTiles(directory: seq<Entry>, after: seq<Entry>, order: seq<nat>, slot: nat, start: nat, size: nat)
    requires PackedBy(directory, order, start + size) && 0 < size
    requires slot <= |directory| && (slot < |directory| ==> directory[slot].IsHole())
    requires after == WithEntry(directory, slot, Entry(start, size))
    ensures PackedBy(after, order + [slot], start)
  {
    forall k: nat | k < |order| ensures order[k] < |directory| && order[k] != slot {
      assert order[k] in order;
    }
    TilesFrame(directory, after, order, start + size);
    hide Tiles;
    TilesExtend(after, order, slot, start);
    assert forall i: nat :: i in order + [slot] <==> i in order || i == slot;
  }

  lemma InsertedPacked(directory: seq<Entry>, slot: nat, start: nat, size: nat)
    requires Packed(directory, start + size) && 0 < size
    requires slot <= |directory| && (slot < |directory| ==> directory[slot].IsHole())
    ensures Packed(WithEntry(directory, slot, Entry(start, size)), start)
  {
    var order: seq<nat> :| PackedBy(directory, order, start + size);
    hide PackedBy;
    InsertedTiles(directory, WithEntry(directory, slot, Entry(start, size)), order, slot, start, size);
  }

  lemma TotalWithRecord(slots: Slots, slot: nat, data: Bytes)
    requires slot <= |slots| && (slot < |slots| ==> slots[slot].None?)
    ensures Total(WithRecord(slots, slot, data)) == Total(slots) + |data|
  {
    if slot < |slots| {
      UsedUpdate(slots, slot, Some(data), |slots|);
    } else {
      UsedAppend(slots, Some(data));
    }
  }

  lemma InsertedLayoutOk(layout: Layout, slot: nat, start: nat, size: nat)
    requires LayoutOk(layout) && 0 < size && start + size == layout.freePointer
    requires slot <= |layout.directory| && (slot < |layout.directory| ==> layout.directory[slot].IsHole())
    requires DirectoryEnd(|WithEntry(layout.directory, slot, Entry(start, size))|) <= start
    ensures LayoutOk(layout.(freePointer := start, directory := WithEntry(layout.directory, slot, Entry(start, size))))
  {
    InsertedPacked(layout.directory, slot, start, size);
    hide Packed;
  }

  lemma OkParts(b: Bytes, pageId: int)
    requires Ok(b, pageId)
    ensures |b| == PAGE_SIZE && StoredPageId(b) == pageId && LayoutOk(LayoutOf(b))
    ensures DirectoryEnd(SlotCount(b)) <= FreePointer(b) <= PAGE_SIZE
    ensures Total(SlotsOf(b)) == PAGE_SIZE - FreePointer(b)
    ensures |SlotsOf(b)| == SlotCount(b) == |Directory(b)| && SlotsOf(b) == Records(b, Directory(b))
    ensures LayoutOf(b) == Layout(pageId, NextPageId(b), FreePointer(b), Directory(b))
    ensures forall i: nat :: i < SlotCount(b) ==> EntryOk(Directory(b)[i], FreePointer(b))
    ensures forall i: nat :: i < SlotCount(b) ==> (SlotsOf(b)[i].None? <==> Directory(b)[i].IsHole())
    ensures FreeSpace(SlotsOf(b)) == FreePointer(b) - DirectoryEnd(SlotCount(b))
  {
    hide GetU16, GetI32, EntryAt, Packed, Used;
  }

  lemma MakeOk(b: Bytes, pageId: int, layout: Layout)
    requires |b| == PAGE_SIZE && LayoutOf(b) == layout && layout.pageId == pageId && LayoutOk(layout)
    requires Total(Records(b, layout.directory)) == PAGE_SIZE - layout.freePointer
    ensures Ok(b, pageId) && SlotsOf(b) == Records(b, layout.directory) && NextPageId(b) == layout.nextPageId
  {
    hide GetU16, GetI32, EntryAt, Packed, Used, Records;
  }

  /** A record that fits is stored in the first hole or a new slot; nothing else about
      the records changes, and the page stays packed. */
  lemma InsertKeepsOk(b: Bytes, pageId: int, start: nat, data: Bytes)
    requires Ok(b, pageId) && 0 < |data| && Fits(SlotsOf(b), data) && start + |data| == FreePointer(b)
    ensures CanInsert(b, FirstHole(SlotsOf(b)), start, data)
    ensures Ok(Inserted(b, FirstHole(SlotsOf(b)), start, data), pageId)
    ensures SlotsOf(Inserted(b, FirstHole(SlotsOf(b)), start, data)) == WithRecord(SlotsOf(b), FirstHole(SlotsOf(b)), data)
    ensures NextPageId(Inserted(b, FirstHole(SlotsOf(b)), start, data)) == NextPageId(b)
  {
    var slots := SlotsOf(b);
    var slot := FirstHole(slots);
    OkParts(b, pageId);
    InsertFits(b, slots, slot, start, data);
    hide *;
    var c := Inserted(b, slot, start, data);
    InsertedLayout(b, slot, start, data);
    InsertedArea(b, slot, start, data);
    InsertedSlots(b, c, Directory(b), slot, start, data);
    TotalWithRecord(slots, slot, data);
    InsertedLayoutOk(LayoutOf(b), slot, start, |data|);
    MakeOk(c, pageId, LayoutOf(c));
  }

  lemma InsertFits(b: Bytes, slots: Slots, slot: nat, start: nat, data: Bytes)
    requires |b| == PAGE_SIZE && slots == SlotsOf(b) && slot == FirstHole(slots) && Fits(slots, data)
    requires FreeSpace(slots) == FreePointer(b) - DirectoryEnd(SlotCount(b)) && start + |data| == FreePointer(b) <= PAGE_SIZE
    ensures CanInsert(b, slot, start, data)
    ensures DirectoryEnd(|WithEntry(Directory(b), slot, Entry(start, |data|))|) <= start
  {
    hide Used, GetU16, EntryAt;
  }

  // ---- Rewriting ----

  /** Where the record of slot `k - 1` starts once the records are packed in slot order. */
  function Top(slots: Slots, k: nat): int
    requires k <= |slots|
  {
    PAGE_SIZE - Used(slots, k)
  }

  function PackedEntry(slots: Slots, i: nat): Entry
    requires i < |slots|
  {
    if slots[i].None? || Top(slots, i + 1) < 0 then Entry(0, 0) else Entry(Top(slots, i + 1), |slots[i].value|)
  }

  function PackedDirectory(slots: Slots): (directory: seq<Entry>)
    ensures |directory| == |slots|
    ensures forall i: nat :: i < |slots| ==> directory[i] == PackedEntry(slots, i)
  {
    seq(|slots|, i requires 0 <= i < |slots| => PackedEntry(slots, i))
  }

  /** Slots that can be written to a page: together they fit and no record is empty. */
  ghost predicate CanLayOut(slots: Slots) {
    && DirectoryEnd(|slots|) + Total(slots) <= PAGE_SIZE
    && (forall i: nat :: i < |slots| && slots[i].Some? ==> slots[i].value != [])
  }

  /** ... and do not end in a hole. */
  ghost predicate CanRewrite(slots: Slots) {
    CanLayOut(slots) && (slots != [] ==> slots[|slots| - 1].Some?)
  }

  ghost predicate SlotLaid(b: Bytes, slots: Slots, i: nat)
    requires i < |slots|
  {
    EntryAt(b, i) == PackedEntry(slots, i) && RecordOf(b, PackedEntry(slots, i)) == slots[i]
  }

  /** The first `k` slots have been written to the page `b`. */
  ghost predicate LaidOut(b: Bytes, slots: Slots, k: nat)
    requires k <= |slots|
  {
    forall i: nat :: i < k ==> SlotLaid(b, slots, i)
  }

  /** The page after the record `data` has been stored at `start` for slot `i`. */
  function Placed(b: Bytes, i: nat, start: nat, data: Bytes): (c: Bytes)
    ensures |c| == |b|
  {
    Put(Put(Put(b, start, data), DirectoryEnd(i), U16(start)), DirectoryEnd(i) + 2, U16(|data|))
  }

  lemma PlacedElsewhere(b: Bytes, i: nat, start: nat, data: Bytes, x: nat)
    requires |b| == PAGE_SIZE && DirectoryEnd(i + 1) <= PAGE_SIZE && start + |data| <= PAGE_SIZE
    requires x < PAGE_SIZE && !(start <= x < start + |data|) && !(DirectoryEnd(i) <= x < DirectoryEnd(i + 1))
    ensures Placed(b, i, start, data)[x] == b[x]
  {
  }

  lemma PlacedEntry(b: Bytes, i: nat, start: nat, data: Bytes)
    requires |b| == PAGE_SIZE && DirectoryEnd(i + 1) <= PAGE_SIZE
    requires start + |data| <= PAGE_SIZE && (DirectoryEnd(i + 1) <= start || data == [])
    ensures EntryAt(Placed(b, i, start, data), i) == Entry(start, |data|)
    ensures Placed(b, i, start, data)[start..start + |data|] == data
  {
    var b1 := Put(b, start, data);
    var b2 := Put(b1, DirectoryEnd(i), U16(start));
    GetPutU16(b1, DirectoryEnd(i), start);
    GetPutU16(b2, DirectoryEnd(i) + 2, |data|);
    hide GetU16, U16;
    SameU16(Placed(b, i, start, data), b2, DirectoryEnd(i));
    hide Placed;
    forall x: nat | x < |data| ensures Placed(b, i, start, data)[start + x] == data[x] {
      PlacedBody(b, i, start, data, x);
    }
  }

  lemma PlacedBody(b: Bytes, i: nat, start: nat, data: Bytes, x: nat)
    requires |b| == PAGE_SIZE && DirectoryEnd(i + 1) <= PAGE_SIZE && x < |data|
    requires start + |data| <= PAGE_SIZE && DirectoryEnd(i + 1) <= start
    ensures Placed(b, i, start, data)[start + x] == data[x]
  {
  }

  /** Placing the record of slot `i` below `top` leaves the header, the other entries
      and everything from `top` on alone. */
  lemma PlacedOthers(b: Bytes, i: nat, start: nat, data: Bytes)
    requires |b| == PAGE_SIZE && DirectoryEnd(i + 1) <= PAGE_SIZE
    requires start + |data| <= PAGE_SIZE
    ensures forall x: nat :: start + |data| <= x < PAGE_SIZE && DirectoryEnd(i + 1) <= x ==> Placed(b, i, start, data)[x] == b[x]
    ensures data == [] || 16 <= start ==>
              && StoredPageId(Placed(b, i, start, data)) == StoredPageId(b)
              && NextPageId(Placed(b, i, start, data)) == NextPageId(b)
              && SlotCount(Placed(b, i, start, data)) == SlotCount(b)
  {
    var c := Placed(b, i, start, data);
    forall x: nat | start + |data| <= x < PAGE_SIZE && DirectoryEnd(i + 1) <= x ensures c[x] == b[x] {
      PlacedElsewhere(b, i, start, data, x);
    }
    if data == [] || 16 <= start {
      forall x: nat | x < 16 ensures c[x] == b[x] { PlacedElsewhere(b, i, start, data, x); }
      hide Placed, GetU16, GetI32;
      SameI32(c, b, 0);
      SameI32(c, b, NEXT_PAGE_ID_OFFSET);
      SameU16(c, b, SLOT_COUNT_OFFSET);
    }
  }

  lemma PlacedOtherEntry(b: Bytes, i: nat, start: nat, data: Bytes, j: nat)
    requires |b| == PAGE_SIZE && DirectoryEnd(i + 1) <= PAGE_SIZE && start + |data| <= PAGE_SIZE
    requires j < i && (DirectoryEnd(i + 1) <= start || data == [])
    ensures EntryAt(Placed(b, i, start, data), j) == EntryAt(b, j)
  {
    var c := Placed(b, i, start, data);
    forall x: nat | DirectoryEnd(j) <= x < DirectoryEnd(j + 1) ensures c[x] == b[x] {
      PlacedElsewhere(b, i, start, data, x);
    }
    hide GetU16, Placed;
    SameU16(c, b, DirectoryEnd(j));
    SameU16(c, b, DirectoryEnd(j) + 2);
  }

  /** What is placed for slot `i`: its record, or the entry (0, 0) for a hole. */
  function Start(slots: Slots, i: nat): nat
    requires i < |slots|
  {
    PackedEntry(slots, i).offset
  }

  function Body(slots: Slots, i: nat): Bytes
    requires i < |slots|
  {
    if slots[i].Some? then slots[i].value else []
  }

  lemma PackedBounds(slots: Slots, i: nat, j: nat)
    requires CanLayOut(slots) && j <= i < |slots|
    ensures DirectoryEnd(i + 1) <= DirectoryEnd(|slots|) <= Top(slots, i + 1) <= Top(slots, j) <= PAGE_SIZE
    ensures Top(slots, i + 1) == Top(slots, i) - |Body(slots, i)|
    ensures slots[i].Some? ==> PackedEntry(slots, i) == Entry(Top(slots, i + 1), |slots[i].value|) && slots[i].value != []
    ensures slots[i].None? ==> PackedEntry(slots, i) == Entry(0, 0)
  {
    UsedMonotone(slots, j, i + 1);
    UsedMonotone(slots, i + 1, |slots|);
  }

  lemma PackedEntryOk(slots: Slots, j: nat, i: nat)
    requires CanLayOut(slots) && j < i <= |slots|
    ensures 16 <= DirectoryEnd(|slots|) <= Top(slots, i) <= PAGE_SIZE
    ensures EntryOk(PackedEntry(slots, j), Top(slots, i))
  {
    PackedBounds(slots, j, j);
    UsedMonotone(slots, j + 1, i);
    UsedMonotone(slots, i, |slots|);
  }

  lemma PlacedRecordStays(b: Bytes, slots: Slots, i: nat, j: nat)
    requires |b| == PAGE_SIZE && CanLayOut(slots) && j < i < |slots|
    ensures RecordOf(Placed(b, i, Start(slots, i), Body(slots, i)), PackedEntry(slots, j)) == RecordOf(b, PackedEntry(slots, j))
  {
    PackedBounds(slots, i, i);
    PackedEntryOk(slots, j, i);
    assert Start(slots, i) == PackedEntry(slots, i).offset;
    assert slots[i].None? ==> Body(slots, i) == [];
    var top := Top(slots, i);
    hide *;
    PlacedOthers(b, i, Start(slots, i), Body(slots, i));
    RecordStays(b, Placed(b, i, Start(slots, i), Body(slots, i)), top, PackedEntry(slots, j));
  }

  lemma LaidStays(b: Bytes, slots: Slots, i: nat, j: nat)
    requires |b| == PAGE_SIZE && CanLayOut(slots) && j < i < |slots| && SlotLaid(b, slots, j)
    ensures SlotLaid(Placed(b, i, Start(slots, i), Body(slots, i)), slots, j)
  {
    PackedBounds(slots, i, i);
    PlacedRecordStays(b, slots, i, j);
    assert slots[i].None? ==> Body(slots, i) == [];
    assert Start(slots, i) == PackedEntry(slots, i).offset;
    hide Placed, EntryAt, PackedEntry, Start, Body, Used;
    PlacedOtherEntry(b, i, Start(slots, i), Body(slots, i), j);
  }

  /** Writing the next slot of a rewrite. */
  lemma LayOne(b: Bytes, slots: Slots, i: nat)
    requires |b| == PAGE_SIZE && CanLayOut(slots) && i < |slots| && LaidOut(b, slots, i)
    ensures LaidOut(Placed(b, i, Start(slots, i), Body(slots, i)), slots, i + 1)
  {
    var c := Placed(b, i, Start(slots, i), Body(slots, i));
    PackedBounds(slots, i, i);
    PlacedEntry(b, i, Start(slots, i), Body(slots, i));
    hide Placed, EntryAt, Used, CanLayOut;
    assert SlotLaid(c, slots, i);
    hide SlotLaid;
    forall j: nat | j < i ensures SlotLaid(c, slots, j) {
      LaidStays(b, slots, i, j);
    }
  }

  /** The live ones among the first `k` slots, in slot order. */
  ghost function LiveSlots(slots: Slots, k: nat): seq<nat>
    requires k <= |slots|
  {
    if k == 0 then [] else if slots[k - 1].Some? then LiveSlots(slots, k - 1) + [k - 1] else LiveSlots(slots, k - 1)
  }

  lemma {:induction false} LiveSlotsMembers(slots: Slots, k: nat)
    requires k <= |slots|
    ensures forall i: nat :: i in LiveSlots(slots, k) <==> i < k && slots[i].Some?
    decreases k
  {
    if k > 0 {
      LiveSlotsMembers(slots, k - 1);
    }
  }

  lemma LiveSlotsStep(slots: Slots, k: nat)
    requires k < |slots|
    ensures LiveSlots(slots, k + 1) == if slots[k].Some? then LiveSlots(slots, k) + [k] else LiveSlots(slots, k)
    ensures slots[k].None? ==> Top(slots, k + 1) == Top(slots, k)
  {
  }

  lemma PackedEntryAt(slots: Slots, k: nat)
    requires CanLayOut(slots) && k < |slots|
    ensures PackedDirectory(slots)[k] == PackedEntry(slots, k) && Top(slots, k + 1) >= 0
    ensures slots[k].Some? ==>
              PackedEntry(slots, k).offset == Top(slots, k + 1) && PackedEntry(slots, k).length > 0
              && Top(slots, k) == Top(slots, k + 1) + PackedEntry(slots, k).length
  {
    PackedBounds(slots, k, k);
    hide PackedEntry, Top, CanLayOut;
  }

  lemma NothingTiled(slots: Slots, directory: seq<Entry>)
    ensures Top(slots, 0) >= 0 && Tiles(directory, LiveSlots(slots, 0), Top(slots, 0))
  {
  }

  lemma {:induction false} PackedTiles(slots: Slots, directory: seq<Entry>, k: nat)
    requires CanLayOut(slots) && k <= |slots| && directory == PackedDirectory(slots)
    ensures Top(slots, k) >= 0 && Tiles(directory, LiveSlots(slots, k), Top(slots, k))
    decreases k
  {
    hide *;
    if k == 0 {
      NothingTiled(slots, directory);
    } else {
      PackedTiles(slots, directory, k - 1);
      PackedEntryAt(slots, k - 1);
      LiveSlotsMembers(slots, k - 1);
      LiveSlotsStep(slots, k - 1);
      if slots[k - 1].Some? {
        TilesExtend(directory, LiveSlots(slots, k - 1), k - 1, Top(slots, k));
      }
    }
  }

  lemma RewriteStart(b: Bytes, n: nat)
    requires |b| == PAGE_SIZE && n < 0x1_0000
    ensures var c := Put(Put(b, 16, Zeros(PAGE_SIZE - 16)), SLOT_COUNT_OFFSET, U16(n));
            StoredPageId(c) == StoredPageId(b) && NextPageId(c) == NextPageId(b) && SlotCount(c) == n
  {
    var b1 := Put(b, 16, Zeros(PAGE_SIZE - 16));
    var c := Put(b1, SLOT_COUNT_OFFSET, U16(n));
    GetPutU16(b1, SLOT_COUNT_OFFSET, n);
    hide GetU16, GetI32, U16;
    SameI32(c, b, 0);
    SameI32(c, b, NEXT_PAGE_ID_OFFSET);
  }

  /** The header survives the placing of a record. */
  lemma LayHeader(b: Bytes, slots: Slots, i: nat)
    requires |b| == PAGE_SIZE && CanLayOut(slots) && i < |slots|
    ensures var c := Placed(b, i, Start(slots, i), Body(slots, i));
            StoredPageId(c) == StoredPageId(b) && NextPageId(c) == NextPageId(b) && SlotCount(c) == SlotCount(b)
  {
    PackedBounds(slots, i, i);
    assert Start(slots, i) == PackedEntry(slots, i).offset;
    assert slots[i].None? ==> Body(slots, i) == [];
    assert slots[i].Some? ==> Body(slots, i) == slots[i].value && 16 <= DirectoryEnd(i + 1);
    assert Start(slots, i) + |Body(slots, i)| <= PAGE_SIZE && DirectoryEnd(i + 1) <= PAGE_SIZE;
    hide *;
    PlacedOthers(b, i, Start(slots, i), Body(slots, i));
  }

  /** `c` is page `b` with its records replaced by `slots`, packed. */
  ghost predicate Rewritten(b: Bytes, c: Bytes, slots: Slots) {
    && |c| == PAGE_SIZE && CanLayOut(slots) && LaidOut(c, slots, |slots|)
    && StoredPageId(c) == StoredPageId(b) && NextPageId(c) == NextPageId(b)
    && SlotCount(c) == |slots| && FreePointer(c) == Top(slots, |slots|)
  }

  lemma PackedLayoutOk(slots: Slots, pageId: int, nextPageId: int)
    requires CanRewrite(slots)
    ensures Top(slots, |slots|) >= 0
    ensures LayoutOk(Layout(pageId, nextPageId, Top(slots, |slots|), PackedDirectory(slots)))
  {
    PackedTiles(slots, PackedDirectory(slots), |slots|);
    LiveSlotsMembers(slots, |slots|);
    forall i: nat | i < |slots|
      ensures EntryOk(PackedDirectory(slots)[i], Top(slots, |slots|))
      ensures slots[i].None? <==> PackedDirectory(slots)[i].IsHole()
    {
      PackedEntryOk(slots, i, |slots|);
      PackedBounds(slots, i, i);
    }
    assert PackedBy(PackedDirectory(slots), LiveSlots(slots, |slots|), Top(slots, |slots|));
    hide Tiles;
  }

  /** A completed rewrite: the records are exactly `slots`, packed in slot order. */
  lemma RewriteIsOk(b: Bytes, pageId: int, slots: Slots)
    requires |b| == PAGE_SIZE && CanRewrite(slots) && LaidOut(b, slots, |slots|)
    requires StoredPageId(b) == pageId && SlotCount(b) == |slots| && FreePointer(b) == Top(slots, |slots|)
    ensures Ok(b, pageId) && SlotsOf(b) == slots
  {
    PackedLayoutOk(slots, pageId, NextPageId(b));
    forall i: nat | i < |slots|
      ensures Directory(b)[i] == PackedEntry(slots, i) && RecordOf(b, PackedEntry(slots, i)) == slots[i]
    {
      assert SlotLaid(b, slots, i);
    }
    assert Directory(b) == PackedDirectory(slots);
    assert Records(b, PackedDirectory(slots)) == slots;
    var layout := LayoutOf(b);
    assert layout == Layout(pageId, NextPageId(b), Top(slots, |slots|), PackedDirectory(slots));
    assert Total(slots) == PAGE_SIZE - Top(slots, |slots|);
    hide *;
    MakeOk(b, pageId, layout);
  }

  /** Storing the free pointer is the last step of a rewrite. */
  lemma FreePointerStep(b: Bytes, slots: Slots, v: nat)
    requires |b| == PAGE_SIZE && v <= PAGE_SIZE && CanLayOut(slots) && LaidOut(b, slots, |slots|)
    ensures var c := Put(b, FREE_POINTER_OFFSET, U16(v));
            && FreePointer(c) == v && StoredPageId(c) == StoredPageId(b)
            && NextPageId(c) == NextPageId(b) && SlotCount(c) == SlotCount(b)
            && LaidOut(c, slots, |slots|)
  {
    var c := Put(b, FREE_POINTER_OFFSET, U16(v));
    GetPutU16(b, FREE_POINTER_OFFSET, v);
    hide U16, GetU16, GetI32;
    SameI32(c, b, 0);
    SameI32(c, b, NEXT_PAGE_ID_OFFSET);
    SameU16(c, b, SLOT_COUNT_OFFSET);
    forall i: nat | i < |slots|
      ensures SlotLaid(c, slots, i)
    {
      assert SlotLaid(b, slots, i);
      SameU16(c, b, DirectoryEnd(i));
      SameU16(c, b, DirectoryEnd(i) + 2);
      PackedEntryOk(slots, i, |slots|);
      RecordStays(b, c, Top(slots, |slots|), PackedEntry(slots, i));
    }
    hide SlotLaid;
  }

  // ---- What a client can rely on ----

  function InsertStatus(slots: Slots, data: Bytes): StatusCode {
    if data == [] || |data| > PAGE_SIZE then INVALID_ARGUMENT
    else if Fits(slots, data) then OK
    else OUT_OF_MEMORY
  }

  predicate Live(slots: Slots, i: nat) {
    i < |slots| && slots[i].Some?
  }

  function UpdateStatus(slots: Slots, i: nat, data: Bytes): StatusCode {
    if data == [] || |data| > PAGE_SIZE then INVALID_ARGUMENT
    else if !Live(slots, i) then NOT_FOUND
    else if |data| <= FreeSpace(slots) + |slots[i].value| then OK
    else OUT_OF_MEMORY
  }

  function DeleteStatus(slots: Slots, i: nat): StatusCode {
    if Live(slots, i) then OK else NOT_FOUND
  }

  /** The records of a well-formed page fit in it, and can be written back. */
  lemma OkSlots(b: Bytes, pageId: int)
    requires Ok(b, pageId)
    ensures CanRewrite(SlotsOf(b)) && FreeSpace(SlotsOf(b)) >= 0
  {
    OkParts(b, pageId);
    var slots := SlotsOf(b);
    forall i: nat | i < |slots| && slots[i].Some? ensures slots[i].value != [] {
      assert slots[i] == RecordOf(b, Directory(b)[i]);
    }
    assert slots != [] ==> !Directory(b)[|slots| - 1].IsHole();
    hide Used, GetU16;
  }

  lemma UpdateCanRewrite(slots: Slots, i: nat, data: Bytes)
    requires CanRewrite(slots) && Live(slots, i) && data != []
    ensures CanRewrite(slots[i := Some(data)]) <==> |data| <= FreeSpace(slots) + |slots[i].value|
    ensures DirectoryEnd(|slots|) + Total(slots[i := Some(data)]) == PAGE_SIZE - FreeSpace(slots) - |slots[i].value| + |data|
  {
    UsedUpdate(slots, i, Some(data), |slots|);
    hide Used;
  }

  lemma DeleteCanRewrite(slots: Slots, i: nat)
    requires CanRewrite(slots) && Live(slots, i)
    ensures CanRewrite(Trim(slots[i := None]))
    ensures FreeSpace(Trim(slots[i := None]))
         == FreeSpace(slots) + |slots[i].value| + 4 * (|slots| - |Trim(slots[i := None])|)
  {
    UsedUpdate(slots, i, None, |slots|);
    TrimTotal(slots[i := None]);
    hide Used, Trim;
  }

  lemma FirstHoleIs(b: Bytes, pageId: int, slot: nat)
    requires Ok(b, pageId) && slot <= SlotCount(b)
    requires forall i: nat :: i < slot ==> !EntryAt(b, i).IsHole()
    requires slot < SlotCount(b) ==> EntryAt(b, slot).IsHole()
    ensures FirstHole(SlotsOf(b)) == slot
  {
    OkParts(b, pageId);
    hide Ok, EntryAt, SlotsOf;
  }

  /** What inserting `data` in page `b` must do: leave it alone unless the record fits, and
      otherwise store it in the first hole or a new slot without touching other records. */
  ghost predicate InsertDone(b: Bytes, c: Bytes, pageId: int, data: Bytes, status: StatusCode, slot: nat) {
    && (status != OK ==> c == b)
    && (Ok(b, pageId) ==>
          && status == InsertStatus(SlotsOf(b), data)
          && (status == OK ==>
                && slot == FirstHole(SlotsOf(b))
                && Ok(c, pageId)
                && SlotsOf(c) == WithRecord(SlotsOf(b), slot, data)
                && NextPageId(c) == NextPageId(b)))
  }

  lemma InsertDoneKeeps(b: Bytes, c: Bytes, pageId: int, data: Bytes, status: StatusCode, slot: nat)
    requires InsertDone(b, c, pageId, data, status, slot)
    ensures Ok(b, pageId) ==> Ok(c, pageId) && Initialized(c, pageId) && NextPageId(c) == NextPageId(b)
    ensures Ok(b, pageId) ==> status == InsertStatus(SlotsOf(b), data) && status in {OK, INVALID_ARGUMENT, OUT_OF_MEMORY}
    ensures status != OK ==> c == b
  {
    hide LayoutOf, LayoutOk, SlotsOf, FirstHole, Fits, WithRecord, Total, GetU16, GetI32;
  }

  predicate InsertFitsBytes(b: Bytes, slot: nat, data: Bytes) {
    |data| + (if slot < SlotCount(b) then 0 else 4) <= FreePointer(b) - DirectoryEnd(SlotCount(b))
  }

  lemma MakeInsertDone(b: Bytes, c: Bytes, pageId: int, data: Bytes, slot: nat)
    requires Ok(b, pageId) ==>
               && 0 < |data| <= PAGE_SIZE && Fits(SlotsOf(b), data)
               && slot == FirstHole(SlotsOf(b))
               && Ok(c, pageId)
               && SlotsOf(c) == WithRecord(SlotsOf(b), slot, data)
               && NextPageId(c) == NextPageId(b)
    ensures InsertDone(b, c, pageId, data, OK, slot)
  {
    hide Ok, SlotsOf, FirstHole, Fits, NextPageId, WithRecord;
  }

  lemma InsertNoRoom(b: Bytes, pageId: int, data: Bytes, slot: nat)
    requires Ok(b, pageId) ==> 0 < |data| <= PAGE_SIZE && !Fits(SlotsOf(b), data)
    ensures InsertDone(b, b, pageId, data, OUT_OF_MEMORY, slot)
  {
    hide Ok, SlotsOf, FirstHole, Fits;
  }

  lemma FitsBytes(b: Bytes, pageId: int, slot: nat, data: Bytes)
    requires Ok(b, pageId) && slot == FirstHole(SlotsOf(b))
    ensures Fits(SlotsOf(b), data) <==> InsertFitsBytes(b, slot, data)
  {
    OkParts(b, pageId);
    hide Ok, SlotsOf, FirstHole, Used, Total, SlotCount, FreePointer;
  }

  /** The bytes InsertRecord writes do what it must do. */
  lemma InsertedDone(b: Bytes, pageId: int, slot: nat, start: nat, data: Bytes)
    requires |b| == PAGE_SIZE && slot <= SlotCount(b) && 0 < |data| <= PAGE_SIZE
    requires forall i: nat :: i < slot ==> !EntryAt(b, i).IsHole()
    requires slot < SlotCount(b) ==> EntryAt(b, slot).IsHole()
    requires start + |data| == FreePointer(b) && InsertFitsBytes(b, slot, data)
    ensures InsertDone(b, Inserted(b, slot, start, data), pageId, data, OK, slot)
  {
    hide *;
    if Ok(b, pageId) {
      FirstHoleIs(b, pageId, slot);
      FitsBytes(b, pageId, slot, data);
      InsertKeepsOk(b, pageId, start, data);
    }
    MakeInsertDone(b, Inserted(b, slot, start, data), pageId, data, slot);
  }

  lemma InsertedNoRoom(b: Bytes, pageId: int, slot: nat, data: Bytes)
    requires |b| == PAGE_SIZE && slot <= SlotCount(b) && 0 < |data| <= PAGE_SIZE
    requires forall i: nat :: i < slot ==> !EntryAt(b, i).IsHole()
    requires slot < SlotCount(b) ==> EntryAt(b, slot).IsHole()
    requires !InsertFitsBytes(b, slot, data)
    ensures InsertDone(b, b, pageId, data, OUT_OF_MEMORY, slot)
  {
    hide *;
    if Ok(b, pageId) {
      FirstHoleIs(b, pageId, slot);
      FitsBytes(b, pageId, slot, data);
    }
    InsertNoRoom(b, pageId, data, slot);
  }

  lemma InsertRefused(b: Bytes, pageId: int, data: Bytes, slot: nat)
    requires |b| == PAGE_SIZE
    requires !Initialized(b, pageId) || data == [] || |data| > PAGE_SIZE
    ensures InsertDone(b, b, pageId, data, INVALID_ARGUMENT, slot)
  {
  }

  ghost predicate ReadDone(b: Bytes, pageId: int, slot: nat, status: StatusCode, record: Bytes) {
    Ok(b, pageId) ==>
      if Live(SlotsOf(b), slot) then status == OK && Some(record) == SlotsOf(b)[slot] else status == NOT_FOUND
  }

  /** What replacing the record in `slot` must do. */
  ghost predicate UpdateDone(b: Bytes, c: Bytes, pageId: int, slot: nat, data: Bytes, status: StatusCode) {
    && (status != OK ==> c == b)
    && (Ok(b, pageId) ==>
          && status == UpdateStatus(SlotsOf(b), slot, data)
          && (status == OK ==>
                && Ok(c, pageId)
                && SlotsOf(c) == SlotsOf(b)[slot := Some(data)]
                && NextPageId(c) == NextPageId(b)))
  }

  /** What deleting the record in `slot` must do; the slots at the end that hold nothing are dropped. */
  ghost predicate DeleteDone(b: Bytes, c: Bytes, pageId: int, slot: nat, status: StatusCode) {
    && (status != OK ==> c == b)
    && (Ok(b, pageId) ==>
          && status == DeleteStatus(SlotsOf(b), slot)
          && (status == OK ==>
                && Ok(c, pageId)
                && SlotsOf(c) == Trim(SlotsOf(b)[slot := None])
                && NextPageId(c) == NextPageId(b)))
  }

  ghost predicate LinkDone(b: Bytes, c: Bytes, pageId: int, next: int, status: StatusCode) {
    && (status != OK ==> c == b)
    && (Ok(b, pageId) ==>
          && status == (if next < INVALID_PAGE_ID || next == pageId then INVALID_ARGUMENT else OK)
          && (status == OK ==> Ok(c, pageId) && SlotsOf(c) == SlotsOf(b) && NextPageId(c) == next))
  }

  /** On a well-formed page, loading finds nothing wrong and returns the records. */
  lemma LoadedSlots(b: Bytes, pageId: int)
    requires Ok(b, pageId)
    ensures DirectoryEnd(SlotCount(b)) <= PAGE_SIZE
    ensures forall i: nat :: i < SlotCount(b) ==> EntryOk(EntryAt(b, i), DirectoryEnd(SlotCount(b)))
    ensures forall i: nat :: i < SlotCount(b) ==> SlotsOf(b)[i] == RecordOf(b, EntryAt(b, i))
    ensures |SlotsOf(b)| == SlotCount(b)
  {
    OkParts(b, pageId);
    hide Ok, EntryAt, SlotCount, FreePointer, SlotsOf, Total;
    forall i: nat | i < SlotCount(b) ensures EntryOk(EntryAt(b, i), DirectoryEnd(SlotCount(b))) {
      assert EntryOk(Directory(b)[i], FreePointer(b));
    }
  }

  lemma MakeUpdateDone(b: Bytes, c: Bytes, pageId: int, slot: nat, data: Bytes, status: StatusCode)
    requires status != OK ==> c == b
    requires Ok(b, pageId) ==>
               && status == UpdateStatus(SlotsOf(b), slot, data)
               && (status == OK ==> Ok(c, pageId) && SlotsOf(c) == SlotsOf(b)[slot := Some(data)] && NextPageId(c) == NextPageId(b))
    ensures UpdateDone(b, c, pageId, slot, data, status)
  {
    hide Ok, SlotsOf, NextPageId;
  }

  lemma MakeDeleteDone(b: Bytes, c: Bytes, pageId: int, slot: nat, status: StatusCode)
    requires status != OK ==> c == b
    requires Ok(b, pageId) ==>
               && status == DeleteStatus(SlotsOf(b), slot)
               && (status == OK ==> Ok(c, pageId) && SlotsOf(c) == Trim(SlotsOf(b)[slot := None]) && NextPageId(c) == NextPageId(b))
    ensures DeleteDone(b, c, pageId, slot, status)
  {
    hide Ok, SlotsOf, NextPageId, Trim;
  }

  lemma UpdateStatusIs(slots: Slots, slot: nat, data: Bytes)
    ensures data == [] || |data| > PAGE_SIZE ==> UpdateStatus(slots, slot, data) == INVALID_ARGUMENT
    ensures data != [] && |data| <= PAGE_SIZE && !Live(slots, slot) ==> UpdateStatus(slots, slot, data) == NOT_FOUND
    ensures CanRewrite(slots) && data != [] && |data| <= PAGE_SIZE && Live(slots, slot) ==>
              (UpdateStatus(slots, slot, data)
               == if DirectoryEnd(|slots|) + Total(slots[slot := Some(data)]) <= PAGE_SIZE then OK else OUT_OF_MEMORY)
  {
    if CanRewrite(slots) && data != [] && Live(slots, slot) {
      UpdateCanRewrite(slots, slot, data);
    }
  }

  lemma RewrittenIsOk(b: Bytes, c: Bytes, pageId: int, slots: Slots)
    requires Ok(b, pageId) && Rewritten(b, c, slots) && CanRewrite(slots)
    ensures Ok(c, pageId) && SlotsOf(c) == slots && NextPageId(c) == NextPageId(b)
  {
    OkParts(b, pageId);
    hide Ok, SlotsOf, NextPageId, StoredPageId, SlotCount, FreePointer, LaidOut, CanRewrite, CanLayOut;
    RewriteIsOk(c, pageId, slots);
  }

  /** The bytes UpdateRecord writes do what it must do. */
  lemma UpdatedDone(b: Bytes, c: Bytes, pageId: int, slots: Slots, slot: nat, data: Bytes, status: StatusCode)
    requires Ok(b, pageId) ==> slots == SlotsOf(b)
    requires data != [] && |data| <= PAGE_SIZE && Live(slots, slot)
    requires status == if DirectoryEnd(|slots|) + Total(slots[slot := Some(data)]) <= PAGE_SIZE then OK else OUT_OF_MEMORY
    requires status == OK ==> Rewritten(b, c, slots[slot := Some(data)])
    requires status != OK ==> c == b
    ensures UpdateDone(b, c, pageId, slot, data, status)
  {
    assert Live(slots, slot) ==> slot < |slots|;
    assert CanRewrite(slots) ==> (CanRewrite(slots[slot := Some(data)]) <==> |data| <= FreeSpace(slots) + |slots[slot].value|) by {
      if CanRewrite(slots) { UpdateCanRewrite(slots, slot, data); }
    }
    assert UpdateStatus(slots, slot, data) == OK <==> |data| <= FreeSpace(slots) + |slots[slot].value|;
    hide *;
    if Ok(b, pageId) {
      OkSlots(b, pageId);
      UpdateStatusIs(slots, slot, data);
      if status == OK {
        RewrittenIsOk(b, c, pageId, slots[slot := Some(data)]);
      }
    }
    MakeUpdateDone(b, c, pageId, slot, data, status);
  }

  lemma UpdateRefused(b: Bytes, pageId: int, slot: nat, data: Bytes, status: StatusCode)
    requires Ok(b, pageId) ==> status == UpdateStatus(SlotsOf(b), slot, data)
    requires status != OK
    ensures UpdateDone(b, b, pageId, slot, data, status)
  {
    hide *;
    MakeUpdateDone(b, b, pageId, slot, data, status);
  }

  lemma DeletedDone(b: Bytes, c: Bytes, pageId: int, slots: Slots, slot: nat, status: StatusCode)
    requires Ok(b, pageId) ==> slots == SlotsOf(b)
    requires Live(slots, slot)
    requires status == if DirectoryEnd(|Trim(slots[slot := None])|) + Total(Trim(slots[slot := None])) <= PAGE_SIZE then OK else OUT_OF_MEMORY
    requires status == OK ==> Rewritten(b, c, Trim(slots[slot := None]))
    requires status != OK ==> c == b
    ensures DeleteDone(b, c, pageId, slot, status)
  {
    assert Live(slots, slot) ==> slot < |slots| && DeleteStatus(slots, slot) == OK;
    var t := Trim(slots[slot := None]);
    assert CanRewrite(t) ==> DirectoryEnd(|t|) + Total(t) <= PAGE_SIZE;
    hide *;
    if Ok(b, pageId) {
      OkSlots(b, pageId);
      DeleteCanRewrite(slots, slot);
      RewrittenIsOk(b, c, pageId, t);
    }
    MakeDeleteDone(b, c, pageId, slot, status);
  }

  lemma DeleteRefused(b: Bytes, pageId: int, slot: nat, status: StatusCode)
    requires Ok(b, pageId) ==> status == DeleteStatus(SlotsOf(b), slot)
    requires status != OK
    ensures DeleteDone(b, b, pageId, slot, status)
  {
    hide *;
    MakeDeleteDone(b, b, pageId, slot, status);
  }

  // ---- Header changes ----

  function EmptyPage(pageId: int): Bytes {
    Put(Put(Put(Put(Put(Zeros(PAGE_SIZE), 0, I32(pageId)), SLOT_COUNT_OFFSET, U16(0)),
                FREE_POINTER_OFFSET, U16(PAGE_SIZE)), NEXT_PAGE_ID_OFFSET, I32(INVALID_PAGE_ID)), 12, U32(0))
  }

  lemma EmptyPageIs(pageId: int)
    ensures EmptyPage(pageId) == Put(Put(Put(Put(Put(Zeros(PAGE_SIZE), 0, I32(pageId)), SLOT_COUNT_OFFSET, U16(0)),
                                             FREE_POINTER_OFFSET, U16(PAGE_SIZE)), NEXT_PAGE_ID_OFFSET, I32(INVALID_PAGE_ID)), 12, U32(0))
    ensures SLOT_COUNT_OFFSET == 4 && FREE_POINTER_OFFSET == 6 && NEXT_PAGE_ID_OFFSET == 8 && PAGE_SIZE == 4096
  {
    hide Put, U16, U32, I32, Zeros;
  }

  /** A freshly formatted page holds no records and ends the chain. */
  lemma EmptyPageIsOk(pageId: int)
    requires IsInt32(pageId)
    ensures Ok(EmptyPage(pageId), pageId)
    ensures SlotsOf(EmptyPage(pageId)) == [] && NextPageId(EmptyPage(pageId)) == INVALID_PAGE_ID
  {
    var z := Zeros(PAGE_SIZE);
    var b1 := Put(z, 0, I32(pageId));
    var b2 := Put(b1, SLOT_COUNT_OFFSET, U16(0));
    var b3 := Put(b2, FREE_POINTER_OFFSET, U16(PAGE_SIZE));
    var b4 := Put(b3, NEXT_PAGE_ID_OFFSET, I32(INVALID_PAGE_ID));
    var b5 := EmptyPage(pageId);
    GetPutI32(z, 0, pageId);
    GetPutU16(b1, SLOT_COUNT_OFFSET, 0);
    GetPutU16(b2, FREE_POINTER_OFFSET, PAGE_SIZE);
    GetPutI32(b3, NEXT_PAGE_ID_OFFSET, INVALID_PAGE_ID);
    hide GetU16, GetI32, U16, I32, U32;
    SameI32(b1, b5, 0);
    SameU16(b2, b5, SLOT_COUNT_OFFSET);
    SameU16(b3, b5, FREE_POINTER_OFFSET);
    SameI32(b4, b5, NEXT_PAGE_ID_OFFSET);
    assert PackedBy([], [], PAGE_SIZE);
    assert SlotsOf(b5) == [];
  }

  /** Linking a page to another one leaves its records alone. */
  lemma LinkKeepsOk(b: Bytes, pageId: int, nextPageId: int)
    requires Ok(b, pageId) && IsInt32(nextPageId)
    ensures Ok(Put(b, NEXT_PAGE_ID_OFFSET, I32(nextPageId)), pageId)
    ensures SlotsOf(Put(b, NEXT_PAGE_ID_OFFSET, I32(nextPageId))) == SlotsOf(b)
    ensures NextPageId(Put(b, NEXT_PAGE_ID_OFFSET, I32(nextPageId))) == nextPageId
  {
    hide *;
    var c := Put(b, NEXT_PAGE_ID_OFFSET, I32(nextPageId));
    OkParts(b, pageId);
    LinkLayout(b, nextPageId);
    LinkBytes(b, nextPageId);
    FreePointerIsHigh(b);
    RecordsOfTail(b, c, Directory(b), FreePointer(b));
    LayoutOkAnyLink(LayoutOf(b), nextPageId);
    MakeOk(c, pageId, LayoutOf(c));
  }

  lemma LinkBytes(b: Bytes, nextPageId: int)
    requires |b| == PAGE_SIZE
    ensures var c := Put(b, NEXT_PAGE_ID_OFFSET, I32(nextPageId));
            |c| == PAGE_SIZE && forall x: nat :: 16 <= x < PAGE_SIZE ==> c[x] == b[x]
  {
    hide I32;
  }

  lemma FreePointerIsHigh(b: Bytes)
    requires DirectoryEnd(SlotCount(b)) <= FreePointer(b)
    ensures FreePointer(b) >= 16
  {
    hide GetU16;
  }

  lemma LayoutOkAnyLink(layout: Layout, nextPageId: int)
    requires LayoutOk(layout)
    ensures LayoutOk(layout.(nextPageId := nextPageId))
  {
    hide Packed;
  }

  lemma LinkLayout(b: Bytes, nextPageId: int)
    requires |b| == PAGE_SIZE && IsInt32(nextPageId)
    ensures var c := Put(b, NEXT_PAGE_ID_OFFSET, I32(nextPageId));
            LayoutOf(c) == Layout(StoredPageId(b), nextPageId, FreePointer(b), Directory(b)) && NextPageId(c) == nextPageId
  {
    var c := Put(b, NEXT_PAGE_ID_OFFSET, I32(nextPageId));
    GetPutI32(b, NEXT_PAGE_ID_OFFSET, nextPageId);
    hide GetU16, GetI32, I32;
    SameI32(c, b, 0);
    SameU16(c, b, SLOT_COUNT_OFFSET);
    SameU16(c, b, FREE_POINTER_OFFSET);
    forall i: nat | i < SlotCount(b) ensures EntryAt(c, i) == EntryAt(b, i) {
      SameU16(c, b, DirectoryEnd(i));
      SameU16(c, b, DirectoryEnd(i) + 2);
    }
    hide EntryAt;
    assert Directory(c) == Directory(b);
  }

  lemma RecordsOfTail(b: Bytes, c: Bytes, directory: seq<Entry>, top: nat)
    requires top <= |b| == |c| == PAGE_SIZE
    requires forall i: nat :: i < |directory| ==> EntryOk(directory[i], top)
    requires forall x: nat :: top <= x < PAGE_SIZE ==> c[x] == b[x]
    ensures Records(c, directory) == Records(b, directory)
  {
    forall i: nat | i < |directory| ensures RecordOf(c, directory[i]) == RecordOf(b, directory[i]) {
      RecordStays(b, c, top, directory[i]);
    }
  }

  // ---- Pages never fragment ----

  predicate Covers(entry: Entry, x: nat) {
    entry.offset <= x < entry.offset + entry.length
  }

  lemma {:induction false} TilesCoverOnce(directory: seq<Entry>, order: seq<nat>, bottom: nat, x: nat)
    requires Tiles(directory, order, bottom)
    ensures bottom <= PAGE_SIZE
    ensures bottom <= x < PAGE_SIZE ==> exists i: nat :: i in order && i < |directory| && Covers(directory[i], x)
    ensures forall i: nat :: i in order ==> i < |directory| && bottom <= directory[i].offset
                                            && directory[i].offset + directory[i].length <= PAGE_SIZE
    ensures forall i: nat, j: nat :: i in order && j in order && i != j && i < |directory| && j < |directory| ==>
              !(Covers(directory[i], x) && Covers(directory[j], x))
    decreases |order|
  {
    if order != [] {
      var last := order[|order| - 1];
      var before := order[..|order| - 1];
      assert order == before + [last];
      TilesCoverOnce(directory, before, bottom + directory[last].length, x);
      assert forall i: nat :: i in order <==> i in before || i == last;
      assert x < bottom + directory[last].length ==> x < bottom || Covers(directory[last], x);
    }
  }

  /** Every byte from the free pointer to the page end belongs to exactly one record, so
      the free space is what the header, the directory and the records leave. */
  lemma PageNeverFragments(b: Bytes, pageId: int, x: nat)
    requires Ok(b, pageId) && FreePointer(b) <= x < PAGE_SIZE
    ensures exists i: nat :: i < SlotCount(b) && Covers(Directory(b)[i], x)
    ensures forall i: nat, j: nat :: i < SlotCount(b) && j < SlotCount(b) && i != j ==>
              !(Covers(Directory(b)[i], x) && Covers(Directory(b)[j], x))
    ensures FreePointer(b) - DirectoryEnd(SlotCount(b)) == PAGE_SIZE - 16 - 4 * |SlotsOf(b)| - Total(SlotsOf(b))
  {
    OkParts(b, pageId);
    var directory := Directory(b);
    assert Packed(directory, FreePointer(b));
    var order: seq<nat> :| PackedBy(directory, order, FreePointer(b));
    TilesCoverOnce(directory, order, FreePointer(b), x);
    hide Ok, Tiles, EntryAt, Total, GetU16;
    assert forall i: nat :: i < |directory| && Covers(directory[i], x) ==> i in order;
  }

  /** Which pages count as initialized: every well-formed page of that id, but neither a
      page that has only been zeroed nor a well-formed page of another id. */
  lemma InitializedMeans(b: Bytes, pageId: int)
    ensures Ok(b, pageId) ==> Initialized(b, pageId)
    ensures b == Zeros(PAGE_SIZE) ==> !Initialized(b, pageId)
    ensures forall other: int :: other != pageId && Ok(b, other) ==> !Initialized(b, pageId)
  {
    hide LayoutOk, SlotsOf, Total;
  }

  /** The number of slots is where the records end: the last slot is live. */
  lemma SlotCountMeans(b: Bytes, pageId: int)
    requires Ok(b, pageId)
    ensures SlotCount(b) == |SlotsOf(b)| && (SlotCount(b) > 0 ==> SlotsOf(b)[SlotCount(b) - 1].Some?)
  {
    OkParts(b, pageId);
    OkSlots(b, pageId);
    hide Ok, SlotsOf;
  }
}
