// A slotted page: variable-length records in one page of the buffer pool
// (src/storage/slotted_page.cpp).
module SlottedPages {
  import opened Common
  import opened ByteFormat
  import opened SlottedFormat
  import opened PageChains
  import HeapStates
  import opened Buffer

  /** In every page chain in which a page with these bytes stands, `next` follows it. */
  ghost predicate NextInChains(b: Bytes, page: int, next: int) {
    forall store: Store, first: int, chain: seq<nat>, k: nat ::
      HeapStates.HeapChain(store, first, chain) && k < |chain| && chain[k] == page && page in store && store[page] == b ==> next == Following(chain, k)
  }

  lemma NextIsInChains(b: Bytes, page: int)
    ensures NextInChains(b, page, NextPageId(b))
  {
    hide HeapStates.HeapChain, NextPageId;
    forall store: Store, first: int, chain: seq<nat>, k: nat |
      HeapStates.HeapChain(store, first, chain) && k < |chain| && chain[k] == page && page in store && store[page] == b
      ensures NextPageId(b) == Following(chain, k)
    {
      HeapStates.WalkStep(store, first, chain, k);
    }
  }

  class SlottedPage {
    const page: Page

    constructor (page: Page)
      ensures this.page == page
    {
      this.page := page;
    }

    /** Formats the page as an empty slotted page. */
    method Init() returns (status: StatusCode)
      requires page.data.Length == PAGE_SIZE && IsInt32(page.pageId)
      modifies page`dirty, page.data
      ensures status == if page.pageId == INVALID_PAGE_ID then INVALID_ARGUMENT else OK
      ensures status.OK? ==> page.dirty && Ok(page.data[..], page.pageId)
      ensures status.OK? ==> SlotsOf(page.data[..]) == [] && NextPageId(page.data[..]) == INVALID_PAGE_ID
      ensures !status.OK? ==> page.data[..] == old(page.data[..]) && page.dirty == old(page.dirty)
    {
      hide *;
      if page.pageId == INVALID_PAGE_ID {
        return INVALID_ARGUMENT;
      }
      EmptyPageIsOk(page.pageId);
      EmptyPageIs(page.pageId);
      Clear(page.data, 0, PAGE_SIZE);
      WholePage(page.data[..], old(page.data[..]));
      Write(page.data, 0, I32(page.pageId));
      Write(page.data, SLOT_COUNT_OFFSET, U16(0));
      Write(page.data, FREE_POINTER_OFFSET, U16(PAGE_SIZE));
      Write(page.data, NEXT_PAGE_ID_OFFSET, I32(INVALID_PAGE_ID));
      Write(page.data, 12, U32(0));
      page.dirty := true;
      status := OK;
    }

    method IsInitialized() returns (yes: bool)
      requires page.data.Length == PAGE_SIZE
      ensures yes <==> page.pageId != INVALID_PAGE_ID && Initialized(page.data[..], page.pageId)
      ensures page.pageId != INVALID_PAGE_ID && Ok(page.data[..], page.pageId) ==> yes
      ensures page.data[..] == Zeros(PAGE_SIZE) ==> !yes
      ensures forall other: int :: other != page.pageId && Ok(page.data[..], other) ==> !yes
    {
      InitializedMeans(page.data[..], page.pageId);
      hide Ok;
      if page.pageId == INVALID_PAGE_ID {
        return false;
      }
      var data := page.data[..];
      yes := StoredPageId(data) == page.pageId
        && DirectoryEnd(SlotCount(data)) <= FreePointer(data) <= PAGE_SIZE;
    }

    method GetSlotCount() returns (count: nat)
      requires page.data.Length == PAGE_SIZE
      ensures count == SlotCount(page.data[..])
      ensures Ok(page.data[..], page.pageId) ==>
                count == |SlotsOf(page.data[..])| && (count > 0 ==> SlotsOf(page.data[..])[count - 1].Some?)
    {
      hide Ok, SlotsOf;
      if Ok(page.data[..], page.pageId) {
        SlotCountMeans(page.data[..], page.pageId);
      }
      count := SlotCount(page.data[..]);
    }

    method GetNextPageId() returns (next: int)
      requires page.data.Length == PAGE_SIZE
      ensures next == if page.pageId != INVALID_PAGE_ID && Initialized(page.data[..], page.pageId)
                      then NextPageId(page.data[..]) else INVALID_PAGE_ID
      ensures page.pageId != INVALID_PAGE_ID && Ok(page.data[..], page.pageId) ==> NextInChains(page.data[..], page.pageId, next)
    {
      NextIsInChains(page.data[..], page.pageId);
      hide Ok, NextInChains;
      var initialized := IsInitialized();
      if !initialized {
        return INVALID_PAGE_ID;
      }
      next := NextPageId(page.data[..]);
    }

    method SetNextPageId(next: int) returns (status: StatusCode)
      requires page.data.Length == PAGE_SIZE && IsInt32(next) && page.pageId != INVALID_PAGE_ID
      modifies page`dirty, page.data
      ensures LinkDone(old(page.data[..]), page.data[..], page.pageId, next, status)
      ensures page.dirty == (old(page.dirty) || status.OK?)
    {
      var initialized := IsInitialized();
      if !initialized {
        return INVALID_ARGUMENT;
      }
      if next < INVALID_PAGE_ID || next == page.pageId {
        return INVALID_ARGUMENT;
      }
      if Ok(page.data[..], page.pageId) {
        LinkKeepsOk(page.data[..], page.pageId, next);
      }
      hide Ok, SlotsOf, NextPageId, Put, I32;
      Write(page.data, NEXT_PAGE_ID_OFFSET, I32(next));
      page.dirty := true;
      status := OK;
    }

    /** The bytes left between the slot directory and the records. */
    method GetFreeSpace() returns (space: nat)
      requires page.data.Length == PAGE_SIZE
      ensures page.pageId != INVALID_PAGE_ID && Initialized(page.data[..], page.pageId) ==>
                space == FreePointer(page.data[..]) - DirectoryEnd(SlotCount(page.data[..]))
      ensures page.pageId != INVALID_PAGE_ID && Ok(page.data[..], page.pageId) ==> space == FreeSpace(SlotsOf(page.data[..]))
      ensures page.pageId == INVALID_PAGE_ID || !Initialized(page.data[..], page.pageId) ==> space == 0
    {
      if Ok(page.data[..], page.pageId) {
        OkParts(page.data[..], page.pageId);
      }
      hide Ok, SlotsOf, FreeSpace;
      var initialized := IsInitialized();
      if !initialized {
        return 0;
      }
      var data := page.data[..];
      space := FreePointer(data) - DirectoryEnd(SlotCount(data));
    }

    /** The first hole of the directory, or `slotCount` if there is none. */
    method FindSlot(slotCount: nat) returns (selected: nat, reusing: bool)
      ensures selected <= slotCount && (reusing <==> selected < slotCount)
      ensures forall i: nat :: i < selected ==> !EntryAt(page.data[..], i).IsHole()
      ensures reusing ==> EntryAt(page.data[..], selected).IsHole()
    {
      hide EntryAt;
      selected := 0;
      while selected < slotCount
        invariant selected <= slotCount
        invariant forall i: nat :: i < selected ==> !EntryAt(page.data[..], i).IsHole()
      {
        if EntryAt(page.data[..], selected).IsHole() {
          return selected, true;
        }
        selected := selected + 1;
      }
      reusing := false;
    }

    /** Writes a record, its directory entry, the free pointer and, for a new slot, the slot count. */
    method StoreRecord(selected: nat, start: nat, data: Bytes)
      requires page.data.Length == PAGE_SIZE
      requires start + |data| <= PAGE_SIZE && DirectoryEnd(selected + 1) <= PAGE_SIZE
      modifies page.data
      ensures page.data[..] == Inserted(old(page.data[..]), selected, start, data)
    {
      hide Put, GetU16, U16;
      var slotCount := SlotCount(page.data[..]);
      Write(page.data, start, data);
      Write(page.data, DirectoryEnd(selected), U16(start));
      Write(page.data, DirectoryEnd(selected) + 2, U16(|data|));
      if selected == slotCount {
        Write(page.data, SLOT_COUNT_OFFSET, U16(slotCount + 1));
      }
      Write(page.data, FREE_POINTER_OFFSET, U16(start));
    }

    /** InsertRecord once its arguments have been checked. */
    method InsertBytes(data: Bytes) returns (status: StatusCode, slotId: nat)
      requires page.data.Length == PAGE_SIZE && 0 < |data| <= PAGE_SIZE
      requires page.pageId != INVALID_PAGE_ID && Initialized(page.data[..], page.pageId)
      modifies page`dirty, page.data
      ensures InsertDone(old(page.data[..]), page.data[..], page.pageId, data, status, slotId)
      ensures page.dirty == (old(page.dirty) || status.OK?)
    {
      hide EntryAt, Put, GetU16, U16, Inserted, InsertDone, Ok;
      var slotCount := SlotCount(page.data[..]);
      var freePointer := FreePointer(page.data[..]);
      var selected, reusing := FindSlot(slotCount);
      var required := |data| + (if reusing then 0 else 4);
      var space := GetFreeSpace();
      if space < required {
        InsertedNoRoom(page.data[..], page.pageId, selected, data);
        return OUT_OF_MEMORY, selected;
      }
      InsertedDone(page.data[..], page.pageId, selected, freePointer - |data|, data);
      StoreRecord(selected, freePointer - |data|, data);
      page.dirty := true;
      return OK, selected;
    }

    /** Stores a record in the first hole or in a new slot. */
    method InsertRecord(data: Bytes) returns (status: StatusCode, slotId: nat)
      requires page.data.Length == PAGE_SIZE && page.pageId != INVALID_PAGE_ID
      modifies page`dirty, page.data
      ensures InsertDone(old(page.data[..]), page.data[..], page.pageId, data, status, slotId)
      ensures page.dirty == (old(page.dirty) || status.OK?)
    {
      hide InsertDone, Initialized;
      slotId := 0;
      var initialized := IsInitialized();
      if !initialized {
        InsertRefused(page.data[..], page.pageId, data, slotId);
        return INVALID_ARGUMENT, slotId;
      }
      if |data| == 0 || |data| > PAGE_SIZE {
        InsertRefused(page.data[..], page.pageId, data, slotId);
        return INVALID_ARGUMENT, slotId;
      }
      status, slotId := InsertBytes(data);
    }

    /** The record in a slot. */
    method ReadRecord(slotId: nat) returns (status: StatusCode, record: Bytes)
      requires page.data.Length == PAGE_SIZE && page.pageId != INVALID_PAGE_ID
      ensures ReadDone(page.data[..], page.pageId, slotId, status, record)
    {
      record := [];
      var data := page.data[..];
      var initialized := IsInitialized();
      if !initialized {
        return INVALID_ARGUMENT, record;
      }
      if Ok(data, page.pageId) {
        OkParts(data, page.pageId);
        if slotId < SlotCount(data) { assert SlotsOf(data)[slotId] == RecordOf(data, Directory(data)[slotId]); }
      }
      hide Ok, SlotsOf, EntryAt, GetU16;
      var slotCount := SlotCount(data);
      if slotId >= slotCount {
        return NOT_FOUND, record;
      }
      var entry := EntryAt(data, slotId);
      if entry.IsHole() {
        return NOT_FOUND, record;
      }
      if entry.offset < DirectoryEnd(slotCount) || entry.offset + entry.length > PAGE_SIZE {
        return IO_ERROR, record;
      }
      return OK, data[entry.offset..entry.offset + entry.length];
    }

    /** Replaces the record in a slot, compacting the page. */
    method UpdateRecord(slotId: nat, data: Bytes) returns (status: StatusCode)
      requires page.data.Length == PAGE_SIZE && page.pageId != INVALID_PAGE_ID
      modifies page`dirty, page.data
      ensures UpdateDone(old(page.data[..]), page.data[..], page.pageId, slotId, data, status)
      ensures page.dirty == (old(page.dirty) || status.OK?)
    {
      ghost var b := page.data[..];
      ghost var wellFormed := Ok(b, page.pageId);
      assert wellFormed ==> Initialized(b, page.pageId);
      if wellFormed {
        LoadedSlots(b, page.pageId);
        UpdateStatusIs(SlotsOf(b), slotId, data);
      }
      hide Ok, SlotsOf, Initialized, EntryAt, SlotCount, UpdateDone, UpdateStatus, Total, Rewritten;
      var initialized := IsInitialized();
      if !initialized {
        UpdateRefused(b, page.pageId, slotId, data, INVALID_ARGUMENT);
        return INVALID_ARGUMENT;
      }
      if |data| == 0 || |data| > PAGE_SIZE {
        UpdateRefused(b, page.pageId, slotId, data, INVALID_ARGUMENT);
        return INVALID_ARGUMENT;
      }
      var slotCount := SlotCount(page.data[..]);
      if slotId >= slotCount {
        UpdateRefused(b, page.pageId, slotId, data, NOT_FOUND);
        return NOT_FOUND;
      }
      var slots;
      status, slots := LoadRecords(slotCount);
      if !status.OK? {
        UpdateRefused(b, page.pageId, slotId, data, status);
        return;
      }
      assert wellFormed ==> slots == SlotsOf(b);
      if slots[slotId].None? {
        UpdateRefused(b, page.pageId, slotId, data, NOT_FOUND);
        return NOT_FOUND;
      }
      status := RewriteRecords(slots[slotId := Some(data)]);
      UpdatedDone(b, page.data[..], page.pageId, slots, slotId, data, status);
    }

    /** Deletes the record in a slot, compacting the page and dropping the holes at its end. */
    method DeleteRecord(slotId: nat) returns (status: StatusCode)
      requires page.data.Length == PAGE_SIZE && page.pageId != INVALID_PAGE_ID
      modifies page`dirty, page.data
      ensures DeleteDone(old(page.data[..]), page.data[..], page.pageId, slotId, status)
      ensures page.dirty == (old(page.dirty) || status.OK?)
    {
      ghost var b := page.data[..];
      ghost var wellFormed := Ok(b, page.pageId);
      assert wellFormed ==> Initialized(b, page.pageId);
      if wellFormed {
        LoadedSlots(b, page.pageId);
      }
      hide Ok, SlotsOf, Initialized, EntryAt, SlotCount, DeleteDone, Total, Rewritten;
      var initialized := IsInitialized();
      if !initialized {
        DeleteRefused(b, page.pageId, slotId, INVALID_ARGUMENT);
        return INVALID_ARGUMENT;
      }
      var slotCount := SlotCount(page.data[..]);
      if slotId >= slotCount {
        DeleteRefused(b, page.pageId, slotId, NOT_FOUND);
        return NOT_FOUND;
      }
      var slots;
      status, slots := LoadRecords(slotCount);
      if !status.OK? {
        DeleteRefused(b, page.pageId, slotId, status);
        return;
      }
      assert wellFormed ==> slots == SlotsOf(b);
      if slots[slotId].None? {
        DeleteRefused(b, page.pageId, slotId, NOT_FOUND);
        return NOT_FOUND;
      }
      var remaining := slots[slotId := None];
      while |remaining| > 0 && remaining[|remaining| - 1].None?
        invariant Trim(remaining) == Trim(slots[slotId := None]) && remaining <= slots[slotId := None]
      {
        remaining := remaining[..|remaining| - 1];
      }
      status := RewriteRecords(remaining);
      DeletedDone(b, page.data[..], page.pageId, slots, slotId, status);
    }

    /** Reads every record of the page. */
    method LoadRecords(slotCount: nat) returns (status: StatusCode, slots: Slots)
      requires page.data.Length == PAGE_SIZE
      ensures status.OK? ==> |slots| == slotCount && DirectoryEnd(slotCount) <= PAGE_SIZE
      ensures status.OK? ==> forall i: nat :: i < slotCount ==> slots[i] == RecordOf(page.data[..], EntryAt(page.data[..], i))
      ensures status.OK? ==> forall i: nat :: i < slotCount && slots[i].Some? ==> slots[i].value != []
      ensures DirectoryEnd(slotCount) <= PAGE_SIZE
              && (forall i: nat :: i < slotCount ==> EntryOk(EntryAt(page.data[..], i), DirectoryEnd(slotCount)))
              ==> status.OK?
    {
      hide EntryAt;
      slots := [];
      var directoryEnd := DirectoryEnd(slotCount);
      if directoryEnd > PAGE_SIZE {
        return IO_ERROR, slots;
      }
      var data := page.data[..];
      for i := 0 to slotCount
        invariant |slots| == i
        invariant forall j: nat :: j < i ==> slots[j] == RecordOf(data, EntryAt(data, j))
        invariant forall j: nat :: j < i && slots[j].Some? ==> slots[j].value != []
      {
        var entry := EntryAt(data, i);
        if entry.offset == 0 && entry.length == 0 {
          slots := slots + [None];
        } else {
          if entry.offset == 0 || entry.length == 0 {
            return IO_ERROR, slots;
          }
          if entry.offset < directoryEnd || entry.offset + entry.length > PAGE_SIZE {
            return IO_ERROR, slots;
          }
          slots := slots + [Some(data[entry.offset..entry.offset + entry.length])];
        }
      }
      status := OK;
    }

    /** Stores a record and its directory entry. */
    method PlaceRecord(i: nat, start: nat, data: Bytes)
      requires page.data.Length == PAGE_SIZE
      requires start + |data| <= PAGE_SIZE && DirectoryEnd(i + 1) <= PAGE_SIZE
      modifies page.data
      ensures page.data[..] == Placed(old(page.data[..]), i, start, data)
    {
      hide Put, U16;
      Write(page.data, start, data);
      Write(page.data, DirectoryEnd(i), U16(start));
      Write(page.data, DirectoryEnd(i) + 2, U16(|data|));
    }

    /** Lays the records out afresh, packed against the end of the page in slot order. */
    method RewriteRecords(slots: Slots) returns (status: StatusCode)
      requires page.data.Length == PAGE_SIZE
      requires forall i: nat :: i < |slots| && slots[i].Some? ==> slots[i].value != []
      modifies page`dirty, page.data
      ensures page.dirty == (old(page.dirty) || status.OK?)
      ensures status == if DirectoryEnd(|slots|) + Total(slots) <= PAGE_SIZE then OK else OUT_OF_MEMORY
      ensures !status.OK? ==> page.data[..] == old(page.data[..])
      ensures status.OK? ==> Rewritten(old(page.data[..]), page.data[..], slots)
    {
      hide EntryAt, Put, U16, GetU16, GetI32, Placed, SlotLaid, PackedEntry;
      var total := 0;
      for i := 0 to |slots|
        invariant total == Used(slots, i)
      {
        total := total + RecordSize(slots[i]);
      }
      if DirectoryEnd(|slots|) + total > PAGE_SIZE {
        return OUT_OF_MEMORY;
      }
      ghost var b := page.data[..];
      RewriteStart(b, |slots|);
      Clear(page.data, 16, PAGE_SIZE);
      Write(page.data, SLOT_COUNT_OFFSET, U16(|slots|));
      var free := LayOutRecords(slots);
      FreePointerStep(page.data[..], slots, free);
      Write(page.data, FREE_POINTER_OFFSET, U16(free));
      page.dirty := true;
      status := OK;
    }

    method LayOutRecords(slots: Slots) returns (free: nat)
      requires page.data.Length == PAGE_SIZE && CanLayOut(slots)
      modifies page.data
      ensures free == Top(slots, |slots|) && LaidOut(page.data[..], slots, |slots|)
      ensures StoredPageId(page.data[..]) == StoredPageId(old(page.data[..]))
      ensures NextPageId(page.data[..]) == NextPageId(old(page.data[..]))
      ensures SlotCount(page.data[..]) == SlotCount(old(page.data[..]))
    {
      hide EntryAt, Put, U16, GetU16, GetI32, Placed, SlotLaid, CanLayOut;
      free := PAGE_SIZE;
      for i := 0 to |slots|
        invariant free == Top(slots, i) && LaidOut(page.data[..], slots, i)
        invariant StoredPageId(page.data[..]) == StoredPageId(old(page.data[..]))
        invariant NextPageId(page.data[..]) == NextPageId(old(page.data[..]))
        invariant SlotCount(page.data[..]) == SlotCount(old(page.data[..]))
      {
        PackedBounds(slots, i, i);
        LayOne(page.data[..], slots, i);
        LayHeader(page.data[..], slots, i);
        if slots[i].None? {
          PlaceRecord(i, 0, []);
        } else {
          free := free - |slots[i].value|;
          PlaceRecord(i, free, slots[i].value);
        }
      }
    }
  }
}
