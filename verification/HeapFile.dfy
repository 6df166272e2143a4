// A table's records: a chain of slotted pages in the buffer pool
// (src/storage/heap_file.cpp).
module HeapFiles {
  import opened Common
  import opened Disk
  import opened ByteFormat
  import opened Buffer
  import opened SlottedFormat
  import opened SlottedPages
  import opened PageChains
  import opened HeapStates
  import opened HeapScans

  class HeapFile {
    const bpm: BufferPoolManager
    const firstPageId: int

    constructor (bpm: BufferPoolManager, firstPageId: int)
      ensures this.bpm == bpm && this.firstPageId == firstPageId
    {
      this.bpm := bpm;
      this.firstPageId := firstPageId;
    }

    /** `pageId` is a well-formed slotted page. */
    ghost predicate HasPage(pageId: nat)
      reads bpm.Repr
    {
      pageId in bpm.Store() && Ok(bpm.Store()[pageId], pageId)
    }

    /** Facts about a page of the store that fetching it needs. */
    lemma PageParts(pageId: nat)
      requires bpm.Valid() && HasPage(pageId)
      ensures pageId in bpm.Store() && Ok(bpm.Store()[pageId], pageId) && Initialized(bpm.Store()[pageId], pageId)
      ensures pageId !in bpm.disk.freePages && pageId < MAX_PAGES && |bpm.Store()[pageId]| == PAGE_SIZE
      ensures bpm.Ready() <==> bpm.disk.reliable && |bpm.Pins()| < |bpm.pages|
      ensures forall id :: id in bpm.Pins() ==> bpm.Pins()[id] >= 1
      ensures INVALID_PAGE_ID == -1
    {
      hide LayoutOk, SlotsOf;
      bpm.InStore(pageId);
      bpm.PinsArePositive();
      bpm.ReadyParts();
    }

    /** One page of the walk of InsertRecord: tries to store the record there and
        reads the link to the next page. `fetched` is false if the page could not be had. */
    method InsertIntoOnePage(pageId: nat, record: Bytes) returns (fetched: bool, status: StatusCode, slotId: nat, next: int)
      requires bpm.Valid() && HasPage(pageId)
      modifies bpm.Repr
      ensures bpm.Valid() && bpm.Pins() == old(bpm.Pins())
      ensures !fetched ==> bpm.Store() == old(bpm.Store()) && !old(bpm.Ready())
      ensures !fetched ==> status == IO_ERROR
      ensures fetched ==> InsertStep(old(bpm.Store()), bpm.Store(), pageId, record, status, slotId, next)
    {
      hide *;
      PageParts(pageId);
      slotId, next := 0, INVALID_PAGE_ID;
      var page := bpm.FetchPage(pageId);
      if page == null {
        fetched, status := false, IO_ERROR;
        return;
      }
      bpm.HoldsParts(page, pageId);
      ghost var b := page.data[..];
      label Fetched:
      var slottedPage := new SlottedPage(page);
      var initialized := slottedPage.IsInitialized();
      if !initialized {
        assert false;
      }
      status, slotId := slottedPage.InsertRecord(record);
      InsertDoneKeeps(b, page.data[..], pageId, record, status, slotId);
      bpm.WroteThrough@Fetched(pageId);
      next := slottedPage.GetNextPageId();
      MakeInsertStep(old(bpm.Store()), bpm.Store(), pageId, page.data[..], record, status, slotId, next);
      var unpinned := bpm.UnpinPage(pageId, status.OK?);
      fetched := true;
    }

    lemma IsLink(next: int)
      requires 0 < next < MAX_PAGES
      ensures IsInt32(next) && next > INVALID_PAGE_ID && next > HEADER_PAGE_ID
    {
    }

    /** Replaces a record in its page. */
    method UpdateOnePage(pageId: nat, slotId: nat, record: Bytes) returns (fetched: bool, status: StatusCode)
      requires bpm.Valid() && HasPage(pageId)
      modifies bpm.Repr
      ensures bpm.Valid() && bpm.Pins() == old(bpm.Pins())
      ensures !fetched ==> bpm.Store() == old(bpm.Store()) && !old(bpm.Ready())
      ensures !fetched ==> status == NOT_FOUND
      ensures fetched ==> UpdateStep(old(bpm.Store()), bpm.Store(), pageId, slotId, record, status)
    {
      hide *;
      PageParts(pageId);
      var page := bpm.FetchPage(pageId);
      if page == null {
        fetched, status := false, NOT_FOUND;
        return;
      }
      bpm.HoldsParts(page, pageId);
      ghost var b := page.data[..];
      label Fetched:
      var slottedPage := new SlottedPage(page);
      status := slottedPage.UpdateRecord(slotId, record);
      UpdateDoneSame(b, page.data[..], pageId, slotId, record, status);
      bpm.WroteThrough@Fetched(pageId);
      MakeUpdateStep(old(bpm.Store()), bpm.Store(), pageId, page.data[..], slotId, record, status);
      var unpinned := bpm.UnpinPage(pageId, status.OK?);
      fetched := true;
    }

    /** Deletes a record from its page. */
    method DeleteOnePage(pageId: nat, slotId: nat) returns (fetched: bool, status: StatusCode)
      requires bpm.Valid() && HasPage(pageId)
      modifies bpm.Repr
      ensures bpm.Valid() && bpm.Pins() == old(bpm.Pins())
      ensures !fetched ==> bpm.Store() == old(bpm.Store()) && !old(bpm.Ready())
      ensures !fetched ==> status == NOT_FOUND
      ensures fetched ==> DeleteStep(old(bpm.Store()), bpm.Store(), pageId, slotId, status)
    {
      hide *;
      PageParts(pageId);
      var page := bpm.FetchPage(pageId);
      if page == null {
        fetched, status := false, NOT_FOUND;
        return;
      }
      bpm.HoldsParts(page, pageId);
      ghost var b := page.data[..];
      label Fetched:
      var slottedPage := new SlottedPage(page);
      status := slottedPage.DeleteRecord(slotId);
      DeleteDoneSame(b, page.data[..], pageId, slotId, status);
      bpm.WroteThrough@Fetched(pageId);
      MakeDeleteStep(old(bpm.Store()), bpm.Store(), pageId, page.data[..], slotId, status);
      var unpinned := bpm.UnpinPage(pageId, status.OK?);
      fetched := true;
    }

    /** Links a page to the one that follows it. */
    method LinkOnePage(pageId: nat, next: int) returns (fetched: bool, status: StatusCode)
      requires bpm.Valid() && HasPage(pageId) && 0 < next < MAX_PAGES && next != pageId
      modifies bpm.Repr
      ensures bpm.Valid() && bpm.Pins() == old(bpm.Pins())
      ensures !fetched ==> bpm.Store() == old(bpm.Store()) && !old(bpm.Ready())
      ensures !fetched ==> status == IO_ERROR
      ensures fetched ==> status == OK && LinkStep(old(bpm.Store()), bpm.Store(), pageId, next)
    {
      hide *;
      PageParts(pageId);
      var page := bpm.FetchPage(pageId);
      if page == null {
        fetched, status := false, IO_ERROR;
        return;
      }
      bpm.HoldsParts(page, pageId);
      ghost var b := page.data[..];
      label Fetched:
      var slottedPage := new SlottedPage(page);
      var initialized := slottedPage.IsInitialized();
      if !initialized {
        assert false;
      }
      IsLink(next);
      status := slottedPage.SetNextPageId(next);
      LinkDoneOk(b, page.data[..], pageId, next, status);
      bpm.WroteThrough@Fetched(pageId);
      MakeLinkStep(old(bpm.Store()), bpm.Store(), pageId, page.data[..], next);
      var unpinned := bpm.UnpinPage(pageId, status.OK?);
      fetched := true;
    }

    /** Reads a record. */
    method ReadOnePage(pageId: nat, slotId: nat) returns (fetched: bool, status: StatusCode, record: Bytes)
      requires bpm.Valid() && HasPage(pageId)
      modifies bpm.Repr
      ensures bpm.Valid() && bpm.Pins() == old(bpm.Pins()) && bpm.Store() == old(bpm.Store())
      ensures !fetched ==> !old(bpm.Ready())
      ensures !fetched ==> status == NOT_FOUND
      ensures fetched ==> ReadIs(old(bpm.Store()), RecordID(pageId, slotId), status, record)
    {
      hide *;
      PageParts(pageId);
      record := [];
      var page := bpm.FetchPage(pageId);
      if page == null {
        fetched, status := false, NOT_FOUND;
        return;
      }
      bpm.HoldsParts(page, pageId);
      var slottedPage := new SlottedPage(page);
      status, record := slottedPage.ReadRecord(slotId);
      MakeReadIs(bpm.Store(), pageId, slotId, status, record);
      var unpinned := bpm.UnpinPage(pageId, false);
      fetched := true;
    }

    /** Reads the link of a page. */
    method NextOfPage(pageId: nat) returns (fetched: bool, next: int)
      requires bpm.Valid() && HasPage(pageId)
      modifies bpm.Repr
      ensures bpm.Valid() && bpm.Pins() == old(bpm.Pins()) && bpm.Store() == old(bpm.Store())
      ensures !fetched ==> !old(bpm.Ready())
      ensures fetched ==> next == NextPageId(old(bpm.Store())[pageId])
    {
      hide *;
      PageParts(pageId);
      next := INVALID_PAGE_ID;
      var page := bpm.FetchPage(pageId);
      if page == null {
        return false, next;
      }
      bpm.HoldsParts(page, pageId);
      var slottedPage := new SlottedPage(page);
      var initialized := slottedPage.IsInitialized();
      if !initialized {
        assert false;
      }
      next := slottedPage.GetNextPageId();
      var unpinned := bpm.UnpinPage(pageId, false);
      fetched := true;
    }

    /** Formats a new page and stores its first record. */
    method FillNewPage(page: Page, pageId: nat, record: Bytes) returns (status: StatusCode)
      requires bpm.Holds(page, pageId) && pageId >= 1
      modifies bpm.Repr
      ensures bpm.Valid() && bpm.Pins() == old(bpm.Pins()) && pageId in bpm.Store()
      ensures bpm.Store() == old(bpm.Store())[pageId := bpm.Store()[pageId]]
      ensures status == OK ==> HoldsRecord(bpm.Store()[pageId], pageId, record)
      ensures status in {OK, OUT_OF_MEMORY, INVALID_ARGUMENT}
      ensures status == InsertStatus([], record)
    {
      hide *;
      bpm.HoldsParts(page, pageId);
      IsLink(pageId);
      var slottedPage := new SlottedPage(page);
      status := slottedPage.Init();
      ghost var e := page.data[..];
      if status != OK {
        assert false;
      }
      var slotId;
      status, slotId := slottedPage.InsertRecord(record);
      FirstRecord(e, page.data[..], pageId, record, status, slotId);
      bpm.WroteThrough(pageId);
    }

    /** A new page that holds just `record`; the first half of AppendNewPage. */
    method NewRecordPage(record: Bytes) returns (status: StatusCode, pageId: int)
      requires bpm.Valid()
      modifies bpm.Repr
      ensures bpm.Valid() && bpm.Pins() == old(bpm.Pins())
      ensures status == OK ==> pageId > 0 && NewPageStep(old(bpm.Store()), bpm.Store(), pageId, record)
      ensures status != OK ==> Extends(old(bpm.Store()), bpm.Store())
      ensures status != OK && old(bpm.Ready()) ==> bpm.Store() == old(bpm.Store())
      ensures status in {OK, OUT_OF_MEMORY, INVALID_ARGUMENT}
      ensures status == INVALID_ARGUMENT ==> record == [] || |record| > PAGE_SIZE
      ensures old(bpm.Ready()) ==> status == if |old(bpm.Store())| >= bpm.disk.capacity then OUT_OF_MEMORY else InsertStatus([], record)
    {
      hide *;
      InsertStatusParts([], record);
      bpm.PinsInStore();
      bpm.ReadyParts();
      ghost var a := bpm.Store();
      var page;
      page, pageId := bpm.NewPage();
      if page == null {
        StoreExtends(a, bpm.Store(), 0);
        return OUT_OF_MEMORY, pageId;
      }
      IsLink(pageId);
      status := FillNewPage(page, pageId, record);
      var unpinned := bpm.UnpinPage(pageId, status == OK);
      assert bpm.Pins() == old(bpm.Pins());
      if status != OK {
        ghost var m := bpm.Store();
        var deleted := bpm.DeletePage(pageId);
        NewPageGivenBack(a, m, bpm.Store(), pageId);
        return;
      }
      MakeNewPageStep(a, bpm.Store(), pageId, record);
    }

    /** Adds a page for the record after the last page of the chain. */
    method AppendNewPage(previous: nat, record: Bytes) returns (status: StatusCode, rid: RecordID)
      requires bpm.Valid() && HasPage(previous)
      modifies bpm.Repr
      ensures bpm.Valid() && bpm.Pins() == old(bpm.Pins())
      ensures status == OK ==> rid.pageId > 0 && rid.slotId == 0 && AppendStep(old(bpm.Store()), bpm.Store(), previous, rid.pageId, record)
      ensures status != OK ==> Extends(old(bpm.Store()), bpm.Store())
      ensures status != OK && old(bpm.Ready()) ==> bpm.Store() == old(bpm.Store()) && status in {OUT_OF_MEMORY, INVALID_ARGUMENT}
      ensures status == INVALID_ARGUMENT ==> record == [] || |record| > PAGE_SIZE
      ensures old(bpm.Ready()) ==> status == if |old(bpm.Store())| >= bpm.disk.capacity then OUT_OF_MEMORY else InsertStatus([], record)
    {
      hide *;
      PageParts(previous);
      ghost var a := bpm.Store();
      rid := RecordID(INVALID_PAGE_ID, 0);
      var newPageId;
      status, newPageId := NewRecordPage(record);
      if status != OK {
        return;
      }
      ghost var m := bpm.Store();
      NewPageParts(a, m, newPageId, record);
      HasNewPage(newPageId, previous, record);
      var linked;
      linked, status := LinkOnePage(previous, newPageId);
      if !linked {
        bpm.PinsInStore();
        var deleted := bpm.DeletePage(newPageId);
        StoreExtends(a, bpm.Store(), newPageId);
        return;
      }
      MakeAppendStep(a, m, bpm.Store(), previous, newPageId, record);
      rid := RecordID(newPageId, 0);
    }

    lemma HasNewPage(pageId: nat, previous: nat, record: Bytes)
      requires bpm.Valid() && pageId in bpm.Store() && HoldsRecord(bpm.Store()[pageId], pageId, record)
      requires previous in bpm.Store() && Ok(bpm.Store()[previous], previous)
      ensures HasPage(pageId) && HasPage(previous) && 0 <= pageId < MAX_PAGES
      ensures bpm.Ready() <==> bpm.disk.reliable && |bpm.Pins()| < |bpm.pages|
    {
      hide Ok;
      bpm.InStore(pageId);
      bpm.ReadyParts();
    }

    lemma HasChainPage(first: int, chain: seq<nat>, k: nat)
      requires bpm.Valid() && HeapChain(bpm.Store(), first, chain) && k < |chain|
      ensures HasPage(chain[k])
      ensures bpm.Ready() <==> bpm.disk.reliable && |bpm.Pins()| < |bpm.pages|
    {
      assert chain[k] in chain;
      hide Ok;
      bpm.ReadyParts();
    }

    /** Stores a record in the first page of the chain that has room for it, or in a new page. */
    method InsertRecord(record: Bytes) returns (status: StatusCode, rid: RecordID)
      requires bpm.Valid() && HeapOk(bpm.Store(), firstPageId)
      modifies bpm.Repr
      ensures bpm.Valid() && bpm.Pins() == old(bpm.Pins())
      ensures RowInserted(old(bpm.Store()), bpm.Store(), firstPageId, record, status, rid)
      ensures old(bpm.Ready()) ==> RowInsertedReliably(old(bpm.Store()), bpm.Store(), firstPageId, record, status, bpm.disk.capacity)
    {
      hide *;
      ghost var a := bpm.Store();
      ghost var chain := ChainOf(a, firstPageId);
      ghost var k := 0;
      InsertRefusedOutcome(a, firstPageId, record);
      bpm.ReadyParts();
      rid := RecordID(INVALID_PAGE_ID, 0);
      if |record| == 0 {
        return INVALID_ARGUMENT, rid;
      }
      var visited: set<int> := {};
      NotBeenYet(chain, k);
      var current := firstPageId;
      HeapStart(a, firstPageId);
      while current != INVALID_PAGE_ID
        invariant bpm.Valid() && bpm.Pins() == old(bpm.Pins()) && bpm.Store() == a
        invariant k < |chain| && current == chain[k]
        invariant BeenAt(visited, chain, k)
        invariant forall j: nat :: j < k ==> InsertStatus(SlotsAt(a, chain[j]), record) == OUT_OF_MEMORY
        decreases |chain| - k
      {
        WalkStep(a, firstPageId, chain, k);
        NextIsNew(visited, chain, k);
        if current in visited {
          assert false;
        }
        visited := visited + {current};
        HasChainPage(firstPageId, chain, k);
        var fetched, slotId, next;
        fetched, status, slotId, next := InsertIntoOnePage(current, record);
        if !fetched {
          InsertRefusedOutcome(a, firstPageId, record);
          return;
        }
        InsertStepOutcome(a, bpm.Store(), firstPageId, chain, current, record, status, slotId, next);
        if status == OK {
          rid := RecordID(current, slotId);
          InsertedInChain(a, bpm.Store(), firstPageId, chain, k, record, slotId);
          return;
        }
        if status != OUT_OF_MEMORY {
          InsertInvalid(a, firstPageId, record, SlotsAt(a, current), status);
          return;
        }
        if next != INVALID_PAGE_ID {
          current := next;
          k := k + 1;
          continue;
        }
        HasChainPage(firstPageId, chain, k);
        status, rid := AppendNewPage(current, record);
        AppendOutcome(a, bpm.Store(), firstPageId, chain, record, status, rid, bpm.disk.capacity);
        return;
      }
      assert false;
    }

    lemma HasHeapPage(first: int, pageId: nat)
      requires bpm.Valid() && HeapOk(bpm.Store(), first) && pageId in HeapPages(bpm.Store(), first)
      ensures HasPage(pageId)
    {
      hide Ok;
    }

    lemma ReadablePage(rid: RecordID)
      requires Readable(bpm.Store(), rid)
      ensures rid.pageId > HEADER_PAGE_ID && HasPage(rid.pageId) && RowAt(bpm.Store(), rid).Some?
    {
      hide Ok;
    }

    /** The record stored under `rid`, which may be on any page that holds records: whether
        the page belongs to this file is not checked. */
    method GetRecord(rid: RecordID) returns (status: StatusCode, record: Bytes)
      requires bpm.Valid()
      requires rid.pageId > HEADER_PAGE_ID ==> HasPage(rid.pageId)
      modifies bpm.Repr
      ensures bpm.Valid() && bpm.Pins() == old(bpm.Pins()) && bpm.Store() == old(bpm.Store())
      ensures rid.pageId <= HEADER_PAGE_ID ==> status == INVALID_ARGUMENT
      ensures status in {OK, NOT_FOUND, INVALID_ARGUMENT}
      ensures status == OK ==> RowAt(old(bpm.Store()), rid) == Some(record)
      ensures old(bpm.Ready()) && rid.pageId > HEADER_PAGE_ID ==> ReadIs(old(bpm.Store()), rid, status, record)
    {
      ReadIsParts(bpm.Store(), rid);
      hide *;
      record := [];
      if rid.pageId <= HEADER_PAGE_ID {
        return INVALID_ARGUMENT, record;
      }
      var fetched;
      fetched, status, record := ReadOnePage(rid.pageId, rid.slotId);
    }

    /** Replaces the record stored under `rid`, in whichever heap file has its page. */
    method UpdateRecord(rid: RecordID, record: Bytes) returns (status: StatusCode)
      requires bpm.Valid() && (rid.pageId > HEADER_PAGE_ID ==> HasPage(rid.pageId))
      modifies bpm.Repr
      ensures bpm.Valid() && bpm.Pins() == old(bpm.Pins())
      ensures forall first: int :: RowOfFile(old(bpm.Store()), first, rid) ==>
                && RowUpdated(old(bpm.Store()), bpm.Store(), first, rid, record, status)
                && (old(bpm.Ready()) ==> RowUpdatedReliably(old(bpm.Store()), bpm.Store(), first, rid, record, status))
    {
      ghost var a := bpm.Store();
      forall first: int { RowUpdateParts(a, first, rid, record); }
      hide *;
      if rid.pageId <= HEADER_PAGE_ID {
        return INVALID_ARGUMENT;
      }
      if |record| == 0 {
        return INVALID_ARGUMENT;
      }
      var fetched;
      fetched, status := UpdateOnePage(rid.pageId, rid.slotId, record);
      if fetched {
        forall first: int | RowOfFile(a, first, rid)
          ensures RowUpdated(a, bpm.Store(), first, rid, record, status) && RowUpdatedReliably(a, bpm.Store(), first, rid, record, status)
        {
          RowOfFileParts(a, first, rid);
          UpdateStepOutcome(a, bpm.Store(), first, rid, record, status);
        }
      }
    }

    /** Deletes the record stored under `rid`, in whichever heap file has its page. */
    method DeleteRecord(rid: RecordID) returns (status: StatusCode)
      requires bpm.Valid() && (rid.pageId > HEADER_PAGE_ID ==> HasPage(rid.pageId))
      modifies bpm.Repr
      ensures bpm.Valid() && bpm.Pins() == old(bpm.Pins())
      ensures forall first: int :: RowOfFile(old(bpm.Store()), first, rid) ==>
                && RowDeleted(old(bpm.Store()), bpm.Store(), first, rid, status)
                && (old(bpm.Ready()) ==> RowDeletedReliably(old(bpm.Store()), bpm.Store(), first, rid, status))
    {
      ghost var a := bpm.Store();
      forall first: int { RowDeleteParts(a, first, rid); }
      hide *;
      if rid.pageId <= HEADER_PAGE_ID {
        return INVALID_ARGUMENT;
      }
      var fetched;
      fetched, status := DeleteOnePage(rid.pageId, rid.slotId);
      if fetched {
        forall first: int | RowOfFile(a, first, rid)
          ensures RowDeleted(a, bpm.Store(), first, rid, status) && RowDeletedReliably(a, bpm.Store(), first, rid, status)
        {
          RowOfFileParts(a, first, rid);
          DeleteStepOutcome(a, bpm.Store(), first, rid, status);
        }
      }
    }

    /** Whether a page belongs to the heap file. */
    method ContainsPage(pageId: int) returns (status: StatusCode, contains: bool)
      requires bpm.Valid() && HeapOk(bpm.Store(), firstPageId)
      modifies bpm.Repr
      ensures bpm.Valid() && bpm.Pins() == old(bpm.Pins()) && bpm.Store() == old(bpm.Store())
      ensures status == OK ==> pageId > HEADER_PAGE_ID && (contains <==> pageId in HeapPages(old(bpm.Store()), firstPageId))
      ensures pageId <= HEADER_PAGE_ID ==> status == INVALID_ARGUMENT
      ensures pageId > HEADER_PAGE_ID && old(bpm.Ready()) ==> status == OK
    {
      hide *;
      contains := false;
      if pageId <= HEADER_PAGE_ID {
        return INVALID_ARGUMENT, contains;
      }
      ghost var a := bpm.Store();
      ghost var chain := ChainOf(a, firstPageId);
      ghost var k := 0;
      bpm.ReadyParts();
      HeapStart(a, firstPageId);
      HeapIs(a, firstPageId, chain);
      var visited: set<int> := {};
      NotBeenYet(chain, k);
      var current := firstPageId;
      while current != INVALID_PAGE_ID
        invariant bpm.Valid() && bpm.Pins() == old(bpm.Pins()) && bpm.Store() == a
        invariant k <= |chain| && current == if k < |chain| then chain[k] else INVALID_PAGE_ID
        invariant BeenAt(visited, chain, k)
        invariant pageId !in chain[..k]
        decreases |chain| - k
      {
        WalkStep(a, firstPageId, chain, k);
        NextIsNew(visited, chain, k);
        if current in visited {
          assert false;
        }
        visited := visited + {current};
        if current == pageId {
          return OK, true;
        }
        HasChainPage(firstPageId, chain, k);
        var fetched, next := NextOfPage(current);
        if !fetched {
          return IO_ERROR, contains;
        }
        current := next;
        k := k + 1;
        assert chain[..k] == chain[..k - 1] + [chain[k - 1]];
      }
      assert chain[..k] == chain;
      status := OK;
    }

    /** One page of the walk of FindRecordFrom: the first live record from slot
        `firstSlot` on, and the link to the next page. */
    method FindInOnePage(pageId: nat, firstSlot: nat) returns (fetched: bool, status: StatusCode, slotId: nat, record: Bytes, next: int)
      requires bpm.Valid() && HasPage(pageId)
      modifies bpm.Repr
      ensures bpm.Valid() && bpm.Pins() == old(bpm.Pins()) && bpm.Store() == old(bpm.Store())
      ensures !fetched ==> !old(bpm.Ready())
      ensures fetched ==> FoundInPage(old(bpm.Store()), pageId, firstSlot, status, slotId, record)
      ensures fetched ==> pageId in old(bpm.Store()) && next == NextPageId(old(bpm.Store())[pageId])
    {
      hide *;
      PageParts(pageId);
      status, slotId, record, next := IO_ERROR, 0, [], INVALID_PAGE_ID;
      var page := bpm.FetchPage(pageId);
      if page == null {
        return false, status, slotId, record, next;
      }
      bpm.HoldsParts(page, pageId);
      var slottedPage := new SlottedPage(page);
      var initialized := slottedPage.IsInitialized();
      if !initialized {
        assert false;
      }
      var slotCount := slottedPage.GetSlotCount();
      next := slottedPage.GetNextPageId();
      fetched := true;
      ghost var a := bpm.Store();
      ghost var slots := SlotsAt(a, pageId);
      SlotCountIs(a, pageId);
      status := NOT_FOUND;
      slotId := firstSlot;
      while slotId < slotCount && status == NOT_FOUND
        invariant status in {NOT_FOUND, OK}
        invariant status == NOT_FOUND ==> LiveFrom(slots, pageId, firstSlot) == LiveFrom(slots, pageId, slotId)
        invariant page.data[..] == a[pageId]
        invariant status == OK ==> FoundInPage(a, pageId, firstSlot, status, slotId, record)
        modifies {}
        decreases if status == NOT_FOUND then 1 else 0, slotCount - slotId
      {
        LiveStep(slots, pageId, slotId);
        var candidate;
        status, candidate := slottedPage.ReadRecord(slotId);
        MakeReadIs(a, pageId, slotId, status, candidate);
        ReadAtSlot(a, pageId, firstSlot, slotId, status, candidate);
        if status == OK {
          record := candidate;
        } else {
          slotId := slotId + 1;
        }
      }
      if status == NOT_FOUND {
        LiveStep(slots, pageId, slotId);
        NothingInPage(a, pageId, firstSlot, slotId, record);
      }
      var unpinned := bpm.UnpinPage(pageId, false);
    }

    /** The first live record from slot `firstSlot` of `pageId` on, in the scan order of the
        heap file that has the page; `owner` is its first page. */
    method FindRecordFrom(pageId: int, firstSlot: nat, ghost owner: int) returns (status: StatusCode, record: Bytes, rid: RecordID)
      requires bpm.Valid() && HeapOk(bpm.Store(), owner) && pageId in HeapPages(bpm.Store(), owner)
      modifies bpm.Repr
      ensures bpm.Valid() && bpm.Pins() == old(bpm.Pins()) && bpm.Store() == old(bpm.Store())
      ensures FoundRow(old(bpm.Store()), owner, ScanFrom(old(bpm.Store()), owner, pageId, firstSlot), status, record, rid)
      ensures old(bpm.Ready()) ==> status in {OK, NOT_FOUND}
    {
      hide *;
      ghost var a := bpm.Store();
      ghost var chain := ChainOf(a, owner);
      ghost var remaining := ScanFrom(a, owner, pageId, firstSlot);
      ScanParts(a, owner);
      ScanOrderIs(a, owner);
      HeapIs(a, owner, chain);
      NotFoundYet(a, owner, remaining);
      bpm.ReadyParts();
      ghost var k: nat :| k < |chain| && chain[k] == pageId;
      ghost var start := k;
      PagesFromIs(chain, k);
      HeapStart(a, owner);
      record, rid := [], RecordID(INVALID_PAGE_ID, 0);
      var visited: set<int> := {};
      NotBeenYet(chain, k);
      var current, slot := pageId, firstSlot;
      while current != INVALID_PAGE_ID
        invariant bpm.Valid() && bpm.Pins() == old(bpm.Pins()) && bpm.Store() == a
        invariant start <= k <= |chain| && current == if k < |chain| then chain[k] else INVALID_PAGE_ID
        invariant BeenAt(visited, chain, k)
        invariant remaining == RidsFrom(a, chain[k..], slot)
        decreases |chain| - k
      {
        WalkStep(a, owner, chain, k);
        NextIsNew(visited, chain, k);
        if current in visited {
          assert false;
        }
        visited := visited + {current};
        HasChainPage(owner, chain, k);
        var fetched, slotId, found, next;
        fetched, status, slotId, found, next := FindInOnePage(current, slot);
        if !fetched {
          return IO_ERROR, record, rid;
        }
        PageScanOutcome(a, owner, chain, k, slot, status, slotId, found);
        if status == OK {
          record, rid := found, RecordID(current, slotId);
          return;
        }
        current := next;
        slot := 0;
        k := k + 1;
      }
      EndOfScan(a, chain[k..], slot);
      status := NOT_FOUND;
    }

    /** The first record of the scan. */
    method GetFirstRecord() returns (status: StatusCode, record: Bytes, rid: RecordID)
      requires bpm.Valid() && HeapOk(bpm.Store(), firstPageId)
      modifies bpm.Repr
      ensures bpm.Valid() && bpm.Pins() == old(bpm.Pins()) && bpm.Store() == old(bpm.Store())
      ensures FoundRow(old(bpm.Store()), firstPageId, ScanOrder(old(bpm.Store()), firstPageId), status, record, rid)
      ensures old(bpm.Ready()) ==> status in {OK, NOT_FOUND}
    {
      hide HeapOk, BufferPoolManager.Valid, FoundRow, ChainOf, HeapChain, RidsFrom, PagesFrom;
      HeapStart(bpm.Store(), firstPageId);
      HeapIs(bpm.Store(), firstPageId, ChainOf(bpm.Store(), firstPageId));
      status, record, rid := FindRecordFrom(firstPageId, 0, firstPageId);
    }

    /** The record that follows `current` in the scan of the heap file that has its page. */
    method GetNextRecord(current: RecordID, ghost owner: int) returns (status: StatusCode, record: Bytes, rid: RecordID)
      requires bpm.Valid() && HeapOk(bpm.Store(), owner)
      requires current.pageId > HEADER_PAGE_ID ==> current.pageId in HeapPages(bpm.Store(), owner)
      modifies bpm.Repr
      ensures bpm.Valid() && bpm.Pins() == old(bpm.Pins()) && bpm.Store() == old(bpm.Store())
      ensures current.pageId <= HEADER_PAGE_ID ==> status == INVALID_ARGUMENT
      ensures FoundRow(old(bpm.Store()), owner,
                       ScanFrom(old(bpm.Store()), owner, current.pageId, current.slotId + 1), status, record, rid)
      ensures old(bpm.Ready()) && current.pageId > HEADER_PAGE_ID ==> status in {OK, NOT_FOUND}
    {
      hide *;
      record, rid := [], RecordID(INVALID_PAGE_ID, 0);
      NotFoundYet(bpm.Store(), owner, ScanFrom(bpm.Store(), owner, current.pageId, current.slotId + 1));
      if current.pageId <= HEADER_PAGE_ID {
        return INVALID_ARGUMENT, record, rid;
      }
      status, record, rid := FindRecordFrom(current.pageId, current.slotId + 1, owner);
    }
  }
}
