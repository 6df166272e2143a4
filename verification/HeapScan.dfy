// The order in which a heap file is scanned: along the page chain, and in slot order
// within a page.
module HeapScans {
  import opened Common
  import opened SlottedFormat
  import opened PageChains
  import opened HeapStates

  /** The live slots of one page from slot `from` on. */
  function LiveFrom(slots: Slots, page: int, from: nat): seq<RecordID>
    decreases |slots| - from
  {
    if from >= |slots| then []
    else (if slots[from].Some? then [RecordID(page, from)] else []) + LiveFrom(slots, page, from + 1)
  }

  /** The live records of the pages of `chain`, from slot `from` of the first page on. */
  function RidsFrom(store: Store, chain: seq<nat>, from: nat): seq<RecordID> {
    if chain == [] then []
    else LiveFrom(SlotsAt(store, chain[0]), chain[0], from) + RidsFrom(store, chain[1..], 0)
  }

  /** The part of the chain that starts at `page`. */
  function PagesFrom(chain: seq<nat>, page: int): seq<nat> {
    if chain == [] || chain[0] == page then chain else PagesFrom(chain[1..], page)
  }

  /** The records that remain to be scanned from slot `from` of `page` on. */
  ghost function ScanFrom(store: Store, first: int, page: int, from: nat): seq<RecordID> {
    RidsFrom(store, PagesFrom(ChainOf(store, first), page), from)
  }

  /** The records of a heap file in scan order. */
  ghost function ScanOrder(store: Store, first: int): seq<RecordID> {
    ScanFrom(store, first, first, 0)
  }

  // ---- Every live record exactly once ----

  ghost predicate NoRepeats(chain: seq<nat>) {
    chain == [] || (chain[0] !in chain[1..] && NoRepeats(chain[1..]))
  }

  lemma {:induction false} DistinctNoRepeats(chain: seq<nat>)
    requires forall x: nat, y: nat :: x < y < |chain| ==> chain[x] != chain[y]
    ensures NoRepeats(chain)
    decreases |chain|
  {
    if chain != [] {
      forall x: nat, y: nat | x < y < |chain[1..]| ensures chain[1..][x] != chain[1..][y] {
        assert chain[x + 1] != chain[y + 1];
      }
      DistinctNoRepeats(chain[1..]);
    }
  }

  lemma HeapNoRepeats(store: Store, first: int, chain: seq<nat>)
    requires HeapChain(store, first, chain)
    ensures NoRepeats(chain) && chain != [] && chain[0] == first
  {
    Distinct(HeapLinks(store), first, chain);
    DistinctNoRepeats(chain);
  }

  lemma {:induction false} LiveFromMembers(slots: Slots, page: int, from: nat, rid: RecordID)
    ensures rid in LiveFrom(slots, page, from) <==> rid.pageId == page && from <= rid.slotId && Lookup(slots, rid.slotId).Some?
    decreases |slots| - from
  {
    if from < |slots| {
      LiveFromMembers(slots, page, from + 1, rid);
      if rid == RecordID(page, from) && slots[from].Some? {
        assert LiveFrom(slots, page, from)[0] == rid;
      }
    }
  }

  lemma {:induction false} LiveFromOnce(slots: Slots, page: int, from: nat, i: nat, j: nat)
    requires i < j < |LiveFrom(slots, page, from)|
    ensures LiveFrom(slots, page, from)[i] != LiveFrom(slots, page, from)[j]
    decreases |slots| - from
  {
    var rest := LiveFrom(slots, page, from + 1);
    if slots[from].None? {
      assert LiveFrom(slots, page, from) == rest;
      LiveFromOnce(slots, page, from + 1, i, j);
    } else if i > 0 {
      LiveFromOnce(slots, page, from + 1, i - 1, j - 1);
    } else {
      LiveFromMembers(slots, page, from + 1, rest[j - 1]);
    }
  }

  lemma {:induction false} RidsFromMembers(store: Store, chain: seq<nat>, rid: RecordID)
    ensures rid in RidsFrom(store, chain, 0) <==> rid.pageId in chain && RowAt(store, rid).Some?
    decreases |chain|
  {
    if chain != [] {
      LiveFromMembers(SlotsAt(store, chain[0]), chain[0], 0, rid);
      RidsFromMembers(store, chain[1..], rid);
      hide SlotsAt, LiveFrom;
    }
  }

  lemma {:induction false} RidsFromOnce(store: Store, chain: seq<nat>, i: nat, j: nat)
    requires NoRepeats(chain)
    requires i < j < |RidsFrom(store, chain, 0)|
    ensures RidsFrom(store, chain, 0)[i] != RidsFrom(store, chain, 0)[j]
    decreases |chain|
  {
    var here, rest := LiveFrom(SlotsAt(store, chain[0]), chain[0], 0), RidsFrom(store, chain[1..], 0);
    assert RidsFrom(store, chain, 0) == here + rest;
    if j < |here| {
      LiveFromOnce(SlotsAt(store, chain[0]), chain[0], 0, i, j);
    } else if i >= |here| {
      RidsFromOnce(store, chain[1..], i - |here|, j - |here|);
    } else {
      LiveFromMembers(SlotsAt(store, chain[0]), chain[0], 0, here[i]);
      RidsFromMembers(store, chain[1..], rest[j - |here|]);
    }
  }

  /** A scan lists every row of the heap file, and none twice. */
  lemma ScanListsEachRowOnce(store: Store, first: int)
    requires HeapOk(store, first)
    ensures forall rid: RecordID :: rid in ScanOrder(store, first) <==> rid in HeapRows(store, first)
    ensures forall i: nat, j: nat :: i < j < |ScanOrder(store, first)| ==> ScanOrder(store, first)[i] != ScanOrder(store, first)[j]
  {
    var chain := ChainOf(store, first);
    HeapIs(store, first, chain);
    HeapNoRepeats(store, first, chain);
    assert PagesFrom(chain, first) == chain;
    hide HeapOk, RowAt, LiveFrom, ChainOf, PagesFrom, RowsIn, HeapRows;
    forall rid: RecordID ensures rid in ScanOrder(store, first) <==> rid in HeapRows(store, first) {
      RidsFromMembers(store, chain, rid);
    }
    hide RidsFrom;
    forall i: nat, j: nat | i < j < |ScanOrder(store, first)| ensures ScanOrder(store, first)[i] != ScanOrder(store, first)[j] {
      RidsFromOnce(store, chain, i, j);
    }
  }

  // ---- Resuming a scan ----

  lemma {:induction false} LiveFromResume(slots: Slots, page: int, from: nat, i: nat)
    requires i < |LiveFrom(slots, page, from)|
    ensures LiveFrom(slots, page, from)[i].pageId == page
    ensures LiveFrom(slots, page, LiveFrom(slots, page, from)[i].slotId + 1) == LiveFrom(slots, page, from)[i + 1..]
    decreases |slots| - from
  {
    var rest := LiveFrom(slots, page, from + 1);
    if slots[from].None? {
      assert LiveFrom(slots, page, from) == rest;
      LiveFromResume(slots, page, from + 1, i);
    } else if i > 0 {
      LiveFromResume(slots, page, from + 1, i - 1);
      assert LiveFrom(slots, page, from)[i + 1..] == rest[i..];
    } else {
      assert LiveFrom(slots, page, from)[1..] == rest;
    }
  }

  /** Continuing after the `i`-th record of a scan yields the records after it. */
  lemma {:induction false} RidsResume(store: Store, chain: seq<nat>, from: nat, i: nat)
    requires NoRepeats(chain)
    requires i < |RidsFrom(store, chain, from)|
    ensures RidsFrom(store, PagesFrom(chain, RidsFrom(store, chain, from)[i].pageId), RidsFrom(store, chain, from)[i].slotId + 1)
         == RidsFrom(store, chain, from)[i + 1..]
    decreases |chain|
  {
    hide *;
    RidsParts(store, chain, from);
    var slots, rest := SlotsAt(store, chain[0]), RidsFrom(store, chain[1..], 0);
    var here := LiveFrom(slots, chain[0], from);
    var rid := RidsFrom(store, chain, from)[i];
    if i < |here| {
      LiveFromResume(slots, chain[0], from, i);
      RidsParts(store, chain, rid.slotId + 1);
      PagesFromParts(chain, rid.pageId);
      assert (here + rest)[i + 1..] == here[i + 1..] + rest;
    } else {
      RidsResume(store, chain[1..], 0, i - |here|);
      assert rid == rest[i - |here|] && rid in rest;
      RidsFromMembers(store, chain[1..], rid);
      PagesFromParts(chain, rid.pageId);
      assert (here + rest)[i + 1..] == rest[i + 1 - |here|..];
    }
  }

  lemma RidsParts(store: Store, chain: seq<nat>, from: nat)
    ensures chain == [] ==> RidsFrom(store, chain, from) == []
    ensures chain != [] ==>
              RidsFrom(store, chain, from) == LiveFrom(SlotsAt(store, chain[0]), chain[0], from) + RidsFrom(store, chain[1..], 0)
    ensures chain != [] && NoRepeats(chain) ==> chain[0] !in chain[1..] && NoRepeats(chain[1..])
  {
    hide LiveFrom, SlotsAt;
  }

  lemma PagesFromParts(chain: seq<nat>, page: int)
    ensures chain == [] || chain[0] == page ==> PagesFrom(chain, page) == chain
    ensures chain != [] && chain[0] != page ==> PagesFrom(chain, page) == PagesFrom(chain[1..], page)
  {
  }

  /** GetNextRecord after the `i`-th record of the scan continues with the next one. */
  lemma ScanResumes(store: Store, first: int, i: nat)
    requires HeapOk(store, first) && i < |ScanOrder(store, first)|
    ensures ScanFrom(store, first, ScanOrder(store, first)[i].pageId, ScanOrder(store, first)[i].slotId + 1)
         == ScanOrder(store, first)[i + 1..]
    ensures ScanOrder(store, first)[i].pageId in HeapPages(store, first) && ScanOrder(store, first)[i].pageId > HEADER_PAGE_ID
    ensures ScanOrder(store, first)[i] in HeapRows(store, first)
  {
    hide *;
    ScanParts(store, first);
    ScanOrderIs(store, first);
    var chain := ChainOf(store, first);
    var rid := RidsFrom(store, chain, 0)[i];
    assert rid in RidsFrom(store, chain, 0);
    RidsFromMembers(store, chain, rid);
    RidsResume(store, chain, 0, i);
  }

  lemma ScanParts(store: Store, first: int)
    requires HeapOk(store, first)
    ensures HeapChain(store, first, ChainOf(store, first))
    ensures NoRepeats(ChainOf(store, first)) && PagesFrom(ChainOf(store, first), first) == ChainOf(store, first)
    ensures forall p: nat :: p in ChainOf(store, first) ==> p > 0 && p in store && p in HeapPages(store, first)
    ensures HEADER_PAGE_ID == 0
    ensures forall rid: RecordID :: rid in HeapRows(store, first) <==> rid.pageId in ChainOf(store, first) && RowAt(store, rid).Some?
  {
    var chain := ChainOf(store, first);
    HeapIs(store, first, chain);
    HeapNoRepeats(store, first, chain);
    ChainIsPositive(store, first, chain);
    hide HeapOk, RowAt, HeapPages, HeapChain, ChainOf, HeapRows, NoRepeats;
    assert PagesFrom(chain, first) == chain;
  }

  lemma ScanOrderIs(store: Store, first: int)
    requires PagesFrom(ChainOf(store, first), first) == ChainOf(store, first)
    ensures ScanOrder(store, first) == RidsFrom(store, ChainOf(store, first), 0)
    ensures forall page: int, from: nat :: ScanFrom(store, first, page, from) == RidsFrom(store, PagesFrom(ChainOf(store, first), page), from)
  {
    hide ChainOf, RidsFrom, PagesFrom;
  }

  lemma ChainIsPositive(store: Store, first: int, chain: seq<nat>)
    requires HeapChain(store, first, chain)
    ensures forall p: nat :: p in chain ==> p > 0 && p in store
  {
    hide Ok;
  }

  // ---- One step of a scan ----

  /** The pages from position `k` on. */
  lemma {:induction false} PagesFromIs(chain: seq<nat>, k: nat)
    requires NoRepeats(chain)
    requires k < |chain|
    ensures PagesFrom(chain, chain[k]) == chain[k..]
    decreases |chain|
  {
    if k > 0 {
      PagesFromIs(chain[1..], k - 1);
      assert chain[1..][k - 1..] == chain[k..];
    }
  }

  /** What the scan of one page from slot `from` on finds. */
  ghost predicate FoundInPage(store: Store, page: nat, from: nat, status: StatusCode, slot: nat, record: Bytes) {
    var live := LiveFrom(SlotsAt(store, page), page, from);
    if live == [] then status == NOT_FOUND
    else status == OK && live[0] == RecordID(page, slot) && RowAt(store, RecordID(page, slot)) == Some(record)
  }

  lemma LiveStep(slots: Slots, page: int, from: nat)
    ensures from >= |slots| ==> LiveFrom(slots, page, from) == []
    ensures from < |slots| && slots[from].None? ==> LiveFrom(slots, page, from) == LiveFrom(slots, page, from + 1)
    ensures from < |slots| && slots[from].Some? ==> LiveFrom(slots, page, from) != [] && LiveFrom(slots, page, from)[0] == RecordID(page, from)
  {
  }

  /** What GetFirstRecord and GetNextRecord find when `remaining` is left to be scanned. */
  ghost predicate FoundRow(store: Store, first: int, remaining: seq<RecordID>, status: StatusCode, record: Bytes, rid: RecordID) {
    && (status == OK ==>
          && remaining != [] && rid == remaining[0]
          && rid in HeapRows(store, first) && record == HeapRows(store, first)[rid])
    && (status == NOT_FOUND ==> remaining == [])
  }

  lemma NotFoundYet(store: Store, first: int, remaining: seq<RecordID>)
    ensures forall status: StatusCode, record: Bytes, rid: RecordID :: status != OK && status != NOT_FOUND ==>
              FoundRow(store, first, remaining, status, record, rid)
    ensures remaining == [] ==> forall record: Bytes, rid: RecordID :: FoundRow(store, first, remaining, NOT_FOUND, record, rid)
  {
    hide HeapRows;
  }

  lemma PageScanOutcome(store: Store, first: int, chain: seq<nat>, k: nat, from: nat, status: StatusCode, slot: nat, record: Bytes)
    requires HeapChain(store, first, chain) && k < |chain|
    requires FoundInPage(store, chain[k], from, status, slot, record)
    ensures status in {OK, NOT_FOUND}
    ensures status == OK ==> FoundRow(store, first, RidsFrom(store, chain[k..], from), OK, record, RecordID(chain[k], slot))
    ensures status == NOT_FOUND ==> RidsFrom(store, chain[k..], from) == RidsFrom(store, chain[k + 1..], 0)
  {
    HeapIs(store, first, chain);
    assert chain[k] in chain && chain[k..][1..] == chain[k + 1..];
    hide HeapChain, HeapRows, LiveFrom, HeapOk, ChainOf;
    assert RidsFrom(store, chain[k..], from) == LiveFrom(SlotsAt(store, chain[k]), chain[k], from) + RidsFrom(store, chain[k + 1..], 0);
  }

  lemma SlotCountIs(store: Store, page: nat)
    requires page in store && Ok(store[page], page)
    ensures |SlotsAt(store, page)| == SlotCount(store[page])
  {
    hide Ok;
  }

  lemma ReadAtSlot(store: Store, page: nat, from: nat, slot: nat, status: StatusCode, record: Bytes)
    requires ReadIs(store, RecordID(page, slot), status, record) && slot < |SlotsAt(store, page)|
    requires LiveFrom(SlotsAt(store, page), page, from) == LiveFrom(SlotsAt(store, page), page, slot)
    ensures status == OK || status == NOT_FOUND
    ensures status == OK ==> SlotsAt(store, page)[slot].Some? && FoundInPage(store, page, from, OK, slot, record)
    ensures status == NOT_FOUND ==> SlotsAt(store, page)[slot].None?
  {
    hide SlotsAt;
  }

  lemma NothingInPage(store: Store, page: nat, from: nat, slot: nat, record: Bytes)
    requires LiveFrom(SlotsAt(store, page), page, from) == []
    ensures FoundInPage(store, page, from, NOT_FOUND, slot, record)
  {
    hide SlotsAt, LiveFrom, RowAt;
  }

  lemma EndOfScan(store: Store, chain: seq<nat>, from: nat)
    requires chain == []
    ensures RidsFrom(store, chain, from) == []
  {
  }

  /** Changes elsewhere do not disturb a scan. */
  lemma ScanFrame(a: Store, b: Store, first: int)
    requires HeapOk(a, first)
    requires forall p: nat :: p in HeapPages(a, first) ==> p in b && (p in a ==> b[p] == a[p])
    ensures ScanOrder(b, first) == ScanOrder(a, first)
    ensures forall page: int, from: nat :: ScanFrom(b, first, page, from) == ScanFrom(a, first, page, from)
  {
    var chain := ChainOf(a, first);
    HeapChainFrame(a, b, first);
    HeapIs(a, first, chain);
    assert forall p: nat :: p in chain ==> p in a;
    hide HeapOk, ChainOf, HeapPages, SlotsOf;
    forall page: int, from: nat ensures ScanFrom(b, first, page, from) == ScanFrom(a, first, page, from) {
      PagesFromSome(chain, page);
      RidsFrame(a, b, PagesFrom(chain, page), from);
    }
  }

  lemma {:induction false} PagesFromSome(chain: seq<nat>, page: int)
    ensures forall p: nat :: p in PagesFrom(chain, page) ==> p in chain
    decreases |chain|
  {
    if chain != [] && chain[0] != page {
      PagesFromSome(chain[1..], page);
    }
  }

  lemma {:induction false} RidsFrame(a: Store, b: Store, chain: seq<nat>, from: nat)
    requires forall p: nat :: p in chain ==> p in a && p in b && b[p] == a[p]
    ensures RidsFrom(b, chain, from) == RidsFrom(a, chain, from)
    decreases |chain|
  {
    if chain != [] {
      assert chain[0] in chain;
      RidsFrame(a, b, chain[1..], 0);
      hide LiveFrom, SlotsOf;
    }
  }
}
