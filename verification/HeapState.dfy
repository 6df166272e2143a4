// What the pages of a heap file mean: a finite map from record ids to records.
module HeapStates {
  import opened Common
  import opened SlottedFormat
  import opened PageChains

  type Rows = map<RecordID, Bytes>

  ghost function HeapLinks(store: Store): Links {
    map p | p in store :: NextPageId(store[p])
  }

  /** `chain` is the page chain of the heap file that starts at page `first`. */
  ghost predicate HeapChain(store: Store, first: int, chain: seq<nat>) {
    && chain != []
    && Linked(HeapLinks(store), first, chain)
    && forall p: nat :: p in chain ==> p >= 1 && p in store && Ok(store[p], p)
  }

  ghost predicate HeapOk(store: Store, first: int) {
    exists chain: seq<nat> :: HeapChain(store, first, chain)
  }

  /** The chain of a heap file; no pages at all if there is none. */
  ghost function ChainOf(store: Store, first: int): (chain: seq<nat>)
    ensures HeapOk(store, first) ==> HeapChain(store, first, chain)
  {
    if HeapOk(store, first) then
      var chain: seq<nat> :| HeapChain(store, first, chain);
      chain
    else
      []
  }

  lemma ChainIs(store: Store, first: int, chain: seq<nat>)
    requires HeapChain(store, first, chain)
    ensures HeapOk(store, first) && ChainOf(store, first) == chain
  {
    ChainIsUnique(HeapLinks(store), first, ChainOf(store, first), chain);
  }

  function Lookup(slots: Slots, i: nat): Option<Bytes> {
    if i < |slots| then slots[i] else None
  }

  function SlotsAt(store: Store, page: int): Slots {
    if page in store then SlotsOf(store[page]) else []
  }

  function RowAt(store: Store, rid: RecordID): Option<Bytes> {
    Lookup(SlotsAt(store, rid.pageId), rid.slotId)
  }

  ghost function RecordIds(store: Store, chain: seq<nat>): (rids: set<RecordID>)
    ensures forall rid :: rid in rids <==> rid.pageId in chain && RowAt(store, rid).Some?
  {
    set p, i | p in chain && 0 <= i < |SlotsAt(store, p)| && SlotsAt(store, p)[i].Some? :: RecordID(p, i)
  }

  /** The rows stored in the pages of `chain`. */
  ghost function RowsIn(store: Store, chain: seq<nat>): (rows: Rows)
    ensures forall rid :: rid in rows <==> rid.pageId in chain && RowAt(store, rid).Some?
    ensures forall rid :: rid in rows ==> RowAt(store, rid) == Some(rows[rid])
  {
    map rid | rid in RecordIds(store, chain) :: RowAt(store, rid).value
  }

  /** The rows of a heap file. */
  ghost function HeapRows(store: Store, first: int): Rows {
    RowsIn(store, ChainOf(store, first))
  }

  /** The pages of a heap file. */
  ghost function HeapPages(store: Store, first: int): set<nat> {
    set p | p in ChainOf(store, first)
  }

  lemma RowSet(a: Store, b: Store, chain: seq<nat>, rid: RecordID, record: Bytes)
    requires rid.pageId in chain && RowAt(b, rid) == Some(record)
    requires forall other: RecordID :: other.pageId in chain && other != rid ==> RowAt(b, other) == RowAt(a, other)
    ensures RowsIn(b, chain) == RowsIn(a, chain)[rid := record]
  {
    hide *;
  }

  lemma RowGone(a: Store, b: Store, chain: seq<nat>, rid: RecordID)
    requires RowAt(b, rid) == None
    requires forall other: RecordID :: other.pageId in chain && other != rid ==> RowAt(b, other) == RowAt(a, other)
    ensures RowsIn(b, chain) == RowsIn(a, chain) - {rid}
  {
    hide *;
  }

  /** The heap file at `first` goes from its state in `a` to rows `rows` in `b`, and
      no other owner's pages change. */
  ghost predicate HeapBecomes(a: Store, b: Store, first: int, rows: Rows) {
    && HeapOk(a, first) && HeapOk(b, first)
    && OwnChange(a, b, HeapPages(a, first), HeapPages(b, first))
    && HeapRows(b, first) == rows
  }

  /** Every page that has been allocated belongs to the heap file. */
  ghost predicate HeapKeepsNew(a: Store, b: Store, first: int) {
    HeapOk(b, first) ==> NewOwned(a, b, HeapPages(b, first))
  }

  // ---- What a change of pages does to the chain and the rows ----

  lemma ChainParts(store: Store, first: int, chain: seq<nat>, page: nat)
    requires HeapChain(store, first, chain) && page in chain
    ensures page >= 1 && page in store && Ok(store[page], page)
    ensures page in HeapLinks(store) && HeapLinks(store)[page] == NextPageId(store[page])
  {
  }

  /** Changing the records of one page keeps the chain. */
  lemma PageKeepsChain(a: Store, first: int, chain: seq<nat>, page: nat, c: Bytes)
    requires HeapChain(a, first, chain) && page in chain && page in a
    requires Ok(c, page) && NextPageId(c) == NextPageId(a[page])
    ensures HeapChain(a[page := c], first, chain)
  {
    hide Ok, NextPageId;
    LinkedFrame(HeapLinks(a), HeapLinks(a[page := c]), first, chain);
  }

  lemma OtherRows(a: Store, page: nat, c: Bytes)
    ensures forall rid: RecordID :: rid.pageId != page ==> RowAt(a[page := c], rid) == RowAt(a, rid)
    ensures forall rid: RecordID :: rid.pageId == page ==> RowAt(a[page := c], rid) == Lookup(SlotsOf(c), rid.slotId)
    ensures page in a ==> forall rid: RecordID :: rid.pageId == page ==> RowAt(a, rid) == Lookup(SlotsOf(a[page]), rid.slotId)
  {
    hide SlotsOf, Lookup;
  }

  lemma LookupWithRecord(slots: Slots, data: Bytes)
    ensures Lookup(slots, FirstHole(slots)) == None
    ensures Lookup(WithRecord(slots, FirstHole(slots), data), FirstHole(slots)) == Some(data)
    ensures forall i: nat :: i != FirstHole(slots) ==> Lookup(WithRecord(slots, FirstHole(slots), data), i) == Lookup(slots, i)
  {
    hide FirstHole;
  }

  lemma LookupUpdate(slots: Slots, i: nat, record: Option<Bytes>)
    requires i < |slots|
    ensures Lookup(slots[i := record], i) == record
    ensures forall j: nat :: j != i ==> Lookup(slots[i := record], j) == Lookup(slots, j)
    ensures Live(slots, i) ==> Lookup(slots, i).Some?
  {
  }

  lemma LookupDelete(slots: Slots, i: nat)
    requires i < |slots|
    ensures Lookup(Trim(slots[i := None]), i) == None
    ensures forall j: nat :: j != i ==> Lookup(Trim(slots[i := None]), j) == Lookup(slots, j)
    ensures Live(slots, i) ==> Lookup(slots, i).Some?
  {
    LookupUpdate(slots, i, None);
    var t := Trim(slots[i := None]);
    forall j: nat ensures Lookup(t, j) == Lookup(slots[i := None], j) {}
  }

  lemma InsertDoneParts(b: Bytes, c: Bytes, pageId: int, data: Bytes, slot: nat)
    requires InsertDone(b, c, pageId, data, OK, slot) && Ok(b, pageId)
    ensures slot == FirstHole(SlotsOf(b)) && Ok(c, pageId)
    ensures SlotsOf(c) == WithRecord(SlotsOf(b), slot, data) && NextPageId(c) == NextPageId(b)
  {
    hide Ok, SlotsOf, FirstHole, NextPageId, WithRecord, InsertStatus;
  }

  /** A record inserted into a page of the chain is a new row. */
  lemma InsertIntoPage(a: Store, first: int, chain: seq<nat>, page: nat, c: Bytes, slot: nat, data: Bytes)
    requires HeapChain(a, first, chain) && page in chain && page in a
    requires InsertDone(a[page], c, page, data, OK, slot)
    ensures HeapChain(a[page := c], first, chain)
    ensures RecordID(page, slot) !in RowsIn(a, chain)
    ensures RowsIn(a[page := c], chain) == RowsIn(a, chain)[RecordID(page, slot) := data]
  {
    hide *;
    ChainParts(a, first, chain, page);
    InsertDoneParts(a[page], c, page, data, slot);
    PageKeepsChain(a, first, chain, page, c);
    OtherRows(a, page, c);
    LookupWithRecord(SlotsOf(a[page]), data);
    RowSet(a, a[page := c], chain, RecordID(page, slot), data);
  }

  lemma UpdateDoneParts(b: Bytes, c: Bytes, pageId: int, slot: nat, data: Bytes)
    requires UpdateDone(b, c, pageId, slot, data, OK) && Ok(b, pageId)
    ensures Live(SlotsOf(b), slot) && slot < |SlotsOf(b)| && Ok(c, pageId)
    ensures SlotsOf(c) == SlotsOf(b)[slot := Some(data)] && NextPageId(c) == NextPageId(b)
  {
    hide Ok, SlotsOf, NextPageId;
  }

  /** A record replaced in a page of the chain is a row with a new value. */
  lemma UpdateInPage(a: Store, first: int, chain: seq<nat>, page: nat, c: Bytes, slot: nat, data: Bytes)
    requires HeapChain(a, first, chain) && page in chain && page in a
    requires UpdateDone(a[page], c, page, slot, data, OK)
    ensures HeapChain(a[page := c], first, chain)
    ensures RecordID(page, slot) in RowsIn(a, chain)
    ensures RowsIn(a[page := c], chain) == RowsIn(a, chain)[RecordID(page, slot) := data]
  {
    hide *;
    ChainParts(a, first, chain, page);
    UpdateDoneParts(a[page], c, page, slot, data);
    LookupUpdate(SlotsOf(a[page]), slot, Some(data));
    PageKeepsChain(a, first, chain, page, c);
    OtherRows(a, page, c);
    RowSet(a, a[page := c], chain, RecordID(page, slot), data);
  }

  lemma DeleteDoneParts(b: Bytes, c: Bytes, pageId: int, slot: nat)
    requires DeleteDone(b, c, pageId, slot, OK) && Ok(b, pageId)
    ensures Live(SlotsOf(b), slot) && slot < |SlotsOf(b)| && Ok(c, pageId)
    ensures SlotsOf(c) == Trim(SlotsOf(b)[slot := None]) && NextPageId(c) == NextPageId(b)
  {
    hide Ok, SlotsOf, NextPageId, Trim;
  }

  /** A record deleted from a page of the chain is a row less. */
  lemma DeleteFromPage(a: Store, first: int, chain: seq<nat>, page: nat, c: Bytes, slot: nat)
    requires HeapChain(a, first, chain) && page in chain && page in a
    requires DeleteDone(a[page], c, page, slot, OK)
    ensures HeapChain(a[page := c], first, chain)
    ensures RecordID(page, slot) in RowsIn(a, chain)
    ensures RowsIn(a[page := c], chain) == RowsIn(a, chain) - {RecordID(page, slot)}
  {
    hide *;
    ChainParts(a, first, chain, page);
    DeleteDoneParts(a[page], c, page, slot);
    LookupDelete(SlotsOf(a[page]), slot);
    PageKeepsChain(a, first, chain, page, c);
    OtherRows(a, page, c);
    RowGone(a, a[page := c], chain, RecordID(page, slot));
  }

  /** Linking a new page with one record to the end of the chain adds one row. */
  lemma AppendPage(a: Store, b: Store, first: int, chain: seq<nat>, last: nat, page: nat, data: Bytes)
    requires page in b && last in b && last in a && b == a[page := b[page]][last := b[last]]
    requires AppendedPages(a[last], b[last], last, page, b[page], data)
    requires page !in a && chain != [] && last == chain[|chain| - 1]
    requires HeapChain(a, first, chain)
    ensures HeapChain(b, first, chain + [page])
    ensures RecordID(page, 0) !in RowsIn(a, chain)
    ensures RowsIn(b, chain + [page]) == RowsIn(a, chain)[RecordID(page, 0) := data]
  {
    hide Ok, NextPageId, SlotsOf, RowsIn;
    assert page !in chain;
    LinkedAppend(HeapLinks(a), HeapLinks(b), first, chain, page);
    assert HeapChain(b, first, chain + [page]);
    AppendedRows(a, chain, last, b[last], page, b[page], data);
    AppendedNewRow(a, chain, page);
  }

  lemma AppendedNewRow(a: Store, chain: seq<nat>, page: nat)
    requires page !in a && forall p: nat :: p in chain ==> p in a
    ensures RecordID(page, 0) !in RowsIn(a, chain)
  {
  }

  /** The new page `page` holds just `data`, and the last page `last` links to it. */
  ghost predicate AppendedPages(before: Bytes, after: Bytes, last: nat, page: nat, c: Bytes, data: Bytes) {
    && page >= 1 && Ok(c, page) && SlotsOf(c) == [Some(data)] && NextPageId(c) == INVALID_PAGE_ID
    && Ok(after, last) && SlotsOf(after) == SlotsOf(before) && NextPageId(after) == page
  }

  lemma AppendedLookups(a: Store, last: nat, d: Bytes, page: nat, c: Bytes, data: Bytes)
    requires page !in a && last != page && SlotsOf(c) == [Some(data)] && last in a && SlotsOf(d) == SlotsOf(a[last])
    ensures RowAt(a[page := c][last := d], RecordID(page, 0)) == Some(data)
    ensures forall rid: RecordID :: rid != RecordID(page, 0) ==> RowAt(a[page := c][last := d], rid) == RowAt(a, rid)
    ensures forall rid: RecordID :: rid.pageId == page ==> RowAt(a, rid) == None
  {
    hide SlotsOf;
    forall rid: RecordID | rid != RecordID(page, 0) ensures RowAt(a[page := c][last := d], rid) == RowAt(a, rid) {
      if rid.pageId == page {
        assert rid.slotId != 0;
      }
    }
  }

  lemma AppendedRows(a: Store, chain: seq<nat>, last: nat, d: Bytes, page: nat, c: Bytes, data: Bytes)
    requires page !in a && page !in chain && SlotsOf(c) == [Some(data)] && last in chain && last in a && SlotsOf(d) == SlotsOf(a[last])
    ensures RowsIn(a[page := c][last := d], chain + [page]) == RowsIn(a, chain)[RecordID(page, 0) := data]
  {
    hide *;
    AppendedLookups(a, last, d, page, c, data);
    var longer := chain + [page];
    RowSet(a, a[page := c][last := d], longer, RecordID(page, 0), data);
    LongerChain(a, chain, page);
  }

  lemma LongerChain(a: Store, chain: seq<nat>, page: nat)
    requires forall rid: RecordID :: rid.pageId == page ==> RowAt(a, rid) == None
    ensures RowsIn(a, chain + [page]) == RowsIn(a, chain)
  {
    hide *;
    var longer := chain + [page];
    assert forall p: int :: p in longer <==> p in chain || p == page;
  }

  /** Pages of other owners do not matter to a heap file. */
  lemma HeapFrame(a: Store, b: Store, first: int)
    requires HeapOk(a, first)
    requires forall p: nat :: p in HeapPages(a, first) ==> p in b && (p in a ==> b[p] == a[p])
    ensures HeapOk(b, first) && HeapPages(b, first) == HeapPages(a, first) && HeapRows(b, first) == HeapRows(a, first)
  {
    var chain := ChainOf(a, first);
    HeapChainFrame(a, b, first);
    HeapIs(a, first, chain);
    assert forall p: nat :: p in chain ==> p in a;
    hide *;
    RowsFrame(a, b, chain);
    HeapPagesFrame(a, b, first);
  }

  lemma HeapPagesFrame(a: Store, b: Store, first: int)
    requires HeapOk(b, first) && ChainOf(b, first) == ChainOf(a, first)
    ensures HeapPages(b, first) == HeapPages(a, first) && HeapRows(b, first) == RowsIn(b, ChainOf(a, first))
  {
    hide HeapOk, ChainOf, RowsIn;
  }

  lemma RowsFrame(a: Store, b: Store, chain: seq<nat>)
    requires forall p: nat :: p in chain ==> p in a && p in b && b[p] == a[p]
    ensures RowsIn(b, chain) == RowsIn(a, chain)
  {
    hide SlotsOf, RowsIn;
    assert forall rid: RecordID :: rid.pageId in chain ==> RowAt(b, rid) == RowAt(a, rid);
    hide RowAt;
  }

  lemma HeapChainFrame(a: Store, b: Store, first: int)
    requires HeapOk(a, first)
    requires forall p: nat :: p in HeapPages(a, first) ==> p in b && (p in a ==> b[p] == a[p])
    ensures HeapOk(b, first) && ChainOf(b, first) == ChainOf(a, first)
  {
    var chain := ChainOf(a, first);
    assert forall p: nat :: p in chain ==> p in HeapPages(a, first);
    hide Ok, NextPageId, SlotsOf;
    LinkedFrame(HeapLinks(a), HeapLinks(b), first, chain);
    assert HeapChain(b, first, chain);
    ChainIs(b, first, chain);
  }

  // ---- Whole operations ----

  lemma HeapUnchanged(a: Store, first: int)
    requires HeapOk(a, first)
    ensures HeapBecomes(a, a, first, HeapRows(a, first)) && HeapKeepsNew(a, a, first)
  {
    hide HeapRows, HeapPages, HeapOk;
  }

  /** Pages that belong to nobody do not matter. */
  lemma HeapLeaks(a: Store, b: Store, first: int)
    requires HeapOk(a, first) && forall p: nat :: p in a ==> p in b && b[p] == a[p]
    ensures HeapBecomes(a, b, first, HeapRows(a, first))
  {
    HeapFrameAll(a, b, first);
    hide HeapRows, HeapOk, ChainOf;
  }

  lemma HeapFrameAll(a: Store, b: Store, first: int)
    requires HeapOk(a, first) && forall p: nat :: p in a ==> p in b && b[p] == a[p]
    ensures HeapOk(b, first) && HeapPages(b, first) == HeapPages(a, first) && HeapRows(b, first) == HeapRows(a, first)
  {
    forall p: nat | p in HeapPages(a, first) ensures p in a {}
    hide HeapOk, HeapRows, HeapPages, ChainOf;
    HeapFrame(a, b, first);
  }

  lemma HeapIs(store: Store, first: int, chain: seq<nat>)
    requires HeapChain(store, first, chain)
    ensures HeapOk(store, first) && ChainOf(store, first) == chain && HeapRows(store, first) == RowsIn(store, chain)
    ensures forall p: nat :: p in HeapPages(store, first) <==> p in chain
  {
    ChainIs(store, first, chain);
  }

  lemma MakeHeapBecomes(a: Store, b: Store, first: int, before: seq<nat>, after: seq<nat>, rows: Rows)
    requires HeapChain(a, first, before) && HeapChain(b, first, after) && RowsIn(b, after) == rows
    requires forall p: nat :: p in before ==> p in after
    requires forall p: nat :: p in after && p !in before ==> p !in a
    requires forall p: nat :: p in a && p !in before ==> p in b && b[p] == a[p]
    requires forall p: nat :: p in b && p !in a ==> p in after
    ensures HeapBecomes(a, b, first, rows) && HeapKeepsNew(a, b, first)
  {
    hide HeapOk, ChainOf, HeapChain, RowsIn, HeapPages, HeapRows;
    HeapIs(a, first, before);
    HeapIs(b, first, after);
  }

  /** A change of one page of the chain is a change of the heap file. */
  lemma PageMakesHeap(a: Store, b: Store, first: int, chain: seq<nat>, page: nat, rows: Rows)
    requires HeapChain(a, first, chain) && page in chain
    requires page in a && page in b && b == a[page := b[page]]
    requires HeapChain(b, first, chain) && RowsIn(b, chain) == rows
    ensures HeapBecomes(a, b, first, rows) && HeapKeepsNew(a, b, first)
  {
    hide *;
    MakeHeapBecomes(a, b, first, chain, chain, rows);
  }

  lemma AppendMakesHeap(a: Store, b: Store, first: int, chain: seq<nat>, last: nat, page: nat, rows: Rows)
    requires HeapChain(a, first, chain) && last in chain
    requires page !in a && page in b && last in b && b == a[page := b[page]][last := b[last]]
    requires HeapChain(b, first, chain + [page]) && RowsIn(b, chain + [page]) == rows
    ensures HeapBecomes(a, b, first, rows) && HeapKeepsNew(a, b, first)
  {
    hide *;
    assert forall p: nat :: p in chain + [page] <==> p in chain || p == page;
    MakeHeapBecomes(a, b, first, chain, chain + [page], rows);
  }

  /** Where a walk along the chain goes from its position `k`. */
  lemma WalkStep(store: Store, first: int, chain: seq<nat>, k: nat)
    requires HeapChain(store, first, chain) && k < |chain|
    ensures chain[0] == first
    ensures chain[k] in chain && chain[k] >= 1 && chain[k] in store && Ok(store[chain[k]], chain[k])
    ensures k + 1 < |chain| ==> NextPageId(store[chain[k]]) == chain[k + 1]
    ensures k + 1 == |chain| ==> NextPageId(store[chain[k]]) == INVALID_PAGE_ID
    ensures chain[k] !in chain[..k]
    ensures INVALID_PAGE_ID == -1
  {
    Distinct(HeapLinks(store), first, chain);
    assert chain[k] in chain;
    hide Ok, NextPageId;
  }

  // ---- One page at a time ----

  ghost predicate InsertStep(a: Store, b: Store, page: nat, record: Bytes, status: StatusCode, slot: nat, next: int) {
    && PageChanged(a, b, page)
    && InsertDone(a[page], b[page], page, record, status, slot)
    && (Ok(a[page], page) ==> next == NextPageId(a[page]))
  }

  lemma MakeInsertStep(a: Store, b: Store, page: nat, c: Bytes, record: Bytes, status: StatusCode, slot: nat, next: int)
    requires page in a && b == a[page := c] && InsertDone(a[page], c, page, record, status, slot)
    requires Ok(a[page], page) ==> next == NextPageId(a[page])
    ensures InsertStep(a, b, page, record, status, slot, next)
  {
    hide InsertDone, NextPageId, Ok;
  }

  ghost predicate UpdateStep(a: Store, b: Store, page: nat, slot: nat, record: Bytes, status: StatusCode) {
    PageChanged(a, b, page) && UpdateDone(a[page], b[page], page, slot, record, status)
  }

  ghost predicate DeleteStep(a: Store, b: Store, page: nat, slot: nat, status: StatusCode) {
    PageChanged(a, b, page) && DeleteDone(a[page], b[page], page, slot, status)
  }

  ghost predicate LinkStep(a: Store, b: Store, page: nat, next: int) {
    PageChanged(a, b, page) && LinkDone(a[page], b[page], page, next, OK)
  }

  lemma MakeUpdateStep(a: Store, b: Store, page: nat, c: Bytes, slot: nat, record: Bytes, status: StatusCode)
    requires page in a && b == a[page := c] && UpdateDone(a[page], c, page, slot, record, status)
    ensures UpdateStep(a, b, page, slot, record, status)
  {
    hide UpdateDone;
  }

  lemma MakeDeleteStep(a: Store, b: Store, page: nat, c: Bytes, slot: nat, status: StatusCode)
    requires page in a && b == a[page := c] && DeleteDone(a[page], c, page, slot, status)
    ensures DeleteStep(a, b, page, slot, status)
  {
    hide DeleteDone;
  }

  lemma MakeLinkStep(a: Store, b: Store, page: nat, c: Bytes, next: int)
    requires page in a && b == a[page := c] && LinkDone(a[page], c, page, next, OK)
    ensures LinkStep(a, b, page, next)
  {
    hide LinkDone;
  }

  lemma LinkDoneOk(b: Bytes, c: Bytes, pageId: int, next: int, status: StatusCode)
    requires LinkDone(b, c, pageId, next, status) && Ok(b, pageId) && next > INVALID_PAGE_ID && next != pageId
    ensures status == OK && LinkDone(b, c, pageId, next, OK)
  {
    hide Ok, SlotsOf, NextPageId;
  }

  /** What reading the record `rid` finds. */
  ghost predicate ReadIs(store: Store, rid: RecordID, status: StatusCode, record: Bytes) {
    if RowAt(store, rid).Some? then status == OK && Some(record) == RowAt(store, rid) else status == NOT_FOUND
  }

  lemma ReadIsParts(store: Store, rid: RecordID)
    ensures HEADER_PAGE_ID == 0 && rid == RecordID(rid.pageId, rid.slotId)
    ensures forall status, record :: ReadIs(store, rid, status, record) <==>
              if RowAt(store, rid).Some? then status == OK && Some(record) == RowAt(store, rid) else status == NOT_FOUND
  {
    hide RowAt;
  }

  lemma MakeReadIs(store: Store, page: nat, slot: nat, status: StatusCode, record: Bytes)
    requires page in store && Ok(store[page], page) && ReadDone(store[page], page, slot, status, record)
    ensures ReadIs(store, RecordID(page, slot), status, record)
  {
    hide Ok, SlotsOf;
  }

  lemma InsertStepOutcome(a: Store, b: Store, first: int, chain: seq<nat>, page: nat, record: Bytes, status: StatusCode, slot: nat, next: int)
    requires HeapChain(a, first, chain) && page in chain && InsertStep(a, b, page, record, status, slot, next)
    ensures status == OK ==> RecordID(page, slot) !in RowsIn(a, chain)
    ensures status == OK ==> HeapBecomes(a, b, first, RowsIn(a, chain)[RecordID(page, slot) := record]) && HeapKeepsNew(a, b, first)
    ensures status != OK ==> b == a
    ensures |b| == |a| && page in a && next == NextPageId(a[page])
    ensures status == InsertStatus(SlotsAt(a, page), record)
    ensures status == OK ==> slot == FirstHole(SlotsAt(a, page))
  {
    InsertStepParts(a, b, page, record, status, slot, next);
    hide *;
    ChainParts(a, first, chain, page);
    InsertDoneKeeps(a[page], b[page], page, record, status, slot);
    PageSlots(a, page);
    if status == OK {
      InsertDoneParts(a[page], b[page], page, record, slot);
      InsertIntoPage(a, first, chain, page, b[page], slot, record);
      PageMakesHeap(a, b, first, chain, page, RowsIn(a, chain)[RecordID(page, slot) := record]);
    }
  }

  lemma PageSlots(store: Store, page: nat)
    requires page in store
    ensures SlotsAt(store, page) == SlotsOf(store[page])
  {
    hide SlotsOf;
  }

  lemma InsertStatusParts(slots: Slots, record: Bytes)
    ensures InsertStatus(slots, record) in {OK, INVALID_ARGUMENT, OUT_OF_MEMORY}
    ensures InsertStatus(slots, record) == INVALID_ARGUMENT <==> record == [] || |record| > PAGE_SIZE
    ensures InsertStatus(slots, record) == OK ==> Fits(slots, record)
    ensures InsertStatus(slots, record) == OUT_OF_MEMORY ==> !Fits(slots, record)
    ensures Fits(slots, record) <==> RoomFor(slots, |record|)
  {
    hide FreeSpace, FirstHole;
  }

  // ---- Room ----

  /** The page has room for a record of `size` bytes. */
  predicate RoomFor(slots: Slots, size: nat) {
    size + (if FirstHole(slots) < |slots| then 0 else 4) <= FreeSpace(slots)
  }

  /** Some page of the file has. */
  ghost predicate HeapHasRoom(store: Store, first: int, size: nat) {
    exists p: nat :: p in HeapPages(store, first) && RoomFor(SlotsAt(store, p), size)
  }

  /** How many pages the file grows by for a record of `size` bytes. */
  ghost function HeapGrowth(store: Store, first: int, size: nat): nat {
    if HeapHasRoom(store, first, size) then 0 else 1
  }

  /** What inserting a record of `size` bytes returns on a working disk of `capacity` pages. */
  ghost function HeapStatus(store: Store, first: int, size: nat, capacity: nat): StatusCode {
    if size == 0 || size > PAGE_SIZE then INVALID_ARGUMENT
    else if HeapHasRoom(store, first, size) || (RoomFor([], size) && |store| < capacity) then OK
    else OUT_OF_MEMORY
  }

  lemma HeapStatusParts(store: Store, first: int, size: nat, capacity: nat)
    ensures HeapStatus(store, first, size, capacity) in {OK, INVALID_ARGUMENT, OUT_OF_MEMORY}
    ensures HeapStatus(store, first, size, capacity) == INVALID_ARGUMENT <==> size == 0 || size > PAGE_SIZE
    ensures HeapStatus(store, first, size, capacity) == OK <==>
              0 < size <= PAGE_SIZE && (HeapHasRoom(store, first, size) || (RoomFor([], size) && |store| < capacity))
    ensures HeapGrowth(store, first, size) == if HeapHasRoom(store, first, size) then 0 else 1
  {
    hide HeapHasRoom, RoomFor;
  }

  lemma RoomInChain(store: Store, first: int, chain: seq<nat>, record: Bytes, k: nat)
    requires HeapOk(store, first) && chain == ChainOf(store, first) && k <= |chain|
    requires forall j: nat :: j < k ==> InsertStatus(SlotsAt(store, chain[j]), record) == OUT_OF_MEMORY
    ensures k < |chain| && InsertStatus(SlotsAt(store, chain[k]), record) == OK ==> HeapHasRoom(store, first, |record|)
    ensures k == |chain| ==> !HeapHasRoom(store, first, |record|)
  {
    HeapIs(store, first, chain);
    hide HeapOk, HeapPages, ChainOf, RoomFor, InsertStatus, SlotsAt, Fits;
    if k < |chain| {
      InsertStatusParts(SlotsAt(store, chain[k]), record);
      assert chain[k] in chain;
    } else {
      forall p: nat | p in HeapPages(store, first) ensures !RoomFor(SlotsAt(store, p), |record|) {
        var j: nat :| j < |chain| && chain[j] == p;
        InsertStatusParts(SlotsAt(store, chain[j]), record);
      }
    }
  }

  lemma InsertStepParts(a: Store, b: Store, page: nat, record: Bytes, status: StatusCode, slot: nat, next: int)
    requires InsertStep(a, b, page, record, status, slot, next)
    ensures page in a && page in b && b == a[page := b[page]]
    ensures InsertDone(a[page], b[page], page, record, status, slot)
    ensures Ok(a[page], page) ==> next == NextPageId(a[page])
  {
    hide InsertDone, Ok, NextPageId;
  }

  lemma UpdateDoneSame(b: Bytes, c: Bytes, pageId: int, slot: nat, data: Bytes, status: StatusCode)
    requires UpdateDone(b, c, pageId, slot, data, status)
    ensures status != OK ==> c == b
    ensures Ok(b, pageId) ==> status == UpdateStatus(SlotsOf(b), slot, data)
  {
  }

  lemma DeleteDoneSame(b: Bytes, c: Bytes, pageId: int, slot: nat, status: StatusCode)
    requires DeleteDone(b, c, pageId, slot, status)
    ensures status != OK ==> c == b
  {
  }

  // ---- Growing the file ----

  /** Page `page` holds just `record`, and ends the chain. */
  ghost predicate HoldsRecord(c: Bytes, page: int, record: Bytes) {
    Ok(c, page) && SlotsOf(c) == [Some(record)] && NextPageId(c) == INVALID_PAGE_ID
  }

  /** The first record of a page that has just been formatted. */
  lemma FirstRecord(e: Bytes, c: Bytes, page: int, record: Bytes, status: StatusCode, slot: nat)
    requires Ok(e, page) && SlotsOf(e) == [] && NextPageId(e) == INVALID_PAGE_ID
    requires InsertDone(e, c, page, record, status, slot)
    ensures status == OK ==> HoldsRecord(c, page, record) && slot == 0
    ensures status in {OK, OUT_OF_MEMORY, INVALID_ARGUMENT}
    ensures status == INVALID_ARGUMENT ==> record == [] || |record| > PAGE_SIZE
    ensures status == InsertStatus([], record)
  {
    InsertDoneKeeps(e, c, page, record, status, slot);
    InsertStatusParts([], record);
    if status == OK {
      InsertDoneParts(e, c, page, record, slot);
    }
    hide Ok, SlotsOf, NextPageId, InsertDone, InsertStatus;
  }

  /** `page` has been allocated and holds just `record`. */
  ghost predicate NewPageStep(a: Store, b: Store, page: nat, record: Bytes) {
    && page !in a && page in b && b == a[page := b[page]]
    && page >= 1 && HoldsRecord(b[page], page, record)
  }

  lemma MakeNewPageStep(a: Store, b: Store, page: nat, record: Bytes)
    requires page !in a && page in b && b == a[page := b[page]] && page >= 1 && HoldsRecord(b[page], page, record)
    ensures NewPageStep(a, b, page, record)
  {
    hide HoldsRecord;
  }

  /** `page` has been allocated for `record` and linked after the page `last`. */
  ghost predicate AppendStep(a: Store, b: Store, last: nat, page: nat, record: Bytes) {
    && page !in a && page in b && last in a && last in b && b == a[page := b[page]][last := b[last]]
    && AppendedPages(a[last], b[last], last, page, b[page], record)
  }

  lemma MakeAppendStep(a: Store, m: Store, b: Store, last: nat, page: nat, record: Bytes)
    requires NewPageStep(a, m, page, record) && last in a && Ok(a[last], last) && LinkStep(m, b, last, page)
    ensures AppendStep(a, b, last, page, record)
  {
    LinkStepParts(m, b, last, page);
    hide Ok, SlotsOf, NextPageId;
  }

  lemma LinkStepParts(m: Store, b: Store, last: nat, page: nat)
    requires LinkStep(m, b, last, page) && last in m && Ok(m[last], last)
    ensures last in b && b == m[last := b[last]]
    ensures Ok(b[last], last) && SlotsOf(b[last]) == SlotsOf(m[last]) && NextPageId(b[last]) == page
  {
    hide Ok, SlotsOf, NextPageId;
  }

  lemma AppendStepOutcome(a: Store, b: Store, first: int, chain: seq<nat>, last: nat, page: nat, record: Bytes)
    requires HeapChain(a, first, chain) && last == chain[|chain| - 1]
    requires AppendStep(a, b, last, page, record)
    ensures RecordID(page, 0) !in RowsIn(a, chain)
    ensures HeapBecomes(a, b, first, RowsIn(a, chain)[RecordID(page, 0) := record]) && HeapKeepsNew(a, b, first)
  {
    AppendStepParts(a, b, last, page, record);
    assert chain != [];
    hide *;
    AppendPage(a, b, first, chain, last, page, record);
    AppendMakesHeap(a, b, first, chain, last, page, RowsIn(a, chain)[RecordID(page, 0) := record]);
  }

  lemma AppendStepParts(a: Store, b: Store, last: nat, page: nat, record: Bytes)
    requires AppendStep(a, b, last, page, record)
    ensures page !in a && page in b && last in a && last in b && b == a[page := b[page]][last := b[last]]
    ensures AppendedPages(a[last], b[last], last, page, b[page], record)
  {
    hide AppendedPages;
  }

  /** `rid` is where a record goes: the first hole of the first page it fits in, or
      else a page that the file does not have yet. */
  ghost predicate PlaceFor(store: Store, chain: seq<nat>, rid: RecordID, record: Bytes) {
    exists k: nat :: PlaceAt(store, chain, k, rid, record)
  }

  ghost predicate PlaceAt(store: Store, chain: seq<nat>, k: nat, rid: RecordID, record: Bytes) {
    && k <= |chain|
    && rid.slotId == FirstHole(SlotsAt(store, rid.pageId))
    && (if k < |chain| then rid.pageId == chain[k] && Fits(SlotsAt(store, chain[k]), record) else rid.pageId !in store)
    && forall j: nat :: j < k ==> !Fits(SlotsAt(store, chain[j]), record)
  }

  lemma PlaceInChain(store: Store, chain: seq<nat>, k: nat, slot: nat, record: Bytes)
    requires k < |chain|
    requires forall j: nat :: j < k ==> !Fits(SlotsAt(store, chain[j]), record)
    requires slot == FirstHole(SlotsAt(store, chain[k])) && Fits(SlotsAt(store, chain[k]), record)
    ensures PlaceFor(store, chain, RecordID(chain[k], slot), record)
  {
    hide FirstHole, Fits, SlotsAt;
    assert PlaceAt(store, chain, k, RecordID(chain[k], slot), record);
  }

  lemma PlaceInNewPage(store: Store, chain: seq<nat>, page: nat, record: Bytes)
    requires page !in store
    requires forall j: nat :: j < |chain| ==> !Fits(SlotsAt(store, chain[j]), record)
    ensures PlaceFor(store, chain, RecordID(page, 0), record)
  {
    assert FirstHole(SlotsAt(store, page)) == 0;
    hide FirstHole, Fits, SlotsAt;
    assert PlaceAt(store, chain, |chain|, RecordID(page, 0), record);
  }

  // ---- InsertRecord ----

  /** What InsertRecord does, even when the disk fails: it adds one row under a record id
      that was not in use, or it changes nothing. */
  ghost predicate RowInserted(a: Store, b: Store, first: int, record: Bytes, status: StatusCode, rid: RecordID) {
    if status == OK then
      && rid !in HeapRows(a, first)
      && PlaceFor(a, ChainOf(a, first), rid, record)
      && HeapBecomes(a, b, first, HeapRows(a, first)[rid := record])
    else
      HeapBecomes(a, b, first, HeapRows(a, first))
  }

  /** Without disk faults and with a frame to use, it fails exactly if the record cannot be
      stored in any page, or if no page has room for it and the disk is full; then no page
      changes. Otherwise the file grows by a page exactly if no page has room. */
  ghost predicate RowInsertedReliably(a: Store, b: Store, first: int, record: Bytes, status: StatusCode, capacity: nat) {
    && HeapKeepsNew(a, b, first)
    && status == HeapStatus(a, first, |record|, capacity)
    && (status != OK ==> b == a)
    && (status == OK ==> |b| == |a| + HeapGrowth(a, first, |record|))
  }

  lemma HeapStart(store: Store, first: int)
    requires HeapOk(store, first)
    ensures HeapChain(store, first, ChainOf(store, first)) && ChainOf(store, first) != [] && ChainOf(store, first)[0] == first
    ensures INVALID_PAGE_ID == -1
  {
  }

  lemma NewPageParts(a: Store, b: Store, page: nat, record: Bytes)
    requires NewPageStep(a, b, page, record)
    ensures page !in a && page in b && b == a[page := b[page]] && page >= 1 && HoldsRecord(b[page], page, record)
  {
    hide HoldsRecord;
  }

  lemma InsertRefusedOutcome(a: Store, first: int, record: Bytes)
    requires HeapOk(a, first)
    ensures forall status: StatusCode, rid: RecordID :: status != OK ==> RowInserted(a, a, first, record, status, rid)
    ensures record == [] ==> forall capacity: nat :: RowInsertedReliably(a, a, first, record, INVALID_ARGUMENT, capacity)
  {
    HeapUnchanged(a, first);
    hide HeapOk, HeapRows, HeapBecomes, HeapKeepsNew, HeapPages, Fits, SlotsAt, HeapHasRoom, RoomFor;
  }

  lemma InsertInvalid(a: Store, first: int, record: Bytes, slots: Slots, status: StatusCode)
    requires HeapOk(a, first) && status == InsertStatus(slots, record) && status != OK && status != OUT_OF_MEMORY
    ensures forall capacity: nat :: RowInsertedReliably(a, a, first, record, status, capacity)
    ensures forall rid: RecordID :: RowInserted(a, a, first, record, status, rid)
  {
    HeapUnchanged(a, first);
    InsertStatusParts(slots, record);
    hide HeapOk, HeapRows, HeapBecomes, HeapKeepsNew, HeapPages, Fits, SlotsAt, InsertStatus, HeapHasRoom, RoomFor;
  }

  lemma MakeReliable(a: Store, b: Store, first: int, record: Bytes, status: StatusCode, capacity: nat)
    requires HeapKeepsNew(a, b, first) && status == HeapStatus(a, first, |record|, capacity)
    requires status != OK ==> b == a
    requires status == OK ==> |b| == |a| + HeapGrowth(a, first, |record|)
    ensures RowInsertedReliably(a, b, first, record, status, capacity)
  {
    hide HeapKeepsNew, HeapStatus, HeapGrowth;
  }

  lemma MakeRowInserted(a: Store, b: Store, first: int, record: Bytes, rid: RecordID)
    requires HeapOk(a, first) && rid !in RowsIn(a, ChainOf(a, first)) && PlaceFor(a, ChainOf(a, first), rid, record)
    requires HeapBecomes(a, b, first, RowsIn(a, ChainOf(a, first))[rid := record])
    ensures RowInserted(a, b, first, record, OK, rid)
  {
    hide HeapOk, HeapBecomes, PlaceFor, RowsIn, ChainOf;
  }

  lemma NoneFitsBefore(a: Store, chain: seq<nat>, k: nat, record: Bytes)
    requires k <= |chain| && forall j: nat :: j < k ==> InsertStatus(SlotsAt(a, chain[j]), record) == OUT_OF_MEMORY
    ensures forall j: nat :: j < k ==> !Fits(SlotsAt(a, chain[j]), record)
    ensures k > 0 ==> 0 < |record| <= PAGE_SIZE
  {
    hide Fits, SlotsAt, InsertStatus;
    forall j: nat | j < k ensures !Fits(SlotsAt(a, chain[j]), record) && 0 < |record| <= PAGE_SIZE {
      InsertStatusParts(SlotsAt(a, chain[j]), record);
    }
    if k > 0 {
      InsertStatusParts(SlotsAt(a, chain[0]), record);
    }
  }

  lemma InsertedInChain(a: Store, b: Store, first: int, chain: seq<nat>, k: nat, record: Bytes, slot: nat)
    requires HeapOk(a, first) && chain == ChainOf(a, first) && k < |chain|
    requires forall j: nat :: j < k ==> InsertStatus(SlotsAt(a, chain[j]), record) == OUT_OF_MEMORY
    requires InsertStatus(SlotsAt(a, chain[k]), record) == OK && slot == FirstHole(SlotsAt(a, chain[k]))
    requires RecordID(chain[k], slot) !in RowsIn(a, chain)
    requires HeapBecomes(a, b, first, RowsIn(a, chain)[RecordID(chain[k], slot) := record]) && HeapKeepsNew(a, b, first) && |b| == |a|
    ensures RowInserted(a, b, first, record, OK, RecordID(chain[k], slot))
    ensures forall capacity: nat :: RowInsertedReliably(a, b, first, record, OK, capacity)
  {
    hide *;
    RoomInChain(a, first, chain, record, k);
    InsertStatusParts(SlotsAt(a, chain[k]), record);
    NoneFitsBefore(a, chain, k, record);
    PlaceInChain(a, chain, k, slot, record);
    MakeRowInserted(a, b, first, record, RecordID(chain[k], slot));
    forall capacity: nat ensures RowInsertedReliably(a, b, first, record, OK, capacity) {
      HeapStatusParts(a, first, |record|, capacity);
      MakeReliable(a, b, first, record, OK, capacity);
    }
  }

  lemma AppendOutcome(a: Store, b: Store, first: int, chain: seq<nat>, record: Bytes, status: StatusCode, rid: RecordID, capacity: nat)
    requires HeapOk(a, first) && chain == ChainOf(a, first) && chain != []
    requires forall j: nat :: j < |chain| ==> InsertStatus(SlotsAt(a, chain[j]), record) == OUT_OF_MEMORY
    requires status == OK ==> rid.pageId > 0 && rid.slotId == 0 && AppendStep(a, b, chain[|chain| - 1], rid.pageId, record)
    requires status != OK ==> Extends(a, b)
    ensures RowInserted(a, b, first, record, status, rid)
    ensures (status == OK || b == a) && status == (if |a| >= capacity then OUT_OF_MEMORY else InsertStatus([], record)) ==>
              RowInsertedReliably(a, b, first, record, status, capacity)
  {
    hide *;
    RoomInChain(a, first, chain, record, |chain|);
    InsertStatusParts([], record);
    NoneFitsBefore(a, chain, |chain|, record);
    HeapStatusParts(a, first, |record|, capacity);
    HeapStart(a, first);
    HeapIs(a, first, chain);
    if status == OK {
      AppendStepParts(a, b, chain[|chain| - 1], rid.pageId, record);
      AppendStepOutcome(a, b, first, chain, chain[|chain| - 1], rid.pageId, record);
      PlaceInNewPage(a, chain, rid.pageId, record);
      MakeRowInserted(a, b, first, record, RecordID(rid.pageId, 0));
      assert RecordID(rid.pageId, 0) == rid;
    } else {
      ExtendsParts(a, b);
      HeapLeaks(a, b, first);
      HeapUnchanged(a, first);
      MakeNothingInserted(a, b, first, record, status, rid);
    }
    if (status == OK || b == a) && status == (if |a| >= capacity then OUT_OF_MEMORY else InsertStatus([], record)) {
      MakeReliable(a, b, first, record, status, capacity);
    }
  }

  lemma ExtendsParts(a: Store, b: Store)
    requires Extends(a, b)
    ensures forall p: nat :: p in a ==> p in b && b[p] == a[p]
  {
  }

  lemma MakeNothingInserted(a: Store, b: Store, first: int, record: Bytes, status: StatusCode, rid: RecordID)
    requires status != OK && HeapBecomes(a, b, first, HeapRows(a, first))
    ensures RowInserted(a, b, first, record, status, rid)
  {
    hide HeapBecomes, HeapRows;
  }

  // ---- GetRecord, UpdateRecord and DeleteRecord ----

  ghost predicate RowRead(store: Store, first: int, rid: RecordID, status: StatusCode, record: Bytes) {
    status == OK ==> rid in HeapRows(store, first) && record == HeapRows(store, first)[rid]
  }

  ghost predicate RowReadReliably(store: Store, first: int, rid: RecordID, status: StatusCode) {
    status == if rid.pageId <= HEADER_PAGE_ID then INVALID_ARGUMENT
              else if rid in HeapRows(store, first) then OK else NOT_FOUND
  }

  /** Reading on a page of the file reads a row of the file. */
  lemma ReadOutcome(store: Store, first: int, rid: RecordID, status: StatusCode, record: Bytes)
    requires HeapOk(store, first) && rid.pageId in HeapPages(store, first)
    requires status == OK ==> RowAt(store, rid) == Some(record)
    ensures rid.pageId > HEADER_PAGE_ID && RowRead(store, first, rid, status, record)
    ensures ReadIs(store, rid, status, record) ==> RowReadReliably(store, first, rid, status)
  {
    HeapIs(store, first, ChainOf(store, first));
    hide RowAt, HeapOk, HeapPages, ChainOf, RowsIn;
  }

  /** The page of `rid` is a page of some heap file, and has a record there. */
  ghost predicate Readable(store: Store, rid: RecordID) {
    rid.pageId > HEADER_PAGE_ID && rid.pageId in store && Ok(store[rid.pageId], rid.pageId) && RowAt(store, rid).Some?
  }

  lemma RowsAreReadable(store: Store, first: int)
    requires HeapOk(store, first)
    ensures forall rid :: rid in HeapRows(store, first) ==> Readable(store, rid) && RowAt(store, rid) == Some(HeapRows(store, first)[rid])
    ensures forall rid :: rid in HeapRows(store, first) ==> rid.pageId in HeapPages(store, first)
    ensures forall rid: RecordID :: rid.pageId in HeapPages(store, first) && RowAt(store, rid).Some? ==> rid in HeapRows(store, first)
  {
    HeapIs(store, first, ChainOf(store, first));
    hide RowAt, HeapOk, ChainOf, RowsIn, Ok;
  }

  /** The record id is on a page of the heap file, or on no page at all. */
  ghost predicate RowOfFile(store: Store, first: int, rid: RecordID) {
    HeapOk(store, first) && (rid.pageId > HEADER_PAGE_ID ==> rid.pageId in HeapPages(store, first))
  }

  lemma RowOfFileParts(store: Store, first: int, rid: RecordID)
    ensures RowOfFile(store, first, rid) <==> HeapOk(store, first) && (rid.pageId > HEADER_PAGE_ID ==> rid.pageId in HeapPages(store, first))
    ensures HEADER_PAGE_ID == 0
  {
    hide HeapOk, HeapPages;
  }

  /** What UpdateRecord does, even when the disk fails: one row has a new value, or nothing changes. */
  ghost predicate RowUpdated(a: Store, b: Store, first: int, rid: RecordID, record: Bytes, status: StatusCode) {
    if status == OK then
      rid in HeapRows(a, first) && HeapBecomes(a, b, first, HeapRows(a, first)[rid := record]) && b.Keys == a.Keys
    else
      b == a
  }

  ghost predicate RowUpdatedReliably(a: Store, b: Store, first: int, rid: RecordID, record: Bytes, status: StatusCode) {
    && HeapKeepsNew(a, b, first)
    && status == (if rid.pageId <= HEADER_PAGE_ID then INVALID_ARGUMENT
                  else UpdateStatus(SlotsAt(a, rid.pageId), rid.slotId, record))
    && (status == OK ==>
          && rid.slotId < |SlotsAt(a, rid.pageId)|
          && SlotsAt(b, rid.pageId) == SlotsAt(a, rid.pageId)[rid.slotId := Some(record)])
  }

  lemma RowUpdateParts(a: Store, first: int, rid: RecordID, record: Bytes)
    ensures forall status: StatusCode :: status != OK ==> RowUpdated(a, a, first, rid, record, status)
    ensures rid.pageId <= HEADER_PAGE_ID || record == [] ==> RowUpdatedReliably(a, a, first, rid, record, INVALID_ARGUMENT)
    ensures HEADER_PAGE_ID == 0
  {
    hide HeapRows, HeapPages, SlotsAt, HeapOk;
  }

  lemma UpdateStepOutcome(a: Store, b: Store, first: int, rid: RecordID, record: Bytes, status: StatusCode)
    requires HeapOk(a, first) && rid.pageId > HEADER_PAGE_ID && rid.pageId in HeapPages(a, first)
    requires UpdateStep(a, b, rid.pageId, rid.slotId, record, status)
    ensures RowUpdated(a, b, first, rid, record, status) && RowUpdatedReliably(a, b, first, rid, record, status)
  {
    hide HeapOk, HeapPages, HeapRows, HeapBecomes, HeapKeepsNew, UpdateDone, HeapChain, RowsIn, ChainOf, UpdateStatus, SlotsOf, Ok;
    var chain, page := ChainOf(a, first), rid.pageId;
    HeapIs(a, first, chain);
    ChainParts(a, first, chain, page);
    UpdateDoneSame(a[page], b[page], page, rid.slotId, record, status);
    if status == OK {
      UpdateDoneParts(a[page], b[page], page, rid.slotId, record);
      UpdateInPage(a, first, chain, page, b[page], rid.slotId, record);
      PageMakesHeap(a, b, first, chain, page, RowsIn(a, chain)[rid := record]);
    } else {
      assert b == a;
      HeapUnchanged(a, first);
    }
  }

  /** What DeleteRecord does, even when the disk fails: one row is gone, or nothing changes. */
  ghost predicate RowDeleted(a: Store, b: Store, first: int, rid: RecordID, status: StatusCode) {
    if status == OK then
      rid in HeapRows(a, first) && HeapBecomes(a, b, first, HeapRows(a, first) - {rid})
    else
      b == a
  }

  ghost predicate RowDeletedReliably(a: Store, b: Store, first: int, rid: RecordID, status: StatusCode) {
    && HeapKeepsNew(a, b, first)
    && status == if rid.pageId <= HEADER_PAGE_ID then INVALID_ARGUMENT
                 else if rid in HeapRows(a, first) then OK else NOT_FOUND
  }

  lemma RowDeleteParts(a: Store, first: int, rid: RecordID)
    ensures forall status: StatusCode :: status != OK ==> RowDeleted(a, a, first, rid, status)
    ensures rid.pageId <= HEADER_PAGE_ID ==> RowDeletedReliably(a, a, first, rid, INVALID_ARGUMENT)
    ensures HEADER_PAGE_ID == 0
  {
    hide HeapRows, HeapPages, HeapOk;
  }

  lemma DeleteStepOutcome(a: Store, b: Store, first: int, rid: RecordID, status: StatusCode)
    requires HeapOk(a, first) && rid.pageId > HEADER_PAGE_ID && rid.pageId in HeapPages(a, first)
    requires DeleteStep(a, b, rid.pageId, rid.slotId, status)
    ensures RowDeleted(a, b, first, rid, status) && RowDeletedReliably(a, b, first, rid, status)
  {
    hide HeapOk, HeapPages, HeapRows, HeapBecomes, HeapKeepsNew, DeleteDone, HeapChain, RowsIn, ChainOf, SlotsOf, Ok;
    var chain, page := ChainOf(a, first), rid.pageId;
    HeapIs(a, first, chain);
    ChainParts(a, first, chain, page);
    PageSlots(a, page);
    DeleteDoneSame(a[page], b[page], page, rid.slotId, status);
    DeleteDoneStatus(a[page], b[page], page, rid.slotId, status);
    if status == OK {
      DeleteFromPage(a, first, chain, page, b[page], rid.slotId);
      PageMakesHeap(a, b, first, chain, page, RowsIn(a, chain) - {rid});
    } else {
      assert b == a;
      HeapUnchanged(a, first);
    }
  }

  lemma DeleteDoneStatus(b: Bytes, c: Bytes, pageId: int, slot: nat, status: StatusCode)
    requires DeleteDone(b, c, pageId, slot, status) && Ok(b, pageId)
    ensures status == if Lookup(SlotsOf(b), slot).Some? then OK else NOT_FOUND
  {
    hide Ok, SlotsOf;
  }
}