// The buffer pool: a fixed set of frames that caches the pages of the file
// (src/buffer/buffer_pool_manager.cpp, include/storage/page.h).
module Buffer {
  import opened Common
  import opened Clock
  import opened Disk
  import opened PoolStates
  import opened PoolRuns

  /** One frame of the pool. */
  class Page {
    const data: array<byte>
    var pageId: int
    var pinCount: int
    var dirty: bool

    constructor ()
      ensures fresh(data) && data.Length == PAGE_SIZE && data[..] == Zeros(PAGE_SIZE)
      ensures pageId == INVALID_PAGE_ID && pinCount == 0 && !dirty
    {
      data := new byte[PAGE_SIZE](_ => 0);
      pageId, pinCount, dirty := INVALID_PAGE_ID, 0, false;
    }

    ghost function View(): Frame
      reads this, data
    {
      Frame(data[..], pageId, pinCount, dirty)
    }

    method ResetMemory()
      requires data.Length == PAGE_SIZE
      modifies this, data
      ensures View() == Frame(Zeros(PAGE_SIZE), INVALID_PAGE_ID, 0, false)
    {
      forall i | 0 <= i < data.Length {
        data[i] := 0;
      }
      pageId, pinCount, dirty := INVALID_PAGE_ID, 0, false;
    }

    /** The frame takes the contents of page `pageId`, pinned once. */
    method Occupy(pageId: int, source: Bytes)
      requires |source| == data.Length == PAGE_SIZE
      modifies this, data
      ensures View() == Frame(source, pageId, 1, false)
      ensures data[..] == source && this.pageId == pageId && pinCount == 1 && !dirty
    {
      ResetMemory();
      forall i | 0 <= i < data.Length {
        data[i] := source[i];
      }
      this.pageId := pageId;
      pinCount := 1;
      dirty := false;
    }
  }

  class BufferPoolManager {
    const disk: DiskManager
    const replacer: ClockReplacer
    const pages: seq<Page>
    var pageTable: map<nat, nat>
    var freeList: seq<nat>
    ghost const FrameObjects: set<object>
    ghost const Repr: set<object>

    /** The objects of the pool and how they are told apart; never changes. */
    ghost predicate Layout() {
      && FrameObjects <= Repr
      && this in Repr && this !in FrameObjects
      && disk in Repr && disk !in FrameObjects
      && replacer in Repr && replacer !in FrameObjects
      && replacer.refFlags in Repr && replacer.refFlags !in FrameObjects
      && replacer.inReplacer in Repr && replacer.inReplacer !in FrameObjects
      && |pages| >= 1 && replacer.refFlags.Length == replacer.inReplacer.Length == |pages|
      && (forall f :: 0 <= f < |pages| ==>
            pages[f] in FrameObjects && pages[f].data in FrameObjects && pages[f].data.Length == PAGE_SIZE)
      && Distinct()
    }

    ghost predicate Distinct() {
      forall f, g :: 0 <= f < g < |pages| ==> pages[f] != pages[g] && pages[f].data != pages[g].data
    }

    ghost function Frames(): (frames: seq<Frame>)
      requires Layout()
      ensures |frames| == |pages|
      reads FrameObjects
    {
      seq(|pages|, f requires 0 <= f < |pages| reads FrameObjects => pages[f].View())
    }

    twostate lemma OneFrameChanged(f: nat)
      requires Layout() && f < |pages|
      requires unchanged(FrameObjects - {pages[f], pages[f].data})
      ensures Frames() == old(Frames())[f := pages[f].View()]
    {
      forall g | 0 <= g < |pages| && g != f ensures pages[g].View() == old(pages[g].View()) {
        assert pages[g] in FrameObjects - {pages[f], pages[f].data};
        assert pages[g].data in FrameObjects - {pages[f], pages[f].data};
      }
    }

    ghost function State(): PoolState
      requires Layout()
      reads Repr
    {
      PoolState(Frames(), pageTable, freeList, replacer.Evictable(), disk.pages, disk.freePages)
    }

    ghost predicate Valid()
      reads Repr
    {
      Layout() && disk.Valid() && replacer.Valid() && State().Inv()
    }

    /** What every allocated page holds, wherever it is kept. */
    ghost function Store(): map<nat, Bytes>
      reads Repr
    {
      if Valid() then State().Store() else map[]
    }

    /** How often each page in use is pinned. */
    ghost function Pins(): map<nat, int>
      reads Repr
    {
      if Valid() then State().Pins() else map[]
    }

    constructor (poolSize: nat, disk: DiskManager, replacer: ClockReplacer)
      requires poolSize >= 1
      requires disk.Valid() && replacer.Valid() && replacer.refFlags.Length == poolSize && replacer.Evictable() == {}
      ensures Valid() && |pages| == poolSize && this.disk == disk
      ensures Store() == map id: nat | id in disk.Allocated() :: disk.pages[id]
      ensures Pins() == map[]
      ensures fresh(Repr - {disk, replacer, replacer.refFlags, replacer.inReplacer})
    {
      this.disk := disk;
      this.replacer := replacer;
      var frames: seq<Page> := [];
      var free: seq<nat> := [];
      ghost var owned: set<object> := {};
      for f := 0 to poolSize
        invariant |frames| == |free| == f
        invariant forall g :: 0 <= g < f ==> free[g] == g
        invariant forall o :: o in owned ==> fresh(o)
        invariant forall g :: 0 <= g < f ==> frames[g] in owned && frames[g].data in owned && frames[g].data.Length == PAGE_SIZE
        invariant forall g, h :: 0 <= g < h < f ==> frames[g] != frames[h] && frames[g].data != frames[h].data
      {
        var page := new Page();
        frames, free := frames + [page], free + [f];
        owned := owned + {page, page.data};
      }
      pages := frames;
      freeList := free;
      pageTable := map[];
      FrameObjects := owned;
      Repr := owned + {this, disk, replacer, replacer.refFlags, replacer.inReplacer};
      new;
      forall f: nat | f < |pages| ensures f in freeList {
        assert freeList[f] == f;
      }
    }

    /** The page is resident and has to be written back before it loses its frame. */
    ghost predicate Dirty(id: int)
      reads Repr
    {
      Valid() && id in pageTable && pageTable[id] < |pages| && pages[pageTable[id]].dirty
    }

    lemma DirtyIs(id: int)
      requires Valid()
      ensures id !in pageTable ==> !Dirty(id)
      ensures id in pageTable && pageTable[id] < |pages| ==> Dirty(id) == pages[pageTable[id]].dirty
    {
    }

    /** `page` is the frame of page `id`, which is pinned. */
    ghost predicate Holds(page: Page, id: nat)
      reads Repr
    {
      && Valid()
      && id in pageTable && pages[pageTable[id]] == page
      && page.pinCount > 0
    }

    /** What Valid says about the objects of the pool. */
    lemma Parts()
      requires Valid()
      ensures Layout() && disk.Valid() && replacer.Valid()
      ensures FrameObjects <= Repr && this in Repr && disk in Repr
      ensures replacer in Repr && replacer.refFlags in Repr && replacer.inReplacer in Repr
      ensures this !in FrameObjects && disk !in FrameObjects
      ensures replacer !in FrameObjects && replacer.refFlags !in FrameObjects && replacer.inReplacer !in FrameObjects
      ensures |pages| >= 1 && replacer.refFlags.Length == |pages|
    {
    }

    /** What Valid says about the frame of one resident page. */
    lemma ResidentFrame(id: nat)
      requires Valid() && id in pageTable
      ensures pageTable[id] < |pages|
      ensures pages[pageTable[id]] in FrameObjects && pages[pageTable[id]].data in FrameObjects
      ensures pages[pageTable[id]].data.Length == PAGE_SIZE
      ensures pages[pageTable[id]].pageId == id && pages[pageTable[id]].pinCount >= 0
      ensures pageTable[id] in replacer.Evictable() <==> pages[pageTable[id]].pinCount == 0
      ensures id in Store() && Store()[id] == pages[pageTable[id]].data[..]
      ensures id in Pins() <==> pages[pageTable[id]].pinCount > 0
      ensures id in Pins() ==> Pins()[id] == pages[pageTable[id]].pinCount
      ensures Store()[id := pages[pageTable[id]].data[..]] == Store()
      ensures 0 <= id < |disk.pages| && id !in disk.freePages
      ensures !pages[pageTable[id]].dirty ==> pages[pageTable[id]].data[..] == disk.pages[id]
    {
      ResidentPage(State(), id);
    }

    lemma NotResident(id: int)
      requires Valid() && id !in pageTable
      ensures id !in Pins()
      ensures id in Store() <==> 0 <= id < |disk.pages| && id !in disk.freePages
      ensures id in Store() ==> |disk.pages[id]| == PAGE_SIZE && Store()[id] == disk.pages[id] && State().Allocated(id)
    {
    }

    /** Writing dirty resident pages or free pages to the file changes no contents,
        whatever is written. */
    twostate lemma FileStep()
      requires old(Valid())
      requires pageTable == old(pageTable) && freeList == old(freeList)
      requires unchanged(FrameObjects)
      requires replacer.Valid() && replacer.Evictable() == old(replacer.Evictable())
      requires disk.Valid() && |disk.pages| == |old(disk.pages)| && disk.freePages == old(disk.freePages)
      requires forall p: nat :: p < |disk.pages| ==>
                 || disk.pages[p] == old(disk.pages[p])
                 || p in disk.freePages
                 || (p in pageTable && pageTable[p] < |pages| && pages[pageTable[p]].dirty)
      ensures Valid() && Store() == old(Store()) && Pins() == old(Pins())
    {
      ghost var s := old(State());
      forall id | id in s.table
        ensures s.table[id] < |s.frames| && id < |disk.pages| && id !in disk.freePages
        ensures s.frames[s.table[id]].dirty || s.frames[s.table[id]].data == disk.pages[id]
      {
        assert s.Resident(id);
      }
      ChangeFile(s, disk.pages, disk.freePages);
      assert Frames() == old(Frames());
      assert State() == s.(file := disk.pages, fileFree := disk.freePages);
      assert forall id: nat :: id < |s.file| && id !in disk.freePages ==> State().Content(id) == s.Content(id);
    }

    /** Changing one resident frame, and whether it may be evicted, changes what that
        page holds and how often it is pinned. */
    twostate lemma FrameStep(id: nat)
      requires old(Valid())
      requires id in old(pageTable)
      requires unchanged(this)
      requires unchanged(disk)
      requires replacer.Valid()
      requires pageTable[id] < |pages|
      requires unchanged(FrameObjects - {pages[pageTable[id]], pages[pageTable[id]].data})
      requires pages[pageTable[id]].pageId == id && pages[pageTable[id]].pinCount >= 0
      requires pages[pageTable[id]].dirty
            || (id < |disk.pages| && pages[pageTable[id]].data[..] == disk.pages[id])
      requires replacer.Evictable()
            == if pages[pageTable[id]].pinCount == 0
               then old(replacer.Evictable()) + {pageTable[id]} else old(replacer.Evictable()) - {pageTable[id]}
      ensures Valid()
      ensures Store() == old(Store())[id := pages[pageTable[id]].data[..]]
      ensures Pins() == if pages[pageTable[id]].pinCount > 0
                        then old(Pins())[id := pages[pageTable[id]].pinCount] else old(Pins()) - {id}
    {
      ghost var s := old(State());
      var frame := pages[pageTable[id]].View();
      ResidentPage(s, id);
      ReplaceFrame(s, id, frame);
      OneFrameChanged(pageTable[id]);
      assert State() == s.WithFrame(id, frame);
    }

    /** The disk does not fail, and some frame is not pinned. */
    ghost predicate Ready()
      reads Repr
    {
      Valid() && disk.reliable && |Pins()| < |pages|
    }

    lemma ReadyParts()
      requires Valid()
      ensures Ready() <==> disk.reliable && |Pins()| < |pages|
    {
    }

    lemma PinsArePositive()
      requires Valid()
      ensures forall id :: id in Pins() ==> Pins()[id] >= 1
    {
    }

    lemma PinsInStore()
      requires Valid()
      ensures forall id :: id in Pins() ==> id in Store()
    {
      forall id | id in Pins() ensures id in Store() { ResidentPage(State(), id); }
    }

    /** A page of the store is not free. */
    lemma InStore(id: nat)
      requires Valid() && id in Store()
      ensures id !in disk.freePages && id < MAX_PAGES && |Store()[id]| == PAGE_SIZE
    {
      if id in pageTable { ResidentPage(State(), id); }
    }

    lemma HoldsParts(page: Page, id: nat)
      requires Holds(page, id)
      ensures Valid() && page in Repr && page.data in Repr && page.data.Length == PAGE_SIZE
      ensures page.pageId == id && page.pinCount > 0 && id in Pins() && id < MAX_PAGES
      ensures id in pageTable && pageTable[id] < |pages| && pages[pageTable[id]] == page
      ensures id in Store() && Store()[id] == page.data[..]
    {
      ResidentPage(State(), id);
    }

    /** A client that holds a page may write its bytes, provided it marks the page
        dirty: the store then maps the page to the new bytes. */
    twostate lemma WroteThrough(new id: nat)
      requires old(Valid())
      requires id in old(pageTable)
      requires old(pageTable[id]) < |pages|
      requires unchanged(Repr - {pages[old(pageTable[id])], pages[old(pageTable[id])].data})
      requires pages[old(pageTable[id])].pageId == id
      requires pages[old(pageTable[id])].pinCount > 0
      requires pages[old(pageTable[id])].pinCount == old(pages[pageTable[id]].pinCount)
      requires pages[old(pageTable[id])].dirty
            || (!old(pages[pageTable[id]].dirty) && pages[old(pageTable[id])].data[..] == old(pages[pageTable[id]].data[..]))
      ensures Holds(pages[old(pageTable[id])], id)
      ensures Store() == old(Store())[id := pages[old(pageTable[id])].data[..]]
      ensures PoolStep(old(Store()), Written(id, pages[old(pageTable[id])].data[..]), Store())
      ensures Pins() == old(Pins())
    {
      ghost var s := old(State());
      ResidentPage(s, id);
      FrameStep(id);
    }

    /** Page `id`, which nobody pins, has left the pool and the file has changed. */
    lemma DropState(s: PoolState, id: nat)
      requires Layout() && disk.Valid() && replacer.Valid() && s.Inv() && s.PinCount(id) == 0
      requires |disk.pages| == |s.file| && forall p: nat :: p < |disk.pages| && p != id ==> disk.pages[p] == s.file[p]
      requires disk.freePages == s.fileFree || disk.freePages == s.fileFree + {id}
      requires Frames() == Dropped(s, id, disk.pages, disk.freePages).frames
      requires pageTable == Dropped(s, id, disk.pages, disk.freePages).table
      requires freeList == Dropped(s, id, disk.pages, disk.freePages).free
      requires replacer.Evictable() == Dropped(s, id, disk.pages, disk.freePages).evictable
      ensures Valid() && Pins() == s.Pins()
      ensures Store() - {id} == s.Store() - {id}
      ensures id in Store() <==> id in s.Store() && id !in disk.freePages
    {
      DropPage(s, id, disk.pages, disk.freePages);
      hide PoolState.Inv, PoolState.Store, PoolState.Pins, Layout, DiskManager.Valid, ClockReplacer.Valid, ClockReplacer.Evictable;
      assert State() == Dropped(s, id, disk.pages, disk.freePages);
    }

    lemma DroppedIs(s: PoolState, id: nat, file: seq<Bytes>, fileFree: set<nat>)
      ensures id !in s.table ==> Dropped(s, id, file, fileFree) == s.(file := file, fileFree := fileFree)
      ensures id in s.table && s.table[id] < |s.frames| ==> (
                Dropped(s, id, file, fileFree)
             == PoolState(s.frames[s.table[id] := Frame(Zeros(PAGE_SIZE), INVALID_PAGE_ID, 0, false)],
                          s.table - {id}, s.free + [s.table[id]], s.evictable - {s.table[id]}, file, fileFree))
    {
    }

    /** What it means that a page is not pinned. */
    lemma NotPinned(id: nat)
      requires Valid()
      ensures id !in Pins() ==> State().PinCount(id) == 0
      ensures id in pageTable ==> pageTable[id] < |pages|
    {
      if id in pageTable { ResidentPage(State(), id); }
    }

    lemma StoreDomain()
      requires Valid()
      ensures forall id: nat :: id in Store() <==> id < |disk.pages| && id !in disk.freePages
    {
    }

    /** The pool never holds more pages than the disk has room for, and another one can be
        allocated exactly if it holds fewer. */
    lemma StoreSize()
      requires Valid()
      ensures |Store()| == |disk.pages| - |disk.freePages| && |Store()| <= disk.capacity <= MAX_PAGES
      ensures |Store()| < disk.capacity <==> disk.freePages != {} || |disk.pages| < disk.capacity
    {
      StoreDomain();
      DiskParts();
      hide Valid;
      AllocatedCount(Store().Keys, |disk.pages|, disk.freePages);
    }

    lemma DiskParts()
      requires Valid()
      ensures 1 <= |disk.pages| <= disk.capacity <= MAX_PAGES && forall p :: p in disk.freePages ==> 1 <= p < |disk.pages|
    {
    }

    /** What Valid says about the state of the pool as a value. */
    lemma StateFields()
      requires Valid()
      ensures State().Inv() && |State().frames| == |pages| && State().frames == Frames()
      ensures State().table == pageTable && State().free == freeList && State().evictable == replacer.Evictable()
      ensures State().file == disk.pages && State().fileFree == disk.freePages
      ensures forall f :: 0 <= f < |pages| ==> State().frames[f] == pages[f].View()
      ensures Store() == State().Store() && Pins() == State().Pins()
    {
    }

    /** The next frame to use, taken from the free list or else from the replacer. */
    method AcquireFrame() returns (frame: int, cameFromFreeList: bool)
      requires Valid()
      modifies Repr
      ensures unchanged(FrameObjects) && unchanged(disk) && pageTable == old(pageTable)
      ensures replacer.Valid()
      ensures frame < 0 ==> Valid() && Store() == old(Store()) && Pins() == old(Pins()) && |Pins()| >= |pages|
      ensures frame >= 0 ==>
                && frame == NextFrame(old(State()), frame) && frame < |pages|
                && cameFromFreeList == (old(freeList) != [])
                && pages[frame].View() == old(State()).frames[frame]
                && (old(freeList) == [] ==> frame in old(replacer.Evictable()))
                && freeList == (if old(freeList) != [] then old(freeList)[1..] else [])
                && (old(freeList) != [] ==> [frame] + freeList == old(freeList))
                && replacer.Evictable() == old(replacer.Evictable()) - {frame}
    {
      hide *;
      Parts();
      StateFields();
      frame, cameFromFreeList := -1, false;
      if freeList != [] {
        frame := freeList[0];
        freeList := freeList[1..];
        cameFromFreeList := true;
      } else {
        var found;
        ghost var steps;
        found, frame, steps := replacer.Victim();
        if !found {
          frame := -1;
          NoRoomMeansAllPinned(old(State()));
          FileStep();
          return;
        }
      }
      NextFrameIsUsable(old(State()), frame);
    }

    lemma HoldsFrame(page: Page, id: nat)
      requires Valid() && id in pageTable && pageTable[id] < |pages| && pages[pageTable[id]] == page && page.pinCount > 0
      ensures Holds(page, id)
    {
    }

    /** Writes back the page in frame `frame`, which has just been acquired, if it is
        dirty; on failure the frame returns to the replacer. `s` is the state before. */
    method WriteBack(frame: nat, ghost s: PoolState) returns (ok: bool)
      requires Layout() && disk.Valid() && replacer.Valid()
      requires s.Inv() && s.free == [] && frame in s.evictable && |s.frames| == |pages| && frame < |pages|
      requires pages[frame].View() == s.frames[frame] && s.file == disk.pages && s.fileFree == disk.freePages
      modifies disk, replacer, replacer.refFlags, replacer.inReplacer
      ensures disk.Valid() && replacer.Valid()
      ensures disk.freePages == old(disk.freePages) && |disk.pages| == |old(disk.pages)|
      ensures ok ==> WrittenBack(s, frame, disk.pages) && replacer.Evictable() == old(replacer.Evictable())
      ensures !ok ==> !disk.reliable
      ensures forall p: nat :: p < |disk.pages| ==>
                disk.pages[p] == old(disk.pages[p]) || (p in s.table && s.table[p] == frame && pages[frame].dirty)
      ensures !ok ==> replacer.Evictable() == old(replacer.Evictable()) + {frame}
    {
      NextFrameIsUsable(s, frame);
      ResidentPage(s, pages[frame].pageId);
      hide PoolState.Inv, Distinct;
      var page := pages[frame];
      if page.dirty {
        var status := disk.WritePage(page.pageId, page.data[..]);
        if !status.OK? {
          replacer.Unpin(frame);
          return false;
        }
      }
      ok := true;
    }

    /** Page `id` takes over the frame that has been acquired in state `s`. */
    method Seat(frame: nat, id: nat, data: Bytes, cameFromFreeList: bool, ghost s: PoolState)
      requires Layout() && disk.Valid() && replacer.Valid() && s.Inv() && frame < |pages|
      requires SafeToTake(s, frame, id, data, disk.pages, disk.freePages) && frame == NextFrame(s, frame) && |data| == PAGE_SIZE
      requires Frames() == s.frames && pageTable == s.table && cameFromFreeList == (s.free != [])
      requires freeList == (if s.free != [] then s.free[1..] else []) && replacer.Evictable() == s.evictable - {frame}
      modifies this, pages[frame], pages[frame].data, replacer, replacer.refFlags, replacer.inReplacer
      ensures Valid() && Store() == s.Store()[id := data] && Pins() == s.Pins()[id := 1] && Holds(pages[frame], id)
      ensures pages[frame].data[..] == data && !pages[frame].dirty
    {
      hide *;
      LayoutParts(frame);
      TakingAFrame(s, frame, id, data, disk.pages, disk.freePages);
      FramesParts();
      var page := pages[frame];
      if !cameFromFreeList {
        pageTable := pageTable - {page.pageId};
      }
      page.Occupy(id, data);
      pageTable := pageTable[id := frame];
      replacer.Pin(frame);
      OneFrameChanged(frame);
      Seated(frame, id, data, s);
    }

    lemma FramesParts()
      requires Layout()
      ensures |Frames()| == |pages| && forall f :: 0 <= f < |pages| ==> Frames()[f] == pages[f].View()
      ensures forall f :: 0 <= f < |pages| ==> Frames()[f].pageId == pages[f].pageId
    {
      hide Distinct;
    }

    lemma Seated(frame: nat, id: nat, data: Bytes, s: PoolState)
      requires Layout() && disk.Valid() && replacer.Valid() && frame < |pages| && frame == NextFrame(s, frame) && frame < |s.frames|
      requires Frames() == s.frames[frame := Frame(data, id, 1, false)] && pages[frame].View() == Frame(data, id, 1, false)
      requires pageTable == (if s.free != [] then s.table else s.table - {s.frames[frame].pageId})[id := frame]
      requires freeList == (if s.free != [] then s.free[1..] else []) && replacer.Evictable() == s.evictable - {frame}
      requires TakeFrame(s, frame, id, data, disk.pages, disk.freePages).Inv()
      ensures Valid() && Holds(pages[frame], id)
      ensures Store() == TakeFrame(s, frame, id, data, disk.pages, disk.freePages).Store()
      ensures Pins() == TakeFrame(s, frame, id, data, disk.pages, disk.freePages).Pins()
    {
      hide PoolState.Inv, PoolState.Store, PoolState.Pins, Layout, DiskManager.Valid, ClockReplacer.Valid, ClockReplacer.Evictable;
      assert State() == TakeFrame(s, frame, id, data, disk.pages, disk.freePages);
    }

    lemma LayoutParts(frame: nat)
      requires Layout() && frame < |pages|
      ensures FrameObjects <= Repr && pages[frame] in FrameObjects && pages[frame].data in FrameObjects && pages[frame].data.Length == PAGE_SIZE
      ensures this !in FrameObjects && disk !in FrameObjects && replacer !in FrameObjects
      ensures replacer.refFlags !in FrameObjects && replacer.inReplacer !in FrameObjects && replacer.refFlags.Length == |pages|
    {
    }

    /** Loads a page, if need be in place of an unpinned one. */
    method FetchPage(pageId: int) returns (page: Page?)
      requires Valid() && pageId !in disk.freePages
      modifies Repr
      ensures Valid() && Store() == old(Store()) && disk.freePages == old(disk.freePages)
      ensures page != null ==> pageId in Store() && Holds(page, pageId) && page.data[..] == Store()[pageId]
      ensures page != null ==> Pins() == old(Pins())[pageId := if pageId in old(Pins()) then old(Pins())[pageId] + 1 else 1]
      ensures page == null ==> Pins() == old(Pins()) && pageTable == old(pageTable) && pageId !in pageTable
      ensures page == null && disk.reliable && pageId in Store() ==> |Pins()| >= |pages|
      ensures PoolStep(old(Store()), if page != null then Fetched(pageId, page.data[..]) else Kept, Store())
    {
      hide *;
      Parts();
      StateFields();
      Steps(Store(), if pageId < 0 then 0 else pageId);
      if pageId < 0 {
        return null;
      }
      if pageId in pageTable {
        ResidentFrame(pageId);
        var frame := pageTable[pageId];
        page := pages[frame];
        page.pinCount := page.pinCount + 1;
        replacer.Pin(frame);
        FrameStep(pageId);
        HoldsFrame(page, pageId);
        return page;
      }
      NotResident(pageId);
      page := LoadPage(pageId);
    }

    /** FetchPage of a page that is not resident. */
    method LoadPage(pageId: nat) returns (page: Page?)
      requires Valid() && pageId !in disk.freePages && pageId !in pageTable
      modifies Repr
      ensures Valid() && Store() == old(Store()) && disk.freePages == old(disk.freePages)
      ensures page != null ==> pageId in Store() && Holds(page, pageId) && page.data[..] == Store()[pageId]
      ensures page != null ==> Pins() == old(Pins())[pageId := 1]
      ensures page == null ==> Pins() == old(Pins()) && pageTable == old(pageTable) && pageId !in pageTable
      ensures page == null && disk.reliable && pageId in Store() ==> |Pins()| >= |pages|
    {
      hide *;
      Parts();
      StateFields();
      NotResident(pageId);
      ghost var s := State();
      var frame, cameFromFreeList := AcquireFrame();
      if frame < 0 {
        return null;
      }
      page := pages[frame];
      var readStatus, data := disk.ReadPage(pageId);
      if !readStatus.OK? {
        if cameFromFreeList {
          freeList := [frame] + freeList;
        } else {
          replacer.Unpin(frame);
        }
        FileStep();
        return null;
      }
      if !cameFromFreeList {
        var written := WriteBack(frame, s);
        if !written {
          FileStep();
          return null;
        }
      }
      SafeToFetch(s, frame, pageId, data, disk.pages);
      Seat(frame, pageId, data, cameFromFreeList, s);
      assert old(Store())[pageId := data] == old(Store());
    }

    /** Writes a resident page to the file if it is dirty. */
    method FlushPage(pageId: int) returns (ok: bool)
      requires Valid()
      modifies Repr
      ensures Valid() && Store() == old(Store()) && Pins() == old(Pins())
      ensures pageTable == old(pageTable)
      ensures ok ==> pageId in pageTable && pageId in Store() && 0 <= pageId < |disk.pages| && disk.pages[pageId] == Store()[pageId]
      ensures disk.reliable && pageId in pageTable ==> ok
      ensures |disk.pages| == |old(disk.pages)|
      ensures forall p: nat :: p < |disk.pages| && p != pageId ==> disk.pages[p] == old(disk.pages[p])
      ensures ok ==> !Dirty(pageId)
      ensures PoolStep(old(Store()), Kept, Store())
    {
      hide *;
      Steps(Store(), 0);
      Parts();
      if pageId !in pageTable {
        return false;
      }
      ResidentFrame(pageId);
      var page := pages[pageTable[pageId]];
      DirtyIs(pageId);
      if !page.dirty {
        return true;
      }
      var status := disk.WritePage(pageId, page.data[..]);
      if !status.OK? {
        FileStep();
        return false;
      }
      FileStep();
      label Written:
      page.dirty := false;
      FrameStep@Written(pageId);
      DirtyIs(pageId);
      ok := true;
    }

    /** Takes a frame for a page that the disk manager has just allocated; fails when no
        frame can be had or no page can be allocated: on a working disk exactly when every
        frame is pinned or the disk is full. */
    method NewPage() returns (page: Page?, pageId: int)
      requires Valid()
      modifies Repr
      ensures Valid()
      ensures page != null ==> 1 <= pageId < MAX_PAGES && pageId !in old(Store()) && Holds(page, pageId)
      ensures page != null ==> page.data[..] == Zeros(PAGE_SIZE) && !page.dirty
      ensures page != null ==> Store() == old(Store())[pageId := Zeros(PAGE_SIZE)] && Pins() == old(Pins())[pageId := 1]
      ensures page == null ==> Store() == old(Store()) && Pins() == old(Pins())
      ensures page != null ==> |old(Store())| < disk.capacity
      ensures old(Ready()) && |old(Store())| < disk.capacity ==> page != null
      ensures PoolStep(old(Store()), if page != null then Created(pageId) else Kept, Store())
    {
      hide *;
      StoreDomain();
      StoreSize();
      ReadyParts();
      Steps(Store(), 0);
      page, pageId := SeatNewPage();
      if page != null {
        Steps(old(Store()), pageId);
      }
    }

    /** NewPage, in terms of the file. */
    method SeatNewPage() returns (page: Page?, pageId: int)
      requires Valid()
      modifies Repr
      ensures Valid()
      ensures page != null ==> 1 <= pageId < MAX_PAGES && Holds(page, pageId) && (pageId >= |old(disk.pages)| || pageId in old(disk.freePages))
      ensures page != null ==> page.data[..] == Zeros(PAGE_SIZE) && !page.dirty
      ensures page != null ==> Store() == old(Store())[pageId := Zeros(PAGE_SIZE)] && Pins() == old(Pins())[pageId := 1]
      ensures page == null ==> Store() == old(Store()) && Pins() == old(Pins())
      ensures page != null ==> old(disk.freePages) != {} || |old(disk.pages)| < disk.capacity
      ensures page == null && disk.reliable && (old(disk.freePages) != {} || |old(disk.pages)| < disk.capacity) ==> |Pins()| >= |pages|
    {
      hide *;
      Parts();
      StateFields();
      ghost var s := State();
      pageId := INVALID_PAGE_ID;
      var frame, cameFromFreeList := AcquireFrame();
      if frame < 0 {
        return null, pageId;
      }
      page := pages[frame];
      if !cameFromFreeList {
        var written := WriteBack(frame, s);
        if !written {
          FileStep();
          return null, pageId;
        }
      }
      ghost var file := disk.pages;
      var newPageId := disk.AllocatePage();
      if newPageId == INVALID_PAGE_ID {
        if cameFromFreeList {
          freeList := [frame] + freeList;
        } else {
          replacer.Unpin(frame);
        }
        FileStep();
        return null, pageId;
      }
      SafeToAllocate(s, frame, newPageId, file, disk.pages, disk.freePages);
      Seat(frame, newPageId, Zeros(PAGE_SIZE), cameFromFreeList, s);
      pageId := newPageId;
    }

    /** The frame of a page that nobody pins becomes free. */
    method ReleaseFrame(pageId: nat, frame: nat)
      requires Layout() && replacer.Valid() && pageId in pageTable && frame == pageTable[pageId] < |pages|
      modifies this, pages[frame], pages[frame].data, replacer, replacer.refFlags, replacer.inReplacer
      ensures replacer.Valid() && replacer.Evictable() == old(replacer.Evictable()) - {frame}
      ensures Frames() == old(Frames())[frame := Frame(Zeros(PAGE_SIZE), INVALID_PAGE_ID, 0, false)]
      ensures pageTable == old(pageTable) - {pageId} && freeList == old(freeList) + [frame]
    {
      hide *;
      LayoutParts(frame);
      replacer.Pin(frame);
      pageTable := pageTable - {pageId};
      pages[frame].ResetMemory();
      freeList := freeList + [frame];
      OneFrameChanged(frame);
    }

    /** Frees a page that nobody pins. When the disk fails, the page may stay allocated. */
    method DeletePage(pageId: int) returns (ok: bool)
      requires Valid()
      modifies Repr
      ensures Valid() && Pins() == old(Pins())
      ensures ok <==> pageId > HEADER_PAGE_ID && pageId !in old(Pins())
      ensures !ok ==> Store() == old(Store())
      ensures ok ==> Store() - {pageId} == old(Store()) - {pageId}
      ensures ok && disk.reliable ==> pageId !in Store()
      ensures PoolStep(old(Store()), if ok && pageId >= 0 then Deleted(pageId) else Kept, Store())
    {
      assert HEADER_PAGE_ID == 0;
      hide *;
      Parts();
      StateFields();
      ghost var s := State();
      Steps(Store(), if pageId < 0 then 0 else pageId);
      if pageId <= HEADER_PAGE_ID {
        return false;
      }
      NotPinned(pageId);
      if pageId in pageTable {
        ResidentFrame(pageId);
        var frame := pageTable[pageId];
        var page := pages[frame];
        if page.pinCount > 0 {
          return false;
        }
        ReleaseFrame(pageId, frame);
      } else {
        NotResident(pageId);
      }
      disk.DeallocatePage(pageId);
      DroppedIs(s, pageId, disk.pages, disk.freePages);
      DropState(s, pageId);
      ok := true;
    }

    /** Writes every dirty page back, as far as the disk allows. */
    method FlushAllPages()
      requires Valid()
      modifies Repr
      ensures Valid() && Store() == old(Store()) && Pins() == old(Pins())
      ensures disk.reliable ==> forall id: nat :: id in Store() ==> id < |disk.pages| && disk.pages[id] == Store()[id]
      ensures PoolStep(old(Store()), Kept, Store())
    {
      hide *;
      Steps(Store(), 0);
      var todo: set<nat> := pageTable.Keys;
      while todo != {}
        invariant Valid() && Store() == old(Store()) && Pins() == old(Pins())
        invariant pageTable == old(pageTable) && todo <= pageTable.Keys
        invariant disk.reliable ==> forall id: nat :: id in pageTable && id !in todo ==>
                    id in Store() && id < |disk.pages| && disk.pages[id] == Store()[id]
        decreases todo
      {
        var pageId: nat :| pageId in todo;
        var ok := FlushPage(pageId);
        todo := todo - {pageId};
      }
      forall id: nat | id in Store() && id !in pageTable
        ensures id < |disk.pages| && disk.pages[id] == Store()[id]
      {
        NotResident(id);
      }
    }

    method UnpinPage(pageId: int, isDirty: bool) returns (ok: bool)
      requires Valid()
      modifies Repr
      ensures Valid()
      ensures Store() == old(Store()) && pageTable == old(pageTable) && disk.freePages == old(disk.freePages)
      ensures ok <==> pageId in old(Pins())
      ensures ok ==> Pins() == if old(Pins())[pageId] == 1 then old(Pins()) - {pageId} else old(Pins())[pageId := old(Pins())[pageId] - 1]
      ensures !ok ==> Pins() == old(Pins())
      ensures Dirty(pageId) <==> old(Dirty(pageId)) || (ok && isDirty)
      ensures PoolStep(old(Store()), Kept, Store())
    {
      hide *;
      Steps(Store(), 0);
      DirtyIs(pageId);
      Parts();
      if pageId !in pageTable {
        NotResident(pageId);
        return false;
      }
      ResidentFrame(pageId);
      var frame := pageTable[pageId];
      var page := pages[frame];
      if page.pinCount <= 0 {
        return false;
      }
      page.pinCount := page.pinCount - 1;
      page.dirty := page.dirty || isDirty;
      if page.pinCount == 0 {
        replacer.Unpin(frame);
      }
      FrameStep(pageId);
      DirtyIs(pageId);
      return true;
    }
  }
}
