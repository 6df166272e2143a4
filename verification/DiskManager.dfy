// The database file as a growing sequence of pages with a set of free page ids
// (src/storage/disk_manager.cpp).
module Disk {
  import opened Common

  /** Page ids are 32-bit signed integers. */
  const MAX_PAGES: nat := 0x8000_0000

  predicate IsZeroPage(page: Bytes) {
    forall i :: 0 <= i < |page| ==> page[i] == 0
  }

  /** The page ids, apart from the catalog page, whose page is all zero. */
  function ZeroPages(pages: seq<Bytes>): set<nat> {
    set p: nat | 1 <= p < |pages| && IsZeroPage(pages[p])
  }

  class DiskManager {
    /** Whether every read and every write succeeds for which the disk has room. */
    const reliable: bool
    /** How many pages the disk has room for. */
    const capacity: nat
    var pages: seq<Bytes>
    var freePages: set<nat>

    ghost predicate Shape()
      reads this
    {
      && 1 <= |pages| <= capacity <= MAX_PAGES
      && (forall p :: 0 <= p < |pages| ==> |pages[p]| == PAGE_SIZE)
      && (forall p :: p in freePages ==> 1 <= p < |pages|)
    }

    /** On a disk that works the free pages are zero. */
    ghost predicate Valid()
      reads this
    {
      Shape() && (reliable ==> freePages <= ZeroPages(pages))
    }

    ghost function Allocated(): set<nat>
      reads this
    {
      set p: nat | p < |pages| && p !in freePages
    }

    /** Opens a file; the all-zero pages become the free pages. */
    constructor Open(file: seq<Bytes>, reliable: bool, capacity: nat)
      requires |file| <= capacity && 1 <= capacity <= MAX_PAGES && forall p :: 0 <= p < |file| ==> |file[p]| == PAGE_SIZE
      ensures Valid() && this.reliable == reliable && this.capacity == capacity
      ensures pages == if |file| == 0 then [Zeros(PAGE_SIZE)] else file
      ensures freePages == ZeroPages(pages)
    {
      this.reliable, this.capacity := reliable, capacity;
      var contents := if |file| == 0 then [Zeros(PAGE_SIZE)] else file;
      var found: set<nat> := {};
      for p := 1 to |contents|
        invariant found == set q: nat | 1 <= q < p && IsZeroPage(contents[q])
      {
        var isZero := IsZeroPage(contents[p]);
        if isZero {
          found := found + {p};
        }
      }
      pages := contents;
      freePages := found;
    }

    /** A failed write leaves arbitrary bytes in the page. Nothing keeps a caller from
        writing to a free page, which is then no longer zero. */
    method WritePage(pageId: int, data: Bytes) returns (status: StatusCode)
      requires Shape() && |data| == PAGE_SIZE
      modifies this
      ensures Shape() && freePages == old(freePages)
      ensures old(Valid()) && pageId !in freePages ==> Valid()
      ensures status.OK? ==> 0 <= pageId <= |old(pages)|
      ensures status.OK? ==>
                pages == if pageId < |old(pages)| then old(pages)[pageId := data] else old(pages) + [data]
      ensures |old(pages)| <= |pages| && (!status.OK? ==> |pages| == |old(pages)|)
      ensures forall p :: 0 <= p < |old(pages)| && p != pageId ==> pages[p] == old(pages)[p]
      ensures pageId < 0 || pageId > |old(pages)| ==> status == INVALID_ARGUMENT
      ensures reliable && 0 <= pageId < |old(pages)| ==> status.OK?
      ensures reliable && pageId == |old(pages)| ==> (status.OK? <==> |old(pages)| < capacity)
    {
      if pageId < 0 {
        return INVALID_ARGUMENT;
      }
      if pageId > |pages| {
        return INVALID_ARGUMENT;
      }
      var failed: bool := *;
      if (failed && !reliable) || pageId == capacity {
        if pageId < |pages| {
          var torn := SomePage();
          pages := pages[pageId := torn];
        }
        return IO_ERROR;
      }
      if pageId == |pages| {
        pages := pages + [data];
      } else {
        pages := pages[pageId := data];
      }
      status := OK;
    }

    method ReadPage(pageId: int) returns (status: StatusCode, data: Bytes)
      requires Valid()
      ensures status.OK? ==> 0 <= pageId < |pages| && data == pages[pageId]
      ensures reliable && 0 <= pageId < |pages| ==> status.OK?
      ensures pageId < 0 <==> status == INVALID_ARGUMENT
      ensures pageId >= |pages| <==> status == NOT_FOUND
    {
      data := Zeros(PAGE_SIZE);
      if pageId < 0 {
        return INVALID_ARGUMENT, data;
      }
      if pageId >= |pages| {
        return NOT_FOUND, data;
      }
      var failed: bool := *;
      if failed && !reliable {
        return IO_ERROR, data;
      }
      return OK, pages[pageId];
    }

    /** Takes the smallest free page id, or grows the file; fails whenever the
        zero page cannot be written: on a disk that works exactly if no page is free and the
        disk is full, on another one at any time. A free page is then left with arbitrary
        bytes, and stays free. */
    method AllocatePage() returns (pageId: int)
      requires Valid()
      modifies this
      ensures Valid()
      ensures pageId != INVALID_PAGE_ID ==> old(freePages) != {} || |old(pages)| < capacity
      ensures reliable && (old(freePages) != {} || |old(pages)| < capacity) ==> pageId != INVALID_PAGE_ID
      ensures pageId == INVALID_PAGE_ID ==> freePages == old(freePages) && |pages| == |old(pages)|
      ensures pageId == INVALID_PAGE_ID ==>
                forall p: nat :: p < |pages| && (reliable || p !in freePages) ==> pages[p] == old(pages)[p]
      ensures pageId != INVALID_PAGE_ID ==>
                && 1 <= pageId < |pages| && pageId < MAX_PAGES && pages[pageId] == Zeros(PAGE_SIZE)
                && (pageId < |old(pages)| ==> pageId in old(freePages))
                && (old(freePages) != {} ==> pageId in old(freePages) && forall p :: p in old(freePages) ==> pageId <= p)
                && |pages| == (if old(freePages) != {} then |old(pages)| else |old(pages)| + 1)
                && (forall p :: 0 <= p < |old(pages)| && p != pageId ==> pages[p] == old(pages)[p])
      ensures pageId != INVALID_PAGE_ID ==>
                forall p: nat :: p < |pages| && p !in freePages <==> (p < |old(pages)| && p !in old(freePages)) || p == pageId
    {
      pageId := |pages|;
      if freePages != {} {
        pageId := Least(freePages);
        freePages := freePages - {pageId};
      }
      var failed: bool := *;
      if (failed && !reliable) || pageId >= capacity {
        if pageId < |pages| {
          if !reliable {
            var torn := SomePage();
            pages := pages[pageId := torn];
          }
          freePages := freePages + {pageId};
        }
        return INVALID_PAGE_ID;
      }
      if pageId == |pages| {
        pages := pages + [Zeros(PAGE_SIZE)];
      } else {
        pages := pages[pageId := Zeros(PAGE_SIZE)];
      }
    }

    /** Zeroes the page and frees it. When the write fails the page stays
        allocated, with arbitrary contents. */
    method DeallocatePage(pageId: int)
      requires Valid()
      modifies this
      ensures Valid() && |pages| == |old(pages)|
      ensures forall p :: 0 <= p < |pages| && p != pageId ==> pages[p] == old(pages)[p]
      ensures freePages == old(freePages) || freePages == old(freePages) + {pageId}
      ensures pageId <= 0 || pageId >= |pages| ==> freePages == old(freePages)
      ensures reliable && 0 < pageId < |pages| ==> pageId in freePages
    {
      if pageId <= 0 {
        return;
      }
      if pageId >= |pages| || pageId in freePages {
        return;
      }
      var failed: bool := *;
      if failed && !reliable {
        var torn := SomePage();
        pages := pages[pageId := torn];
      } else {
        pages := pages[pageId := Zeros(PAGE_SIZE)];
        freePages := freePages + {pageId};
      }
    }
  }

  /** A page of arbitrary bytes. */
  method SomePage() returns (page: Bytes)
    ensures |page| == PAGE_SIZE
  {
    page := *;
    if |page| != PAGE_SIZE {
      page := Zeros(PAGE_SIZE);
    }
  }

  method Least(s: set<nat>) returns (least: nat)
    requires s != {}
    ensures least in s && forall x :: x in s ==> least <= x
  {
    least :| least in s;
    var rest := s - {least};
    while rest != {}
      invariant rest <= s && least in s
      invariant forall x :: x in s && x !in rest ==> least <= x
      decreases rest
    {
      var x :| x in rest;
      rest := rest - {x};
      if x < least {
        least := x;
      }
    }
  }
}
