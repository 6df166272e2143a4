// A persistent hash index: a directory of bucket chains in the buffer pool
// (src/index/hash_index.cpp).
module HashIndexes {
  import opened Common
  import opened ByteFormat
  import opened Disk
  import opened Buffer
  import opened BucketFormat
  import opened BucketPages
  import opened IndexHeaders
  import opened PageChains
  import opened IndexStates
  import opened IndexOutcomes

  const DEFAULT_BUCKET_COUNT: nat := 64

  class HashIndex {
    const bpm: BufferPoolManager
    const headerPageId: nat

    constructor (bpm: BufferPoolManager, headerPageId: nat)
      ensures this.bpm == bpm && this.headerPageId == headerPageId
    {
      this.bpm := bpm;
      this.headerPageId := headerPageId;
    }

    lemma PageFacts(p: nat)
      requires bpm.Valid() && p in bpm.Store()
      ensures p !in bpm.disk.freePages && p < MAX_PAGES && IsInt32(p) && |bpm.Store()[p]| == PAGE_SIZE
      ensures bpm.Ready() <==> bpm.disk.reliable && |bpm.Pins()| < |bpm.pages|
      ensures forall id :: id in bpm.Pins() ==> bpm.Pins()[id] >= 1
      ensures INVALID_PAGE_ID == -1 && HEADER_PAGE_ID == 0
    {
      bpm.InStore(p);
      bpm.PinsArePositive();
      bpm.ReadyParts();
    }

    lemma BucketFacts(p: nat)
      requires bpm.Valid() && GoodPage(bpm.Store(), p)
      ensures p >= 1 && p in bpm.Store() && BucketOk(bpm.Store()[p]) && BucketInitialized(bpm.Store()[p])
      ensures EntriesAt(bpm.Store(), p) == Entries(bpm.Store()[p]) && |Entries(bpm.Store()[p])| == Count(bpm.Store()[p])
    {
      hide AllStorable, LengthsOk;
    }

    lemma HeaderFacts()
      requires bpm.Valid() && GoodHeader(bpm.Store(), headerPageId)
      ensures headerPageId >= 1 && headerPageId in bpm.Store() && HeaderOk(bpm.Store()[headerPageId])
      ensures HeaderInitialized(bpm.Store()[headerPageId])
      ensures 0 < |Directory(bpm.Store()[headerPageId])| == BucketCount(bpm.Store()[headerPageId])
      ensures DirectoryAt(bpm.Store(), headerPageId) == Directory(bpm.Store()[headerPageId])
      ensures MaxKeyLength(bpm.Store()[headerPageId]) == MAX_KEY_LENGTH
      ensures forall key: Bytes, n: nat :: n > 0 ==> SlotOf(key, n) == StableHash(key) % n && SlotOf(key, n) < n
    {
      hide StableHash, GetU16;
    }

    // ---- One page at a time ----

    lemma HeaderAllocated()
      requires bpm.Valid() && GoodHeader(bpm.Store(), headerPageId)
      ensures headerPageId >= 1 && headerPageId !in bpm.disk.freePages
      ensures headerPageId in bpm.Store() && HeaderOk(bpm.Store()[headerPageId])
    {
      hide *;
      HeaderFacts();
      PageFacts(headerPageId);
    }

    lemma HeaderIsUsable(s: Store)
      requires headerPageId in s && |s[headerPageId]| == PAGE_SIZE
      ensures HeaderOk(s[headerPageId]) <==> HeaderInitialized(s[headerPageId])
      ensures HeaderOk(s[headerPageId]) ==>
                0 < |DirectoryAt(s, headerPageId)| == BucketCount(s[headerPageId]) && DirectoryAt(s, headerPageId) == Directory(s[headerPageId])
      ensures forall key: Bytes, n: nat :: n > 0 ==> SlotOf(key, n) == StableHash(key) % n && SlotOf(key, n) < n
    {
      hide GetU16, GetU32, StableHash;
    }

    /** The bucket of a key, and the first page of that bucket. */
    method GetBucketPageId(key: Bytes) returns (status: StatusCode, bucket: nat, pageId: int)
      requires bpm.Valid() && headerPageId >= 1 && headerPageId !in bpm.disk.freePages
      modifies bpm.Repr
      ensures bpm.Valid() && bpm.Pins() == old(bpm.Pins()) && bpm.Store() == old(bpm.Store())
      ensures status in {OK, INVALID_ARGUMENT, IO_ERROR}
      ensures status == INVALID_ARGUMENT <==> |key| > MAX_KEY_LENGTH
      ensures headerPageId !in old(bpm.Store()) || !HeaderOk(old(bpm.Store())[headerPageId]) ==> status != OK
      ensures old(bpm.Ready()) && headerPageId in old(bpm.Store()) && HeaderOk(old(bpm.Store())[headerPageId]) ==> status != IO_ERROR
      ensures status == OK ==>
                && bucket == SlotOf(key, |DirectoryAt(old(bpm.Store()), headerPageId)|)
                && bucket < |DirectoryAt(old(bpm.Store()), headerPageId)|
                && pageId == DirectoryAt(old(bpm.Store()), headerPageId)[bucket]
    {
      hide *;
      bpm.ReadyParts();
      bpm.PinsArePositive();
      bucket, pageId := 0, INVALID_PAGE_ID;
      if |key| > MAX_KEY_LENGTH {
        return INVALID_ARGUMENT, bucket, pageId;
      }
      var page := bpm.FetchPage(headerPageId);
      if page == null {
        return IO_ERROR, bucket, pageId;
      }
      bpm.HoldsParts(page, headerPageId);
      HeaderIsUsable(bpm.Store());
      var header := new HashIndexHeaderPage(page);
      var initialized := header.IsInitialized();
      if !initialized {
        status := IO_ERROR;
      } else {
        var count := header.GetBucketCount();
        bucket := StableHash(key) % count;
        status, pageId := header.GetBucketPageId(bucket);
      }
      var unpinned := bpm.UnpinPage(headerPageId, false);
    }

    static method Among(values: seq<RecordID>, value: RecordID) returns (present: bool)
      ensures present <==> value in values
    {
      present := false;
      for i := 0 to |values|
        invariant !present && value !in values[..i]
      {
        if values[i] == value {
          return true;
        }
      }
    }

    /** One page of the walk of Insert: whether the pair is there, whether there is room,
        and the link to the next page. */
    method LookForPair(p: nat, pair: Pair) returns (fetched: bool, present: bool, room: bool, next: int)
      requires bpm.Valid() && GoodPage(bpm.Store(), p) && |pair.key| <= MAX_KEY_LENGTH
      modifies bpm.Repr
      ensures bpm.Valid() && bpm.Pins() == old(bpm.Pins()) && bpm.Store() == old(bpm.Store())
      ensures !fetched ==> !old(bpm.Ready())
      ensures fetched ==> (present <==> pair in EntriesAt(old(bpm.Store()), p))
      ensures fetched ==> (room <==> |EntriesAt(old(bpm.Store()), p)| < ENTRY_CAPACITY)
      ensures fetched && p in old(bpm.Store()) ==> next == Overflow(old(bpm.Store())[p])
    {
      hide *;
      BucketFacts(p);
      PageFacts(p);
      present, room, next := false, false, INVALID_PAGE_ID;
      var page := bpm.FetchPage(p);
      if page == null {
        return false, present, room, next;
      }
      bpm.HoldsParts(page, p);
      var bucket := new HashIndexBucketPage(page);
      var initialized := bucket.IsInitialized();
      if !initialized {
        assert false;
      }
      fetched := true;
      var status, values := bucket.GetValue(pair.key, []);
      ghost var s := Entries(page.data[..]);
      ValuesMembers(s, pair);
      present := Among(values, pair.rid);
      var count := bucket.GetEntryCount();
      room := count < ENTRY_CAPACITY;
      next := bucket.GetOverflowPageId();
      var unpinned := bpm.UnpinPage(p, false);
    }

    /** Adds a pair to a bucket page that has room for it. */
    method AddToPage(p: nat, pair: Pair) returns (fetched: bool, status: StatusCode)
      requires bpm.Valid() && GoodPage(bpm.Store(), p) && Storable(pair)
      requires pair !in EntriesAt(bpm.Store(), p) && |EntriesAt(bpm.Store(), p)| < ENTRY_CAPACITY
      modifies bpm.Repr
      ensures bpm.Valid() && bpm.Pins() == old(bpm.Pins())
      ensures !fetched ==> bpm.Store() == old(bpm.Store()) && !old(bpm.Ready()) && status == IO_ERROR
      ensures fetched ==> status == OK && AppendPairStep(old(bpm.Store()), bpm.Store(), p, pair)
    {
      hide *;
      BucketFacts(p);
      PageFacts(p);
      var page := bpm.FetchPage(p);
      if page == null {
        return false, IO_ERROR;
      }
      bpm.HoldsParts(page, p);
      ghost var b := page.data[..];
      label Fetched:
      var bucket := new HashIndexBucketPage(page);
      var inserted;
      status, inserted := bucket.Insert(pair);
      InsertAppends(b, page.data[..], pair, status, inserted);
      bpm.WroteThrough@Fetched(p);
      MakeAppendPairStep(old(bpm.Store()), bpm.Store(), p, page.data[..], pair);
      var unpinned := bpm.UnpinPage(p, status.OK? && inserted);
      fetched := true;
    }

    /** Formats a new bucket page and stores its first pair. */
    method FillBucket(page: Page, p: nat, pair: Pair) returns (status: StatusCode)
      requires bpm.Holds(page, p) && p >= 1 && Storable(pair)
      modifies bpm.Repr
      ensures bpm.Valid() && bpm.Pins() == old(bpm.Pins()) && p in bpm.Store()
      ensures bpm.Store() == old(bpm.Store())[p := bpm.Store()[p]]
      ensures status == OK && HoldsPair(bpm.Store()[p], pair)
    {
      hide *;
      bpm.HoldsParts(page, p);
      InvalidIsNegative();
      var bucket := new HashIndexBucketPage(page);
      status := bucket.Init();
      ghost var e := page.data[..];
      if status != OK {
        assert false;
      }
      var inserted;
      status, inserted := bucket.Insert(pair);
      FirstPair(e, page.data[..], pair, status, inserted);
      bpm.WroteThrough(p);
    }

    lemma InvalidIsNegative()
      ensures INVALID_PAGE_ID == -1 && HEADER_PAGE_ID == 0
    {
    }

    /** A new page that holds just `pair`; the first half of CreatePrimaryBucket and of
        AppendOverflowBucket. */
    method NewBucketPage(pair: Pair) returns (status: StatusCode, p: int)
      requires bpm.Valid() && Storable(pair)
      modifies bpm.Repr
      ensures bpm.Valid() && bpm.Pins() == old(bpm.Pins())
      ensures status == OK ==> p > 0 && NewBucketStep(old(bpm.Store()), bpm.Store(), p, pair)
      ensures status != OK ==> status == OUT_OF_MEMORY && bpm.Store() == old(bpm.Store())
      ensures status == OK ==> |old(bpm.Store())| < bpm.disk.capacity
      ensures old(bpm.Ready()) && |old(bpm.Store())| < bpm.disk.capacity ==> status == OK
    {
      hide *;
      bpm.PinsInStore();
      InvalidIsNegative();
      ghost var a := bpm.Store();
      var page;
      page, p := bpm.NewPage();
      if page == null {
        return OUT_OF_MEMORY, p;
      }
      status := FillBucket(page, p, pair);
      var unpinned := bpm.UnpinPage(p, status == OK);
      assert bpm.Pins() == old(bpm.Pins());
      if status != OK {
        assert false;
      }
      MakeNewBucketStep(a, bpm.Store(), p, pair);
    }

    lemma MakeNewBucketStep(a: Store, b: Store, p: nat, pair: Pair)
      requires p >= 1 && p !in a && p in b && b == a[p := b[p]] && HoldsPair(b[p], pair)
      ensures NewBucketStep(a, b, p, pair)
    {
      hide HoldsPair;
    }

    /** Links a bucket page to a new overflow page. */
    method LinkOverflow(previous: nat, p: nat, pair: Pair, ghost a: Store) returns (fetched: bool, status: StatusCode)
      requires bpm.Valid() && GoodPage(bpm.Store(), previous) && previous in a && NewBucketStep(a, bpm.Store(), p, pair)
      requires previous in bpm.Store() && Overflow(bpm.Store()[previous]) == INVALID_PAGE_ID
      modifies bpm.Repr
      ensures bpm.Valid() && bpm.Pins() == old(bpm.Pins())
      ensures !fetched ==> bpm.Store() == old(bpm.Store()) && !old(bpm.Ready()) && status == IO_ERROR
      ensures fetched ==> status == OK && OverflowStep(a, bpm.Store(), previous, p, pair)
    {
      hide *;
      BucketFacts(previous);
      PageFacts(previous);
      NewBucketParts(a, bpm.Store(), p, pair);
      PageFacts(p);
      var page := bpm.FetchPage(previous);
      if page == null {
        return false, IO_ERROR;
      }
      bpm.HoldsParts(page, previous);
      label Fetched:
      var bucket := new HashIndexBucketPage(page);
      var initialized := bucket.IsInitialized();
      if !initialized {
        assert false;
      }
      var next := bucket.GetOverflowPageId();
      if next != INVALID_PAGE_ID {
        assert false;
      }
      status := bucket.SetOverflowPageId(p);
      bpm.WroteThrough@Fetched(previous);
      MakeOverflowStep(a, old(bpm.Store()), bpm.Store(), previous, p, page.data[..], pair);
      var unpinned := bpm.UnpinPage(previous, status.OK?);
      fetched := true;
    }

    lemma NewBucketParts(a: Store, b: Store, p: nat, pair: Pair)
      requires NewBucketStep(a, b, p, pair)
      ensures p >= 1 && p !in a && p in b && b == a[p := b[p]] && HoldsPair(b[p], pair)
    {
      hide HoldsPair;
    }

    /** Enters a new page in the directory as the first page of a bucket. */
    method EnterBucket(i: nat, p: nat, pair: Pair, ghost a: Store) returns (fetched: bool, status: StatusCode)
      requires bpm.Valid() && GoodHeader(bpm.Store(), headerPageId) && headerPageId in a && NewBucketStep(a, bpm.Store(), p, pair)
      requires i < |DirectoryAt(bpm.Store(), headerPageId)| && DirectoryAt(bpm.Store(), headerPageId)[i] == INVALID_PAGE_ID
      modifies bpm.Repr
      ensures bpm.Valid() && bpm.Pins() == old(bpm.Pins())
      ensures !fetched ==> bpm.Store() == old(bpm.Store()) && !old(bpm.Ready()) && status == IO_ERROR
      ensures fetched ==> status == OK && PrimaryStep(a, bpm.Store(), headerPageId, i, p, pair)
    {
      hide *;
      HeaderFacts();
      PageFacts(headerPageId);
      NewBucketParts(a, bpm.Store(), p, pair);
      PageFacts(p);
      var page := bpm.FetchPage(headerPageId);
      if page == null {
        return false, IO_ERROR;
      }
      bpm.HoldsParts(page, headerPageId);
      label Fetched:
      var header := new HashIndexHeaderPage(page);
      var existing;
      status, existing := header.GetBucketPageId(i);
      if status != OK || existing != INVALID_PAGE_ID {
        assert false;
      }
      status := header.SetBucketPageId(i, p);
      bpm.WroteThrough@Fetched(headerPageId);
      MakePrimaryStep(a, old(bpm.Store()), bpm.Store(), headerPageId, i, p, page.data[..], pair);
      var unpinned := bpm.UnpinPage(headerPageId, status.OK?);
      fetched := true;
    }

    /** Stores the first pair of a bucket that has no pages. */
    method CreatePrimaryBucket(i: nat, pair: Pair) returns (status: StatusCode, ghost p: int)
      requires bpm.Valid() && GoodHeader(bpm.Store(), headerPageId) && Storable(pair)
      requires i < |DirectoryAt(bpm.Store(), headerPageId)| && DirectoryAt(bpm.Store(), headerPageId)[i] == INVALID_PAGE_ID
      modifies bpm.Repr
      ensures bpm.Valid() && bpm.Pins() == old(bpm.Pins())
      ensures status == OK ==> p > 0 && PrimaryStep(old(bpm.Store()), bpm.Store(), headerPageId, i, p, pair)
      ensures status != OK ==> Extends(old(bpm.Store()), bpm.Store())
      ensures status != OK && old(bpm.Ready()) ==> status == OUT_OF_MEMORY && bpm.Store() == old(bpm.Store())
      ensures old(bpm.Ready()) ==> (status == OK <==> |old(bpm.Store())| < bpm.disk.capacity)
    {
      hide *;
      HeaderFacts();
      PageFacts(headerPageId);
      ghost var a := bpm.Store();
      StoreExtends(a, a, 0);
      var newPageId;
      status, newPageId := NewBucketPage(pair);
      p := newPageId;
      if status != OK {
        return;
      }
      NewBucketParts(a, bpm.Store(), newPageId, pair);
      HeaderStays(a, bpm.Store(), headerPageId, newPageId);
      PageFacts(newPageId);
      bpm.PinsInStore();
      var fetched;
      fetched, status := EnterBucket(i, newPageId, pair, a);
      if !fetched {
        var deleted := bpm.DeletePage(newPageId);
        StoreExtends(a, bpm.Store(), newPageId);
      }
    }

    lemma HeaderStays(a: Store, b: Store, h: nat, p: nat)
      requires GoodHeader(a, h) && p !in a && p in b && b == a[p := b[p]]
      ensures GoodHeader(b, h) && DirectoryAt(b, h) == DirectoryAt(a, h)
    {
      hide HeaderOk, Directory;
    }

    lemma BucketStays(a: Store, b: Store, q: nat, p: nat)
      requires GoodPage(a, q) && p !in a && p in b && b == a[p := b[p]]
      ensures GoodPage(b, q) && q in a && q in b && b[q] == a[q]
    {
      hide BucketOk, AllStorable, Entries;
    }

    /** Stores a pair in a new page at the end of its bucket. */
    method AppendOverflowBucket(previous: nat, pair: Pair) returns (status: StatusCode, ghost p: int)
      requires bpm.Valid() && GoodPage(bpm.Store(), previous) && Storable(pair)
      requires previous in bpm.Store() && Overflow(bpm.Store()[previous]) == INVALID_PAGE_ID
      modifies bpm.Repr
      ensures bpm.Valid() && bpm.Pins() == old(bpm.Pins())
      ensures status == OK ==> p > 0 && OverflowStep(old(bpm.Store()), bpm.Store(), previous, p, pair)
      ensures status != OK ==> Extends(old(bpm.Store()), bpm.Store())
      ensures status != OK && old(bpm.Ready()) ==> status == OUT_OF_MEMORY && bpm.Store() == old(bpm.Store())
      ensures old(bpm.Ready()) ==> (status == OK <==> |old(bpm.Store())| < bpm.disk.capacity)
    {
      hide *;
      PageFacts(previous);
      ghost var a := bpm.Store();
      StoreExtends(a, a, 0);
      var newPageId;
      status, newPageId := NewBucketPage(pair);
      p := newPageId;
      if status != OK {
        return;
      }
      NewBucketParts(a, bpm.Store(), newPageId, pair);
      BucketStays(a, bpm.Store(), previous, newPageId);
      PageFacts(newPageId);
      bpm.PinsInStore();
      var fetched;
      fetched, status := LinkOverflow(previous, newPageId, pair, a);
      if !fetched {
        var deleted := bpm.DeletePage(newPageId);
        StoreExtends(a, bpm.Store(), newPageId);
      }
    }

    /** Adds a pair to the index, unless it is there already. */
    method Insert(key: Bytes, value: RecordID) returns (status: StatusCode)
      requires bpm.Valid() && IndexOk(bpm.Store(), headerPageId)
      requires value.pageId < 0x8000_0000 && value.slotId < 0x1_0000
      modifies bpm.Repr
      ensures bpm.Valid() && bpm.Pins() == old(bpm.Pins())
      ensures PairInserted(old(bpm.Store()), bpm.Store(), headerPageId, Pair(key, value), status)
      ensures old(bpm.Ready()) ==>
                && PairInsertedReliably(old(bpm.Store()), bpm.Store(), headerPageId, Pair(key, value), status)
                && PairPlaced(old(bpm.Store()), bpm.Store(), headerPageId, Pair(key, value), status, bpm.disk.capacity)
    {
      hide *;
      ghost var a := bpm.Store();
      ghost var chains := ChainsFor(a, headerPageId);
      var pair := Pair(key, value);
      InsertStart(a, headerPageId, pair);
      bpm.ReadyParts();
      if |key| == 0 {
        return INVALID_ARGUMENT;
      }
      if value.pageId <= HEADER_PAGE_ID {
        return INVALID_ARGUMENT;
      }
      var bucket, current;
      HeaderAllocated();
      status, bucket, current := GetBucketPageId(key);
      if status != OK {
        return;
      }
      if current == INVALID_PAGE_ID {
        bpm.ReadyParts();
        ghost var p;
        status, p := CreatePrimaryBucket(bucket, pair);
        CreateOutcome(a, bpm.Store(), headerPageId, pair, p, status, bpm.disk.capacity);
        return;
      }
      var visited: set<int> := {};
      var space, last := INVALID_PAGE_ID, INVALID_PAGE_ID;
      ghost var chain := chains[bucket];
      ghost var k := 0;
      NotBeenYet(chain, k);
      while current != INVALID_PAGE_ID
        invariant bpm.Valid() && bpm.Pins() == old(bpm.Pins()) && bpm.Store() == a
        invariant k <= |chain| && current == if k < |chain| then chain[k] else INVALID_PAGE_ID
        invariant last == if k == 0 then INVALID_PAGE_ID else chain[k - 1]
        invariant BeenAt(visited, chain, k)
        invariant Searched(a, chain, k, pair, space)
        decreases |chain| - k
      {
        IndexWalk(a, headerPageId, chains, bucket, k);
        NextIsNew(visited, chain, k);
        bpm.ReadyParts();
        if current in visited {
          assert false;
        }
        visited := visited + {current};
        var fetched, present, room, next := LookForPair(current, pair);
        if !fetched {
          return IO_ERROR;
        }
        if present {
          FoundPair(a, headerPageId, pair, current);
          return OK;
        }
        SearchStep(a, chain, k, pair, space, room);
        if space == INVALID_PAGE_ID && room {
          space := current;
        }
        last := current;
        current := next;
        k := k + 1;
      }
      SearchEnd(a, headerPageId, pair, k, space);
      if space != INVALID_PAGE_ID {
        bpm.ReadyParts();
        var fetched;
        fetched, status := AddToPage(space, pair);
        if fetched {
          AppendPairOutcome(a, bpm.Store(), headerPageId, chains, bucket, space, pair);
          PlacedInPage(a, bpm.Store(), headerPageId, pair, bpm.disk.capacity);
        }
        return;
      }
      if last == INVALID_PAGE_ID {
        assert false;
      }
      IndexWalk(a, headerPageId, chains, bucket, k - 1);
      bpm.ReadyParts();
      ghost var p;
      status, p := AppendOverflowBucket(last, pair);
      AppendOutcome(a, bpm.Store(), headerPageId, pair, p, status, bpm.disk.capacity);
    }

    /** One page of the walk of GetValue. */
    method GatherFromPage(p: nat, key: Bytes, result: seq<RecordID>) returns (fetched: bool, extended: seq<RecordID>, next: int)
      requires bpm.Valid() && GoodPage(bpm.Store(), p) && |key| <= MAX_KEY_LENGTH
      modifies bpm.Repr
      ensures bpm.Valid() && bpm.Pins() == old(bpm.Pins()) && bpm.Store() == old(bpm.Store())
      ensures !fetched ==> !old(bpm.Ready())
      ensures fetched ==> extended == result + ValuesOf(EntriesAt(old(bpm.Store()), p), key)
      ensures fetched && p in old(bpm.Store()) ==> next == Overflow(old(bpm.Store())[p])
    {
      hide *;
      BucketFacts(p);
      PageFacts(p);
      extended, next := result, INVALID_PAGE_ID;
      var page := bpm.FetchPage(p);
      if page == null {
        return false, extended, next;
      }
      bpm.HoldsParts(page, p);
      var bucket := new HashIndexBucketPage(page);
      var initialized := bucket.IsInitialized();
      if !initialized {
        assert false;
      }
      var status;
      status, extended := bucket.GetValue(key, result);
      next := bucket.GetOverflowPageId();
      var unpinned := bpm.UnpinPage(p, false);
      if status != OK && status != NOT_FOUND {
        assert false;
      }
      fetched := true;
    }

    /** The records of a key, each once. */
    method GetValue(key: Bytes) returns (status: StatusCode, result: seq<RecordID>)
      requires bpm.Valid() && IndexOk(bpm.Store(), headerPageId)
      modifies bpm.Repr
      ensures bpm.Valid() && bpm.Pins() == old(bpm.Pins()) && bpm.Store() == old(bpm.Store())
      ensures status == OK ==> LookedUp(old(bpm.Store()), headerPageId, key, result)
      ensures status == INVALID_ARGUMENT <==> |key| > MAX_KEY_LENGTH
      ensures old(bpm.Ready()) ==> status in {OK, INVALID_ARGUMENT}
    {
      hide *;
      ghost var a := bpm.Store();
      ghost var chains := ChainsFor(a, headerPageId);
      IndexChains(a, headerPageId);
      IndexStart(a, headerPageId, chains, key);
      bpm.ReadyParts();
      result := [];
      var bucket, current;
      HeaderAllocated();
      status, bucket, current := GetBucketPageId(key);
      if status != OK {
        return;
      }
      ghost var chain := chains[bucket];
      ghost var k := 0;
      LookupStart(a, headerPageId, key);
      if current == INVALID_PAGE_ID {
        return OK, result;
      }
      var visited: set<int> := {};
      NotBeenYet(chain, k);
      while current != INVALID_PAGE_ID
        invariant bpm.Valid() && bpm.Pins() == old(bpm.Pins()) && bpm.Store() == a
        invariant k <= |chain| && current == if k < |chain| then chain[k] else INVALID_PAGE_ID
        invariant BeenAt(visited, chain, k)
        invariant ValuesUpTo(a, chain, k, key, result)
        decreases |chain| - k
      {
        IndexWalk(a, headerPageId, chains, bucket, k);
        NextIsNew(visited, chain, k);
        bpm.ReadyParts();
        if current in visited {
          assert false;
        }
        visited := visited + {current};
        var fetched, extended, next := GatherFromPage(current, key, result);
        if !fetched {
          return IO_ERROR, result;
        }
        LookupStep(a, headerPageId, chains, bucket, k, key, result);
        result := extended;
        current := next;
        k := k + 1;
      }
      LookupEnd(a, headerPageId, k, key, result);
      status := OK;
    }

    /** One page of the walk of RemoveInternal. */
    method RemoveFromPage(p: nat, key: Bytes, value: Option<RecordID>) returns (fetched: bool, removed: nat, next: int)
      requires bpm.Valid() && GoodPage(bpm.Store(), p) && |key| <= MAX_KEY_LENGTH
      modifies bpm.Repr
      ensures bpm.Valid() && bpm.Pins() == old(bpm.Pins())
      ensures !fetched ==> bpm.Store() == old(bpm.Store()) && !old(bpm.Ready())
      ensures fetched ==> RemovePairsStep(old(bpm.Store()), bpm.Store(), p, key, value, removed)
      ensures fetched && p in old(bpm.Store()) ==> next == Overflow(old(bpm.Store())[p])
    {
      hide *;
      BucketFacts(p);
      PageFacts(p);
      removed, next := 0, INVALID_PAGE_ID;
      var page := bpm.FetchPage(p);
      if page == null {
        return false, removed, next;
      }
      bpm.HoldsParts(page, p);
      label Fetched:
      var bucket := new HashIndexBucketPage(page);
      var initialized := bucket.IsInitialized();
      if !initialized {
        assert false;
      }
      var status;
      status, removed := bucket.Remove(key, value);
      bpm.WroteThrough@Fetched(p);
      MakeRemovePairsStep(old(bpm.Store()), bpm.Store(), p, page.data[..], key, value, status, removed);
      next := bucket.GetOverflowPageId();
      var unpinned := bpm.UnpinPage(p, removed > 0);
      if status != OK && status != NOT_FOUND {
        assert false;
      }
      fetched := true;
    }

    /** Removes the pair `key`/`value`, or every pair of `key` if no value is given. */
    method RemoveInternal(key: Bytes, value: Option<RecordID>) returns (status: StatusCode)
      requires bpm.Valid() && IndexOk(bpm.Store(), headerPageId)
      modifies bpm.Repr
      ensures bpm.Valid() && bpm.Pins() == old(bpm.Pins())
      ensures PairsRemoved(old(bpm.Store()), bpm.Store(), headerPageId, key, value, status)
      ensures old(bpm.Ready()) ==> status in {OK, NOT_FOUND, INVALID_ARGUMENT}
    {
      hide *;
      ghost var a := bpm.Store();
      ghost var chains := ChainsFor(a, headerPageId);
      RemovalStart(a, headerPageId, key, value);
      IndexStart(a, headerPageId, chains, key);
      bpm.ReadyParts();
      var bucket, current;
      HeaderAllocated();
      status, bucket, current := GetBucketPageId(key);
      if status != OK {
        return;
      }
      if current == INVALID_PAGE_ID {
        RemovalEnd(a, a, headerPageId, 0, key, value, 0);
        return NOT_FOUND;
      }
      var visited: set<int> := {};
      var total := 0;
      ghost var chain := chains[bucket];
      ghost var k := 0;
      NotBeenYet(chain, k);
      while current != INVALID_PAGE_ID
        invariant bpm.Valid() && bpm.Pins() == old(bpm.Pins())
        invariant k <= |chain| && current == if k < |chain| then chain[k] else INVALID_PAGE_ID
        invariant BeenAt(visited, chain, k)
        invariant RemovedUpTo(a, bpm.Store(), headerPageId, chains, bucket, k, key, value, total)
        invariant value.Some? ==> total == 0
        decreases |chain| - k
      {
        ghost var s := bpm.Store();
        RemovalShape(a, s, headerPageId, chains, bucket, k, key, value, total);
        IndexWalk(s, headerPageId, chains, bucket, k);
        NextIsNew(visited, chain, k);
        bpm.ReadyParts();
        if current in visited {
          assert false;
        }
        visited := visited + {current};
        var fetched, removed, next := RemoveFromPage(current, key, value);
        if !fetched {
          RemovalCut(a, s, headerPageId, k, key, value, total);
          return IO_ERROR;
        }
        RemovalStep(a, s, bpm.Store(), headerPageId, chains, bucket, k, key, value, total, removed);
        total := total + removed;
        if value.Some? && total > 0 {
          RemovalEnd(a, bpm.Store(), headerPageId, k + 1, key, value, total);
          return OK;
        }
        current := next;
        k := k + 1;
      }
      RemovalEnd(a, bpm.Store(), headerPageId, k, key, value, total);
      if total == 0 {
        return NOT_FOUND;
      }
      status := OK;
    }

    /** Removes every pair of a key. */
    method RemoveKey(key: Bytes) returns (status: StatusCode)
      requires bpm.Valid() && IndexOk(bpm.Store(), headerPageId)
      modifies bpm.Repr
      ensures bpm.Valid() && bpm.Pins() == old(bpm.Pins())
      ensures PairsRemoved(old(bpm.Store()), bpm.Store(), headerPageId, key, None, status)
      ensures old(bpm.Ready()) ==> status in {OK, NOT_FOUND, INVALID_ARGUMENT}
    {
      status := RemoveInternal(key, None);
    }

    /** Removes one pair. */
    method Remove(key: Bytes, value: RecordID) returns (status: StatusCode)
      requires bpm.Valid() && IndexOk(bpm.Store(), headerPageId)
      modifies bpm.Repr
      ensures bpm.Valid() && bpm.Pins() == old(bpm.Pins())
      ensures PairsRemoved(old(bpm.Store()), bpm.Store(), headerPageId, key, Some(value), status)
      ensures old(bpm.Ready()) ==> status in {OK, NOT_FOUND, INVALID_ARGUMENT}
    {
      status := RemoveInternal(key, Some(value));
    }

    // ---- Creating and destroying ----

    /** Allocates the header page of an index without pairs. */
    static method Create(bpm: BufferPoolManager, bucketCount: nat) returns (status: StatusCode, headerPageId: int)
      requires bpm.Valid()
      modifies bpm.Repr
      ensures bpm.Valid() && bpm.Pins() == old(bpm.Pins())
      ensures status == INVALID_ARGUMENT <==> bucketCount == 0 || bucketCount > MAX_BUCKET_COUNT
      ensures status in {OK, INVALID_ARGUMENT, OUT_OF_MEMORY}
      ensures status == OK ==> headerPageId > 0 && IndexCreated(old(bpm.Store()), bpm.Store(), headerPageId, bucketCount)
      ensures status != OK ==> bpm.Store() == old(bpm.Store())
      ensures status == OK ==> |old(bpm.Store())| < bpm.disk.capacity
      ensures old(bpm.Ready()) && status == OUT_OF_MEMORY ==> |old(bpm.Store())| >= bpm.disk.capacity
    {
      hide *;
      KeyLengthFits();
      bpm.PinsInStore();
      headerPageId := INVALID_PAGE_ID;
      if bucketCount == 0 || bucketCount > MAX_BUCKET_COUNT {
        return INVALID_ARGUMENT, headerPageId;
      }
      ghost var a := bpm.Store();
      var page;
      page, headerPageId := bpm.NewPage();
      if page == null {
        return OUT_OF_MEMORY, headerPageId;
      }
      bpm.HoldsParts(page, headerPageId);
      label Allocated:
      var header := new HashIndexHeaderPage(page);
      status := header.Init(bucketCount, MAX_KEY_LENGTH);
      bpm.WroteThrough@Allocated(headerPageId);
      MakeIndexCreated(a, bpm.Store(), headerPageId, page.data[..], bucketCount);
      var unpinned := bpm.UnpinPage(headerPageId, status.OK?);
      assert bpm.Pins() == old(bpm.Pins());
    }

    static lemma KeyLengthFits()
      ensures 0 < MAX_KEY_LENGTH < 0x1_0000 && INVALID_PAGE_ID == -1
    {
    }

    lemma HeaderIsGood(s: Store)
      requires headerPageId in s && |s[headerPageId]| == PAGE_SIZE && headerPageId >= 1
      ensures GoodHeader(s, headerPageId) <==> HeaderInitialized(s[headerPageId]) && MaxKeyLength(s[headerPageId]) == MAX_KEY_LENGTH
      ensures GoodHeader(s, headerPageId) ==> BucketCount(s[headerPageId]) == |DirectoryAt(s, headerPageId)|
    {
      hide GetU16, GetU32;
    }

    lemma GoodIsInStore(s: Store)
      requires GoodHeader(s, headerPageId)
      ensures headerPageId in s
    {
    }

    /** Whether the header page is one that this version can use. */
    method ValidateHeader() returns (status: StatusCode, bucketCount: nat)
      requires bpm.Valid() && headerPageId >= 1 && headerPageId !in bpm.disk.freePages
      modifies bpm.Repr
      ensures bpm.Valid() && bpm.Pins() == old(bpm.Pins()) && bpm.Store() == old(bpm.Store())
      ensures bpm.disk.freePages == old(bpm.disk.freePages)
      ensures status == OK ==> GoodHeader(old(bpm.Store()), headerPageId) && bucketCount == |DirectoryAt(old(bpm.Store()), headerPageId)|
      ensures status == OK || status == IO_ERROR
      ensures old(bpm.Ready()) && GoodHeader(old(bpm.Store()), headerPageId) ==> status == OK
    {
      hide *;
      bpm.ReadyParts();
      bpm.PinsArePositive();
      bucketCount := 0;
      var page := bpm.FetchPage(headerPageId);
      if page == null {
        if GoodHeader(old(bpm.Store()), headerPageId) {
          GoodIsInStore(bpm.Store());
        }
        return IO_ERROR, bucketCount;
      }
      bpm.HoldsParts(page, headerPageId);
      HeaderIsGood(bpm.Store());
      var header := new HashIndexHeaderPage(page);
      var initialized := header.IsInitialized();
      var length := header.GetMaxKeyLength();
      if !initialized || length != MAX_KEY_LENGTH {
        status := IO_ERROR;
      } else {
        bucketCount := header.GetBucketCount();
        status := OK;
      }
      var unpinned := bpm.UnpinPage(headerPageId, false);
    }

    /** The first pages of the buckets that have pages. */
    method ListBuckets() returns (status: StatusCode, primaries: seq<int>, ghost buckets: seq<nat>)
      requires bpm.Valid() && GoodHeader(bpm.Store(), headerPageId)
      modifies bpm.Repr
      ensures bpm.Valid() && bpm.Pins() == old(bpm.Pins()) && bpm.Store() == old(bpm.Store())
      ensures status == OK ==> Listed(DirectoryAt(old(bpm.Store()), headerPageId), primaries, buckets)
      ensures status == OK || (status == IO_ERROR && !old(bpm.Ready()))
    {
      hide *;
      HeaderFacts();
      PageFacts(headerPageId);
      primaries, buckets := [], [];
      var page := bpm.FetchPage(headerPageId);
      if page == null {
        return IO_ERROR, primaries, buckets;
      }
      bpm.HoldsParts(page, headerPageId);
      var header := new HashIndexHeaderPage(page);
      var initialized := header.IsInitialized();
      if !initialized {
        assert false;
      }
      var count := header.GetBucketCount();
      ghost var directory := Directory(page.data[..]);
      ListStart(directory);
      for i := 0 to count
        invariant ListedUpTo(directory, i, primaries, buckets)
        invariant HeaderOk(page.data[..]) && Directory(page.data[..]) == directory && BucketCount(page.data[..]) == count
        modifies {}
      {
        var pageId;
        status, pageId := header.GetBucketPageId(i);
        if status != OK {
          assert false;
        }
        ListStep(directory, i, primaries, buckets);
        if pageId != INVALID_PAGE_ID {
          primaries := primaries + [pageId];
          buckets := buckets + [i];
        }
      }
      ListEnd(directory, primaries, buckets);
      var unpinned := bpm.UnpinPage(headerPageId, false);
      status := OK;
    }

    /** Reads the link of a bucket page and gives the page back. */
    method DestroyPage(p: nat) returns (ok: bool, next: int)
      requires bpm.Valid() && GoodPage(bpm.Store(), p) && p !in bpm.Pins()
      modifies bpm.Repr
      ensures bpm.Valid() && bpm.Pins() == old(bpm.Pins())
      ensures !ok ==> bpm.Store() == old(bpm.Store()) && !old(bpm.Ready())
      ensures ok ==> bpm.Store() - {p} == old(bpm.Store()) - {p} && (bpm.disk.reliable ==> p !in bpm.Store())
      ensures ok && p in old(bpm.Store()) ==> next == Overflow(old(bpm.Store())[p])
    {
      hide *;
      BucketFacts(p);
      PageFacts(p);
      next := INVALID_PAGE_ID;
      var page := bpm.FetchPage(p);
      if page == null {
        return false, next;
      }
      bpm.HoldsParts(page, p);
      var bucket := new HashIndexBucketPage(page);
      var initialized := bucket.IsInitialized();
      if !initialized {
        assert false;
      }
      next := bucket.GetOverflowPageId();
      var unpinned := bpm.UnpinPage(p, false);
      assert bpm.Pins() == old(bpm.Pins());
      ok := bpm.DeletePage(p);
      if !ok {
        assert false;
      }
    }

    /** Gives back the pages of bucket `i`. */
    method DestroyChain(primary: int, before: set<nat>, ghost a: Store, ghost chains: Chains, ghost i: nat)
      returns (status: StatusCode, visited: set<nat>)
      requires bpm.Valid() && IndexShape(a, headerPageId, chains) && i < |chains|
      requires Freed(a, bpm.Store(), before, bpm.disk.reliable)
      requires primary == if chains[i] == [] then INVALID_PAGE_ID else chains[i][0]
      requires forall p: nat :: p in chains[i] ==> p !in before && p !in bpm.Pins()
      modifies bpm.Repr
      ensures bpm.Valid() && bpm.Pins() == old(bpm.Pins())
      ensures old(bpm.Ready()) ==> status == OK
      ensures status in {OK, IO_ERROR}
      ensures status == OK ==> visited == before + PagesUpTo(chains[i], |chains[i]|)
      ensures Freed(a, bpm.Store(), visited, bpm.disk.reliable && status == OK)
      ensures visited <= before + PagesUpTo(chains[i], |chains[i]|)
    {
      hide *;
      visited := before;
      var current := primary;
      ghost var chain, k := chains[i], 0;
      InvalidIsNegative();
      NoPagesYet(chain);
      bpm.ReadyParts();
      while current != INVALID_PAGE_ID
        invariant bpm.Valid() && bpm.Pins() == old(bpm.Pins())
        invariant k <= |chain| && current == if k < |chain| then chain[k] else INVALID_PAGE_ID
        invariant visited == before + PagesUpTo(chain, k)
        invariant Freed(a, bpm.Store(), visited, bpm.disk.reliable)
        decreases |chain| - k
      {
        IndexWalk(a, headerPageId, chains, i, k);
        MorePages(chain, k);
        if current in visited {
          assert false;
        }
        ghost var s := bpm.Store();
        StillThere(a, s, visited, current, bpm.disk.reliable);
        visited := visited + {current};
        bpm.ReadyParts();
        var ok, next := DestroyPage(current);
        if !ok {
          FreedLess(a, s, before + PagesUpTo(chain, k), current, bpm.disk.reliable);
          return IO_ERROR, visited;
        }
        FreeStep(a, s, bpm.Store(), before + PagesUpTo(chain, k), current, bpm.disk.reliable);
        current := next;
        k := k + 1;
      }
      status := OK;
    }

    /** Gives back every page of the index. */
    method Destroy() returns (status: StatusCode)
      requires bpm.Valid() && IndexOk(bpm.Store(), headerPageId)
      requires forall p: nat :: p in IndexPages(bpm.Store(), headerPageId) ==> p !in bpm.Pins()
      modifies bpm.Repr
      ensures bpm.Valid() && bpm.Pins() == old(bpm.Pins())
      ensures Freed(old(bpm.Store()), bpm.Store(), IndexPages(old(bpm.Store()), headerPageId), status == OK && bpm.disk.reliable)
      ensures old(bpm.Ready()) ==> status == OK
    {
      hide *;
      ghost var a := bpm.Store();
      ghost var chains := ChainsFor(a, headerPageId);
      ghost var pages := IndexPages(a, headerPageId);
      DestroyStart(a, headerPageId, bpm.disk.reliable);
      bpm.ReadyParts();
      var primaries;
      ghost var buckets;
      status, primaries, buckets := ListBuckets();
      if status != OK {
        return;
      }
      var visited: set<nat> := {};
      for x := 0 to |primaries|
        invariant bpm.Valid() && bpm.Pins() == old(bpm.Pins())
        invariant visited == PagesOfBuckets(chains, buckets, x)
        invariant Freed(a, bpm.Store(), visited, bpm.disk.reliable)
      {
        ListedChain(a, headerPageId, chains, primaries, buckets, x);
        bpm.ReadyParts();
        ghost var before := visited;
        status, visited := DestroyChain(primaries[x], visited, a, chains, buckets[x]);
        if status != OK {
          FreedMore(a, bpm.Store(), visited, pages);
          return;
        }
      }
      AllListed(a, headerPageId, chains, primaries, buckets);
      HeaderRemains(a, bpm.Store(), headerPageId, visited, bpm.disk.reliable);
      ghost var s := bpm.Store();
      var deleted := bpm.DeletePage(headerPageId);
      if !deleted {
        assert false;
      }
      FreeStep(a, s, bpm.Store(), visited, headerPageId, bpm.disk.reliable);
      status := OK;
    }
  }
}
