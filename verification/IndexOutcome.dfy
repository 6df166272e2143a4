// What the operations of a hash index promise, and the steps they are made of.
module IndexOutcomes {
  import opened Common
  import opened BucketFormat
  import opened IndexHeaders
  import opened PageChains
  import opened IndexStates

  // ---- One page at a time ----

  /** A bucket page whose entries are all in range. */
  ghost predicate GoodPage(store: Store, p: nat) {
    p >= 1 && p in store && BucketOk(store[p]) && AllStorable(EntriesAt(store, p))
  }

  /** One more pair on a page. */
  ghost predicate Appended(b: Bytes, c: Bytes, pair: Pair) {
    BucketOk(c) && Entries(c) == Entries(b) + [pair] && Overflow(c) == Overflow(b)
  }

  lemma InsertAppends(b: Bytes, c: Bytes, pair: Pair, status: StatusCode, inserted: bool)
    requires BucketInsertDone(b, c, pair, status, inserted)
    requires BucketOk(b) && Storable(pair) && pair !in Entries(b) && |Entries(b)| < ENTRY_CAPACITY
    ensures status == OK && inserted && Appended(b, c, pair)
  {
    hide BucketOk, Entries, Overflow, Storable;
  }

  ghost predicate AppendPairStep(a: Store, b: Store, p: nat, pair: Pair) {
    PageChanged(a, b, p) && Appended(a[p], b[p], pair)
  }

  lemma MakeAppendPairStep(a: Store, b: Store, p: nat, c: Bytes, pair: Pair)
    requires p in a && b == a[p := c] && Appended(a[p], c, pair)
    ensures AppendPairStep(a, b, p, pair)
  {
    hide Appended;
  }

  ghost predicate RemovePairsStep(a: Store, b: Store, p: nat, key: Bytes, value: Option<RecordID>, removed: nat) {
    && PageChanged(a, b, p)
    && BucketOk(b[p]) && Overflow(b[p]) == Overflow(a[p])
    && Entries(b[p]) == Removed(Entries(a[p]), 0, key, value)
    && |Entries(b[p])| + removed == |Entries(a[p])|
    && (removed == 0 ==> b == a)
  }

  lemma MakeRemovePairsStep(a: Store, b: Store, p: nat, c: Bytes, key: Bytes, value: Option<RecordID>, status: StatusCode, removed: nat)
    requires GoodPage(a, p) && |key| <= MAX_KEY_LENGTH && b == a[p := c]
    requires BucketRemoveDone(a[p], c, key, value, status, removed)
    ensures RemovePairsStep(a, b, p, key, value, removed)
    ensures status == (if removed == 0 then NOT_FOUND else OK)
    ensures removed == 0 ==> c == a[p]
    ensures BucketInitialized(c) && Overflow(c) == Overflow(a[p])
  {
    hide Entries, Overflow, Removed, Storable, LengthsOk;
  }

  /** A new page that holds just `pair`. */
  ghost predicate NewBucketStep(a: Store, b: Store, p: nat, pair: Pair) {
    && p >= 1 && p !in a && p in b && b == a[p := b[p]]
    && HoldsPair(b[p], pair)
  }

  ghost predicate HoldsPair(c: Bytes, pair: Pair) {
    BucketOk(c) && Entries(c) == [pair] && Overflow(c) == INVALID_PAGE_ID
  }

  lemma FirstPair(e: Bytes, c: Bytes, pair: Pair, status: StatusCode, inserted: bool)
    requires BucketOk(e) && Entries(e) == [] && Overflow(e) == INVALID_PAGE_ID && Storable(pair)
    requires BucketInsertDone(e, c, pair, status, inserted)
    ensures status == OK && inserted && HoldsPair(c, pair)
  {
    hide BucketOk, Entries, Overflow, Storable;
  }

  /** `p` has been allocated for `pair` and linked after the page `last`. */
  ghost predicate OverflowStep(a: Store, b: Store, last: nat, p: nat, pair: Pair) {
    && p >= 1 && p !in a && p in b && last in a && last in b && b == a[p := b[p]][last := b[last]]
    && HoldsPair(b[p], pair)
    && BucketOk(b[last]) && Entries(b[last]) == Entries(a[last]) && Overflow(b[last]) == p
  }

  lemma MakeOverflowStep(a: Store, m: Store, b: Store, last: nat, p: nat, d: Bytes, pair: Pair)
    requires NewBucketStep(a, m, p, pair) && last in a && b == m[last := d]
    requires BucketOk(d) && Entries(d) == Entries(m[last]) && Overflow(d) == p
    ensures OverflowStep(a, b, last, p, pair)
  {
    hide BucketOk, Entries, Overflow, HoldsPair;
  }

  /** `p` has been allocated for `pair` and entered in the directory as bucket `i`. */
  ghost predicate PrimaryStep(a: Store, b: Store, h: nat, i: nat, p: nat, pair: Pair) {
    && p >= 1 && p !in a && p in b && h in a && h in b && b == a[p := b[p]][h := b[h]]
    && HoldsPair(b[p], pair)
    && HeaderOk(b[h]) && MaxKeyLength(b[h]) == MaxKeyLength(a[h])
    && i < |Directory(a[h])| && Directory(b[h]) == Directory(a[h])[i := p]
  }

  lemma MakePrimaryStep(a: Store, m: Store, b: Store, h: nat, i: nat, p: nat, d: Bytes, pair: Pair)
    requires NewBucketStep(a, m, p, pair) && h in a && b == m[h := d]
    requires HeaderOk(d) && MaxKeyLength(d) == MaxKeyLength(m[h])
    requires i < |Directory(m[h])| && Directory(d) == Directory(m[h])[i := p]
    ensures PrimaryStep(a, b, h, i, p, pair)
  {
    hide HeaderOk, Directory, MaxKeyLength, HoldsPair;
  }

  // ---- What an operation promises ----

  /** The index goes from its state in `a` to the pairs `pairs` in `b`, and no other
      owner's pages change. */
  ghost predicate IndexBecomes(a: Store, b: Store, h: nat, pairs: set<Pair>) {
    && IndexOk(a, h) && IndexOk(b, h)
    && OwnChange(a, b, IndexPages(a, h), IndexPages(b, h))
    && IndexPairs(b, h) == pairs
    && Width(b, h) == Width(a, h)
  }

  /** What Insert does, even when the disk fails: it adds the pair, or nothing changes. */
  ghost predicate PairInserted(a: Store, b: Store, h: nat, pair: Pair, status: StatusCode) {
    && IndexBecomes(a, b, h, if status == OK then IndexPairs(a, h) + {pair} else IndexPairs(a, h))
    && Rooms(b, h) - {SlotOf(pair.key, Width(a, h))} == Rooms(a, h) - {SlotOf(pair.key, Width(a, h))}
  }

  ghost predicate Indexable(pair: Pair) {
    0 < |pair.key| <= MAX_KEY_LENGTH && pair.rid.pageId > HEADER_PAGE_ID
  }

  /** Without disk faults and with a frame to use, Insert fails only if the pair cannot be
      indexed, or if its bucket is full and there is no page left; then no page changes. */
  ghost predicate PairInsertedReliably(a: Store, b: Store, h: nat, pair: Pair, status: StatusCode) {
    && NewOwned(a, b, IndexPages(b, h))
    && status in {OK, INVALID_ARGUMENT, OUT_OF_MEMORY}
    && (status == INVALID_ARGUMENT <==> !Indexable(pair))
    && (status == OUT_OF_MEMORY ==> SlotOf(pair.key, Width(a, h)) !in Rooms(a, h) && pair !in IndexPairs(a, h))
    && (status != OK ==> b == a)
  }

  /** How many pages the index grows by for a pair. */
  ghost function PagesFor(a: Store, h: nat, pair: Pair): nat {
    if pair in IndexPairs(a, h) || SlotOf(pair.key, Width(a, h)) in Rooms(a, h) then 0 else 1
  }

  /** What Insert returns on a working disk of `capacity` pages, and by how much the index
      grows: it is refused exactly if the pair cannot be indexed, or if it needs a page and
      the disk is full. */
  ghost predicate PairPlaced(a: Store, b: Store, h: nat, pair: Pair, status: StatusCode, capacity: nat) {
    && status == (if !Indexable(pair) then INVALID_ARGUMENT
                  else if PagesFor(a, h, pair) > 0 && |a| >= capacity then OUT_OF_MEMORY else OK)
    && (status == OK ==> |b| == |a| + PagesFor(a, h, pair))
  }

  lemma PlacedInPage(a: Store, b: Store, h: nat, pair: Pair, capacity: nat)
    requires Indexable(pair) && |b| == |a|
    requires pair in IndexPairs(a, h) || SlotOf(pair.key, Width(a, h)) in Rooms(a, h)
    ensures PairPlaced(a, b, h, pair, OK, capacity)
  {
    hide IndexPairs, Rooms, Width, SlotOf, Indexable;
  }

  lemma PlacedInNewPage(a: Store, b: Store, h: nat, pair: Pair, status: StatusCode, capacity: nat)
    requires Indexable(pair) && pair !in IndexPairs(a, h) && SlotOf(pair.key, Width(a, h)) !in Rooms(a, h)
    requires if |a| < capacity then status == OK && |b| == |a| + 1 else status == OUT_OF_MEMORY
    ensures PairPlaced(a, b, h, pair, status, capacity)
  {
    hide IndexPairs, Rooms, Width, SlotOf, Indexable;
  }

  ghost function Matching(pairs: set<Pair>, key: Bytes, value: Option<RecordID>): set<Pair> {
    set pair | pair in pairs && Matches(pair, key, value)
  }

  /** What Remove does, even when the disk fails: it removes matching pairs only, and all
      of them if it succeeds; then their bucket has room. */
  ghost predicate PairsRemoved(a: Store, b: Store, h: nat, key: Bytes, value: Option<RecordID>, status: StatusCode) {
    && IndexBecomes(a, b, h, IndexPairs(b, h)) && IndexPages(b, h) == IndexPages(a, h) && b.Keys == a.Keys
    && Rooms(a, h) <= Rooms(b, h)
    && Rooms(b, h) - {SlotOf(key, Width(a, h))} == Rooms(a, h) - {SlotOf(key, Width(a, h))}
    && RemovalStatus(a, b, h, key, value, status)
  }

  ghost predicate RemovalStatus(a: Store, b: Store, h: nat, key: Bytes, value: Option<RecordID>, status: StatusCode) {
    var matching := Matching(IndexPairs(a, h), key, value);
    match status
    case OK =>
      matching != {} && IndexPairs(b, h) == IndexPairs(a, h) - matching && SlotOf(key, Width(a, h)) in Rooms(b, h)
    case NOT_FOUND => matching == {} && b == a
    case INVALID_ARGUMENT => |key| > MAX_KEY_LENGTH && b == a
    case IO_ERROR => IndexPairs(a, h) - matching <= IndexPairs(b, h) <= IndexPairs(a, h) && (value.Some? ==> b == a)
    case OUT_OF_MEMORY => false
  }

  // ---- Walking along a bucket ----

  lemma IndexWalk(store: Store, h: nat, chains: Chains, i: nat, k: nat)
    requires IndexShape(store, h, chains) && i < |chains| && k < |chains[i]|
    ensures GoodPage(store, chains[i][k]) && chains[i][k] !in chains[i][..k] && chains[i][k] in chains[i]
    ensures chains[i][k] in store
    ensures Overflow(store[chains[i][k]]) == if k + 1 < |chains[i]| then chains[i][k + 1] else INVALID_PAGE_ID
    ensures INVALID_PAGE_ID == -1
  {
    BucketOf(store, h, chains, i, chains[i][k]);
    ShapeParts(store, h, chains);
    hide IndexShape, AllStorable, BucketOk, ChainsHold, ChainsDisjoint, NoPairTwice, GoodHeader, AllBelong, Overflow, EntriesAt;
    Distinct(BucketLinks(store), DirectoryAt(store, h)[i], chains[i]);
  }

  lemma IndexStart(store: Store, h: nat, chains: Chains, key: Bytes)
    requires IndexShape(store, h, chains)
    ensures GoodHeader(store, h) && |chains| == |DirectoryAt(store, h)| > 0 && SlotOf(key, |chains|) < |chains|
    ensures var i := SlotOf(key, |chains|);
            DirectoryAt(store, h)[i] == if chains[i] == [] then INVALID_PAGE_ID else chains[i][0]
    ensures INVALID_PAGE_ID == -1
  {
    ShapeParts(store, h, chains);
    assert |Directory(store[h])| > 0;
    hide SlotOf, HeaderOk, Directory, ChainsHold, NoPairTwice, ChainsDisjoint;
    var i := SlotOf(key, |chains|);
    assert Linked(BucketLinks(store), DirectoryAt(store, h)[i], chains[i]);
  }

  /** Only the pages of bucket `i` can hold a pair that hashes to it. */
  lemma OnlyInBucket(store: Store, h: nat, chains: Chains, i: nat, pair: Pair)
    requires IndexShape(store, h, chains) && i < |chains| && SlotOf(pair.key, |chains|) == i
    ensures pair in PairsOn(store, PagesOf(chains)) <==> exists p: nat :: p in chains[i] && pair in EntriesAt(store, p)
  {
    ShapeParts(store, h, chains);
    hide IndexShape, EntriesAt, PairsOn, SlotOf, NoPairTwice, ChainsLinked, GoodHeader, BucketOk;
    if pair in PairsOn(store, PagesOf(chains)) {
      var p: nat :| p in PagesOf(chains) && pair in EntriesAt(store, p);
      var j: nat :| j < |chains| && p in chains[j];
      assert GoodBucket(store, h, |chains|, j, p);
      var k: nat :| k < |EntriesAt(store, p)| && EntriesAt(store, p)[k] == pair;
      assert Belongs(EntriesAt(store, p)[k], |chains|, j);
    } else if p: nat :| p in chains[i] && pair in EntriesAt(store, p) {
      PageHolds(store, PagesOf(chains), p, pair);
    }
  }

  // ---- Insert ----

  lemma IndexUnchanged(a: Store, h: nat)
    requires IndexOk(a, h)
    ensures IndexBecomes(a, a, h, IndexPairs(a, h)) && NewOwned(a, a, IndexPages(a, h))
  {
    hide IndexOk, IndexPages, IndexPairs, Width;
  }

  /** Pages that belong to nobody do not matter. */
  lemma IndexLeaks(a: Store, b: Store, h: nat)
    requires IndexOk(a, h) && Extends(a, b)
    ensures IndexBecomes(a, b, h, IndexPairs(a, h)) && Rooms(b, h) == Rooms(a, h)
  {
    hide IndexOk, IndexPages, IndexPairs, Width, Rooms;
    IndexFrame(a, b, h);
  }

  lemma InsertNothing(a: Store, b: Store, h: nat, pair: Pair)
    requires IndexOk(a, h) && Extends(a, b)
    ensures forall status: StatusCode :: status != OK ==> PairInserted(a, b, h, pair, status)
  {
    hide IndexOk, IndexPages, IndexPairs, Width, Rooms, IndexBecomes, SlotOf, Extends;
    IndexLeaks(a, b, h);
  }

  lemma InsertRefused(a: Store, h: nat, pair: Pair)
    requires IndexOk(a, h) && !Indexable(pair)
    ensures PairInserted(a, a, h, pair, INVALID_ARGUMENT) && PairInsertedReliably(a, a, h, pair, INVALID_ARGUMENT)
  {
    hide IndexOk, IndexPages, IndexPairs, Width, Rooms, IndexBecomes, SlotOf, Indexable;
    InsertNothing(a, a, h, pair);
  }

  lemma InsertPresent(a: Store, h: nat, pair: Pair)
    requires IndexOk(a, h) && Indexable(pair) && pair in IndexPairs(a, h)
    ensures PairInserted(a, a, h, pair, OK) && PairInsertedReliably(a, a, h, pair, OK)
  {
    hide IndexOk, IndexPages, IndexPairs, Width, Rooms, IndexBecomes, SlotOf, Indexable;
    IndexUnchanged(a, h);
    assert IndexPairs(a, h) + {pair} == IndexPairs(a, h);
  }

  lemma InsertNoPage(a: Store, b: Store, h: nat, pair: Pair)
    requires IndexOk(a, h) && Indexable(pair) && Extends(a, b)
    requires SlotOf(pair.key, Width(a, h)) !in Rooms(a, h) && pair !in IndexPairs(a, h)
    ensures forall status: StatusCode :: status != OK ==> PairInserted(a, b, h, pair, status)
    ensures b == a ==> PairInsertedReliably(a, b, h, pair, OUT_OF_MEMORY)
  {
    hide IndexOk, IndexPages, IndexPairs, Width, Rooms, IndexBecomes, SlotOf, Indexable;
    InsertNothing(a, b, h, pair);
  }

  lemma MakeIndexBecomes(a: Store, b: Store, h: nat, before: Chains, after: Chains, pairs: set<Pair>)
    requires IndexShape(a, h, before) && IndexShape(b, h, after) && PairsOn(b, PagesOf(after)) == pairs && |after| == |before|
    requires OwnChange(a, b, PagesOf(before) + {h}, PagesOf(after) + {h})
    ensures IndexBecomes(a, b, h, pairs)
  {
    hide IndexShape, PairsOn, PagesOf, OwnChange, IndexOk, IndexPairs, IndexPages, Width, ChainsFor;
    IndexIs(a, h, before);
    IndexIs(b, h, after);
  }

  lemma PageOwnChange(a: Store, b: Store, pages: set<nat>, p: nat)
    requires PageChanged(a, b, p) && p in pages
    ensures OwnChange(a, b, pages, pages) && NewOwned(a, b, pages) && b.Keys == a.Keys
  {
  }

  lemma GrowOwnChange(a: Store, b: Store, before: set<nat>, p: nat, q: nat)
    requires p !in a && p in b && q in a && q in b && q in before && b == a[p := b[p]][q := b[q]]
    ensures OwnChange(a, b, before, before + {p}) && NewOwned(a, b, before + {p})
  {
  }

  /** A new page and a change of an old one make the store one page larger. */
  lemma OnePageMore(a: Store, b: Store, q: nat, p: nat)
    requires p !in a && p in b && q in a && q in b && b == a[p := b[p]][q := b[q]]
    ensures |b| == |a| + 1
  {
  }

  lemma SameKeysSameSize(a: Store, b: Store)
    requires b.Keys == a.Keys
    ensures |b| == |a|
  {
    assert |b| == |b.Keys| && |a| == |a.Keys|;
  }

  /** The pair has been added to a page of its bucket. */
  lemma AppendPairOutcome(a: Store, b: Store, h: nat, chains: Chains, i: nat, p: nat, pair: Pair)
    requires IndexShape(a, h, chains) && i < |chains| && p in chains[i] && AppendPairStep(a, b, p, pair)
    requires pair !in PairsOn(a, PagesOf(chains)) && Belongs(pair, |chains|, i) && Indexable(pair)
    ensures PairInserted(a, b, h, pair, OK) && PairInsertedReliably(a, b, h, pair, OK) && |b| == |a|
  {
    hide *;
    AppendPairParts(a, b, p, pair);
    BelongsParts(pair, |chains|, i);
    InsertIntoBucket(a, h, chains, i, p, b[p], pair);
    BucketOf(a, h, chains, i, p);
    PageOwnChange(a, b, PagesOf(chains) + {h}, p);
    SameKeysSameSize(a, b);
    MakeInserted(a, b, h, chains, chains, pair, i);
  }

  lemma AppendPairParts(a: Store, b: Store, p: nat, pair: Pair)
    requires AppendPairStep(a, b, p, pair)
    ensures PageChanged(a, b, p) && p in a && p in b && b == a[p := b[p]]
    ensures BucketOk(b[p]) && Entries(b[p]) == Entries(a[p]) + [pair] && Overflow(b[p]) == Overflow(a[p])
  {
    hide BucketOk, Entries, Overflow;
  }

  lemma BelongsParts(pair: Pair, n: nat, i: nat)
    requires Belongs(pair, n, i)
    ensures Storable(pair) && SlotOf(pair.key, n) == i
  {
    hide SlotOf, Storable;
  }

  lemma MakeInserted(a: Store, b: Store, h: nat, before: Chains, after: Chains, pair: Pair, i: nat)
    requires IndexShape(a, h, before) && IndexShape(b, h, after) && |after| == |before|
    requires PairsOn(b, PagesOf(after)) == PairsOn(a, PagesOf(before)) + {pair}
    requires RoomIn(b, after) - {i} == RoomIn(a, before) - {i} && SlotOf(pair.key, |before|) == i
    ensures OwnChange(a, b, PagesOf(before) + {h}, PagesOf(after) + {h}) ==> PairInserted(a, b, h, pair, OK)
    ensures NewOwned(a, b, PagesOf(after) + {h}) && Indexable(pair) ==> PairInsertedReliably(a, b, h, pair, OK)
  {
    hide IndexShape, PairsOn, PagesOf, OwnChange, NewOwned, IndexOk, IndexPairs, IndexPages, Width, ChainsFor, Rooms, RoomIn, SlotOf, IndexBecomes, Indexable;
    IndexIs(a, h, before);
    IndexIs(b, h, after);
    if OwnChange(a, b, PagesOf(before) + {h}, PagesOf(after) + {h}) {
      MakeIndexBecomes(a, b, h, before, after, PairsOn(b, PagesOf(after)));
    }
  }

  lemma OverflowParts(a: Store, b: Store, last: nat, p: nat, pair: Pair)
    requires OverflowStep(a, b, last, p, pair)
    ensures p >= 1 && p !in a && p in b && last in b && last in a && b == a[p := b[p]][last := b[last]]
    ensures BucketOk(b[p]) && Entries(b[p]) == [pair] && Overflow(b[p]) == INVALID_PAGE_ID
    ensures BucketOk(b[last]) && Entries(b[last]) == Entries(a[last]) && Overflow(b[last]) == p
  {
    hide BucketOk, Entries, Overflow;
  }

  /** The pair has been stored in a new overflow page. */
  lemma OverflowOutcome(a: Store, b: Store, h: nat, chains: Chains, i: nat, last: nat, p: nat, pair: Pair)
    requires IndexShape(a, h, chains) && i < |chains| && chains[i] != [] && last == chains[i][|chains[i]| - 1]
    requires OverflowStep(a, b, last, p, pair)
    requires pair !in PairsOn(a, PagesOf(chains)) && Belongs(pair, |chains|, i) && Indexable(pair)
    ensures PairInserted(a, b, h, pair, OK) && PairInsertedReliably(a, b, h, pair, OK)
  {
    hide *;
    OverflowParts(a, b, last, p, pair);
    BelongsParts(pair, |chains|, i);
    AppendOverflow(a, b, h, chains, i, p, last, pair);
    BucketOf(a, h, chains, i, last);
    GrowOwnChange(a, b, PagesOf(chains) + {h}, p, last);
    GrownPages(PagesOf(chains), h, p);
    MakeInserted(a, b, h, chains, chains[i := chains[i] + [p]], pair, i);
  }

  lemma GrownPages(pages: set<nat>, h: nat, p: nat)
    ensures pages + {h} + {p} == pages + {p} + {h}
  {
  }

  lemma PrimaryParts(a: Store, b: Store, h: nat, i: nat, p: nat, pair: Pair)
    requires PrimaryStep(a, b, h, i, p, pair)
    ensures p >= 1 && p !in a && p in b && h in b && h in a && b == a[p := b[p]][h := b[h]]
    ensures BucketOk(b[p]) && Entries(b[p]) == [pair] && Overflow(b[p]) == INVALID_PAGE_ID
    ensures HeaderOk(b[h]) && MaxKeyLength(b[h]) == MaxKeyLength(a[h])
    ensures i < |Directory(a[h])| && Directory(b[h]) == Directory(a[h])[i := p]
  {
    hide BucketOk, Entries, Overflow, HeaderOk, MaxKeyLength, Directory;
  }

  /** The pair has been stored in the first page of its bucket. */
  lemma PrimaryOutcome(a: Store, b: Store, h: nat, chains: Chains, i: nat, p: nat, pair: Pair)
    requires IndexShape(a, h, chains) && i < |chains| && chains[i] == []
    requires PrimaryStep(a, b, h, i, p, pair)
    requires pair !in PairsOn(a, PagesOf(chains)) && Belongs(pair, |chains|, i) && Indexable(pair)
    ensures PairInserted(a, b, h, pair, OK) && PairInsertedReliably(a, b, h, pair, OK)
  {
    hide *;
    PrimaryParts(a, b, h, i, p, pair);
    BelongsParts(pair, |chains|, i);
    StartBucket(a, b, h, chains, i, p, pair);
    GrowOwnChange(a, b, PagesOf(chains) + {h}, p, h);
    GrownPages(PagesOf(chains), h, p);
    MakeInserted(a, b, h, chains, chains[i := chains[i] + [p]], pair, i);
  }

  // ---- GetValue ----

  lemma {:induction false} ValuesMembers(s: seq<Pair>, pair: Pair)
    ensures pair.rid in ValuesOf(s, pair.key) <==> pair in s
    decreases |s|
  {
    if s != [] {
      ValuesMembers(s[..|s| - 1], pair);
      assert s == s[..|s| - 1] + [s[|s| - 1]];
      assert pair == Pair(pair.key, pair.rid);
    }
  }

  // ---- The course of Insert ----

  lemma InsertStart(a: Store, h: nat, pair: Pair)
    requires IndexOk(a, h)
    ensures !Indexable(pair) ==> PairInserted(a, a, h, pair, INVALID_ARGUMENT) && PairInsertedReliably(a, a, h, pair, INVALID_ARGUMENT)
    ensures Indexable(pair) <==> 0 < |pair.key| <= MAX_KEY_LENGTH && pair.rid.pageId > HEADER_PAGE_ID
    ensures Indexable(pair) && pair.rid.pageId < 0x8000_0000 && pair.rid.slotId < 0x1_0000 ==> Storable(pair)
    ensures !Indexable(pair) ==> forall capacity: nat :: PairPlaced(a, a, h, pair, INVALID_ARGUMENT, capacity)
    ensures forall status: StatusCode :: status != OK ==> PairInserted(a, a, h, pair, status)
    ensures IndexShape(a, h, ChainsFor(a, h)) && GoodHeader(a, h)
    ensures |ChainsFor(a, h)| == |DirectoryAt(a, h)| > 0 && Width(a, h) == |ChainsFor(a, h)|
    ensures var chains := ChainsFor(a, h);
            var i := SlotOf(pair.key, |chains|);
            i < |chains| && DirectoryAt(a, h)[i] == if chains[i] == [] then INVALID_PAGE_ID else chains[i][0]
    ensures INVALID_PAGE_ID == -1 && HEADER_PAGE_ID == 0
    ensures Searched(a, ChainsFor(a, h)[SlotOf(pair.key, |ChainsFor(a, h)|)], 0, pair, INVALID_PAGE_ID)
  {
    IndexChains(a, h);
    IndexStart(a, h, ChainsFor(a, h), pair.key);
    InsertNothing(a, a, h, pair);
    if !Indexable(pair) { InsertRefused(a, h, pair); }
    hide IndexOk, IndexShape, ChainsFor, SlotOf, PairInserted, PairInsertedReliably, DirectoryAt, GoodHeader, PagesFor;
  }

  /** The pair is on none of the first `k` pages, and `space` is the first one with room. */
  ghost predicate Searched(a: Store, chain: seq<nat>, k: nat, pair: Pair, space: int) {
    && k <= |chain|
    && (forall j: nat :: j < k ==> pair !in EntriesAt(a, chain[j]))
    && (if space == INVALID_PAGE_ID then forall j: nat :: j < k ==> |EntriesAt(a, chain[j])| >= ENTRY_CAPACITY
        else exists j: nat :: j < k && chain[j] == space && |EntriesAt(a, space)| < ENTRY_CAPACITY)
  }

  lemma SearchStep(a: Store, chain: seq<nat>, k: nat, pair: Pair, space: int, room: bool)
    requires Searched(a, chain, k, pair, space) && k < |chain| && pair !in EntriesAt(a, chain[k])
    requires room <==> |EntriesAt(a, chain[k])| < ENTRY_CAPACITY
    ensures Searched(a, chain, k + 1, pair, if space == INVALID_PAGE_ID && room then chain[k] else space)
  {
    hide EntriesAt;
  }

  lemma FoundPair(a: Store, h: nat, pair: Pair, p: nat)
    requires IndexOk(a, h) && Indexable(pair) && pair in EntriesAt(a, p)
    requires SlotOf(pair.key, |ChainsFor(a, h)|) < |ChainsFor(a, h)| && p in ChainsFor(a, h)[SlotOf(pair.key, |ChainsFor(a, h)|)]
    ensures PairInserted(a, a, h, pair, OK) && PairInsertedReliably(a, a, h, pair, OK)
    ensures forall capacity: nat :: PairPlaced(a, a, h, pair, OK, capacity)
  {
    var chains := ChainsFor(a, h);
    IndexChains(a, h);
    hide IndexOk, IndexShape, ChainsFor, SlotOf, EntriesAt, Indexable;
    IndexIs(a, h, chains);
    PageHolds(a, PagesOf(chains), p, pair);
    InsertPresent(a, h, pair);
    forall capacity: nat ensures PairPlaced(a, a, h, pair, OK, capacity) {
      PlacedInPage(a, a, h, pair, capacity);
    }
  }

  lemma SearchEnd(a: Store, h: nat, pair: Pair, k: nat, space: int)
    requires IndexOk(a, h) && Indexable(pair) && Storable(pair) && SlotOf(pair.key, |ChainsFor(a, h)|) < |ChainsFor(a, h)|
    requires k == |ChainsFor(a, h)[SlotOf(pair.key, |ChainsFor(a, h)|)]|
    requires Searched(a, ChainsFor(a, h)[SlotOf(pair.key, |ChainsFor(a, h)|)], k, pair, space)
    ensures var chains := ChainsFor(a, h);
            && pair !in PairsOn(a, PagesOf(chains)) && Belongs(pair, |chains|, SlotOf(pair.key, |chains|))
            && (space != INVALID_PAGE_ID ==>
                  && space > 0 && space in chains[SlotOf(pair.key, |chains|)] && GoodPage(a, space)
                  && pair !in EntriesAt(a, space) && |EntriesAt(a, space)| < ENTRY_CAPACITY)
    ensures space == INVALID_PAGE_ID <==> SlotOf(pair.key, Width(a, h)) !in Rooms(a, h)
    ensures PairsOn(a, PagesOf(ChainsFor(a, h))) == IndexPairs(a, h) && Width(a, h) == |ChainsFor(a, h)|
  {
    var chains := ChainsFor(a, h);
    var i := SlotOf(pair.key, |chains|);
    IndexChains(a, h);
    hide IndexOk, IndexShape, ChainsFor, SlotOf, EntriesAt, Indexable, PairsOn, Storable, GoodPage;
    IndexIs(a, h, chains);
    OnlyInBucket(a, h, chains, i, pair);
    if space != INVALID_PAGE_ID {
      var j: nat :| j < k && chains[i][j] == space && |EntriesAt(a, space)| < ENTRY_CAPACITY;
      IndexWalk(a, h, chains, i, j);
      BucketOf(a, h, chains, i, chains[i][j]);
    }
  }

  lemma CreateOutcome(a: Store, b: Store, h: nat, pair: Pair, p: int, status: StatusCode, capacity: nat)
    requires IndexOk(a, h) && Indexable(pair) && Storable(pair) && SlotOf(pair.key, |ChainsFor(a, h)|) < |ChainsFor(a, h)|
    requires ChainsFor(a, h)[SlotOf(pair.key, |ChainsFor(a, h)|)] == []
    requires status == OK ==> p > 0 && PrimaryStep(a, b, h, SlotOf(pair.key, |ChainsFor(a, h)|), p, pair)
    requires status != OK ==> Extends(a, b)
    ensures PairInserted(a, b, h, pair, status)
    ensures status == OK || (status == OUT_OF_MEMORY && b == a) ==> PairInsertedReliably(a, b, h, pair, status)
    ensures (if |a| < capacity then status == OK else status == OUT_OF_MEMORY) ==> PairPlaced(a, b, h, pair, status, capacity)
  {
    hide *;
    EmptyChain(a, h, pair);
    SearchEnd(a, h, pair, 0, INVALID_PAGE_ID);
    IndexChains(a, h);
    if status == OK {
      PrimaryParts(a, b, h, SlotOf(pair.key, |ChainsFor(a, h)|), p, pair);
      OnePageMore(a, b, h, p);
      PrimaryOutcome(a, b, h, ChainsFor(a, h), SlotOf(pair.key, |ChainsFor(a, h)|), p, pair);
    } else {
      IndexIs(a, h, ChainsFor(a, h));
      InsertNoPage(a, b, h, pair);
    }
    if if |a| < capacity then status == OK else status == OUT_OF_MEMORY {
      IndexIs(a, h, ChainsFor(a, h));
      PlacedInNewPage(a, b, h, pair, status, capacity);
    }
  }

  lemma EmptyChain(a: Store, h: nat, pair: Pair)
    ensures forall chain: seq<nat> :: Searched(a, chain, 0, pair, INVALID_PAGE_ID)
  {
  }

  lemma AppendOutcome(a: Store, b: Store, h: nat, pair: Pair, p: int, status: StatusCode, capacity: nat)
    requires IndexOk(a, h) && Indexable(pair) && Storable(pair) && SlotOf(pair.key, |ChainsFor(a, h)|) < |ChainsFor(a, h)|
    requires pair !in PairsOn(a, PagesOf(ChainsFor(a, h))) && SlotOf(pair.key, Width(a, h)) !in Rooms(a, h)
    requires Belongs(pair, |ChainsFor(a, h)|, SlotOf(pair.key, |ChainsFor(a, h)|))
    requires var chain := ChainsFor(a, h)[SlotOf(pair.key, |ChainsFor(a, h)|)];
             chain != [] && (status == OK ==> p > 0 && OverflowStep(a, b, chain[|chain| - 1], p, pair))
    requires status != OK ==> Extends(a, b)
    ensures PairInserted(a, b, h, pair, status)
    ensures status == OK || (status == OUT_OF_MEMORY && b == a) ==> PairInsertedReliably(a, b, h, pair, status)
    ensures (if |a| < capacity then status == OK else status == OUT_OF_MEMORY) ==> PairPlaced(a, b, h, pair, status, capacity)
  {
    hide *;
    IndexChains(a, h);
    var chains, i := ChainsFor(a, h), SlotOf(pair.key, |ChainsFor(a, h)|);
    if status == OK {
      OverflowParts(a, b, chains[i][|chains[i]| - 1], p, pair);
      OnePageMore(a, b, chains[i][|chains[i]| - 1], p);
      OverflowOutcome(a, b, h, chains, i, chains[i][|chains[i]| - 1], p, pair);
    } else {
      IndexIs(a, h, chains);
      InsertNoPage(a, b, h, pair);
    }
    if if |a| < capacity then status == OK else status == OUT_OF_MEMORY {
      IndexIs(a, h, ChainsFor(a, h));
      PlacedInNewPage(a, b, h, pair, status, capacity);
    }
  }

  // ---- The course of GetValue ----

  /** `result` holds every record that the index has for `key`, and none twice. */
  ghost predicate LookedUp(store: Store, h: nat, key: Bytes, result: seq<RecordID>) {
    && (forall rid: RecordID :: rid in result <==> Pair(key, rid) in IndexPairs(store, h))
    && NoneTwice(result)
  }

  ghost predicate NoneTwice(s: seq<RecordID>) {
    forall x: nat, y: nat :: x < y < |s| ==> s[x] != s[y]
  }

  /** `result` holds the records that the first `k` pages of the chain give for `key`. */
  ghost predicate ValuesUpTo(store: Store, chain: seq<nat>, k: nat, key: Bytes, result: seq<RecordID>) {
    && k <= |chain|
    && (forall rid: RecordID :: rid in result <==> InPrefix(store, chain, k, Pair(key, rid)))
    && NoneTwice(result)
  }

  ghost predicate InPrefix(store: Store, chain: seq<nat>, k: nat, pair: Pair) {
    exists j: nat :: j < k && j < |chain| && pair in EntriesAt(store, chain[j])
  }

  lemma LookupStart(store: Store, h: nat, key: Bytes)
    requires IndexOk(store, h)
    ensures forall chain: seq<nat> :: ValuesUpTo(store, chain, 0, key, [])
    ensures var chains := ChainsFor(store, h);
            SlotOf(key, |chains|) < |chains| && chains[SlotOf(key, |chains|)] == [] ==> LookedUp(store, h, key, [])
  {
    var chains := ChainsFor(store, h);
    hide IndexOk, ChainsFor, SlotOf, EntriesAt, LookedUp;
    if SlotOf(key, |chains|) < |chains| && chains[SlotOf(key, |chains|)] == [] {
      LookupEnd(store, h, 0, key, []);
    }
  }

  lemma {:induction false} ValuesOnce(s: seq<Pair>, key: Bytes)
    requires NoDuplicates(s)
    ensures NoneTwice(ValuesOf(s, key))
    decreases |s|
  {
    if s != [] {
      var init, last := s[..|s| - 1], s[|s| - 1];
      ValuesOnce(init, key);
      if last.key == key {
        ValuesMembers(init, last);
        assert last !in init;
      }
    }
  }

  lemma ConcatOnce(s: seq<RecordID>, t: seq<RecordID>)
    requires NoneTwice(s) && NoneTwice(t) && forall rid: RecordID :: rid in s ==> rid !in t
    ensures NoneTwice(s + t)
  {
    forall x: nat, y: nat | x < y < |s + t| ensures (s + t)[x] != (s + t)[y] {
      if x < |s| <= y { assert s[x] in s && t[y - |s|] in t; }
    }
  }

  lemma LookupStep(store: Store, h: nat, chains: Chains, i: nat, k: nat, key: Bytes, result: seq<RecordID>)
    requires IndexShape(store, h, chains) && i < |chains| && k < |chains[i]| && ValuesUpTo(store, chains[i], k, key, result)
    ensures ValuesUpTo(store, chains[i], k + 1, key, result + ValuesOf(EntriesAt(store, chains[i][k]), key))
  {
    hide *;
    var chain, p := chains[i], chains[i][k];
    var more := ValuesOf(EntriesAt(store, p), key);
    BucketOf(store, h, chains, i, p);
    ShapeParts(store, h, chains);
    EntriesOnce(store, PagesOf(chains), p);
    ValuesOnce(EntriesAt(store, p), key);
    ValuesUpToParts(store, chain, k, key, result);
    forall rid: RecordID ensures rid in more <==> Pair(key, rid) in EntriesAt(store, p) {
      ValuesMembers(EntriesAt(store, p), Pair(key, rid));
    }
    forall rid: RecordID ensures !(InPrefix(store, chain, k, Pair(key, rid)) && Pair(key, rid) in EntriesAt(store, p)) {
      PrefixElsewhere(store, h, chains, i, k, Pair(key, rid));
    }
    ConcatOnce(result, more);
    MakeValuesUpTo(store, chain, k, key, result, more);
  }

  lemma ValuesUpToParts(store: Store, chain: seq<nat>, k: nat, key: Bytes, result: seq<RecordID>)
    requires ValuesUpTo(store, chain, k, key, result)
    ensures k <= |chain| && NoneTwice(result)
    ensures forall rid: RecordID :: rid in result <==> InPrefix(store, chain, k, Pair(key, rid))
  {
    hide InPrefix, NoneTwice;
  }

  lemma MakeValuesUpTo(store: Store, chain: seq<nat>, k: nat, key: Bytes, result: seq<RecordID>, more: seq<RecordID>)
    requires k < |chain| && NoneTwice(result + more)
    requires forall rid: RecordID :: rid in result <==> InPrefix(store, chain, k, Pair(key, rid))
    requires forall rid: RecordID :: rid in more <==> Pair(key, rid) in EntriesAt(store, chain[k])
    ensures ValuesUpTo(store, chain, k + 1, key, result + more)
  {
    hide NoneTwice, EntriesAt;
    forall rid: RecordID ensures rid in result + more <==> InPrefix(store, chain, k + 1, Pair(key, rid)) {
      assert Pair(key, rid) in EntriesAt(store, chain[k]) ==> InPrefix(store, chain, k + 1, Pair(key, rid));
    }
  }

  lemma PrefixElsewhere(store: Store, h: nat, chains: Chains, i: nat, k: nat, pair: Pair)
    requires IndexShape(store, h, chains) && i < |chains| && k < |chains[i]|
    ensures !(InPrefix(store, chains[i], k, pair) && pair in EntriesAt(store, chains[i][k]))
  {
    IndexWalk(store, h, chains, i, k);
    hide IndexShape, EntriesAt, NoPairTwice, GoodPage, PagesOf;
    forall j: nat | j < k ensures !(pair in EntriesAt(store, chains[i][j]) && pair in EntriesAt(store, chains[i][k])) {
      BucketOf(store, h, chains, i, chains[i][j]);
      BucketOf(store, h, chains, i, chains[i][k]);
      ShapeParts(store, h, chains);
      assert chains[i][j] in chains[i][..k];
      NotOnBoth(store, PagesOf(chains), chains[i][j], chains[i][k], pair);
    }
  }

  lemma NotOnBoth(store: Store, pages: set<nat>, p: nat, q: nat, pair: Pair)
    requires NoPairTwice(store, pages) && p in pages && q in pages && p != q
    ensures !(pair in EntriesAt(store, p) && pair in EntriesAt(store, q))
  {
    hide EntriesAt;
  }

  lemma LookupEnd(store: Store, h: nat, k: nat, key: Bytes, result: seq<RecordID>)
    requires IndexOk(store, h) && SlotOf(key, |ChainsFor(store, h)|) < |ChainsFor(store, h)|
    requires k == |ChainsFor(store, h)[SlotOf(key, |ChainsFor(store, h)|)]|
    requires ValuesUpTo(store, ChainsFor(store, h)[SlotOf(key, |ChainsFor(store, h)|)], k, key, result)
    ensures LookedUp(store, h, key, result)
  {
    var chains := ChainsFor(store, h);
    var i := SlotOf(key, |chains|);
    IndexChains(store, h);
    hide IndexOk, IndexShape, ChainsFor, SlotOf, EntriesAt, PairsOn, NoneTwice, IndexPairs;
    IndexIs(store, h, chains);
    forall rid: RecordID ensures InPrefix(store, chains[i], k, Pair(key, rid)) <==> Pair(key, rid) in IndexPairs(store, h) {
      OnlyInBucket(store, h, chains, i, Pair(key, rid));
      if p: nat :| p in chains[i] && Pair(key, rid) in EntriesAt(store, p) {
        var j: nat :| j < |chains[i]| && chains[i][j] == p;
      }
    }
  }

  // ---- The course of Remove ----

  /** No matching pair is left on page `p`. */
  ghost predicate NoneMatch(store: Store, p: nat, key: Bytes, value: Option<RecordID>) {
    forall pair :: pair in EntriesAt(store, p) ==> !Matches(pair, key, value)
  }

  /** `s` is `a` without some matching pairs. */
  ghost predicate PairsShrink(a: Store, s: Store, pages: set<nat>, key: Bytes, value: Option<RecordID>) {
    && PairsOn(s, pages) <= PairsOn(a, pages)
    && forall pair :: pair in PairsOn(a, pages) && !Matches(pair, key, value) ==> pair in PairsOn(s, pages)
  }

  /** The state of the walk of RemoveInternal after `k` pages: `total` pairs are gone. */
  ghost predicate RemovedUpTo(a: Store, s: Store, h: nat, chains: Chains, i: nat, k: nat, key: Bytes, value: Option<RecordID>, total: nat) {
    && IndexShape(a, h, chains) && IndexShape(s, h, chains) && i < |chains| && k <= |chains[i]|
    && OwnChange(a, s, PagesOf(chains), PagesOf(chains)) && s.Keys == a.Keys
    && PairsShrink(a, s, PagesOf(chains), key, value)
    && (forall j: nat :: j < k ==> NoneMatch(s, chains[i][j], key, value))
    && RoomIn(a, chains) <= RoomIn(s, chains) && RoomIn(s, chains) - {i} == RoomIn(a, chains) - {i}
    && (if total == 0 then s == a else PairsOn(s, PagesOf(chains)) != PairsOn(a, PagesOf(chains)) && i in RoomIn(s, chains))
  }

  lemma RemovalShape(a: Store, s: Store, h: nat, chains: Chains, i: nat, k: nat, key: Bytes, value: Option<RecordID>, total: nat)
    requires RemovedUpTo(a, s, h, chains, i, k, key, value, total)
    ensures IndexShape(s, h, chains) && i < |chains|
  {
    hide IndexShape, NoneMatch, PairsShrink, PairsOn, RoomIn, PagesOf, OwnChange;
  }

  /** What RemovedUpTo says once the walk is over, in terms of the whole index. */
  lemma RemovalMeans(a: Store, s: Store, h: nat, k: nat, key: Bytes, value: Option<RecordID>, total: nat)
    requires IndexOk(a, h) && RemovedUpTo(a, s, h, ChainsFor(a, h), SlotOf(key, |ChainsFor(a, h)|), k, key, value, total)
    ensures IndexBecomes(a, s, h, IndexPairs(s, h)) && IndexPages(s, h) == IndexPages(a, h) && s.Keys == a.Keys
    ensures Rooms(a, h) <= Rooms(s, h)
    ensures Rooms(s, h) - {SlotOf(key, Width(a, h))} == Rooms(a, h) - {SlotOf(key, Width(a, h))}
    ensures IndexPairs(a, h) - Matching(IndexPairs(a, h), key, value) <= IndexPairs(s, h) <= IndexPairs(a, h)
    ensures total == 0 ==> s == a
    ensures total > 0 ==> IndexPairs(s, h) != IndexPairs(a, h) && SlotOf(key, Width(a, h)) in Rooms(s, h)
    ensures IndexShape(s, h, ChainsFor(a, h)) && IndexPairs(s, h) == PairsOn(s, PagesOf(ChainsFor(a, h)))
  {
    var chains := ChainsFor(a, h);
    hide IndexOk, IndexShape, ChainsFor, SlotOf, PairsOn, PagesOf, RoomIn, NoneMatch, OwnChange, IndexBecomes, IndexPairs, IndexPages, Rooms, Width;
    IndexIs(a, h, chains);
    IndexIs(s, h, chains);
    WiderOwnChange(a, s, PagesOf(chains), h);
    MakeIndexBecomes(a, s, h, chains, chains, PairsOn(s, PagesOf(chains)));
  }

  lemma WiderOwnChange(a: Store, b: Store, pages: set<nat>, h: nat)
    requires OwnChange(a, b, pages, pages)
    ensures OwnChange(a, b, pages + {h}, pages + {h})
  {
  }

  lemma MakePairsRemoved(a: Store, s: Store, h: nat, key: Bytes, value: Option<RecordID>, status: StatusCode)
    requires IndexBecomes(a, s, h, IndexPairs(s, h)) && IndexPages(s, h) == IndexPages(a, h) && s.Keys == a.Keys
    requires Rooms(a, h) <= Rooms(s, h)
    requires Rooms(s, h) - {SlotOf(key, Width(a, h))} == Rooms(a, h) - {SlotOf(key, Width(a, h))}
    requires RemovalStatus(a, s, h, key, value, status)
    ensures PairsRemoved(a, s, h, key, value, status)
  {
    hide IndexBecomes, IndexPairs, IndexPages, Rooms, SlotOf, Width, RemovalStatus;
  }

  lemma RemovalStart(a: Store, h: nat, key: Bytes, value: Option<RecordID>)
    requires IndexOk(a, h)
    ensures IndexShape(a, h, ChainsFor(a, h))
    ensures RemovedUpTo(a, a, h, ChainsFor(a, h), SlotOf(key, |ChainsFor(a, h)|), 0, key, value, 0)
    ensures PairsRemoved(a, a, h, key, value, IO_ERROR)
    ensures |key| > MAX_KEY_LENGTH ==> PairsRemoved(a, a, h, key, value, INVALID_ARGUMENT)
  {
    hide *;
    var chains := ChainsFor(a, h);
    IndexChains(a, h);
    IndexStart(a, h, chains, key);
    NothingRemoved(a, h, chains, SlotOf(key, |chains|), key, value);
    RemovalMeans(a, a, h, 0, key, value, 0);
    CutStatus(a, a, h, key, value);
    MakePairsRemoved(a, a, h, key, value, IO_ERROR);
    if |key| > MAX_KEY_LENGTH {
      MakePairsRemoved(a, a, h, key, value, INVALID_ARGUMENT);
    }
  }

  lemma NothingRemoved(a: Store, h: nat, chains: Chains, i: nat, key: Bytes, value: Option<RecordID>)
    requires IndexShape(a, h, chains) && i < |chains|
    ensures RemovedUpTo(a, a, h, chains, i, 0, key, value, 0)
  {
    hide IndexShape, PairsOn, PagesOf, RoomIn, NoneMatch, Matches;
  }

  lemma CutStatus(a: Store, s: Store, h: nat, key: Bytes, value: Option<RecordID>)
    requires IndexPairs(a, h) - Matching(IndexPairs(a, h), key, value) <= IndexPairs(s, h) <= IndexPairs(a, h)
    ensures (value.Some? ==> s == a) ==> RemovalStatus(a, s, h, key, value, IO_ERROR)
    ensures s == a && |key| > MAX_KEY_LENGTH ==> RemovalStatus(a, s, h, key, value, INVALID_ARGUMENT)
  {
    hide IndexPairs, Matching;
  }

  lemma RemovalCut(a: Store, s: Store, h: nat, k: nat, key: Bytes, value: Option<RecordID>, total: nat)
    requires IndexOk(a, h) && RemovedUpTo(a, s, h, ChainsFor(a, h), SlotOf(key, |ChainsFor(a, h)|), k, key, value, total)
    requires value.Some? ==> total == 0
    ensures PairsRemoved(a, s, h, key, value, IO_ERROR)
  {
    hide *;
    RemovalMeans(a, s, h, k, key, value, total);
    CutStatus(a, s, h, key, value);
    MakePairsRemoved(a, s, h, key, value, IO_ERROR);
  }

  /** Once every page of its bucket has been searched, no matching pair is left. */
  lemma NothingLeft(s: Store, h: nat, chains: Chains, i: nat, key: Bytes, value: Option<RecordID>)
    requires IndexShape(s, h, chains) && i < |chains| && SlotOf(key, |chains|) == i
    requires forall j: nat :: j < |chains[i]| ==> NoneMatch(s, chains[i][j], key, value)
    ensures forall pair :: pair in PairsOn(s, PagesOf(chains)) ==> !Matches(pair, key, value)
  {
    hide IndexShape, EntriesAt, PairsOn, PagesOf, SlotOf;
    forall pair | pair in PairsOn(s, PagesOf(chains)) ensures !Matches(pair, key, value) {
      if SlotOf(pair.key, |chains|) == i {
        OnlyInBucket(s, h, chains, i, pair);
        var p: nat :| p in chains[i] && pair in EntriesAt(s, p);
        var j: nat :| j < |chains[i]| && chains[i][j] == p;
        assert NoneMatch(s, chains[i][j], key, value);
      }
    }
  }

  lemma AllRemoved(before: set<Pair>, after: set<Pair>, key: Bytes, value: Option<RecordID>)
    requires before - Matching(before, key, value) <= after <= before
    requires (forall pair :: pair in after ==> !Matches(pair, key, value)) || (value.Some? && after != before)
    ensures after == before - Matching(before, key, value)
    ensures Matching(before, key, value) == {} <==> after == before
  {
    if value.Some? && after != before {
      var gone :| gone in before && gone !in after;
      assert gone == Pair(key, value.value);
      assert forall pair :: Matches(pair, key, value) ==> pair == gone;
    }
  }

  lemma RemovalEnd(a: Store, s: Store, h: nat, k: nat, key: Bytes, value: Option<RecordID>, total: nat)
    requires IndexOk(a, h) && RemovedUpTo(a, s, h, ChainsFor(a, h), SlotOf(key, |ChainsFor(a, h)|), k, key, value, total)
    requires k == |ChainsFor(a, h)[SlotOf(key, |ChainsFor(a, h)|)]| || (value.Some? && total > 0)
    ensures total == 0 ==> PairsRemoved(a, s, h, key, value, NOT_FOUND)
    ensures total > 0 ==> PairsRemoved(a, s, h, key, value, OK)
  {
    var chains := ChainsFor(a, h);
    RemovalMeans(a, s, h, k, key, value, total);
    hide IndexOk, ChainsFor, SlotOf, PairsOn, PagesOf, RoomIn, IndexBecomes, IndexPairs, IndexPages, Rooms, Width, Matching, IndexShape, OwnChange, PairsShrink, NoneMatch;
    if k == |chains[SlotOf(key, |chains|)]| {
      NothingLeft(s, h, chains, SlotOf(key, |chains|), key, value);
    }
    AllRemoved(IndexPairs(a, h), IndexPairs(s, h), key, value);
  }

  lemma RemovePairsParts(a: Store, b: Store, p: nat, key: Bytes, value: Option<RecordID>, removed: nat)
    requires RemovePairsStep(a, b, p, key, value, removed)
    ensures PageChanged(a, b, p) && p in a && p in b && b == a[p := b[p]]
    ensures BucketOk(b[p]) && Overflow(b[p]) == Overflow(a[p]) && Entries(b[p]) == Removed(Entries(a[p]), 0, key, value)
    ensures |Entries(b[p])| + removed == |Entries(a[p])| && (removed == 0 ==> b == a)
  {
    hide BucketOk, Overflow, Entries, Removed;
  }

  /** One page further. */
  lemma RemovalStep(a: Store, s: Store, t: Store, h: nat, chains: Chains, i: nat, k: nat, key: Bytes, value: Option<RecordID>, total: nat, removed: nat)
    requires RemovedUpTo(a, s, h, chains, i, k, key, value, total) && i < |chains| && k < |chains[i]|
    requires RemovePairsStep(s, t, chains[i][k], key, value, removed)
    ensures RemovedUpTo(a, t, h, chains, i, k + 1, key, value, total + removed)
  {
    hide *;
    var p, pages := chains[i][k], PagesOf(chains);
    RemovalShape(a, s, h, chains, i, k, key, value, total);
    RemovePairsParts(s, t, p, key, value, removed);
    RemoveFromBucket(s, h, chains, i, p, t[p], key, value);
    BucketOf(s, h, chains, i, p);
    ShapeParts(s, h, chains);
    EntriesOnce(s, pages, p);
    BucketOf(t, h, chains, i, p);
    PageOwnChange(s, t, pages, p);
    PageShrinks(s, t, pages, p, key, value, removed);
    NoneMatchStays(s, t, h, chains, i, k, key, value);
    MakeRemovedUpTo(a, s, t, h, chains, i, k, key, value, total, removed);
  }

  lemma PageShrinks(s: Store, t: Store, pages: set<nat>, p: nat, key: Bytes, value: Option<RecordID>, removed: nat)
    requires p in pages && NoDuplicates(EntriesAt(s, p)) && EntriesAt(t, p) == Removed(EntriesAt(s, p), 0, key, value)
    requires |EntriesAt(t, p)| + removed == |EntriesAt(s, p)|
    requires forall x :: x in PairsOn(t, pages) <==> x in PairsOn(s, pages) && !(x in EntriesAt(s, p) && Matches(x, key, value))
    ensures PairsShrink(s, t, pages, key, value) && NoneMatch(t, p, key, value)
    ensures removed > 0 ==> PairsOn(t, pages) != PairsOn(s, pages)
  {
    RemovedMembers(EntriesAt(s, p), 0, key, value);
    hide EntriesAt, PairsOn, Removed, Matches;
    if removed > 0 && forall x :: x in EntriesAt(s, p) ==> !Matches(x, key, value) {
      NoneRemoved(EntriesAt(s, p), 0, key, value);
    } else if removed > 0 {
      var x :| x in EntriesAt(s, p) && Matches(x, key, value);
      PageHolds(s, pages, p, x);
    }
  }

  lemma {:induction false} NoneRemoved(s: seq<Pair>, i: nat, key: Bytes, value: Option<RecordID>)
    requires forall x :: x in s ==> !Matches(x, key, value)
    ensures Removed(s, i, key, value) == s
    decreases |s| - i
  {
    hide Matches;
    if i < |s| {
      NoneRemoved(s, i + 1, key, value);
    }
  }

  lemma NoneMatchStays(s: Store, t: Store, h: nat, chains: Chains, i: nat, k: nat, key: Bytes, value: Option<RecordID>)
    requires IndexShape(s, h, chains) && i < |chains| && k < |chains[i]| && chains[i][k] in t && t == s[chains[i][k] := t[chains[i][k]]]
    requires NoneMatch(t, chains[i][k], key, value)
    ensures (forall j: nat :: j < k ==> NoneMatch(s, chains[i][j], key, value)) ==>
              forall j: nat :: j < k + 1 ==> NoneMatch(t, chains[i][j], key, value)
  {
    IndexWalk(s, h, chains, i, k);
    hide IndexShape, Entries, GoodPage, Matches;
    forall j: nat | j < k ensures EntriesAt(t, chains[i][j]) == EntriesAt(s, chains[i][j]) {
      assert chains[i][j] in chains[i][..k];
    }
  }

  lemma MakeRemovedUpTo(a: Store, s: Store, t: Store, h: nat, chains: Chains, i: nat, k: nat, key: Bytes, value: Option<RecordID>, total: nat, removed: nat)
    requires RemovedUpTo(a, s, h, chains, i, k, key, value, total) && k < |chains[i]| && IndexShape(t, h, chains)
    requires OwnChange(s, t, PagesOf(chains), PagesOf(chains)) && t.Keys == s.Keys && PairsShrink(s, t, PagesOf(chains), key, value)
    requires (forall j: nat :: j < k ==> NoneMatch(s, chains[i][j], key, value)) ==>
               forall j: nat :: j < k + 1 ==> NoneMatch(t, chains[i][j], key, value)
    requires RoomIn(s, chains) <= RoomIn(t, chains) && RoomIn(t, chains) - {i} == RoomIn(s, chains) - {i}
    requires removed == 0 ==> t == s
    requires removed > 0 ==> PairsOn(t, PagesOf(chains)) != PairsOn(s, PagesOf(chains)) && i in RoomIn(t, chains)
    ensures RemovedUpTo(a, t, h, chains, i, k + 1, key, value, total + removed)
  {
    hide IndexShape, PairsOn, PagesOf, RoomIn, NoneMatch, Matches;
  }

  // ---- Create ----

  /** Page `h` has been allocated as the header of an index without pairs. */
  ghost predicate IndexCreated(a: Store, b: Store, h: nat, bucketCount: nat) {
    && h >= 1 && h !in a && h in b && b == a[h := b[h]]
    && IndexOk(b, h) && IndexPairs(b, h) == {} && IndexPages(b, h) == {h} && Width(b, h) == bucketCount
  }

  lemma MakeIndexCreated(a: Store, b: Store, h: nat, c: Bytes, bucketCount: nat)
    requires h >= 1 && h !in a && b == a[h := c]
    requires HeaderOk(c) && Directory(c) == NoBuckets(bucketCount) && MaxKeyLength(c) == MAX_KEY_LENGTH
    ensures IndexCreated(a, b, h, bucketCount)
  {
    var chains: Chains := seq(bucketCount, (i: nat) => []);
    hide HeaderOk, Directory, MaxKeyLength, EntriesAt, BucketOk;
    assert PagesOf(chains) == {};
    assert PairsOn(b, PagesOf(chains)) == {};
    assert IndexShape(b, h, chains);
    hide IndexShape;
    IndexIs(b, h, chains);
  }

  // ---- Destroy ----

  ghost function SetOf(s: seq<nat>): set<nat> {
    set p: nat | p in s
  }

  ghost function PagesUpTo(chain: seq<nat>, k: nat): set<nat> {
    SetOf(if k <= |chain| then chain[..k] else chain)
  }

  lemma NoPagesYet(chain: seq<nat>)
    ensures PagesUpTo(chain, 0) == {}
  {
  }

  lemma MorePages(chain: seq<nat>, k: nat)
    requires k < |chain|
    ensures PagesUpTo(chain, k + 1) == PagesUpTo(chain, k) + {chain[k]}
    ensures PagesUpTo(chain, k + 1) <= PagesUpTo(chain, |chain|)
    ensures chain[k] !in chain[..k] ==> chain[k] !in PagesUpTo(chain, k)
  {
    assert chain[..k + 1] == chain[..k] + [chain[k]];
    assert forall p: nat :: p in chain[..k + 1] ==> p in chain;
  }

  /** A page that has not been freed is as it was. */
  lemma StillThere(a: Store, s: Store, freed: set<nat>, p: nat, reliable: bool)
    requires Freed(a, s, freed, reliable) && GoodPage(a, p) && p !in freed
    ensures GoodPage(s, p) && p in a && p in s && s[p] == a[p]
  {
    hide BucketOk, Entries, AllStorable;
  }

  lemma FreedLess(a: Store, s: Store, freed: set<nat>, p: nat, reliable: bool)
    requires Freed(a, s, freed, reliable)
    ensures Freed(a, s, freed + {p}, false)
  {
  }

  lemma FreedMore(a: Store, s: Store, freed: set<nat>, pages: set<nat>)
    requires Freed(a, s, freed, false) && freed <= pages
    ensures Freed(a, s, pages, false)
  {
  }

  /** `primaries` are the entries of the directory that name a page, and `buckets` says
      which buckets they are of. */
  ghost predicate ListedUpTo(directory: seq<int>, n: nat, primaries: seq<int>, buckets: seq<nat>) {
    && n <= |directory| && |buckets| == |primaries|
    && (forall x: nat :: x < |buckets| ==> buckets[x] < n && directory[buckets[x]] == primaries[x])
    && (forall x: nat, y: nat :: x < y < |buckets| ==> buckets[x] != buckets[y])
    && (forall i: nat :: i < n ==> directory[i] == INVALID_PAGE_ID || i in buckets)
  }

  ghost predicate Listed(directory: seq<int>, primaries: seq<int>, buckets: seq<nat>) {
    ListedUpTo(directory, |directory|, primaries, buckets)
  }

  lemma ListStart(directory: seq<int>)
    ensures ListedUpTo(directory, 0, [], [])
  {
  }

  lemma ListStep(directory: seq<int>, i: nat, primaries: seq<int>, buckets: seq<nat>)
    requires ListedUpTo(directory, i, primaries, buckets) && i < |directory|
    ensures directory[i] == INVALID_PAGE_ID ==> ListedUpTo(directory, i + 1, primaries, buckets)
    ensures ListedUpTo(directory, i + 1, primaries + [directory[i]], buckets + [i])
  {
    assert forall j: nat :: j in buckets + [i] <==> j in buckets || j == i;
  }

  lemma ListEnd(directory: seq<int>, primaries: seq<int>, buckets: seq<nat>)
    requires ListedUpTo(directory, |directory|, primaries, buckets)
    ensures Listed(directory, primaries, buckets)
  {
    hide ListedUpTo;
  }

  /** The pages of the first `x` listed buckets. */
  ghost function PagesOfBuckets(chains: Chains, buckets: seq<nat>, x: nat): set<nat> {
    set y: nat, p: nat | y < x && y < |buckets| && buckets[y] < |chains| && p in chains[buckets[y]] :: p
  }

  lemma DestroyStart(a: Store, h: nat, reliable: bool)
    requires IndexOk(a, h)
    ensures IndexShape(a, h, ChainsFor(a, h)) && GoodHeader(a, h) && h in a && h >= 1
    ensures Freed(a, a, {}, reliable) && Freed(a, a, IndexPages(a, h), false)
    ensures forall buckets: seq<nat> :: PagesOfBuckets(ChainsFor(a, h), buckets, 0) == {}
    ensures INVALID_PAGE_ID == -1 && HEADER_PAGE_ID == 0
    ensures IndexPages(a, h) == PagesOf(ChainsFor(a, h)) + {h} && h !in PagesOf(ChainsFor(a, h))
    ensures |DirectoryAt(a, h)| == |ChainsFor(a, h)|
  {
    var chains := ChainsFor(a, h);
    IndexChains(a, h);
    ShapeParts(a, h, chains);
    PagesAllocated(a, h, chains);
    IndexStart(a, h, chains, []);
    hide IndexOk, IndexShape, ChainsFor, PagesOf, SlotOf;
    forall buckets: seq<nat> ensures PagesOfBuckets(chains, buckets, 0) == {} {}
  }

  /** The next listed bucket has pages that have not been freed yet. */
  lemma ListedChain(a: Store, h: nat, chains: Chains, primaries: seq<int>, buckets: seq<nat>, x: nat)
    requires IndexShape(a, h, chains) && Listed(DirectoryAt(a, h), primaries, buckets) && x < |primaries|
    ensures x < |buckets| && buckets[x] < |chains|
    ensures primaries[x] == if chains[buckets[x]] == [] then INVALID_PAGE_ID else chains[buckets[x]][0]
    ensures forall p: nat :: p in chains[buckets[x]] ==> p !in PagesOfBuckets(chains, buckets, x) && p in PagesOf(chains)
    ensures PagesOfBuckets(chains, buckets, x + 1)
         == PagesOfBuckets(chains, buckets, x) + PagesUpTo(chains[buckets[x]], |chains[buckets[x]]|)
    ensures PagesOfBuckets(chains, buckets, x) <= PagesOf(chains)
    ensures PagesUpTo(chains[buckets[x]], |chains[buckets[x]]|) <= PagesOf(chains)
  {
    ListedBucket(a, h, chains, primaries, buckets, x);
    ShapeParts(a, h, chains);
    hide IndexShape, GoodHeader, ChainsHold, NoPairTwice, ChainsLinked, DirectoryAt, Listed;
    OtherBuckets(chains, buckets, x);
    BucketPagesStep(chains, buckets, x);
  }

  lemma ListedBucket(a: Store, h: nat, chains: Chains, primaries: seq<int>, buckets: seq<nat>, x: nat)
    requires IndexShape(a, h, chains) && Listed(DirectoryAt(a, h), primaries, buckets) && x < |primaries|
    ensures x < |buckets| && buckets[x] < |chains| && forall y: nat :: y < x ==> buckets[y] != buckets[x]
    ensures primaries[x] == if chains[buckets[x]] == [] then INVALID_PAGE_ID else chains[buckets[x]][0]
  {
    ShapeParts(a, h, chains);
    hide IndexShape, GoodHeader, ChainsHold, NoPairTwice, ChainsDisjoint, DirectoryAt, BucketLinks;
    assert Linked(BucketLinks(a), DirectoryAt(a, h)[buckets[x]], chains[buckets[x]]);
  }

  lemma OtherBuckets(chains: Chains, buckets: seq<nat>, x: nat)
    requires ChainsDisjoint(chains) && x < |buckets| && buckets[x] < |chains| && forall y: nat :: y < x ==> buckets[y] != buckets[x]
    ensures forall p: nat :: p in chains[buckets[x]] ==> p !in PagesOfBuckets(chains, buckets, x) && p in PagesOf(chains)
  {
    forall p: nat | p in chains[buckets[x]] ensures p !in PagesOfBuckets(chains, buckets, x) {
      forall y: nat | y < x && buckets[y] < |chains| ensures p !in chains[buckets[y]] {
        assert buckets[y] != buckets[x];
      }
    }
  }

  lemma BucketPagesStep(chains: Chains, buckets: seq<nat>, x: nat)
    requires x < |buckets| && buckets[x] < |chains|
    ensures PagesOfBuckets(chains, buckets, x + 1)
         == PagesOfBuckets(chains, buckets, x) + PagesUpTo(chains[buckets[x]], |chains[buckets[x]]|)
    ensures PagesOfBuckets(chains, buckets, x) <= PagesOf(chains)
    ensures PagesUpTo(chains[buckets[x]], |chains[buckets[x]]|) <= PagesOf(chains)
  {
    assert chains[buckets[x]][..|chains[buckets[x]]|] == chains[buckets[x]];
  }

  lemma AllListed(a: Store, h: nat, chains: Chains, primaries: seq<int>, buckets: seq<nat>)
    requires IndexShape(a, h, chains) && Listed(DirectoryAt(a, h), primaries, buckets)
    ensures PagesOfBuckets(chains, buckets, |primaries|) == PagesOf(chains)
  {
    ShapeParts(a, h, chains);
    hide IndexShape, GoodHeader, ChainsHold, NoPairTwice;
    forall p: nat | p in PagesOf(chains) ensures p in PagesOfBuckets(chains, buckets, |primaries|) {
      var i: nat :| i < |chains| && p in chains[i];
      assert Linked(BucketLinks(a), DirectoryAt(a, h)[i], chains[i]);
      assert chains[i][0] in BucketLinks(a);
      var y: nat :| y < |buckets| && buckets[y] == i;
    }
  }

  lemma HeaderRemains(a: Store, s: Store, h: nat, freed: set<nat>, reliable: bool)
    requires Freed(a, s, freed, reliable) && h in a && h !in freed
    ensures h in s
  {
  }
}
