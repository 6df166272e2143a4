// How many pages an index needs that has been filled pair by pair.
module IndexCounts {
  import opened Common
  import opened BucketFormat
  import opened PageChains
  import opened IndexStates
  import opened IndexOutcomes

  // ---- Counting pairs ----

  /** How many bucket pages hold `n` pairs, 53 on a page. */
  function BucketPages(n: nat): nat {
    (n + 52) / 53
  }

  /** The pairs that hash to bucket `i` of `n`. */
  ghost function InBucket(pairs: set<Pair>, n: nat, i: nat): set<Pair> {
    set pair | pair in pairs && SlotOf(pair.key, n) == i
  }

  /** The bucket pages that the pairs of the first `k` of `n` buckets need. */
  ghost function PagesNeeded(pairs: set<Pair>, n: nat, k: nat): nat {
    if k == 0 then 0 else PagesNeeded(pairs, n, k - 1) + BucketPages(|InBucket(pairs, n, k - 1)|)
  }

  lemma {:induction false} NeededInsert(pairs: set<Pair>, pair: Pair, n: nat, k: nat)
    requires pair !in pairs && k <= n
    ensures var i := SlotOf(pair.key, n);
            PagesNeeded(pairs + {pair}, n, k) == PagesNeeded(pairs, n, k) + if i < k && |InBucket(pairs, n, i)| % 53 == 0 then 1 else 0
  {
    hide SlotOf, InBucket, BucketPages;
    if k > 0 {
      NeededInsert(pairs, pair, n, k - 1);
      OneMoreInBucket(pairs, pair, n, k - 1);
      NextBucketPage(|InBucket(pairs, n, k - 1)|);
    }
  }

  lemma NextBucketPage(n: nat)
    ensures BucketPages(n + 1) == BucketPages(n) + if n % 53 == 0 then 1 else 0
  {
  }

  lemma OneMoreInBucket(pairs: set<Pair>, pair: Pair, n: nat, i: nat)
    requires pair !in pairs
    ensures |InBucket(pairs + {pair}, n, i)| == |InBucket(pairs, n, i)| + if SlotOf(pair.key, n) == i then 1 else 0
  {
    hide SlotOf;
    var before, after := InBucket(pairs, n, i), InBucket(pairs + {pair}, n, i);
    if SlotOf(pair.key, n) == i {
      assert after == before + {pair};
    } else {
      assert after == before;
    }
  }

  lemma {:induction false} NeededGrows(fewer: set<Pair>, more: set<Pair>, n: nat, k: nat)
    requires fewer <= more
    ensures PagesNeeded(fewer, n, k) <= PagesNeeded(more, n, k)
  {
    if k > 0 {
      NeededGrows(fewer, more, n, k - 1);
      SubsetSize(InBucket(fewer, n, k - 1), InBucket(more, n, k - 1));
      hide SlotOf;
    }
  }

  lemma SubsetSize(fewer: set<Pair>, more: set<Pair>)
    requires fewer <= more
    ensures |fewer| <= |more|
  {
    assert more == fewer + (more - fewer);
  }

  lemma {:induction false} NothingNeeded(n: nat, k: nat)
    ensures PagesNeeded({}, n, k) == 0
  {
    if k > 0 {
      NothingNeeded(n, k - 1);
      assert InBucket({}, n, k - 1) == {};
    }
  }

  /** At most a page for every pair. */
  lemma {:induction false} NeededIsSmall(pairs: set<Pair>, n: nat, k: nat)
    ensures PagesNeeded(pairs, n, k) <= |set pair | pair in pairs && SlotOf(pair.key, n) < k|
  {
    if k > 0 {
      NeededIsSmall(pairs, n, k - 1);
      hide SlotOf;
      var before := set pair | pair in pairs && SlotOf(pair.key, n) < k - 1;
      assert (set pair | pair in pairs && SlotOf(pair.key, n) < k) == before + InBucket(pairs, n, k - 1);
      assert before !! InBucket(pairs, n, k - 1);
      assert BucketPages(|InBucket(pairs, n, k - 1)|) <= |InBucket(pairs, n, k - 1)|;
    }
  }

  // ---- One chain ----

  ghost function SetOf<T>(s: seq<T>): set<T> {
    set x | x in s
  }

  /** The pairs of the first `k` lists. */
  ghost function Together(lists: seq<seq<Pair>>, k: nat): set<Pair> {
    if k == 0 || k > |lists| then {} else Together(lists, k - 1) + SetOf(lists[k - 1])
  }

  /** At most 53 pairs in a list, and none twice. */
  ghost predicate Lists(lists: seq<seq<Pair>>) {
    && (forall x: nat :: x < |lists| ==> |lists[x]| <= 53)
    && (forall x: nat, y: nat, k: nat, l: nat :: (
          x < |lists| && y < |lists| && k < |lists[x]| && l < |lists[y]| && lists[x][k] == lists[y][l]) ==> x == y && k == l)
  }

  lemma {:induction false} TogetherMembers(lists: seq<seq<Pair>>, k: nat, pair: Pair)
    requires k <= |lists|
    ensures pair in Together(lists, k) <==> exists x: nat :: x < k && pair in lists[x]
  {
    if k > 0 {
      TogetherMembers(lists, k - 1, pair);
    }
  }

  lemma {:induction false} SetSize<T>(s: seq<T>)
    requires forall x: nat, y: nat :: x < y < |s| ==> s[x] != s[y]
    ensures |SetOf(s)| == |s|
    decreases |s|
  {
    if s != [] {
      var init, last := s[..|s| - 1], s[|s| - 1];
      forall x: nat, y: nat | x < y < |init| ensures init[x] != init[y] {
        assert s[x] != s[y];
      }
      SetSize(init);
      assert s == init + [last];
      assert SetOf(s) == SetOf(init) + {last};
      assert last !in init;
    }
  }

  lemma NextList(lists: seq<seq<Pair>>, k: nat)
    requires Lists(lists) && k < |lists|
    ensures Together(lists, k) !! SetOf(lists[k]) && NoDuplicates(lists[k])
  {
    forall pair | pair in SetOf(lists[k]) ensures pair !in Together(lists, k) {
      TogetherMembers(lists, k, pair);
      var l: nat :| l < |lists[k]| && lists[k][l] == pair;
      forall x: nat | x < k ensures pair !in lists[x] {
        if j: nat :| j < |lists[x]| && lists[x][j] == pair {
          assert lists[x][j] == lists[k][l];
        }
      }
    }
  }

  lemma OneMoreList(lists: seq<seq<Pair>>, k: nat)
    requires Lists(lists) && k < |lists|
    ensures |Together(lists, k + 1)| == |Together(lists, k)| + |lists[k]| && |lists[k]| <= 53
  {
    NextList(lists, k);
    SetSize(lists[k]);
    assert |lists[k]| <= 53;
    hide SetOf, Lists;
    assert Together(lists, k + 1) == Together(lists, k) + SetOf(lists[k]);
    hide Together;
  }

  lemma NoLists(lists: seq<seq<Pair>>)
    ensures Together(lists, 0) == {}
  {
  }

  /** They hold as many pairs as they can exactly if each of them does. */
  lemma {:induction false} TogetherSize(lists: seq<seq<Pair>>, k: nat)
    requires Lists(lists) && k <= |lists|
    ensures |Together(lists, k)| <= 53 * k
    ensures |Together(lists, k)| == 53 * k <==> forall x: nat :: x < k ==> |lists[x]| == 53
  {
    hide Together, SetOf, Lists;
    if k > 0 {
      TogetherSize(lists, k - 1);
      OneMoreList(lists, k - 1);
    } else {
      NoLists(lists);
    }
  }

  ghost function ListsOf(store: Store, chain: seq<nat>): (lists: seq<seq<Pair>>)
    ensures |lists| == |chain| && forall x: nat :: x < |chain| ==> lists[x] == EntriesAt(store, chain[x])
  {
    seq(|chain|, (x: nat) requires x < |chain| => EntriesAt(store, chain[x]))
  }

  /** A bucket has room exactly if it holds fewer pairs than its pages can. */
  lemma BucketSize(store: Store, h: nat, chains: Chains, i: nat)
    requires IndexShape(store, h, chains) && i < |chains|
    ensures var n := |InBucket(PairsOn(store, PagesOf(chains)), |chains|, i)|;
            && n <= 53 * |chains[i]| && (i in RoomIn(store, chains) <==> n < 53 * |chains[i]|)
  {
    hide *;
    var lists := ListsOf(store, chains[i]);
    BucketLists(store, h, chains, i);
    TogetherSize(lists, |lists|);
    BucketPairs(store, h, chains, i);
    RoomMeans(store, h, chains, i);
  }

  lemma RoomMeans(store: Store, h: nat, chains: Chains, i: nat)
    requires i < |chains| && Lists(ListsOf(store, chains[i]))
    ensures var lists := ListsOf(store, chains[i]);
            && |lists| == |chains[i]|
            && (i in RoomIn(store, chains) <==> !forall x: nat :: x < |lists| ==> |lists[x]| == 53)
  {
    assert ENTRY_CAPACITY == 53;
    hide EntriesAt;
    var lists := ListsOf(store, chains[i]);
    if x: nat :| x < |lists| && |lists[x]| != 53 {
      assert |lists[x]| <= 53 && chains[i][x] in chains[i];
      assert |EntriesAt(store, chains[i][x])| < ENTRY_CAPACITY;
    }
  }

  lemma BucketLists(store: Store, h: nat, chains: Chains, i: nat)
    requires IndexShape(store, h, chains) && i < |chains|
    ensures Lists(ListsOf(store, chains[i]))
  {
    hide *;
    ShapeParts(store, h, chains);
    DifferentPages(store, h, chains, i);
    forall x: nat | x < |chains[i]| ensures |EntriesAt(store, chains[i][x])| <= 53 && chains[i][x] in PagesOf(chains) {
      BucketOf(store, h, chains, i, chains[i][x]);
      EntriesFit(store[chains[i][x]]);
    }
    MakeLists(store, PagesOf(chains), chains[i]);
  }

  lemma DifferentPages(store: Store, h: nat, chains: Chains, i: nat)
    requires ChainsLinked(store, h, chains) && i < |chains|
    ensures forall x: nat, y: nat :: x < y < |chains[i]| ==> chains[i][x] != chains[i][y]
  {
    hide Linked;
    Distinct(BucketLinks(store), DirectoryAt(store, h)[i], chains[i]);
  }

  lemma MakeLists(store: Store, pages: set<nat>, chain: seq<nat>)
    requires forall x: nat, y: nat :: x < y < |chain| ==> chain[x] != chain[y]
    requires forall x: nat :: x < |chain| ==> |EntriesAt(store, chain[x])| <= 53 && chain[x] in pages
    requires NoPairTwice(store, pages)
    ensures Lists(ListsOf(store, chain))
  {
    hide EntriesAt;
    var lists := ListsOf(store, chain);
    forall x: nat, y: nat, k: nat, l: nat |
      x < |lists| && y < |lists| && k < |lists[x]| && l < |lists[y]| && lists[x][k] == lists[y][l]
      ensures x == y && k == l
    {
      assert chain[x] == chain[y] && k == l;
    }
  }

  lemma EntriesFit(b: Bytes)
    requires BucketOk(b)
    ensures |Entries(b)| <= 53
  {
  }

  lemma BucketPairs(store: Store, h: nat, chains: Chains, i: nat)
    requires IndexShape(store, h, chains) && i < |chains|
    ensures |ListsOf(store, chains[i])| == |chains[i]|
    ensures InBucket(PairsOn(store, PagesOf(chains)), |chains|, i) == Together(ListsOf(store, chains[i]), |chains[i]|)
  {
    var lists := ListsOf(store, chains[i]);
    forall pair ensures pair in InBucket(PairsOn(store, PagesOf(chains)), |chains|, i) <==> pair in Together(lists, |lists|) {
      BucketPair(store, h, chains, i, pair);
    }
  }

  lemma BucketPair(store: Store, h: nat, chains: Chains, i: nat, pair: Pair)
    requires IndexShape(store, h, chains) && i < |chains|
    ensures pair in InBucket(PairsOn(store, PagesOf(chains)), |chains|, i)
       <==> pair in Together(ListsOf(store, chains[i]), |chains[i]|)
  {
    hide *;
    var lists := ListsOf(store, chains[i]);
    TogetherMembers(lists, |lists|, pair);
    OnChain(store, chains[i], pair);
    InBucketMeans(PairsOn(store, PagesOf(chains)), |chains|, i, pair);
    if SlotOf(pair.key, |chains|) == i {
      OnlyInBucket(store, h, chains, i, pair);
    } else {
      NotInOther(store, h, chains, i, pair);
    }
  }

  lemma InBucketMeans(pairs: set<Pair>, n: nat, i: nat, pair: Pair)
    ensures pair in InBucket(pairs, n, i) <==> pair in pairs && SlotOf(pair.key, n) == i
  {
    hide SlotOf;
  }

  lemma OnChain(store: Store, chain: seq<nat>, pair: Pair)
    ensures (exists p: nat :: p in chain && pair in EntriesAt(store, p))
       <==> exists x: nat :: x < |ListsOf(store, chain)| && pair in ListsOf(store, chain)[x]
  {
    hide EntriesAt;
    var lists := ListsOf(store, chain);
    if p: nat :| p in chain && pair in EntriesAt(store, p) {
      var x: nat :| x < |chain| && chain[x] == p;
      assert pair in lists[x];
    }
    if x: nat :| x < |lists| && pair in lists[x] {
      assert chain[x] in chain && pair in EntriesAt(store, chain[x]);
    }
  }

  lemma NotInOther(store: Store, h: nat, chains: Chains, i: nat, pair: Pair)
    requires IndexShape(store, h, chains) && i < |chains| && SlotOf(pair.key, |chains|) != i
    ensures !exists p: nat :: p in chains[i] && pair in EntriesAt(store, p)
  {
    forall p: nat | p in chains[i] ensures pair !in EntriesAt(store, p) {
      BucketOf(store, h, chains, i, p);
      BelongMeans(EntriesAt(store, p), |chains|, i, pair);
    }
  }

  lemma BelongMeans(s: seq<Pair>, n: nat, i: nat, pair: Pair)
    requires AllBelong(s, n, i) && SlotOf(pair.key, n) != i
    ensures pair !in s
  {
    hide SlotOf, Storable;
    assert forall k: nat :: k < |s| ==> Belongs(s[k], n, i);
  }

  // ---- All chains ----

  function TotalPages(chains: Chains, k: nat): nat {
    if k == 0 || k > |chains| then 0 else TotalPages(chains, k - 1) + |chains[k - 1]|
  }

  ghost function FirstPages(chains: Chains, k: nat): set<nat> {
    if k == 0 || k > |chains| then {} else FirstPages(chains, k - 1) + SetOf(chains[k - 1])
  }

  lemma {:induction false} FirstPagesAre(chains: Chains, k: nat, p: nat)
    requires k <= |chains|
    ensures p in FirstPages(chains, k) <==> exists i: nat :: i < k && p in chains[i]
  {
    if k > 0 {
      FirstPagesAre(chains, k - 1, p);
    }
  }

  lemma {:induction false} FirstPagesSize(chains: Chains, k: nat)
    requires k <= |chains| && ChainsDisjoint(chains)
    requires forall i: nat, x: nat, y: nat :: i < |chains| && x < y < |chains[i]| ==> chains[i][x] != chains[i][y]
    ensures |FirstPages(chains, k)| == TotalPages(chains, k)
  {
    if k > 0 {
      FirstPagesSize(chains, k - 1);
      SetSize(chains[k - 1]);
      NextPages(chains, k - 1);
      hide ChainsDisjoint;
    }
  }

  lemma NextPages(chains: Chains, k: nat)
    requires k < |chains| && ChainsDisjoint(chains)
    ensures FirstPages(chains, k) !! SetOf(chains[k])
  {
    forall p: nat | p in SetOf(chains[k]) ensures p !in FirstPages(chains, k) {
      FirstPagesAre(chains, k, p);
    }
  }

  lemma PagesCounted(store: Store, h: nat, chains: Chains)
    requires IndexShape(store, h, chains)
    ensures |PagesOf(chains) + {h}| == 1 + TotalPages(chains, |chains|)
  {
    hide *;
    ShapeParts(store, h, chains);
    forall i: nat | i < |chains| ensures forall x: nat, y: nat :: x < y < |chains[i]| ==> chains[i][x] != chains[i][y] {
      DifferentPages(store, h, chains, i);
    }
    FirstPagesSize(chains, |chains|);
    HeaderApart(store, h, chains);
    forall p: nat ensures p in FirstPages(chains, |chains|) <==> p in PagesOf(chains) {
      FirstPagesAre(chains, |chains|, p);
      PageMeans(chains, p);
    }
    assert FirstPages(chains, |chains|) == PagesOf(chains);
  }

  lemma PageMeans(chains: Chains, p: nat)
    ensures p in PagesOf(chains) <==> exists i: nat :: i < |chains| && p in chains[i]
  {
  }

  lemma HeaderApart(store: Store, h: nat, chains: Chains)
    requires ChainsHold(store, h, chains)
    ensures h !in PagesOf(chains)
  {
    hide BucketOk, AllBelong, EntriesAt;
    forall i: nat, p: nat | i < |chains| && p in chains[i] ensures p != h {
      assert GoodBucket(store, h, |chains|, i, p);
    }
  }

  // ---- An index without a page too many ----

  /** The index has just the pages that its pairs need. */
  ghost predicate Tight(store: Store, h: nat) {
    |IndexPages(store, h)| == 1 + PagesNeeded(IndexPairs(store, h), Width(store, h), Width(store, h))
  }

  lemma {:induction false} NeededBelow(pairs: set<Pair>, chains: Chains, k: nat)
    requires forall i: nat :: i < |chains| ==> |InBucket(pairs, |chains|, i)| <= 53 * |chains[i]|
    requires k <= |chains|
    ensures PagesNeeded(pairs, |chains|, k) <= TotalPages(chains, k)
  {
    hide InBucket;
    if k > 0 {
      NeededBelow(pairs, chains, k - 1);
    }
  }

  lemma {:induction false} TightChain(pairs: set<Pair>, chains: Chains, i: nat, k: nat)
    requires forall i: nat :: i < |chains| ==> |InBucket(pairs, |chains|, i)| <= 53 * |chains[i]|
    requires i < k <= |chains| && PagesNeeded(pairs, |chains|, k) == TotalPages(chains, k)
    ensures BucketPages(|InBucket(pairs, |chains|, i)|) == |chains[i]|
    decreases k
  {
    NeededBelow(pairs, chains, k - 1);
    hide InBucket;
    if i < k - 1 {
      TightChain(pairs, chains, i, k - 1);
    }
  }

  /** In such an index a bucket has room exactly if its pairs do not fill their pages. */
  lemma RoomWhenTight(store: Store, h: nat, i: nat)
    requires IndexOk(store, h) && Tight(store, h) && i < Width(store, h)
    ensures i in Rooms(store, h) <==> |InBucket(IndexPairs(store, h), Width(store, h), i)| % 53 != 0
  {
    var chains := ChainsFor(store, h);
    hide *;
    IndexChains(store, h);
    IndexIs(store, h, chains);
    TightMeans(store, h);
    var pairs := IndexPairs(store, h);
    PagesCounted(store, h, chains);
    forall j: nat | j < |chains| ensures |InBucket(pairs, |chains|, j)| <= 53 * |chains[j]| {
      BucketSize(store, h, chains, j);
    }
    BucketSize(store, h, chains, i);
    TightChain(pairs, chains, i, |chains|);
    FullOrNot(|InBucket(pairs, |chains|, i)|, |chains[i]|);
  }

  lemma TightMeans(store: Store, h: nat)
    ensures Tight(store, h) <==> |IndexPages(store, h)| == 1 + PagesNeeded(IndexPairs(store, h), Width(store, h), Width(store, h))
  {
    hide IndexPages, IndexPairs, Width, PagesNeeded;
  }

  lemma FullOrNot(n: nat, pages: nat)
    requires BucketPages(n) == pages && n <= 53 * pages
    ensures n < 53 * pages <==> n % 53 != 0
  {
  }

  /** A pair that is new to such an index takes a page exactly if the pairs of its bucket fill
      theirs; so the index has just the pages that it needs then, too. */
  lemma InsertWhenTight(s: Store, u: Store, h: nat, pair: Pair, status: StatusCode, capacity: nat)
    requires Tight(s, h) && pair !in IndexPairs(s, h) && Indexable(pair) && Width(s, h) > 0
    requires PairInserted(s, u, h, pair, status) && PairPlaced(s, u, h, pair, status, capacity)
    ensures var before, after := PagesNeeded(IndexPairs(s, h), Width(s, h), Width(s, h)), PagesNeeded(IndexPairs(s, h) + {pair}, Width(s, h), Width(s, h));
            && (status == OK ==> |u| == |s| + after - before)
            && (status != OK ==> status == OUT_OF_MEMORY && |s| >= capacity && after == before + 1)
  {
    hide *;
    PlacedParts(s, u, h, pair, status, capacity);
    SlotBelow(pair.key, Width(s, h));
    RoomWhenTight(s, h, SlotOf(pair.key, Width(s, h)));
    NeededInsert(IndexPairs(s, h), pair, Width(s, h), Width(s, h));
  }

  lemma SlotBelow(key: Bytes, n: nat)
    requires n > 0
    ensures SlotOf(key, n) < n
  {
  }

  lemma PlacedParts(s: Store, u: Store, h: nat, pair: Pair, status: StatusCode, capacity: nat)
    requires PairInserted(s, u, h, pair, status) && PairPlaced(s, u, h, pair, status, capacity) && Indexable(pair) && pair !in IndexPairs(s, h)
    ensures IndexOk(s, h)
    ensures var pages := if SlotOf(pair.key, Width(s, h)) in Rooms(s, h) then 0 else 1;
            && status == (if pages > 0 && |s| >= capacity then OUT_OF_MEMORY else OK)
            && (status == OK ==> |u| == |s| + pages)
  {
    hide IndexOk, IndexPages, IndexPairs, Width, Rooms, SlotOf, Indexable;
  }
}
