// What the pages of a hash index mean: a set of key/record pairs.
module IndexStates {
  import opened Common
  import opened BucketFormat
  import opened IndexHeaders
  import opened PageChains

  // ---- The hash ----

  /** The bitwise exclusive or of the low `bits` bits. */
  function Xor(a: nat, b: nat, bits: nat): nat {
    if bits == 0 then 0 else (if a % 2 == b % 2 then 0 else 1) + 2 * Xor(a / 2, b / 2, bits - 1)
  }

  /** 64-bit FNV-1a. */
  function StableHash(key: Bytes): nat {
    if key == [] then 14695981039346656037
    else
      var hash := StableHash(key[..|key| - 1]);
      var low := hash % 256;
      (hash - low + Xor(low, key[|key| - 1], 8)) * 1099511628211 % 0x1_0000_0000_0000_0000
  }

  /** The bucket of a key in an index with `n` buckets. */
  function SlotOf(key: Bytes, n: nat): (i: nat)
    ensures n > 0 ==> i < n
  {
    if n == 0 then 0 else StableHash(key) % n
  }

  // ---- The shape of an index ----

  /** The pages of every bucket. */
  type Chains = seq<seq<nat>>

  function EntriesAt(store: Store, p: int): seq<Pair> {
    if p in store then Entries(store[p]) else []
  }

  ghost function BucketLinks(store: Store): Links {
    map p | p in store :: Overflow(store[p])
  }

  ghost predicate Belongs(pair: Pair, n: nat, i: nat) {
    Storable(pair) && SlotOf(pair.key, n) == i
  }

  /** Every entry belongs in bucket `i` of `n`. */
  ghost predicate AllBelong(s: seq<Pair>, n: nat, i: nat) {
    forall k: nat :: k < |s| ==> Belongs(s[k], n, i)
  }

  ghost predicate GoodBucket(store: Store, h: nat, n: nat, i: nat, p: nat) {
    && p >= 1 && p != h && p in store && BucketOk(store[p])
    && AllBelong(EntriesAt(store, p), n, i)
  }

  ghost predicate GoodHeader(store: Store, h: nat) {
    h >= 1 && h in store && HeaderOk(store[h]) && MaxKeyLength(store[h]) == MAX_KEY_LENGTH
  }

  function DirectoryAt(store: Store, h: nat): seq<int> {
    if h in store then Directory(store[h]) else []
  }

  ghost predicate ChainsLinked(store: Store, h: nat, chains: Chains) {
    && |chains| == |DirectoryAt(store, h)|
    && forall i: nat :: i < |chains| ==> Linked(BucketLinks(store), DirectoryAt(store, h)[i], chains[i])
  }

  ghost predicate ChainsHold(store: Store, h: nat, chains: Chains) {
    forall i: nat, p: nat :: i < |chains| && p in chains[i] ==> GoodBucket(store, h, |chains|, i, p)
  }

  ghost predicate ChainsDisjoint(chains: Chains) {
    forall i: nat, j: nat, p: nat :: i < |chains| && j < |chains| && p in chains[i] && p in chains[j] ==> i == j
  }

  ghost function PagesOf(chains: Chains): (pages: set<nat>)
    ensures forall i: nat, p: nat :: i < |chains| && p in chains[i] ==> p in pages
  {
    set i: nat, p | i < |chains| && p in chains[i] :: p
  }

  ghost predicate NoPairTwice(store: Store, pages: set<nat>) {
    forall p: nat, q: nat, k: nat, l: nat :: (
      p in pages && q in pages && k < |EntriesAt(store, p)| && l < |EntriesAt(store, q)| &&
      EntriesAt(store, p)[k] == EntriesAt(store, q)[l]) ==> p == q && k == l
  }

  /** The index with header page `h` has the bucket chains `chains`: they are linked as the
      directory says, share no page, hold only pairs that hash to them, and no pair twice. */
  ghost predicate IndexShape(store: Store, h: nat, chains: Chains) {
    && GoodHeader(store, h)
    && ChainsLinked(store, h, chains)
    && ChainsHold(store, h, chains)
    && ChainsDisjoint(chains)
    && NoPairTwice(store, PagesOf(chains))
  }

  ghost predicate IndexOk(store: Store, h: nat) {
    exists chains: Chains :: IndexShape(store, h, chains)
  }

  ghost function ChainsFor(store: Store, h: nat): (chains: Chains)
    ensures IndexOk(store, h) ==> IndexShape(store, h, chains)
  {
    if IndexOk(store, h) then
      var chains: Chains :| IndexShape(store, h, chains);
      chains
    else
      []
  }

  lemma ChainsAreUnique(store: Store, h: nat, a: Chains, b: Chains)
    requires ChainsLinked(store, h, a) && ChainsLinked(store, h, b)
    ensures a == b
  {
    hide Linked;
    forall i: nat | i < |a| ensures a[i] == b[i] {
      ChainIsUnique(BucketLinks(store), DirectoryAt(store, h)[i], a[i], b[i]);
    }
  }

  ghost predicate OnSome(store: Store, pages: set<nat>, pair: Pair) {
    exists p: nat :: p in pages && pair in EntriesAt(store, p)
  }

  /** The pairs stored on a set of pages. */
  ghost function PairsOn(store: Store, pages: set<nat>): (pairs: set<Pair>)
    ensures forall pair :: pair in pairs <==> OnSome(store, pages, pair)
  {
    set p, k: nat | p in pages && k < |EntriesAt(store, p)| :: EntriesAt(store, p)[k]
  }

  /** The pairs of an index. */
  ghost function IndexPairs(store: Store, h: nat): set<Pair> {
    PairsOn(store, PagesOf(ChainsFor(store, h)))
  }

  /** The pages of an index. */
  ghost function IndexPages(store: Store, h: nat): set<nat> {
    PagesOf(ChainsFor(store, h)) + {h}
  }

  /** The number of buckets. */
  ghost function Width(store: Store, h: nat): nat {
    |ChainsFor(store, h)|
  }

  ghost predicate HasRoom(store: Store, chain: seq<nat>) {
    exists p: nat :: p in chain && |EntriesAt(store, p)| < ENTRY_CAPACITY
  }

  /** The buckets to which a pair can be added without a new page. */
  ghost function RoomIn(store: Store, chains: Chains): set<nat> {
    set i: nat | i < |chains| && HasRoom(store, chains[i])
  }

  ghost function Rooms(store: Store, h: nat): set<nat> {
    RoomIn(store, ChainsFor(store, h))
  }

  lemma IndexIs(store: Store, h: nat, chains: Chains)
    requires IndexShape(store, h, chains)
    ensures IndexOk(store, h) && ChainsFor(store, h) == chains
    ensures IndexPairs(store, h) == PairsOn(store, PagesOf(chains)) && IndexPages(store, h) == PagesOf(chains) + {h}
    ensures Width(store, h) == |chains| && Rooms(store, h) == RoomIn(store, chains)
  {
    hide GoodHeader, ChainsLinked, ChainsHold, ChainsDisjoint, NoPairTwice, PairsOn, PagesOf, RoomIn;
    ChainsAreUnique(store, h, ChainsFor(store, h), chains);
  }

  // ---- Removing from a sequence of pairs ----

  lemma WithoutAtMembers(s: seq<Pair>, i: nat)
    requires NoDuplicates(s) && i < |s|
    ensures NoDuplicates(WithoutAt(s, i)) && |WithoutAt(s, i)| == |s| - 1
    ensures forall pair :: pair in WithoutAt(s, i) <==> pair in s && pair != s[i]
  {
    var t := WithoutAt(s, i);
    forall pair | pair in s && pair != s[i] ensures pair in t {
      var k: nat :| k < |s| && s[k] == pair;
      if k == |s| - 1 { assert t[i] == pair; } else { assert t[k] == pair; }
    }
  }

  /** Removing takes away the matching pairs, and nothing else, although the last
      entries move. */
  lemma {:induction false} RemovedMembers(s: seq<Pair>, i: nat, key: Bytes, value: Option<RecordID>)
    requires NoDuplicates(s) && forall j: nat :: j < i && j < |s| ==> !Matches(s[j], key, value)
    ensures NoDuplicates(Removed(s, i, key, value)) && |Removed(s, i, key, value)| <= |s|
    ensures forall pair :: pair in Removed(s, i, key, value) <==> pair in s && !Matches(pair, key, value)
    decreases |s| - i
  {
    if i < |s| {
      if !Matches(s[i], key, value) {
        RemovedMembers(s, i + 1, key, value);
      } else {
        WithoutAtMembers(s, i);
        if value.None? {
          RemovedMembers(WithoutAt(s, i), i, key, value);
        }
      }
    }
  }

  // ---- Changing the entries of one page ----

  lemma EntriesElsewhere(a: Store, p: nat, c: Bytes)
    ensures forall q: int :: q != p ==> EntriesAt(a[p := c], q) == EntriesAt(a, q)
    ensures EntriesAt(a[p := c], p) == Entries(c)
  {
    hide Entries;
  }

  lemma EntriesOnce(store: Store, pages: set<nat>, p: nat)
    requires NoPairTwice(store, pages) && p in pages
    ensures NoDuplicates(EntriesAt(store, p))
  {
    hide EntriesAt;
  }

  lemma PageHolds(store: Store, pages: set<nat>, p: nat, pair: Pair)
    requires p in pages && pair in EntriesAt(store, p)
    ensures pair in PairsOn(store, pages)
  {
    hide EntriesAt, PairsOn;
    assert OnSome(store, pages, pair);
  }

  /** The pairs after a change of one page: those on it now, and those that were elsewhere. */
  lemma PairsAfter(a: Store, b: Store, pages: set<nat>, p: nat)
    requires p in pages && NoPairTwice(a, pages)
    requires forall q: nat :: q in pages && q != p ==> EntriesAt(b, q) == EntriesAt(a, q)
    ensures forall pair :: pair in PairsOn(b, pages) <==>
              pair in EntriesAt(b, p) || (pair in PairsOn(a, pages) && pair !in EntriesAt(a, p))
  {
    hide EntriesAt, PairsOn;
    forall pair | pair in PairsOn(a, pages) && pair !in EntriesAt(a, p) ensures pair in PairsOn(b, pages) {
      var q: nat :| q in pages && pair in EntriesAt(a, q);
      assert pair in EntriesAt(b, q);
    }
    forall pair | pair in EntriesAt(b, p) ensures pair in PairsOn(b, pages) {
      PageHolds(b, pages, p, pair);
    }
    forall pair | pair in PairsOn(b, pages) && pair !in EntriesAt(b, p)
      ensures pair in PairsOn(a, pages) && pair !in EntriesAt(a, p)
    {
      var q: nat :| q in pages && pair in EntriesAt(b, q);
      assert q != p && pair in EntriesAt(a, q);
      PageHolds(a, pages, q, pair);
    }
  }

  lemma NoTwiceAfterInsert(a: Store, b: Store, pages: set<nat>, p: nat, pair: Pair)
    requires p in pages && NoPairTwice(a, pages) && pair !in PairsOn(a, pages)
    requires forall q: nat :: q in pages && q != p ==> EntriesAt(b, q) == EntriesAt(a, q)
    requires EntriesAt(b, p) == EntriesAt(a, p) + [pair]
    ensures NoPairTwice(b, pages)
  {
    hide EntriesAt, PairsOn;
    forall q: nat, k: nat | q in pages && k < |EntriesAt(a, q)| ensures EntriesAt(a, q)[k] != pair {
      if EntriesAt(a, q)[k] == pair { PageHolds(a, pages, q, pair); }
    }
  }

  lemma NoTwiceAfterRemove(a: Store, b: Store, pages: set<nat>, p: nat)
    requires p in pages && NoPairTwice(a, pages)
    requires forall q: nat :: q in pages && q != p ==> EntriesAt(b, q) == EntriesAt(a, q)
    requires NoDuplicates(EntriesAt(b, p)) && forall pair :: pair in EntriesAt(b, p) ==> pair in EntriesAt(a, p)
    ensures NoPairTwice(b, pages)
  {
    hide EntriesAt;
    forall q: nat, k: nat, l: nat | q in pages && q != p && k < |EntriesAt(b, p)| && l < |EntriesAt(b, q)|
      ensures EntriesAt(b, p)[k] != EntriesAt(b, q)[l]
    {
      assert EntriesAt(b, p)[k] in EntriesAt(a, p);
      var m: nat :| m < |EntriesAt(a, p)| && EntriesAt(a, p)[m] == EntriesAt(b, p)[k];
      assert EntriesAt(a, q)[l] == EntriesAt(b, q)[l];
    }
  }

  /** A change of the entries of one page that keeps them where they belong keeps the chains. */
  lemma PageKeepsChains(a: Store, h: nat, chains: Chains, i: nat, p: nat, c: Bytes)
    requires GoodHeader(a, h) && ChainsLinked(a, h, chains) && ChainsHold(a, h, chains) && ChainsDisjoint(chains)
    requires i < |chains| && p in chains[i] && p in a
    requires BucketOk(c) && Overflow(c) == Overflow(a[p]) && AllBelong(Entries(c), |chains|, i)
    ensures GoodHeader(a[p := c], h) && ChainsLinked(a[p := c], h, chains) && ChainsHold(a[p := c], h, chains)
  {
    var b := a[p := c];
    assert GoodBucket(a, h, |chains|, i, p);
    EntriesElsewhere(a, p, c);
    hide BucketOk, HeaderOk, Entries, EntriesAt, Overflow, AllBelong;
    forall j: nat | j < |chains| ensures Linked(BucketLinks(b), DirectoryAt(b, h)[j], chains[j]) {
      LinkedFrame(BucketLinks(a), BucketLinks(b), DirectoryAt(a, h)[j], chains[j]);
    }
    forall j: nat, q: nat | j < |chains| && q in chains[j] ensures GoodBucket(b, h, |chains|, j, q) {
      assert GoodBucket(a, h, |chains|, j, q);
    }
  }

  lemma ShapeParts(store: Store, h: nat, chains: Chains)
    requires IndexShape(store, h, chains)
    ensures GoodHeader(store, h) && ChainsLinked(store, h, chains) && ChainsHold(store, h, chains)
    ensures ChainsDisjoint(chains) && NoPairTwice(store, PagesOf(chains))
  {
    hide GoodHeader, ChainsLinked, ChainsHold, ChainsDisjoint, NoPairTwice;
  }

  lemma MakeShape(store: Store, h: nat, chains: Chains)
    requires GoodHeader(store, h) && ChainsLinked(store, h, chains) && ChainsHold(store, h, chains)
    requires ChainsDisjoint(chains) && NoPairTwice(store, PagesOf(chains))
    ensures IndexShape(store, h, chains)
  {
    hide GoodHeader, ChainsLinked, ChainsHold, ChainsDisjoint, NoPairTwice;
  }

  /** The facts about a page of the index that a bucket operation needs. */
  lemma BucketOf(store: Store, h: nat, chains: Chains, i: nat, p: nat)
    requires IndexShape(store, h, chains) && i < |chains| && p in chains[i]
    ensures p >= 1 && p != h && p in store && BucketOk(store[p]) && EntriesAt(store, p) == Entries(store[p])
    ensures AllBelong(EntriesAt(store, p), |chains|, i) && AllStorable(EntriesAt(store, p))
    ensures p in PagesOf(chains)
  {
    assert GoodBucket(store, h, |chains|, i, p);
    hide BucketOk, Entries, Storable, NoPairTwice, ChainsLinked;
  }

  lemma BelongAppend(s: seq<Pair>, pair: Pair, n: nat, i: nat)
    requires AllBelong(s, n, i) && Belongs(pair, n, i)
    ensures AllBelong(s + [pair], n, i)
  {
    hide Belongs;
  }

  lemma BelongSubset(s: seq<Pair>, t: seq<Pair>, n: nat, i: nat)
    requires AllBelong(s, n, i) && forall pair :: pair in t ==> pair in s
    ensures AllBelong(t, n, i)
  {
    hide Belongs;
    forall k: nat | k < |t| ensures Belongs(t[k], n, i) {
      assert t[k] in s;
    }
  }

  /** Adding a pair to a page of its bucket. */
  lemma InsertIntoBucket(a: Store, h: nat, chains: Chains, i: nat, p: nat, c: Bytes, pair: Pair)
    requires IndexShape(a, h, chains) && i < |chains| && p in chains[i] && p in a
    requires pair !in PairsOn(a, PagesOf(chains)) && Belongs(pair, |chains|, i)
    requires BucketOk(c) && Entries(c) == Entries(a[p]) + [pair] && Overflow(c) == Overflow(a[p])
    ensures IndexShape(a[p := c], h, chains)
    ensures PairsOn(a[p := c], PagesOf(chains)) == PairsOn(a, PagesOf(chains)) + {pair}
    ensures RoomIn(a[p := c], chains) - {i} == RoomIn(a, chains) - {i}
  {
    hide *;
    var b, pages := a[p := c], PagesOf(chains);
    ShapeParts(a, h, chains);
    BucketOf(a, h, chains, i, p);
    EntriesElsewhere(a, p, c);
    BelongAppend(EntriesAt(a, p), pair, |chains|, i);
    PageKeepsChains(a, h, chains, i, p, c);
    NoTwiceAfterInsert(a, b, pages, p, pair);
    MakeShape(b, h, chains);
    PairsAfter(a, b, pages, p);
    forall x ensures x in PairsOn(b, pages) <==> x in PairsOn(a, pages) + {pair} {
      if x in EntriesAt(a, p) { PageHolds(a, pages, p, x); }
    }
    RoomElsewhere(a, b, chains, i, p);
  }

  /** Whether the other buckets have room does not depend on page `p` of bucket `i`. */
  lemma RoomElsewhere(a: Store, b: Store, chains: Chains, i: nat, p: nat)
    requires ChainsDisjoint(chains) && i < |chains| && p in chains[i]
    requires forall q: nat :: q != p ==> EntriesAt(b, q) == EntriesAt(a, q)
    ensures RoomIn(b, chains) - {i} == RoomIn(a, chains) - {i}
  {
    hide EntriesAt;
    forall j: nat | j < |chains| && j != i ensures HasRoom(b, chains[j]) == HasRoom(a, chains[j]) {
      assert p !in chains[j];
    }
  }

  lemma RoomMore(a: Store, b: Store, chains: Chains, i: nat, p: nat)
    requires i < |chains| && p in chains[i]
    requires forall q: nat :: q != p ==> EntriesAt(b, q) == EntriesAt(a, q)
    requires |EntriesAt(b, p)| <= |EntriesAt(a, p)| <= ENTRY_CAPACITY
    ensures RoomIn(a, chains) <= RoomIn(b, chains)
    ensures |EntriesAt(b, p)| < |EntriesAt(a, p)| ==> i in RoomIn(b, chains)
  {
    hide EntriesAt;
    forall j: nat | j < |chains| && HasRoom(a, chains[j]) ensures HasRoom(b, chains[j]) {
      var q: nat :| q in chains[j] && |EntriesAt(a, q)| < ENTRY_CAPACITY;
      assert |EntriesAt(b, q)| < ENTRY_CAPACITY;
    }
  }

  /** Removing from a page of the bucket. */
  lemma RemoveFromBucket(a: Store, h: nat, chains: Chains, i: nat, p: nat, c: Bytes, key: Bytes, value: Option<RecordID>)
    requires IndexShape(a, h, chains) && i < |chains| && p in chains[i] && p in a
    requires BucketOk(c) && Entries(c) == Removed(Entries(a[p]), 0, key, value) && Overflow(c) == Overflow(a[p])
    ensures IndexShape(a[p := c], h, chains)
    ensures forall x :: x in PairsOn(a[p := c], PagesOf(chains)) <==>
              x in PairsOn(a, PagesOf(chains)) && !(x in EntriesAt(a, p) && Matches(x, key, value))
    ensures forall x :: x in EntriesAt(a[p := c], p) ==> !Matches(x, key, value)
    ensures RoomIn(a[p := c], chains) - {i} == RoomIn(a, chains) - {i}
    ensures RoomIn(a, chains) <= RoomIn(a[p := c], chains)
    ensures |Entries(c)| < |Entries(a[p])| ==> i in RoomIn(a[p := c], chains)
  {
    hide *;
    var b, pages := a[p := c], PagesOf(chains);
    ShapeParts(a, h, chains);
    BucketOf(a, h, chains, i, p);
    EntriesElsewhere(a, p, c);
    EntriesOnce(a, pages, p);
    RemovedMembers(Entries(a[p]), 0, key, value);
    BelongSubset(EntriesAt(a, p), Entries(c), |chains|, i);
    PageKeepsChains(a, h, chains, i, p, c);
    NoTwiceAfterRemove(a, b, pages, p);
    MakeShape(b, h, chains);
    PairsAfter(a, b, pages, p);
    forall x | x in EntriesAt(a, p) ensures x in PairsOn(a, pages) {
      PageHolds(a, pages, p, x);
    }
    RoomElsewhere(a, b, chains, i, p);
    CapacityOf(a[p]);
    RoomMore(a, b, chains, i, p);
  }

  lemma CapacityOf(b: Bytes)
    requires BucketOk(b)
    ensures |Entries(b)| <= ENTRY_CAPACITY
  {
    hide LengthsOk;
  }

  // ---- Adding a page to a bucket ----

  ghost predicate SameEntriesOn(a: Store, b: Store, pages: set<nat>) {
    forall q: nat :: q in pages ==> q in b && BucketOk(b[q]) && EntriesAt(b, q) == EntriesAt(a, q)
  }

  lemma LongerChains(chains: Chains, i: nat, p: nat)
    requires ChainsDisjoint(chains) && i < |chains| && p !in PagesOf(chains)
    ensures ChainsDisjoint(chains[i := chains[i] + [p]])
    ensures PagesOf(chains[i := chains[i] + [p]]) == PagesOf(chains) + {p}
  {
    var longer := chains[i := chains[i] + [p]];
    assert forall q: nat :: q in longer[i] <==> q in chains[i] || q == p;
    forall q: nat ensures q in PagesOf(longer) <==> q in PagesOf(chains) + {p} {
      assert q == p ==> q in longer[i];
      if q in PagesOf(chains) {
        var j: nat :| j < |chains| && q in chains[j];
        assert q in longer[j];
      }
    }
  }

  lemma GrownHolds(a: Store, b: Store, h: nat, chains: Chains, i: nat, p: nat, pair: Pair)
    requires ChainsHold(a, h, chains) && SameEntriesOn(a, b, PagesOf(chains)) && i < |chains|
    requires p >= 1 && p != h && p in b && BucketOk(b[p]) && EntriesAt(b, p) == [pair] && Belongs(pair, |chains|, i)
    ensures ChainsHold(b, h, chains[i := chains[i] + [p]])
  {
    hide BucketOk, EntriesAt, Belongs;
    var longer := chains[i := chains[i] + [p]];
    forall j: nat, q: nat | j < |longer| && q in longer[j] ensures GoodBucket(b, h, |longer|, j, q) {
      if j != i || q in chains[i] {
        assert GoodBucket(a, h, |chains|, j, q) && q in PagesOf(chains);
      }
    }
  }

  lemma GrownPairs(a: Store, b: Store, pages: set<nat>, p: nat, pair: Pair)
    requires NoPairTwice(a, pages) && pair !in PairsOn(a, pages) && p !in pages
    requires EntriesAt(b, p) == [pair] && forall q: nat :: q in pages ==> EntriesAt(b, q) == EntriesAt(a, q)
    ensures NoPairTwice(b, pages + {p}) && PairsOn(b, pages + {p}) == PairsOn(a, pages) + {pair}
  {
    hide EntriesAt, PairsOn;
    forall q: nat, k: nat | q in pages && k < |EntriesAt(a, q)| ensures EntriesAt(a, q)[k] != pair {
      if EntriesAt(a, q)[k] == pair { PageHolds(a, pages, q, pair); }
    }
    forall x ensures x in PairsOn(b, pages + {p}) <==> x in PairsOn(a, pages) + {pair} {
      if x in PairsOn(a, pages) {
        var q: nat :| q in pages && x in EntriesAt(a, q);
        PageHolds(b, pages + {p}, q, x);
      }
      if x == pair {
        assert EntriesAt(b, p)[0] == pair;
        PageHolds(b, pages + {p}, p, x);
      }
      if x in PairsOn(b, pages + {p}) && x != pair {
        var q: nat :| q in pages + {p} && x in EntriesAt(b, q);
        PageHolds(a, pages, q, x);
      }
    }
  }

  lemma GrownRooms(a: Store, b: Store, chains: Chains, i: nat, p: nat)
    requires i < |chains| && SameEntriesOn(a, b, PagesOf(chains))
    ensures RoomIn(b, chains[i := chains[i] + [p]]) - {i} == RoomIn(a, chains) - {i}
  {
    hide EntriesAt, BucketOk;
    var longer := chains[i := chains[i] + [p]];
    forall j: nat | j < |chains| && j != i ensures HasRoom(b, longer[j]) == HasRoom(a, chains[j]) {
      assert longer[j] == chains[j];
      assert forall q: nat :: q in chains[j] ==> q in PagesOf(chains);
    }
  }

  /** A new page for bucket `i`, linked to its chain and holding just `pair`. */
  lemma GrowBucket(a: Store, b: Store, h: nat, chains: Chains, i: nat, p: nat, pair: Pair)
    requires IndexShape(a, h, chains) && i < |chains|
    requires p >= 1 && p !in a && p in b && BucketOk(b[p]) && EntriesAt(b, p) == [pair]
    requires pair !in PairsOn(a, PagesOf(chains)) && Belongs(pair, |chains|, i)
    requires GoodHeader(b, h) && ChainsLinked(b, h, chains[i := chains[i] + [p]])
    requires SameEntriesOn(a, b, PagesOf(chains))
    ensures IndexShape(b, h, chains[i := chains[i] + [p]])
    ensures PagesOf(chains[i := chains[i] + [p]]) == PagesOf(chains) + {p}
    ensures PairsOn(b, PagesOf(chains) + {p}) == PairsOn(a, PagesOf(chains)) + {pair}
    ensures RoomIn(b, chains[i := chains[i] + [p]]) - {i} == RoomIn(a, chains) - {i}
  {
    hide *;
    ShapeParts(a, h, chains);
    PagesAllocated(a, h, chains);
    EntriesOnPages(a, b, PagesOf(chains));
    LongerChains(chains, i, p);
    GrownHolds(a, b, h, chains, i, p, pair);
    GrownPairs(a, b, PagesOf(chains), p, pair);
    GrownRooms(a, b, chains, i, p);
    MakeShape(b, h, chains[i := chains[i] + [p]]);
  }

  lemma EntriesOnPages(a: Store, b: Store, pages: set<nat>)
    requires SameEntriesOn(a, b, pages)
    ensures forall q: nat :: q in pages ==> EntriesAt(b, q) == EntriesAt(a, q)
  {
    hide EntriesAt, BucketOk;
  }

  lemma PagesAllocated(store: Store, h: nat, chains: Chains)
    requires IndexShape(store, h, chains)
    ensures forall q: nat :: q in PagesOf(chains) ==> q in store && q >= 1 && q != h
    ensures h in store && h >= 1
  {
    hide BucketOk, AllBelong, NoPairTwice, ChainsLinked, HeaderOk;
    forall q: nat | q in PagesOf(chains) ensures q in store && q >= 1 && q != h {
      var i: nat :| i < |chains| && q in chains[i];
      assert GoodBucket(store, h, |chains|, i, q);
    }
  }

  /** An overflow page linked after the last page of a bucket. */
  lemma AppendOverflow(a: Store, b: Store, h: nat, chains: Chains, i: nat, p: nat, last: nat, pair: Pair)
    requires IndexShape(a, h, chains) && i < |chains| && chains[i] != [] && last == chains[i][|chains[i]| - 1]
    requires p >= 1 && p !in a && p in b && last in b && last in a && b == a[p := b[p]][last := b[last]]
    requires BucketOk(b[p]) && Entries(b[p]) == [pair] && Overflow(b[p]) == INVALID_PAGE_ID
    requires BucketOk(b[last]) && Entries(b[last]) == Entries(a[last]) && Overflow(b[last]) == p
    requires pair !in PairsOn(a, PagesOf(chains)) && Belongs(pair, |chains|, i)
    ensures IndexShape(b, h, chains[i := chains[i] + [p]])
    ensures PagesOf(chains[i := chains[i] + [p]]) == PagesOf(chains) + {p}
    ensures PairsOn(b, PagesOf(chains) + {p}) == PairsOn(a, PagesOf(chains)) + {pair}
    ensures RoomIn(b, chains[i := chains[i] + [p]]) - {i} == RoomIn(a, chains) - {i}
  {
    hide *;
    BucketOf(a, h, chains, i, last);
    PagesAllocated(a, h, chains);
    OverflowLinked(a, b, h, chains, i, p, last);
    OverflowEntries(a, b, h, chains, p, last);
    NewEntries(b, p, pair);
    GrowBucket(a, b, h, chains, i, p, pair);
  }

  lemma NewEntries(b: Store, p: nat, pair: Pair)
    requires p in b && Entries(b[p]) == [pair]
    ensures EntriesAt(b, p) == [pair]
  {
    hide Entries;
  }

  lemma OverflowLinked(a: Store, b: Store, h: nat, chains: Chains, i: nat, p: nat, last: nat)
    requires IndexShape(a, h, chains) && i < |chains| && chains[i] != [] && last == chains[i][|chains[i]| - 1]
    requires p !in a && p in b && last in b && last in a && last != h && b == a[p := b[p]][last := b[last]]
    requires Overflow(b[p]) == INVALID_PAGE_ID && Overflow(b[last]) == p
    requires forall q: nat :: q in PagesOf(chains) ==> q in a
    ensures GoodHeader(b, h) && ChainsLinked(b, h, chains[i := chains[i] + [p]])
  {
    hide Overflow, NoPairTwice, ChainsHold, HeaderOk;
    var longer := chains[i := chains[i] + [p]];
    assert DirectoryAt(b, h) == DirectoryAt(a, h);
    forall j: nat | j < |chains| ensures Linked(BucketLinks(b), DirectoryAt(b, h)[j], longer[j]) {
      assert forall q: nat :: q in chains[j] ==> q in PagesOf(chains);
      if j == i {
        LinkedAppend(BucketLinks(a), BucketLinks(b), DirectoryAt(a, h)[i], chains[i], p);
      } else {
        assert last in chains[i] && last !in chains[j];
        LinkedFrame(BucketLinks(a), BucketLinks(b), DirectoryAt(a, h)[j], chains[j]);
      }
    }
  }

  lemma OverflowEntries(a: Store, b: Store, h: nat, chains: Chains, p: nat, last: nat)
    requires IndexShape(a, h, chains)
    requires p !in a && p in b && last in b && last in a && b == a[p := b[p]][last := b[last]]
    requires BucketOk(b[last]) && Entries(b[last]) == Entries(a[last])
    requires forall q: nat :: q in PagesOf(chains) ==> q in a
    ensures SameEntriesOn(a, b, PagesOf(chains))
  {
    hide Entries, BucketOk, NoPairTwice, ChainsLinked, HeaderOk, AllBelong;
    forall q: nat | q in PagesOf(chains) ensures q in b && BucketOk(b[q]) && EntriesAt(b, q) == EntriesAt(a, q) {
      var j: nat :| j < |chains| && q in chains[j];
      assert GoodBucket(a, h, |chains|, j, q);
    }
  }

  /** The first page of a bucket, entered in the directory. */
  lemma StartBucket(a: Store, b: Store, h: nat, chains: Chains, i: nat, p: nat, pair: Pair)
    requires IndexShape(a, h, chains) && i < |chains| && chains[i] == []
    requires p >= 1 && p !in a && p in b && h in b && h in a && b == a[p := b[p]][h := b[h]]
    requires BucketOk(b[p]) && Entries(b[p]) == [pair] && Overflow(b[p]) == INVALID_PAGE_ID
    requires HeaderOk(b[h]) && MaxKeyLength(b[h]) == MaxKeyLength(a[h])
    requires i < |Directory(a[h])| && Directory(b[h]) == Directory(a[h])[i := p]
    requires pair !in PairsOn(a, PagesOf(chains)) && Belongs(pair, |chains|, i)
    ensures IndexShape(b, h, chains[i := chains[i] + [p]])
    ensures PagesOf(chains[i := chains[i] + [p]]) == PagesOf(chains) + {p}
    ensures PairsOn(b, PagesOf(chains) + {p}) == PairsOn(a, PagesOf(chains)) + {pair}
    ensures RoomIn(b, chains[i := chains[i] + [p]]) - {i} == RoomIn(a, chains) - {i}
  {
    hide *;
    PagesAllocated(a, h, chains);
    DirectoryLinked(a, b, h, chains, i, p);
    DirectoryEntries(a, b, h, chains, p);
    NewEntries(b, p, pair);
    GrowBucket(a, b, h, chains, i, p, pair);
  }

  lemma DirectoryLinked(a: Store, b: Store, h: nat, chains: Chains, i: nat, p: nat)
    requires IndexShape(a, h, chains) && i < |chains| && chains[i] == []
    requires p !in a && p in b && h in b && h in a && b == a[p := b[p]][h := b[h]]
    requires Overflow(b[p]) == INVALID_PAGE_ID
    requires HeaderOk(b[h]) && MaxKeyLength(b[h]) == MaxKeyLength(a[h])
    requires i < |Directory(a[h])| && Directory(b[h]) == Directory(a[h])[i := p]
    requires forall q: nat :: q in PagesOf(chains) ==> q in a && q != h
    ensures GoodHeader(b, h) && ChainsLinked(b, h, chains[i := chains[i] + [p]])
  {
    hide Overflow, NoPairTwice, ChainsHold, HeaderOk, Directory;
    var longer := chains[i := chains[i] + [p]];
    assert longer[i] == [p];
    forall j: nat | j < |chains| ensures Linked(BucketLinks(b), DirectoryAt(b, h)[j], longer[j]) {
      assert forall q: nat :: q in chains[j] ==> q in PagesOf(chains);
      if j != i {
        LinkedFrame(BucketLinks(a), BucketLinks(b), DirectoryAt(a, h)[j], chains[j]);
      }
    }
  }

  lemma DirectoryEntries(a: Store, b: Store, h: nat, chains: Chains, p: nat)
    requires IndexShape(a, h, chains)
    requires p !in a && p in b && h in b && h in a && b == a[p := b[p]][h := b[h]]
    requires forall q: nat :: q in PagesOf(chains) ==> q in a && q != h
    ensures SameEntriesOn(a, b, PagesOf(chains))
  {
    hide Entries, BucketOk, NoPairTwice, ChainsLinked, HeaderOk, AllBelong;
    forall q: nat | q in PagesOf(chains) ensures q in b && BucketOk(b[q]) && EntriesAt(b, q) == EntriesAt(a, q) {
      var j: nat :| j < |chains| && q in chains[j];
      assert GoodBucket(a, h, |chains|, j, q);
    }
  }

  // ---- Framing ----

  /** Pages of other owners do not matter to an index. */
  lemma IndexFrame(a: Store, b: Store, h: nat)
    requires IndexOk(a, h)
    requires forall p: nat :: p in IndexPages(a, h) && p in a ==> p in b && b[p] == a[p]
    ensures IndexOk(b, h) && IndexPairs(b, h) == IndexPairs(a, h) && IndexPages(b, h) == IndexPages(a, h)
    ensures Width(b, h) == Width(a, h) && Rooms(b, h) == Rooms(a, h)
  {
    hide *;
    var chains := ChainsFor(a, h);
    IndexChains(a, h);
    IndexIs(a, h, chains);
    PagesAllocated(a, h, chains);
    FrameShape(a, b, h, chains);
    FramePairs(a, b, h, chains);
    IndexIs(b, h, chains);
  }

  lemma IndexChains(store: Store, h: nat)
    requires IndexOk(store, h)
    ensures IndexShape(store, h, ChainsFor(store, h))
  {
    hide IndexShape;
  }

  lemma FramePairs(a: Store, b: Store, h: nat, chains: Chains)
    requires forall p: nat :: p in PagesOf(chains) + {h} ==> p in a && p in b && b[p] == a[p]
    ensures PairsOn(b, PagesOf(chains)) == PairsOn(a, PagesOf(chains)) && RoomIn(b, chains) == RoomIn(a, chains)
    ensures NoPairTwice(a, PagesOf(chains)) ==> NoPairTwice(b, PagesOf(chains))
  {
    hide Entries;
    assert forall p: nat :: p in PagesOf(chains) ==> EntriesAt(b, p) == EntriesAt(a, p);
    hide EntriesAt;
    assert forall pair: Pair :: OnSome(b, PagesOf(chains), pair) == OnSome(a, PagesOf(chains), pair);
    forall j: nat | j < |chains| ensures HasRoom(b, chains[j]) == HasRoom(a, chains[j]) {
      assert forall q: nat :: q in chains[j] ==> q in PagesOf(chains);
    }
  }

  lemma FrameShape(a: Store, b: Store, h: nat, chains: Chains)
    requires IndexShape(a, h, chains)
    requires forall p: nat :: p in PagesOf(chains) + {h} ==> p in a && p in b && b[p] == a[p]
    ensures IndexShape(b, h, chains)
  {
    FramePairs(a, b, h, chains);
    hide BucketOk, HeaderOk, Entries, NoPairTwice, Overflow, Directory, AllBelong;
    forall j: nat | j < |chains| ensures Linked(BucketLinks(b), DirectoryAt(b, h)[j], chains[j]) {
      assert forall q: nat :: q in chains[j] ==> q in PagesOf(chains);
      LinkedFrame(BucketLinks(a), BucketLinks(b), DirectoryAt(a, h)[j], chains[j]);
    }
    forall j: nat, q: nat | j < |chains| && q in chains[j] ensures GoodBucket(b, h, |chains|, j, q) {
      assert GoodBucket(a, h, |chains|, j, q) && q in PagesOf(chains);
    }
  }
}
