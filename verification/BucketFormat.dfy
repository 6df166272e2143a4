// The layout of a bucket page of a hash index: a header and an array of entries of
// fixed size (docs/file_format.md, section 4).
module BucketFormat {
  import opened Common
  import opened ByteFormat

  const BUCKET_MAGIC: nat := 0x314B4248
  const ENTRY_CAPACITY: nat := 53
  const MAX_KEY_LENGTH: nat := 64
  const ENTRY_COUNT_OFFSET: nat := 4
  const CAPACITY_OFFSET: nat := 6
  const OVERFLOW_PAGE_ID_OFFSET: nat := 8

  /** A key and a record that has it. */
  datatype Pair = Pair(key: Bytes, rid: RecordID)

  function EntryOffset(i: nat): nat {
    16 + 76 * i
  }

  /** The bytes of one entry. */
  function EntryBytes(pair: Pair): (e: Bytes)
    ensures |e| == 76
  {
    if |pair.key| > MAX_KEY_LENGTH then Zeros(76)
    else U16(|pair.key|) + [0, 0] + pair.key + Zeros(64 - |pair.key|) + I32(pair.rid.pageId) + U16(pair.rid.slotId) + [0, 0]
  }

  function KeyLength(e: Bytes): nat {
    GetU16(e, 0)
  }

  function DecodeEntry(e: Bytes): Pair {
    Pair(Slice(e, 4, KeyLength(e)), RecordID(GetI32(e, 68), GetU16(e, 72)))
  }

  function EntryAt(b: Bytes, i: nat): Bytes {
    Slice(b, EntryOffset(i), 76)
  }

  function Count(b: Bytes): nat {
    GetU16(b, ENTRY_COUNT_OFFSET)
  }

  function Overflow(b: Bytes): int {
    GetI32(b, OVERFLOW_PAGE_ID_OFFSET)
  }

  /** The first `n` entries. */
  function Decoded(b: Bytes, n: nat): (pairs: seq<Pair>)
    ensures |pairs| == n
    ensures forall i: nat :: i < n ==> pairs[i] == DecodeEntry(EntryAt(b, i))
  {
    seq(n, (i: nat) => DecodeEntry(EntryAt(b, i)))
  }

  function Entries(b: Bytes): seq<Pair> {
    Decoded(b, Count(b))
  }

  predicate LengthsOk(b: Bytes, n: nat) {
    forall i: nat :: i < n ==> KeyLength(EntryAt(b, i)) <= MAX_KEY_LENGTH
  }

  predicate BucketInitialized(b: Bytes) {
    GetU32(b, 0) == BUCKET_MAGIC && GetU16(b, CAPACITY_OFFSET) == ENTRY_CAPACITY && Count(b) <= ENTRY_CAPACITY
  }

  /** What every bucket page of an index satisfies. */
  predicate BucketOk(b: Bytes) {
    |b| == PAGE_SIZE && BucketInitialized(b) && LengthsOk(b, Count(b))
  }

  /** What can be stored: the ranges of the fields, and a page that can hold records. */
  predicate Storable(pair: Pair) {
    |pair.key| <= MAX_KEY_LENGTH && 0 < pair.rid.pageId < 0x8000_0000 && pair.rid.slotId < 0x1_0000
  }

  /** Reading back what was stored. */
  lemma DecodeEntryBytes(pair: Pair)
    requires Storable(pair)
    ensures DecodeEntry(EntryBytes(pair)) == pair && KeyLength(EntryBytes(pair)) == |pair.key|
  {
    var e := EntryBytes(pair);
    var front := U16(|pair.key|) + [0, 0] + pair.key + Zeros(64 - |pair.key|);
    assert e[0..2] == U16(|pair.key|) && e[4..4 + |pair.key|] == pair.key;
    assert |front| == 68 && e[68..72] == I32(pair.rid.pageId) && e[72..74] == U16(pair.rid.slotId);
    hide EntryBytes, I32, U16;
    FieldU16(e, 0, |pair.key|);
    FieldU16(e, 72, pair.rid.slotId);
    FieldI32(e, 68, pair.rid.pageId);
  }

  lemma FieldU16(b: Bytes, off: nat, v: nat)
    requires off + 2 <= |b| && b[off..off + 2] == U16(v) && v < 0x1_0000
    ensures GetU16(b, off) == v
  {
    assert b[off] == b[off..off + 2][0] && b[off + 1] == b[off..off + 2][1];
  }

  lemma FieldI32(b: Bytes, off: nat, v: int)
    requires off + 4 <= |b| && b[off..off + 4] == I32(v) && IsInt32(v)
    ensures GetI32(b, off) == v
  {
    assert b == Put(b, off, I32(v)) by {
      forall x | 0 <= x < |b| ensures b[x] == Put(b, off, I32(v))[x] {
        if off <= x < off + 4 { assert b[x] == b[off..off + 4][x - off]; }
      }
    }
    hide GetI32, I32;
    GetPutI32(b, off, v);
  }

  // ---- What writing one field does to the rest of the page ----

  lemma SameHeader(b: Bytes, c: Bytes)
    requires |c| == |b| == PAGE_SIZE && forall x: nat :: x < 16 ==> c[x] == b[x]
    ensures Count(c) == Count(b) && Overflow(c) == Overflow(b) && BucketInitialized(c) == BucketInitialized(b)
  {
    SameU16(c, b, ENTRY_COUNT_OFFSET);
    SameU16(c, b, CAPACITY_OFFSET);
    SameI32(c, b, OVERFLOW_PAGE_ID_OFFSET);
    SameU32(c, b, 0);
    hide GetU16, GetI32, GetU32;
  }

  lemma PutEntryAt(b: Bytes, i: nat, e: Bytes, j: nat)
    requires |b| == PAGE_SIZE && |e| == 76 && i < ENTRY_CAPACITY && j < ENTRY_CAPACITY
    ensures EntryAt(Put(b, EntryOffset(i), e), j) == if i == j then e else EntryAt(b, j)
  {
    var c := Put(b, EntryOffset(i), e);
    if i == j {
      assert c[EntryOffset(i)..EntryOffset(i) + 76] == e;
    } else {
      assert c[EntryOffset(j)..EntryOffset(j) + 76] == b[EntryOffset(j)..EntryOffset(j) + 76];
    }
  }

  /** Writing entry `i` changes that entry and nothing else. */
  lemma PutEntry(b: Bytes, i: nat, e: Bytes, n: nat)
    requires |b| == PAGE_SIZE && |e| == 76 && i < ENTRY_CAPACITY && n <= ENTRY_CAPACITY
    ensures Decoded(Put(b, EntryOffset(i), e), n) == if i < n then Decoded(b, n)[i := DecodeEntry(e)] else Decoded(b, n)
    ensures LengthsOk(b, n) && (i < n ==> KeyLength(e) <= MAX_KEY_LENGTH) ==> LengthsOk(Put(b, EntryOffset(i), e), n)
    ensures Count(Put(b, EntryOffset(i), e)) == Count(b) && Overflow(Put(b, EntryOffset(i), e)) == Overflow(b)
    ensures BucketInitialized(Put(b, EntryOffset(i), e)) == BucketInitialized(b)
  {
    SameHeader(b, Put(b, EntryOffset(i), e));
    hide EntryAt, DecodeEntry, KeyLength, Count, Overflow, BucketInitialized, Put;
    forall j: nat | j < n ensures EntryAt(Put(b, EntryOffset(i), e), j) == if i == j then e else EntryAt(b, j) {
      PutEntryAt(b, i, e, j);
    }
  }

  lemma SameEntries(b: Bytes, c: Bytes, n: nat)
    requires |c| == |b| == PAGE_SIZE && n <= ENTRY_CAPACITY && forall x: nat :: 16 <= x < PAGE_SIZE ==> c[x] == b[x]
    ensures Decoded(c, n) == Decoded(b, n) && LengthsOk(c, n) == LengthsOk(b, n)
  {
    forall j: nat | j < n ensures EntryAt(c, j) == EntryAt(b, j) {
      assert c[EntryOffset(j)..EntryOffset(j) + 76] == b[EntryOffset(j)..EntryOffset(j) + 76];
    }
    hide EntryAt, DecodeEntry, KeyLength;
  }

  lemma PutCount(b: Bytes, n: nat, k: nat)
    requires |b| == PAGE_SIZE && n <= ENTRY_CAPACITY && k <= ENTRY_CAPACITY && BucketInitialized(b)
    ensures Count(Put(b, 4, U16(n))) == n && Overflow(Put(b, 4, U16(n))) == Overflow(b)
    ensures BucketInitialized(Put(b, 4, U16(n)))
    ensures Decoded(Put(b, 4, U16(n)), k) == Decoded(b, k) && LengthsOk(Put(b, 4, U16(n)), k) == LengthsOk(b, k)
  {
    hide *;
    var c := Put(b, 4, U16(n));
    CountIsStored(b, n);
    PutCountElsewhere(b, n);
    SameEntries(b, c, k);
  }

  lemma CountIsStored(b: Bytes, n: nat)
    requires |b| == PAGE_SIZE && n <= ENTRY_CAPACITY && BucketInitialized(b)
    ensures Count(Put(b, 4, U16(n))) == n && Overflow(Put(b, 4, U16(n))) == Overflow(b) && BucketInitialized(Put(b, 4, U16(n)))
  {
    var c := Put(b, 4, U16(n));
    GetPutU16(b, 4, n);
    SameU16(c, b, CAPACITY_OFFSET);
    SameI32(c, b, OVERFLOW_PAGE_ID_OFFSET);
    SameU32(c, b, 0);
    hide GetU16, GetI32, GetU32, U16;
  }

  lemma PutCountElsewhere(b: Bytes, n: nat)
    requires |b| == PAGE_SIZE
    ensures forall x: nat :: 16 <= x < PAGE_SIZE ==> Put(b, 4, U16(n))[x] == b[x]
  {
    hide U16;
  }

  lemma PutOverflow(b: Bytes, next: int)
    requires |b| == PAGE_SIZE && IsInt32(next) && BucketInitialized(b)
    ensures Count(Put(b, 8, I32(next))) == Count(b) && Overflow(Put(b, 8, I32(next))) == next
    ensures BucketInitialized(Put(b, 8, I32(next)))
    ensures Entries(Put(b, 8, I32(next))) == Entries(b)
    ensures BucketOk(b) ==> BucketOk(Put(b, 8, I32(next)))
  {
    var c := Put(b, 8, I32(next));
    GetPutI32(b, 8, next);
    SameU16(c, b, CAPACITY_OFFSET);
    SameU16(c, b, ENTRY_COUNT_OFFSET);
    SameU32(c, b, 0);
    SameEntries(b, c, Count(b));
    hide Decoded, LengthsOk, GetU16, GetI32, GetU32, I32;
  }

  /** The bytes of a freshly formatted bucket. */
  function EmptyBucket(): Bytes {
    Put(Put(Put(Put(Put(Zeros(PAGE_SIZE), 0, U32(BUCKET_MAGIC)), 4, U16(0)), 6, U16(ENTRY_CAPACITY)), 8, I32(INVALID_PAGE_ID)), 12, U32(0))
  }

  lemma EmptyBucketIs()
    ensures EmptyBucket() == Put(Put(Put(Put(Put(Zeros(PAGE_SIZE), 0, U32(BUCKET_MAGIC)), ENTRY_COUNT_OFFSET, U16(0)),
                                         CAPACITY_OFFSET, U16(ENTRY_CAPACITY)), OVERFLOW_PAGE_ID_OFFSET, I32(INVALID_PAGE_ID)), 12, U32(0))
    ensures ENTRY_COUNT_OFFSET == 4 && CAPACITY_OFFSET == 6 && OVERFLOW_PAGE_ID_OFFSET == 8 && PAGE_SIZE == 4096
  {
    hide Put, U16, U32, I32, Zeros;
  }

  lemma EmptyBucketIsOk()
    ensures BucketOk(EmptyBucket()) && Entries(EmptyBucket()) == [] && Overflow(EmptyBucket()) == INVALID_PAGE_ID
  {
    var z := Zeros(PAGE_SIZE);
    var b1 := Put(z, 0, U32(BUCKET_MAGIC));
    var b2 := Put(b1, 4, U16(0));
    var b3 := Put(b2, 6, U16(ENTRY_CAPACITY));
    var b4 := Put(b3, 8, I32(INVALID_PAGE_ID));
    var b5 := EmptyBucket();
    GetPutU32(z, 0, BUCKET_MAGIC);
    GetPutU16(b1, 4, 0);
    GetPutU16(b2, 6, ENTRY_CAPACITY);
    GetPutI32(b3, 8, INVALID_PAGE_ID);
    hide GetU16, GetI32, GetU32, U16, I32, U32;
    SameU32(b5, b1, 0);
    SameU16(b5, b2, 4);
    SameU16(b5, b3, 6);
    SameI32(b5, b4, 8);
  }

  lemma EntryFits(i: nat)
    requires i < ENTRY_CAPACITY
    ensures EntryOffset(i) + 76 <= PAGE_SIZE && MAX_KEY_LENGTH == 64 && PAGE_SIZE == 4096
  {
  }

  /** The entry written in pieces, as WriteEntry does it. */
  lemma EntryWritten(b: Bytes, i: nat, pair: Pair)
    requires |b| == PAGE_SIZE && i < ENTRY_CAPACITY && |pair.key| <= MAX_KEY_LENGTH
    ensures Put(Put(Put(Put(Put(b, EntryOffset(i), Zeros(76)), EntryOffset(i), U16(|pair.key|)), EntryOffset(i) + 4, pair.key),
                    EntryOffset(i) + 68, I32(pair.rid.pageId)), EntryOffset(i) + 72, U16(pair.rid.slotId))
         == Put(b, EntryOffset(i), EntryBytes(pair))
  {
    hide *;
    EntryFits(i);
    EntryBytesParts(pair);
    var off, e := EntryOffset(i), EntryBytes(pair);
    var b0 := Put(b, off, Zeros(76));
    var b1 := Put(b0, off, U16(|pair.key|));
    var b2 := Put(b1, off + 4, pair.key);
    var b3 := Put(b2, off + 68, I32(pair.rid.pageId));
    var b4 := Put(b3, off + 72, U16(pair.rid.slotId));
    forall x: nat | x < PAGE_SIZE ensures b4[x] == Put(b, off, e)[x] {
      PutAt(b, off, Zeros(76), x);
      PutAt(b0, off, U16(|pair.key|), x);
      PutAt(b1, off + 4, pair.key, x);
      PutAt(b2, off + 68, I32(pair.rid.pageId), x);
      PutAt(b3, off + 72, U16(pair.rid.slotId), x);
      PutAt(b, off, e, x);
    }
  }

  lemma EntryBytesParts(pair: Pair)
    requires |pair.key| <= MAX_KEY_LENGTH
    ensures MAX_KEY_LENGTH == 64
    ensures EntryBytes(pair) == U16(|pair.key|) + [0, 0] + pair.key + Zeros(64 - |pair.key|)
                              + I32(pair.rid.pageId) + U16(pair.rid.slotId) + [0, 0]
  {
    hide U16, I32;
  }

  // ---- What the operations do to the entries ----

  predicate Matches(pair: Pair, key: Bytes, value: Option<RecordID>) {
    pair.key == key && (value.Some? ==> pair.rid == value.value)
  }

  /** The entries without the one at `i`, whose place the last one takes. */
  function WithoutAt(s: seq<Pair>, i: nat): seq<Pair>
    requires i < |s|
  {
    if i == |s| - 1 then s[..i] else s[..|s| - 1][i := s[|s| - 1]]
  }

  /** The entries that remain when the matching ones from position `i` on are removed:
      the first one if a value is given, and all of them otherwise. */
  function Removed(s: seq<Pair>, i: nat, key: Bytes, value: Option<RecordID>): seq<Pair>
    decreases |s| - i
  {
    if i >= |s| then s
    else if !Matches(s[i], key, value) then Removed(s, i + 1, key, value)
    else if value.Some? then WithoutAt(s, i)
    else Removed(WithoutAt(s, i), i, key, value)
  }

  function ValuesOf(s: seq<Pair>, key: Bytes): seq<RecordID> {
    if s == [] then []
    else ValuesOf(s[..|s| - 1], key) + if s[|s| - 1].key == key then [s[|s| - 1].rid] else []
  }

  ghost predicate NoDuplicates(s: seq<Pair>) {
    forall i: nat, j: nat :: i < j < |s| ==> s[i] != s[j]
  }

  /** What inserting a pair into a bucket page must do. */
  ghost predicate BucketInsertDone(b: Bytes, c: Bytes, pair: Pair, status: StatusCode, inserted: bool) {
    && (!inserted ==> c == b)
    && (BucketOk(b) && Storable(pair) ==>
          if pair in Entries(b) then status == OK && !inserted
          else if |Entries(b)| >= ENTRY_CAPACITY then status == OUT_OF_MEMORY && !inserted
          else
            && status == OK && inserted
            && BucketOk(c) && Entries(c) == Entries(b) + [pair] && Overflow(c) == Overflow(b))
  }

  /** All that a bucket page stores can be stored. */
  ghost predicate RemoveFits(b: Bytes, key: Bytes) {
    BucketOk(b) && |key| <= MAX_KEY_LENGTH && AllStorable(Entries(b))
  }

  ghost predicate AllStorable(s: seq<Pair>) {
    forall i: nat :: i < |s| ==> Storable(s[i])
  }

  lemma RemoveFitsParts(b: Bytes, key: Bytes)
    ensures RemoveFits(b, key) ==> |key| <= MAX_KEY_LENGTH && BucketInitialized(b)
  {
    hide BucketInitialized;
  }

  /** What removing from a bucket page must do. */
  ghost predicate BucketRemoveDone(b: Bytes, c: Bytes, key: Bytes, value: Option<RecordID>, status: StatusCode, removed: nat) {
    RemoveFits(b, key) ==>
      && BucketOk(c) && Overflow(c) == Overflow(b)
      && Entries(c) == Removed(Entries(b), 0, key, value)
      && |Entries(c)| + removed == |Entries(b)|
      && status == (if removed == 0 then NOT_FOUND else OK)
      && (removed == 0 ==> c == b)
  }

  // ---- Reading a bucket ----

  lemma BucketParts(b: Bytes)
    ensures BucketInitialized(b) ==> Count(b) <= ENTRY_CAPACITY
    ensures ENTRY_CAPACITY == 53 && MAX_KEY_LENGTH == 64 && PAGE_SIZE == 4096
    ensures BucketOk(b) ==> |b| == PAGE_SIZE && BucketInitialized(b) && |Entries(b)| == Count(b)
    ensures BucketOk(b) ==> forall i: nat :: i < Count(b) ==> KeyLength(EntryAt(b, i)) <= MAX_KEY_LENGTH
    ensures BucketOk(b) ==> forall i: nat :: i < Count(b) ==> Entries(b)[i] == DecodeEntry(EntryAt(b, i))
    ensures |b| == PAGE_SIZE && BucketInitialized(b) && (forall i: nat :: i < Count(b) ==> KeyLength(EntryAt(b, i)) <= MAX_KEY_LENGTH) ==> BucketOk(b)
    ensures ENTRY_COUNT_OFFSET == 4
  {
    hide EntryAt, KeyLength, DecodeEntry, Count;
  }

  lemma BucketSizes(b: Bytes)
    ensures BucketInitialized(b) ==> Count(b) <= ENTRY_CAPACITY
    ensures ENTRY_CAPACITY == 53 && MAX_KEY_LENGTH == 64 && PAGE_SIZE == 4096 && ENTRY_COUNT_OFFSET == 4
    ensures BucketOk(b) ==> |b| == PAGE_SIZE && BucketInitialized(b) && |Entries(b)| == Count(b)
  {
    hide EntryAt, KeyLength, DecodeEntry, Count;
  }

  /** The first `k` entries can be read. */
  ghost predicate ShortUpTo(b: Bytes, k: nat) {
    forall i: nat :: i < k ==> KeyLength(EntryAt(b, i)) <= MAX_KEY_LENGTH
  }

  lemma ShortStart(b: Bytes)
    ensures ShortUpTo(b, 0)
  {
  }

  lemma ShortStep(b: Bytes, k: nat)
    requires ShortUpTo(b, k) && KeyLength(EntryAt(b, k)) <= MAX_KEY_LENGTH
    ensures ShortUpTo(b, k + 1)
  {
    hide KeyLength, EntryAt;
  }

  lemma ShortIsOk(b: Bytes)
    requires |b| == PAGE_SIZE && BucketInitialized(b) && ShortUpTo(b, Count(b))
    ensures BucketOk(b)
  {
    BucketParts(b);
    hide KeyLength, EntryAt, BucketOk, Count;
  }

  lemma StorableParts(pair: Pair)
    ensures Storable(pair) <==> |pair.key| <= MAX_KEY_LENGTH && 0 < pair.rid.pageId < 0x8000_0000 && pair.rid.slotId < 0x1_0000
  {
  }

  lemma MakeRefused(b: Bytes, pair: Pair, status: StatusCode)
    requires !BucketOk(b) || !Storable(pair)
    ensures BucketInsertDone(b, b, pair, status, false)
  {
    hide BucketOk, Storable, Entries;
  }

  lemma MakePresent(b: Bytes, pair: Pair, i: nat)
    requires BucketOk(b) ==> i < |Entries(b)| && Entries(b)[i] == pair
    ensures BucketInsertDone(b, b, pair, OK, false)
  {
    hide BucketOk, Storable, Entries;
  }

  lemma MakeFull(b: Bytes, pair: Pair)
    requires BucketOk(b) ==> pair !in Entries(b) && |Entries(b)| >= ENTRY_CAPACITY
    ensures BucketInsertDone(b, b, pair, OUT_OF_MEMORY, false)
  {
    hide BucketOk, Storable, Entries;
  }

  lemma NotPresent(b: Bytes, pair: Pair, n: nat)
    requires n == Count(b) && forall j: nat :: j < n ==> DecodeEntry(EntryAt(b, j)) != pair
    ensures pair !in Entries(b) && |Entries(b)| == n
  {
    hide EntryAt, DecodeEntry, Count;
  }

  /** Writing one more entry and counting it. */
  lemma AppendEntry(b: Bytes, pair: Pair)
    requires |b| == PAGE_SIZE && BucketInitialized(b) && Count(b) < ENTRY_CAPACITY && pair !in Entries(b)
    ensures BucketInsertDone(b, Put(Put(b, EntryOffset(Count(b)), EntryBytes(pair)), 4, U16(Count(b) + 1)), pair, OK, true)
  {
    var n := Count(b);
    var m := Put(b, EntryOffset(n), EntryBytes(pair));
    var c := Put(m, 4, U16(n + 1));
    PutEntry(b, n, EntryBytes(pair), n);
    PutEntryAt(b, n, EntryBytes(pair), n);
    PutCount(m, n + 1, n + 1);
    if BucketOk(b) && Storable(pair) {
      DecodeEntryBytes(pair);
      assert LengthsOk(b, n);
      hide EntryBytes, Put, KeyLength, EntryAt, DecodeEntry, Overflow, BucketInitialized, Count;
      assert LengthsOk(m, n + 1);
      hide LengthsOk;
      assert Decoded(m, n + 1) == Decoded(b, n) + [pair];
    }
  }

  /** `extended` is `result` with the records that the first `i` entries give for `key`. */
  ghost predicate Gathered(b: Bytes, key: Bytes, result: seq<RecordID>, extended: seq<RecordID>, i: nat, found: bool) {
    BucketOk(b) ==>
      && i <= |Entries(b)|
      && extended == result + ValuesOf(Entries(b)[..i], key)
      && (found <==> ValuesOf(Entries(b)[..i], key) != [])
  }

  lemma GatherStart(b: Bytes, key: Bytes, result: seq<RecordID>)
    ensures Gathered(b, key, result, result, 0, false)
  {
    hide Entries, BucketOk;
  }

  lemma GatherStep(b: Bytes, key: Bytes, result: seq<RecordID>, extended: seq<RecordID>, i: nat, found: bool, pair: Pair)
    requires Gathered(b, key, result, extended, i, found)
    requires BucketOk(b) ==> i < |Entries(b)| && Entries(b)[i] == pair
    ensures if pair.key == key then Gathered(b, key, result, extended + [pair.rid], i + 1, true)
            else Gathered(b, key, result, extended, i + 1, found)
  {
    hide Entries, BucketOk;
    if BucketOk(b) {
      assert Entries(b)[..i + 1][..i] == Entries(b)[..i];
    }
  }

  lemma GatherEnd(b: Bytes, key: Bytes, result: seq<RecordID>, extended: seq<RecordID>, i: nat, found: bool)
    requires Gathered(b, key, result, extended, i, found)
    requires BucketOk(b) ==> i == |Entries(b)|
    ensures BucketOk(b) ==> extended == result + ValuesOf(Entries(b), key) && (found <==> ValuesOf(Entries(b), key) != [])
  {
    hide BucketOk, Entries, ValuesOf;
    assert BucketOk(b) ==> Entries(b)[..i] == Entries(b);
  }

  // ---- Removing from a bucket ----

  /** Entry `i` has been dropped and the last entry moved into its place. */
  function Dropped(b: Bytes, i: nat, last: nat): Bytes {
    Put(if i != last then Put(b, EntryOffset(i), EntryBytes(DecodeEntry(EntryAt(b, last)))) else b, EntryOffset(last), Zeros(76))
  }

  lemma DroppedParts(b: Bytes, i: nat, last: nat)
    ensures |DecodeEntry(EntryAt(b, last)).key| <= KeyLength(EntryAt(b, last))
    ensures Dropped(b, i, last)
         == Put(if i != last then Put(b, EntryOffset(i), EntryBytes(DecodeEntry(EntryAt(b, last)))) else b, EntryOffset(last), Zeros(76))
  {
  }

  ghost predicate RemoveHeader(b: Bytes, c: Bytes) {
    |c| == PAGE_SIZE && Count(c) == Count(b) && Overflow(c) == Overflow(b) && BucketInitialized(c)
  }

  /** What the loop of Remove keeps: the entries that are left, with what remains to be
      removed from them, are what removing from the original ones gives. */
  ghost predicate RemoveInvariant(b: Bytes, c: Bytes, key: Bytes, value: Option<RecordID>, i: nat, n: nat, done: bool) {
    && n <= ENTRY_CAPACITY && LengthsOk(c, n) && AllStorable(Decoded(c, n))
    && Removed(Entries(b), 0, key, value) == if done then Decoded(c, n) else Removed(Decoded(c, n), i, key, value)
  }

  /** The state of the loop of Remove: `n` of the entries are left and `removed` are gone. */
  ghost predicate Removing(b: Bytes, c: Bytes, key: Bytes, value: Option<RecordID>, i: nat, n: nat, removed: nat, done: bool) {
    && RemoveHeader(b, c) && n + removed == Count(b) && (done ==> removed > 0) && (removed == 0 ==> c == b)
    && (RemoveFits(b, key) ==> RemoveInvariant(b, c, key, value, i, n, done))
  }

  lemma RemoveStart(b: Bytes, key: Bytes, value: Option<RecordID>)
    requires |b| == PAGE_SIZE && BucketInitialized(b)
    ensures Removing(b, b, key, value, 0, Count(b), 0, false)
  {
    hide Removed, Count, Overflow, Storable;
  }

  lemma RemoveRefused(b: Bytes, c: Bytes, key: Bytes, value: Option<RecordID>, status: StatusCode, removed: nat)
    requires !RemoveFits(b, key)
    ensures BucketRemoveDone(b, c, key, value, status, removed)
  {
    hide RemoveFits;
  }

  lemma DroppedHeader(b: Bytes, c: Bytes, i: nat, last: nat)
    requires RemoveHeader(b, c) && i <= last < Count(c)
    ensures RemoveHeader(b, Dropped(c, i, last))
  {
    var e := EntryBytes(DecodeEntry(EntryAt(c, last)));
    PutEntry(c, i, e, 0);
    PutEntry(if i != last then Put(c, EntryOffset(i), e) else c, last, Zeros(76), 0);
    hide Put, EntryBytes, DecodeEntry, EntryAt, Count, Overflow, BucketInitialized;
  }

  /** The entries that are left when entry `i` has been dropped. */
  lemma DroppedEntries(c: Bytes, i: nat, last: nat)
    requires |c| == PAGE_SIZE && i <= last < ENTRY_CAPACITY && LengthsOk(c, last + 1) && AllStorable(Decoded(c, last + 1))
    ensures Decoded(Dropped(c, i, last), last) == WithoutAt(Decoded(c, last + 1), i)
    ensures LengthsOk(Dropped(c, i, last), last)
  {
    hide *;
    var moved := DecodeEntry(EntryAt(c, last));
    var e := EntryBytes(moved);
    LastIsStorable(c, last);
    DecodeEntryBytes(moved);
    StorableParts(moved);
    DroppedParts(c, i, last);
    FewerLengths(c, last);
    PutEntry(c, i, e, last);
    PutEntry(if i != last then Put(c, EntryOffset(i), e) else c, last, Zeros(76), last);
    WithoutAtIs(Decoded(c, last + 1), i);
    assert Decoded(c, last + 1)[..last] == Decoded(c, last);
  }

  lemma LastIsStorable(c: Bytes, last: nat)
    requires AllStorable(Decoded(c, last + 1))
    ensures Storable(DecodeEntry(EntryAt(c, last))) && Decoded(c, last + 1)[last] == DecodeEntry(EntryAt(c, last))
  {
    assert Storable(Decoded(c, last + 1)[last]);
    hide Storable, DecodeEntry, EntryAt;
  }

  lemma FewerLengths(c: Bytes, last: nat)
    requires LengthsOk(c, last + 1)
    ensures LengthsOk(c, last)
  {
    hide KeyLength, EntryAt;
  }

  lemma WithoutAtIs(s: seq<Pair>, i: nat)
    requires i < |s|
    ensures WithoutAt(s, i) == if i == |s| - 1 then s[..i] else s[..|s| - 1][i := s[|s| - 1]]
  {
  }

  lemma WithoutAtStorable(s: seq<Pair>, i: nat)
    requires AllStorable(s) && i < |s|
    ensures AllStorable(WithoutAt(s, i)) && |WithoutAt(s, i)| == |s| - 1
  {
    hide Storable;
  }

  lemma RemoveSkip(b: Bytes, c: Bytes, key: Bytes, value: Option<RecordID>, i: nat, n: nat)
    requires i < n && RemoveInvariant(b, c, key, value, i, n, false)
    ensures KeyLength(EntryAt(c, i)) <= MAX_KEY_LENGTH && KeyLength(EntryAt(c, n - 1)) <= MAX_KEY_LENGTH
    ensures !Matches(DecodeEntry(EntryAt(c, i)), key, value) ==> RemoveInvariant(b, c, key, value, i + 1, n, false)
  {
    assert Decoded(c, n)[i] == DecodeEntry(EntryAt(c, i));
    hide DecodeEntry, EntryAt, KeyLength, Entries, Storable, WithoutAt, Matches;
  }

  lemma RemoveTake(b: Bytes, c: Bytes, key: Bytes, value: Option<RecordID>, i: nat, n: nat)
    requires |c| == PAGE_SIZE && i < n && RemoveInvariant(b, c, key, value, i, n, false)
    requires Matches(DecodeEntry(EntryAt(c, i)), key, value)
    ensures RemoveInvariant(b, Dropped(c, i, n - 1), key, value, i, n - 1, value.Some?)
  {
    hide *;
    var s := Decoded(c, n);
    RemoveInvariantParts(b, c, key, value, i, n);
    DroppedEntries(c, i, n - 1);
    WithoutAtStorable(s, i);
    RemovedOne(s, i, key, value);
    MakeRemoveInvariant(b, Dropped(c, i, n - 1), key, value, i, n - 1);
  }

  lemma RemoveInvariantParts(b: Bytes, c: Bytes, key: Bytes, value: Option<RecordID>, i: nat, n: nat)
    requires RemoveInvariant(b, c, key, value, i, n, false)
    ensures n <= ENTRY_CAPACITY && LengthsOk(c, n) && AllStorable(Decoded(c, n))
    ensures Removed(Entries(b), 0, key, value) == Removed(Decoded(c, n), i, key, value)
  {
    hide LengthsOk, AllStorable, Decoded, Removed, Entries;
  }

  lemma RemovedOne(s: seq<Pair>, i: nat, key: Bytes, value: Option<RecordID>)
    requires i < |s| && Matches(s[i], key, value)
    ensures Removed(s, i, key, value) == if value.Some? then WithoutAt(s, i) else Removed(WithoutAt(s, i), i, key, value)
  {
    hide WithoutAt, Matches;
  }

  lemma MakeRemoveInvariant(b: Bytes, c: Bytes, key: Bytes, value: Option<RecordID>, i: nat, n: nat)
    requires n <= ENTRY_CAPACITY && LengthsOk(c, n) && AllStorable(Decoded(c, n))
    requires Removed(Entries(b), 0, key, value) == if value.Some? then Decoded(c, n) else Removed(Decoded(c, n), i, key, value)
    ensures RemoveInvariant(b, c, key, value, i, n, value.Some?)
  {
    hide LengthsOk, AllStorable, Decoded, Removed, Entries;
  }

  lemma RemoveIteration(b: Bytes, c: Bytes, key: Bytes, value: Option<RecordID>, i: nat, n: nat, removed: nat)
    requires Removing(b, c, key, value, i, n, removed, false) && i < n
    ensures |c| == PAGE_SIZE && BucketInitialized(c) && n <= Count(c)
    ensures RemoveFits(b, key) ==> KeyLength(EntryAt(c, i)) <= MAX_KEY_LENGTH && KeyLength(EntryAt(c, n - 1)) <= MAX_KEY_LENGTH
    ensures !Matches(DecodeEntry(EntryAt(c, i)), key, value) ==> Removing(b, c, key, value, i + 1, n, removed, false)
    ensures Matches(DecodeEntry(EntryAt(c, i)), key, value) ==>
              Removing(b, Dropped(c, i, n - 1), key, value, i, n - 1, removed + 1, value.Some?)
  {
    DroppedHeader(b, c, i, n - 1);
    hide RemoveFits, RemoveInvariant, Dropped, DecodeEntry, KeyLength, EntryAt, Matches, Count, Overflow, BucketInitialized;
    if RemoveFits(b, key) {
      RemoveSkip(b, c, key, value, i, n);
      if Matches(DecodeEntry(EntryAt(c, i)), key, value) {
        RemoveTake(b, c, key, value, i, n);
      }
    }
  }

  /** What dropping the matching entries does before the new count is stored. */
  ghost predicate Dropping(b: Bytes, c: Bytes, key: Bytes, value: Option<RecordID>, status: StatusCode, n: nat, removed: nat) {
    if status == OK then
      exists i: nat, done: bool :: Removing(b, c, key, value, i, n, removed, done) && (i >= n || done)
    else
      !RemoveFits(b, key)
  }

  lemma DroppingDone(b: Bytes, c: Bytes, key: Bytes, value: Option<RecordID>, i: nat, n: nat, removed: nat, done: bool)
    requires Removing(b, c, key, value, i, n, removed, done) && (i >= n || done)
    ensures Dropping(b, c, key, value, OK, n, removed)
  {
    hide Removing;
  }

  lemma DroppingFailed(b: Bytes, c: Bytes, key: Bytes, value: Option<RecordID>, status: StatusCode, n: nat, removed: nat)
    requires !RemoveFits(b, key) && status != OK
    ensures Dropping(b, c, key, value, status, n, removed)
  {
    hide RemoveFits;
  }

  lemma DroppingOutcome(b: Bytes, c: Bytes, key: Bytes, value: Option<RecordID>, status: StatusCode, n: nat, removed: nat)
    requires Dropping(b, c, key, value, status, n, removed)
    ensures status == OK ==> |c| == PAGE_SIZE
    ensures status == OK && removed == 0 ==> c == b && BucketRemoveDone(b, b, key, value, NOT_FOUND, removed)
    ensures status == OK && removed > 0 ==> BucketRemoveDone(b, Put(c, 4, U16(n)), key, value, OK, removed)
    ensures status != OK ==> BucketRemoveDone(b, c, key, value, status, 0)
  {
    hide Removing, RemoveFits;
    if status == OK {
      var i: nat, done: bool :| Removing(b, c, key, value, i, n, removed, done) && (i >= n || done);
      RemoveEnd(b, c, key, value, i, n, removed, done);
    }
  }

  lemma RemoveEnd(b: Bytes, c: Bytes, key: Bytes, value: Option<RecordID>, i: nat, n: nat, removed: nat, done: bool)
    requires Removing(b, c, key, value, i, n, removed, done) && (i >= n || done)
    ensures |c| == PAGE_SIZE
    ensures removed == 0 ==> c == b && BucketRemoveDone(b, b, key, value, NOT_FOUND, removed)
    ensures removed > 0 ==> BucketRemoveDone(b, Put(c, 4, U16(n)), key, value, OK, removed)
  {
    hide Removed, Matches, WithoutAt;
    if RemoveFits(b, key) {
      RemovedNothing(Decoded(c, n), i, key, value);
      PutCount(c, n, n);
      hide Decoded, Overflow, LengthsOk, RemoveFits, Put, U16, AllStorable;
    }
  }

  lemma RemovedNothing(s: seq<Pair>, i: nat, key: Bytes, value: Option<RecordID>)
    ensures i >= |s| ==> Removed(s, i, key, value) == s
  {
  }
}
