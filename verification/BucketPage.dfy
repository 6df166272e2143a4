// A bucket page of a hash index: an unordered array of key/record pairs
// (src/index/bucket_page.cpp).
module BucketPages {
  import opened Common
  import opened ByteFormat
  import opened BucketFormat
  import opened Buffer

  class HashIndexBucketPage {
    const page: Page

    constructor (page: Page)
      ensures this.page == page
    {
      this.page := page;
    }

    /** Formats the page as an empty bucket. */
    method Init() returns (status: StatusCode)
      requires page.data.Length == PAGE_SIZE
      modifies page`dirty, page.data
      ensures status == if page.pageId == INVALID_PAGE_ID then INVALID_ARGUMENT else OK
      ensures status.OK? ==> page.dirty && BucketOk(page.data[..])
      ensures status.OK? ==> Entries(page.data[..]) == [] && Overflow(page.data[..]) == INVALID_PAGE_ID
      ensures !status.OK? ==> page.data[..] == old(page.data[..]) && page.dirty == old(page.dirty)
    {
      hide *;
      if page.pageId == INVALID_PAGE_ID {
        return INVALID_ARGUMENT;
      }
      EmptyBucketIsOk();
      EmptyBucketIs();
      Clear(page.data, 0, PAGE_SIZE);
      WholePage(page.data[..], old(page.data[..]));
      Write(page.data, 0, U32(BUCKET_MAGIC));
      Write(page.data, ENTRY_COUNT_OFFSET, U16(0));
      Write(page.data, CAPACITY_OFFSET, U16(ENTRY_CAPACITY));
      Write(page.data, OVERFLOW_PAGE_ID_OFFSET, I32(INVALID_PAGE_ID));
      Write(page.data, 12, U32(0));
      page.dirty := true;
      status := OK;
    }

    method IsInitialized() returns (yes: bool)
      ensures yes <==> BucketInitialized(page.data[..])
    {
      yes := BucketInitialized(page.data[..]);
    }

    method GetEntryCount() returns (count: nat)
      ensures count == if BucketInitialized(page.data[..]) then Count(page.data[..]) else 0
    {
      var initialized := IsInitialized();
      count := if initialized then Count(page.data[..]) else 0;
    }

    method GetOverflowPageId() returns (next: int)
      ensures next == if BucketInitialized(page.data[..]) then Overflow(page.data[..]) else INVALID_PAGE_ID
    {
      var initialized := IsInitialized();
      next := if initialized then Overflow(page.data[..]) else INVALID_PAGE_ID;
    }

    /** Links the page to an overflow page. */
    method SetOverflowPageId(next: int) returns (status: StatusCode)
      requires page.data.Length == PAGE_SIZE && IsInt32(next)
      modifies page`dirty, page.data
      ensures page.dirty == (old(page.dirty) || status.OK?)
      ensures !status.OK? ==> page.data[..] == old(page.data[..])
      ensures BucketOk(old(page.data[..])) ==> status == if next == 0 || next < INVALID_PAGE_ID then INVALID_ARGUMENT else OK
      ensures BucketOk(old(page.data[..])) && status.OK? ==>
                && BucketOk(page.data[..]) && Overflow(page.data[..]) == next
                && Entries(page.data[..]) == Entries(old(page.data[..]))
    {
      var initialized := IsInitialized();
      if !initialized {
        return IO_ERROR;
      }
      if next == 0 || next < INVALID_PAGE_ID {
        return INVALID_ARGUMENT;
      }
      PutOverflow(page.data[..], next);
      hide BucketOk, Entries, Overflow, I32, Put;
      Write(page.data, OVERFLOW_PAGE_ID_OFFSET, I32(next));
      page.dirty := true;
      status := OK;
    }

    /** The entry at an index below the entry count. */
    method ReadEntry(i: nat) returns (status: StatusCode, pair: Pair)
      ensures BucketInitialized(page.data[..]) && i < Count(page.data[..]) ==>
                && status == (if KeyLength(EntryAt(page.data[..], i)) > MAX_KEY_LENGTH then IO_ERROR else OK)
                && (status.OK? ==> pair == DecodeEntry(EntryAt(page.data[..], i)))
      ensures !(BucketInitialized(page.data[..]) && i < Count(page.data[..])) ==> status == NOT_FOUND
      ensures BucketOk(page.data[..]) && i < Count(page.data[..]) ==> i < |Entries(page.data[..])| && status == OK && pair == Entries(page.data[..])[i]
    {
      BucketParts(page.data[..]);
      hide BucketOk, Entries;
      pair := Pair([], RecordID(INVALID_PAGE_ID, 0));
      var data := page.data[..];
      var initialized := IsInitialized();
      var count := GetEntryCount();
      if !initialized || i >= count {
        return NOT_FOUND, pair;
      }
      hide DecodeEntry, EntryAt, KeyLength;
      var entry := EntryAt(data, i);
      if KeyLength(entry) > MAX_KEY_LENGTH {
        return IO_ERROR, pair;
      }
      return OK, DecodeEntry(entry);
    }

    /** Overwrites an entry. */
    method WriteEntry(i: nat, pair: Pair) returns (status: StatusCode)
      requires page.data.Length == PAGE_SIZE
      modifies page`dirty, page.data
      ensures status == if |pair.key| > MAX_KEY_LENGTH || !BucketInitialized(old(page.data[..])) || i >= ENTRY_CAPACITY
                        then INVALID_ARGUMENT else OK
      ensures page.data[..] == if status.OK? then Put(old(page.data[..]), EntryOffset(i), EntryBytes(pair)) else old(page.data[..])
      ensures page.dirty == (old(page.dirty) || status.OK?)
    {
      hide *;
      if |pair.key| > MAX_KEY_LENGTH {
        return INVALID_ARGUMENT;
      }
      var initialized := IsInitialized();
      if !initialized || i >= ENTRY_CAPACITY {
        return INVALID_ARGUMENT;
      }
      EntryFits(i);
      EntryWritten(page.data[..], i, pair);
      Clear(page.data, EntryOffset(i), EntryOffset(i) + 76);
      Write(page.data, EntryOffset(i), U16(|pair.key|));
      Write(page.data, EntryOffset(i) + 4, pair.key);
      Write(page.data, EntryOffset(i) + 68, I32(pair.rid.pageId));
      Write(page.data, EntryOffset(i) + 72, U16(pair.rid.slotId));
      page.dirty := true;
      status := OK;
    }

    method ClearEntry(i: nat)
      requires page.data.Length == PAGE_SIZE && i < ENTRY_CAPACITY
      modifies page`dirty, page.data
      ensures page.data[..] == Put(old(page.data[..]), EntryOffset(i), Zeros(76)) && page.dirty
    {
      hide *;
      EntryFits(i);
      Clear(page.data, EntryOffset(i), EntryOffset(i) + 76);
      page.dirty := true;
    }

    /** Adds a pair after the last entry, unless it is there already. */
    method Insert(pair: Pair) returns (status: StatusCode, inserted: bool)
      requires page.data.Length == PAGE_SIZE
      modifies page`dirty, page.data
      ensures BucketInsertDone(old(page.data[..]), page.data[..], pair, status, inserted)
      ensures page.dirty == (old(page.dirty) || inserted)
      ensures |pair.key| > MAX_KEY_LENGTH ==> status == INVALID_ARGUMENT && !inserted
      ensures |pair.key| <= MAX_KEY_LENGTH && !BucketInitialized(old(page.data[..])) ==> status == IO_ERROR && !inserted
      ensures |pair.key| <= MAX_KEY_LENGTH && BucketInitialized(old(page.data[..])) && pair.rid.pageId <= 0 ==>
                status == INVALID_ARGUMENT && !inserted
    {
      ghost var b := page.data[..];
      hide *;
      BucketSizes(b);
      StorableParts(pair);
      inserted := false;
      if |pair.key| > MAX_KEY_LENGTH {
        MakeRefused(b, pair, INVALID_ARGUMENT);
        return INVALID_ARGUMENT, inserted;
      }
      var initialized := IsInitialized();
      if !initialized {
        MakeRefused(b, pair, IO_ERROR);
        return IO_ERROR, inserted;
      }
      if pair.rid.pageId <= 0 {
        MakeRefused(b, pair, INVALID_ARGUMENT);
        return INVALID_ARGUMENT, inserted;
      }
      var count := GetEntryCount();
      var i := 0;
      while i < count
        invariant page.data[..] == b && page.dirty == old(page.dirty) && i <= count
        invariant forall j: nat :: j < i ==> DecodeEntry(EntryAt(b, j)) != pair
        modifies {}
      {
        var existing;
        status, existing := ReadEntry(i);
        if status != OK {
          MakeRefused(b, pair, status);
          return status, inserted;
        }
        if existing == pair {
          MakePresent(b, pair, i);
          return OK, inserted;
        }
        i := i + 1;
      }
      NotPresent(b, pair, count);
      if count >= ENTRY_CAPACITY {
        MakeFull(b, pair);
        return OUT_OF_MEMORY, inserted;
      }
      status := WriteEntry(count, pair);
      AppendEntry(b, pair);
      Write(page.data, ENTRY_COUNT_OFFSET, U16(count + 1));
      page.dirty := true;
      return OK, true;
    }

    /** Adds the records that have `key` to `result`. */
    method GetValue(key: Bytes, result: seq<RecordID>) returns (status: StatusCode, extended: seq<RecordID>)
      requires page.data.Length == PAGE_SIZE
      ensures BucketOk(page.data[..]) && |key| <= MAX_KEY_LENGTH ==>
                && extended == result + ValuesOf(Entries(page.data[..]), key)
                && status == if ValuesOf(Entries(page.data[..]), key) == [] then NOT_FOUND else OK
      ensures |key| > MAX_KEY_LENGTH ==> status == INVALID_ARGUMENT && extended == result
      ensures |key| <= MAX_KEY_LENGTH && !BucketOk(page.data[..]) ==> status == IO_ERROR
    {
      ghost var b := page.data[..];
      hide *;
      BucketSizes(b);
      extended := result;
      if |key| > MAX_KEY_LENGTH {
        return INVALID_ARGUMENT, extended;
      }
      var initialized := IsInitialized();
      if !initialized {
        return IO_ERROR, extended;
      }
      var found := false;
      var count := GetEntryCount();
      var i := 0;
      GatherStart(b, key, result);
      ShortStart(b);
      while i < count
        invariant i <= count && Gathered(b, key, result, extended, i, found) && ShortUpTo(b, i)
      {
        var existing;
        status, existing := ReadEntry(i);
        if status != OK {
          return status, extended;
        }
        ShortStep(b, i);
        GatherStep(b, key, result, extended, i, found, existing);
        if existing.key == key {
          extended := extended + [existing.rid];
          found := true;
        }
        i := i + 1;
      }
      ShortIsOk(b);
      GatherEnd(b, key, result, extended, i, found);
      if !found {
        return NOT_FOUND, extended;
      }
      status := OK;
    }

    /** Drops entry `i` by moving the last entry into its place. */
    method DropEntry(i: nat, last: nat) returns (status: StatusCode)
      requires page.data.Length == PAGE_SIZE && BucketInitialized(page.data[..]) && i <= last < Count(page.data[..])
      modifies page`dirty, page.data
      ensures status.OK? ==> page.dirty && page.data[..] == Dropped(old(page.data[..]), i, last)
      ensures page.dirty || (page.data[..] == old(page.data[..]) && page.dirty == old(page.dirty))
      ensures i == last || KeyLength(EntryAt(old(page.data[..]), last)) <= MAX_KEY_LENGTH ==> status.OK?
    {
      hide *;
      BucketParts(page.data[..]);
      DroppedParts(page.data[..], i, last);
      if i != last {
        var moved;
        status, moved := ReadEntry(last);
        if status != OK {
          return;
        }
        status := WriteEntry(i, moved);
        if status != OK {
          return;
        }
      }
      ClearEntry(last);
      status := OK;
    }

    /** Drops the matching entries, and returns how many are left and how many are gone;
        the entry count of the page stays as it was. */
    method DropMatching(key: Bytes, value: Option<RecordID>) returns (status: StatusCode, count: nat, removed: nat)
      requires page.data.Length == PAGE_SIZE && BucketInitialized(page.data[..])
      modifies page`dirty, page.data
      ensures Dropping(old(page.data[..]), page.data[..], key, value, status, count, removed)
      ensures page.dirty || (page.data[..] == old(page.data[..]) && page.dirty == old(page.dirty))
    {
      hide *;
      ghost var b := page.data[..];
      count := GetEntryCount();
      removed := 0;
      var i := 0;
      var done := false;
      RemoveStart(b, key, value);
      while i < count && !done
        invariant i <= count && Removing(b, page.data[..], key, value, i, count, removed, done)
        invariant page.dirty || (page.data[..] == b && !old(page.dirty))
        decreases if done then 0 else 1, count - i
      {
        ghost var c := page.data[..];
        RemoveIteration(b, c, key, value, i, count, removed);
        var existing;
        status, existing := ReadEntry(i);
        if status != OK {
          DroppingFailed(b, c, key, value, status, count, removed);
          return;
        }
        if Matches(existing, key, value) {
          status := DropEntry(i, count - 1);
          if status != OK {
            DroppingFailed(b, page.data[..], key, value, status, count, removed);
            return;
          }
          count := count - 1;
          removed := removed + 1;
          done := value.Some?;
        } else {
          i := i + 1;
        }
      }
      status := OK;
      DroppingDone(b, page.data[..], key, value, i, count, removed, done);
    }

    /** Removes the pair `key`/`value`, or every pair of `key` if no value is given; the
        last entry moves into each place that becomes free. */
    method Remove(key: Bytes, value: Option<RecordID>) returns (status: StatusCode, removed: nat)
      requires page.data.Length == PAGE_SIZE
      modifies page`dirty, page.data
      ensures BucketRemoveDone(old(page.data[..]), page.data[..], key, value, status, removed)
      ensures page.dirty || (page.data[..] == old(page.data[..]) && page.dirty == old(page.dirty))
      ensures |key| > MAX_KEY_LENGTH ==> status == INVALID_ARGUMENT && removed == 0 && page.data[..] == old(page.data[..])
      ensures |key| <= MAX_KEY_LENGTH && !BucketInitialized(old(page.data[..])) ==>
                status == IO_ERROR && removed == 0 && page.data[..] == old(page.data[..])
    {
      hide *;
      ghost var b := page.data[..];
      BucketParts(b);
      RemoveFitsParts(b, key);
      removed := 0;
      if |key| > MAX_KEY_LENGTH {
        RemoveRefused(b, b, key, value, INVALID_ARGUMENT, removed);
        return INVALID_ARGUMENT, removed;
      }
      var initialized := IsInitialized();
      if !initialized {
        RemoveRefused(b, b, key, value, IO_ERROR, removed);
        return IO_ERROR, removed;
      }
      var count;
      status, count, removed := DropMatching(key, value);
      DroppingOutcome(b, page.data[..], key, value, status, count, removed);
      if status != OK {
        return status, 0;
      }
      if removed == 0 {
        return NOT_FOUND, removed;
      }
      Write(page.data, ENTRY_COUNT_OFFSET, U16(count));
      page.dirty := true;
    }
  }
}
