// The header page of a hash index: the directory of its primary buckets
// (src/index/hash_index_header_page.cpp; docs/file_format.md, section 4).
module IndexHeaders {
  import opened Common
  import opened ByteFormat
  import opened Buffer

  const INDEX_MAGIC: nat := 0x31495848
  const MAX_BUCKET_COUNT: nat := 1020

  function BucketCount(b: Bytes): nat {
    GetU16(b, 6)
  }

  function DirectoryOffset(i: nat): nat {
    16 + 4 * i
  }

  /** The first page of every bucket, or INVALID_PAGE_ID for a bucket that has none. */
  function Directory(b: Bytes): (directory: seq<int>)
    ensures |directory| == BucketCount(b)
    ensures forall i: nat :: i < |directory| ==> directory[i] == GetI32(b, DirectoryOffset(i))
  {
    seq(BucketCount(b), (i: nat) => GetI32(b, DirectoryOffset(i)))
  }

  function MaxKeyLength(b: Bytes): nat {
    GetU16(b, 8)
  }

  predicate HeaderInitialized(b: Bytes) {
    GetU32(b, 0) == INDEX_MAGIC && GetU16(b, 4) == 1 && 0 < BucketCount(b) <= MAX_BUCKET_COUNT
  }

  predicate HeaderOk(b: Bytes) {
    |b| == PAGE_SIZE && HeaderInitialized(b)
  }

  /** The directory once `count` buckets without pages have been entered. */
  function NoBuckets(count: nat): (directory: seq<int>)
    ensures |directory| == count
    ensures forall i: nat :: i < count ==> directory[i] == INVALID_PAGE_ID
  {
    seq(count, (i: nat) => INVALID_PAGE_ID)
  }

  /** Writing one directory entry changes that entry and nothing else. */
  lemma PutDirectory(b: Bytes, i: nat, v: int)
    requires |b| == PAGE_SIZE && i < MAX_BUCKET_COUNT && IsInt32(v)
    ensures GetI32(Put(b, DirectoryOffset(i), I32(v)), DirectoryOffset(i)) == v
    ensures forall j: nat :: j != i && j < MAX_BUCKET_COUNT ==>
              GetI32(Put(b, DirectoryOffset(i), I32(v)), DirectoryOffset(j)) == GetI32(b, DirectoryOffset(j))
    ensures BucketCount(Put(b, DirectoryOffset(i), I32(v))) == BucketCount(b)
    ensures MaxKeyLength(Put(b, DirectoryOffset(i), I32(v))) == MaxKeyLength(b)
    ensures HeaderInitialized(Put(b, DirectoryOffset(i), I32(v))) == HeaderInitialized(b)
  {
    var c := Put(b, DirectoryOffset(i), I32(v));
    GetPutI32(b, DirectoryOffset(i), v);
    SameU16(c, b, 4);
    SameU16(c, b, 6);
    SameU16(c, b, 8);
    SameU32(c, b, 0);
    hide GetU16, GetU32, GetI32, I32;
    forall j: nat | j != i && j < MAX_BUCKET_COUNT ensures GetI32(c, DirectoryOffset(j)) == GetI32(b, DirectoryOffset(j)) {
      SameI32(c, b, DirectoryOffset(j));
    }
  }

  lemma DirectoryUpdate(b: Bytes, i: nat, v: int)
    requires HeaderOk(b) && i < BucketCount(b) && IsInt32(v)
    ensures HeaderOk(Put(b, DirectoryOffset(i), I32(v)))
    ensures Directory(Put(b, DirectoryOffset(i), I32(v))) == Directory(b)[i := v]
    ensures MaxKeyLength(Put(b, DirectoryOffset(i), I32(v))) == MaxKeyLength(b)
  {
    PutDirectory(b, i, v);
    hide GetU16, GetU32, GetI32, I32, Put, DirectoryOffset;
  }

  /** The fields that Init writes before the directory. */
  function HeaderFields(count: nat, maxKeyLength: nat): Bytes {
    Put(Put(Put(Put(Put(Zeros(PAGE_SIZE), 0, U32(INDEX_MAGIC)), 4, U16(1)), 6, U16(count)), 8, U16(maxKeyLength)), 10, U16(0))
  }

  lemma HeaderFieldsOk(count: nat, maxKeyLength: nat)
    requires 0 < count <= MAX_BUCKET_COUNT && 0 < maxKeyLength < 0x1_0000
    ensures HeaderOk(HeaderFields(count, maxKeyLength)) && BucketCount(HeaderFields(count, maxKeyLength)) == count
    ensures MaxKeyLength(HeaderFields(count, maxKeyLength)) == maxKeyLength
  {
    var z := Zeros(PAGE_SIZE);
    var b1 := Put(z, 0, U32(INDEX_MAGIC));
    var b2 := Put(b1, 4, U16(1));
    var b3 := Put(b2, 6, U16(count));
    var b4 := Put(b3, 8, U16(maxKeyLength));
    var b5 := HeaderFields(count, maxKeyLength);
    GetPutU32(z, 0, INDEX_MAGIC);
    GetPutU16(b1, 4, 1);
    GetPutU16(b2, 6, count);
    GetPutU16(b3, 8, maxKeyLength);
    hide GetU16, GetU32, U16, U32;
    SameU32(b5, b1, 0);
    SameU16(b5, b2, 4);
    SameU16(b5, b3, 6);
    SameU16(b5, b4, 8);
  }

  lemma HeaderFieldsAre(count: nat, maxKeyLength: nat)
    ensures HeaderFields(count, maxKeyLength)
         == Put(Put(Put(Put(Put(Zeros(PAGE_SIZE), 0, U32(INDEX_MAGIC)), 4, U16(1)), 6, U16(count)), 8, U16(maxKeyLength)), 10, U16(0))
    ensures PAGE_SIZE == 4096
  {
    hide Put, U16, U32, Zeros;
  }

  lemma EmptyDirectory(b: Bytes, count: nat)
    requires BucketCount(b) == count && forall i: nat :: i < count ==> GetI32(b, DirectoryOffset(i)) == INVALID_PAGE_ID
    ensures Directory(b) == NoBuckets(count)
  {
    hide GetI32, DirectoryOffset, GetU16;
  }

  lemma HeaderParts(b: Bytes)
    ensures HeaderInitialized(b) ==> 0 < BucketCount(b) <= MAX_BUCKET_COUNT
    ensures HeaderOk(b) <==> |b| == PAGE_SIZE && HeaderInitialized(b)
    ensures |Directory(b)| == BucketCount(b)
    ensures forall i: nat :: i < BucketCount(b) ==> Directory(b)[i] == GetI32(b, DirectoryOffset(i))
    ensures INVALID_PAGE_ID == -1 && MAX_BUCKET_COUNT == 1020 && PAGE_SIZE == 4096
  {
    hide GetU16, GetU32, GetI32;
  }

  lemma DirectoryFits(i: nat)
    requires i < MAX_BUCKET_COUNT
    ensures DirectoryOffset(i) + 4 <= PAGE_SIZE && IsInt32(INVALID_PAGE_ID)
  {
  }

  class HashIndexHeaderPage {
    const page: Page

    constructor (page: Page)
      ensures this.page == page
    {
      this.page := page;
    }

    /** Formats the page as the header of an index without bucket pages. */
    method Init(bucketCount: nat, maxKeyLength: nat) returns (status: StatusCode)
      requires page.data.Length == PAGE_SIZE && maxKeyLength < 0x1_0000
      modifies page`dirty, page.data
      ensures status == if page.pageId == INVALID_PAGE_ID || bucketCount == 0 || bucketCount > MAX_BUCKET_COUNT || maxKeyLength == 0
                        then INVALID_ARGUMENT else OK
      ensures status.OK? ==> page.dirty && HeaderOk(page.data[..])
      ensures status.OK? ==> Directory(page.data[..]) == NoBuckets(bucketCount) && MaxKeyLength(page.data[..]) == maxKeyLength
      ensures !status.OK? ==> page.data[..] == old(page.data[..]) && page.dirty == old(page.dirty)
    {
      hide *;
      if page.pageId == INVALID_PAGE_ID {
        return INVALID_ARGUMENT;
      }
      if bucketCount == 0 || bucketCount > MAX_BUCKET_COUNT {
        return INVALID_ARGUMENT;
      }
      if maxKeyLength == 0 {
        return INVALID_ARGUMENT;
      }
      HeaderFieldsOk(bucketCount, maxKeyLength);
      HeaderParts(HeaderFields(bucketCount, maxKeyLength));
      Clear(page.data, 0, PAGE_SIZE);
      WholePage(page.data[..], old(page.data[..]));
      WriteFields(bucketCount, maxKeyLength);
      ClearDirectory(bucketCount);
      HeaderParts(page.data[..]);
      EmptyDirectory(page.data[..], bucketCount);
      page.dirty := true;
      status := OK;
    }

    method WriteFields(bucketCount: nat, maxKeyLength: nat)
      requires page.data.Length == PAGE_SIZE && page.data[..] == Zeros(PAGE_SIZE)
      modifies page.data
      ensures page.data[..] == HeaderFields(bucketCount, maxKeyLength)
    {
      hide *;
      HeaderFieldsAre(bucketCount, maxKeyLength);
      Write(page.data, 0, U32(INDEX_MAGIC));
      Write(page.data, 4, U16(1));
      Write(page.data, 6, U16(bucketCount));
      Write(page.data, 8, U16(maxKeyLength));
      Write(page.data, 10, U16(0));
    }

    method ClearDirectory(bucketCount: nat)
      requires page.data.Length == PAGE_SIZE && bucketCount <= MAX_BUCKET_COUNT
      modifies page.data
      ensures BucketCount(page.data[..]) == BucketCount(old(page.data[..]))
      ensures MaxKeyLength(page.data[..]) == MaxKeyLength(old(page.data[..]))
      ensures HeaderInitialized(page.data[..]) == HeaderInitialized(old(page.data[..]))
      ensures forall i: nat :: i < bucketCount ==> GetI32(page.data[..], DirectoryOffset(i)) == INVALID_PAGE_ID
    {
      hide *;
      for i := 0 to bucketCount
        invariant BucketCount(page.data[..]) == BucketCount(old(page.data[..]))
        invariant MaxKeyLength(page.data[..]) == MaxKeyLength(old(page.data[..]))
        invariant HeaderInitialized(page.data[..]) == HeaderInitialized(old(page.data[..]))
        invariant forall j: nat :: j < i ==> GetI32(page.data[..], DirectoryOffset(j)) == INVALID_PAGE_ID
      {
        DirectoryFits(i);
        PutDirectory(page.data[..], i, INVALID_PAGE_ID);
        Write(page.data, DirectoryOffset(i), I32(INVALID_PAGE_ID));
      }
    }

    method IsInitialized() returns (yes: bool)
      ensures yes <==> HeaderInitialized(page.data[..])
    {
      yes := HeaderInitialized(page.data[..]);
    }

    method GetBucketCount() returns (count: nat)
      ensures count == if HeaderInitialized(page.data[..]) then BucketCount(page.data[..]) else 0
    {
      var initialized := IsInitialized();
      count := if initialized then BucketCount(page.data[..]) else 0;
    }

    method GetMaxKeyLength() returns (length: nat)
      ensures length == if HeaderInitialized(page.data[..]) then MaxKeyLength(page.data[..]) else 0
    {
      var initialized := IsInitialized();
      length := if initialized then MaxKeyLength(page.data[..]) else 0;
    }

    /** The first page of a bucket. */
    method GetBucketPageId(i: nat) returns (status: StatusCode, pageId: int)
      requires page.data.Length == PAGE_SIZE
      ensures status == if !HeaderOk(page.data[..]) then IO_ERROR else if i >= BucketCount(page.data[..]) then INVALID_ARGUMENT else OK
      ensures status.OK? ==> i < |Directory(page.data[..])| && pageId == Directory(page.data[..])[i]
    {
      hide *;
      HeaderParts(page.data[..]);
      pageId := INVALID_PAGE_ID;
      var initialized := IsInitialized();
      if !initialized {
        return IO_ERROR, pageId;
      }
      var count := GetBucketCount();
      if i >= count {
        return INVALID_ARGUMENT, pageId;
      }
      return OK, GetI32(page.data[..], DirectoryOffset(i));
    }

    /** Enters the first page of a bucket. */
    method SetBucketPageId(i: nat, pageId: int) returns (status: StatusCode)
      requires page.data.Length == PAGE_SIZE && IsInt32(pageId)
      modifies page`dirty, page.data
      ensures status == if !HeaderOk(old(page.data[..])) then IO_ERROR
                        else if i >= BucketCount(old(page.data[..])) || pageId == 0 || pageId < INVALID_PAGE_ID then INVALID_ARGUMENT
                        else OK
      ensures status.OK? ==> page.dirty && HeaderOk(page.data[..]) && MaxKeyLength(page.data[..]) == MaxKeyLength(old(page.data[..]))
      ensures status.OK? ==> i < |Directory(old(page.data[..]))| && Directory(page.data[..]) == Directory(old(page.data[..]))[i := pageId]
      ensures !status.OK? ==> page.data[..] == old(page.data[..]) && page.dirty == old(page.dirty)
    {
      hide *;
      HeaderParts(page.data[..]);
      var initialized := IsInitialized();
      if !initialized {
        return IO_ERROR;
      }
      var count := GetBucketCount();
      if i >= count {
        return INVALID_ARGUMENT;
      }
      if pageId == 0 || pageId < INVALID_PAGE_ID {
        return INVALID_ARGUMENT;
      }
      DirectoryUpdate(page.data[..], i, pageId);
      DirectoryFits(i);
      Write(page.data, DirectoryOffset(i), I32(pageId));
      page.dirty := true;
      status := OK;
    }
  }
}
