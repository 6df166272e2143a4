// Pages in use can be told from free ones: a heap page starts with its own page id, and an
// index page with a magic number, so that neither is all zero.
module PageTags {
  import opened Common
  import opened ByteFormat
  import opened Disk
  import SlottedFormat
  import opened BucketFormat
  import opened IndexHeaders
  import opened PageChains
  import opened HeapStates
  import opened IndexStates
  import opened TableStates
  import opened TableOutcomes

  lemma ZeroFields(b: Bytes, off: nat)
    requires IsZeroPage(b)
    ensures GetU32(b, off) == 0 && GetI32(b, off) == 0
  {
  }

  lemma HeapPageIsNotZero(b: Bytes, p: nat)
    requires SlottedFormat.Ok(b, p) && p >= 1
    ensures !IsZeroPage(b)
  {
    SlottedFormat.OkParts(b, p);
    hide SlottedFormat.Ok, IsZeroPage, GetI32;
    if IsZeroPage(b) {
      ZeroFields(b, 0);
      assert false;
    }
  }

  lemma MagicIsNotZero(b: Bytes)
    requires GetU32(b, 0) != 0
    ensures !IsZeroPage(b)
  {
    hide IsZeroPage, GetU32;
    if IsZeroPage(b) {
      ZeroFields(b, 0);
      assert false;
    }
  }

  lemma Magics(b: Bytes)
    ensures BucketOk(b) || HeaderOk(b) ==> GetU32(b, 0) != 0
  {
    hide GetU32, GetU16, LengthsOk;
  }

  lemma IndexPageIsNotZero(s: Store, h: nat, p: nat)
    requires IndexOk(s, h) && p in IndexPages(s, h)
    ensures p in s && !IsZeroPage(s[p])
  {
    var chains := ChainsFor(s, h);
    IndexChains(s, h);
    IndexIs(s, h, chains);
    PagesAllocated(s, h, chains);
    IndexStates.ShapeParts(s, h, chains);
    assert HeaderOk(s[h]);
    hide IndexOk, ChainsFor, IndexShape, NoPairTwice, HeaderOk, BucketOk, AllBelong, ChainsLinked, IsZeroPage, GetU32;
    if p != h {
      var i: nat :| i < |chains| && p in chains[i];
      assert GoodBucket(s, h, |chains|, i, p);
    }
    Magics(s[p]);
    MagicIsNotZero(s[p]);
  }

  lemma HeapPagesAreNotZero(s: Store, first: int, p: nat)
    requires HeapOk(s, first) && p in HeapPages(s, first)
    ensures p in s && !IsZeroPage(s[p])
  {
    var chain := ChainOf(s, first);
    HeapIs(s, first, chain);
    assert p in chain && p >= 1 && SlottedFormat.Ok(s[p], p);
    hide HeapOk, ChainOf, SlottedFormat.Ok, IsZeroPage;
    HeapPageIsNotZero(s[p], p);
  }

  lemma TablePagesAreNotZero(s: Store, t: TableInfo, p: nat)
    requires TableOk(s, t) && p in TablePages(s, t)
    ensures p in s && !IsZeroPage(s[p])
  {
    TableOkParts(s, t);
    hide TableOk, TableShape, Agrees, IsZeroPage, HeapOk, IndexOk, HeapPages, IndexPages;
    var o: nat :| o <= |t.indexes| && p in OwnerPages(s, t, o);
    if o == 0 {
      HeapPagesAreNotZero(s, t.first, p);
    } else {
      IndexPageIsNotZero(s, t.indexes[o - 1].header, p);
    }
  }
}
