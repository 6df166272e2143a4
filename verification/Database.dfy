// Who owns which page: the catalog page, the tables and their indexes share the allocated
// pages among them, apart from pages that have been lost.
module Databases {
  import opened Common
  import Disk
  import opened PageChains
  import opened HeapStates
  import opened IndexStates
  import opened IndexOutcomes
  import opened TableStates
  import opened TableOutcomes
  import opened StatementOutcomes

  ghost predicate TablesApart(s: Store, db: seq<TableInfo>) {
    forall j: nat, k: nat :: j < k < |db| ==> TablePages(s, db[j]) !! TablePages(s, db[k])
  }

  /** The tables are in order, and the allocated pages are the disjoint union of page 0,
      the pages of the tables and the pages `lost`, which belong to no table. */
  ghost predicate DbOk(s: Store, db: seq<TableInfo>, lost: set<nat>) {
    && 0 in s
    && (forall k: nat :: k < |db| ==> TableOk(s, db[k]))
    && TablesApart(s, db)
    && (forall p: nat :: p in s && p != 0 ==> (Owned(s, db, p) <==> p !in lost))
    && LostPages(s, lost)
  }

  /** The lost pages are allocated, and can be told from free pages. */
  ghost predicate LostPages(s: Store, lost: set<nat>) {
    forall p: nat :: p in lost ==> p in s && p >= 1 && !Disk.IsZeroPage(s[p])
  }

  ghost predicate Owned(s: Store, db: seq<TableInfo>, p: nat) {
    exists k: nat :: k < |db| && p in TablePages(s, db[k])
  }

  // ---- Other tables ----

  lemma OwnerFrame(a: Store, b: Store, t: TableInfo, o: nat)
    requires OwnersOk(a, t) && o <= |t.indexes|
    requires forall p: nat :: p in OwnerPages(a, t, o) ==> p in a && p in b && b[p] == a[p]
    ensures OwnerPages(b, t, o) == OwnerPages(a, t, o)
    ensures o == 0 ==> HeapOk(b, t.first) && HeapRows(b, t.first) == HeapRows(a, t.first)
    ensures o > 0 ==> IndexSame(a, b, t, o - 1)
  {
    OwnersAllocated(a, t, o);
    hide HeapPages, IndexPages, HeapOk, IndexOk, HeapRows, IndexPairs, Rooms, Width;
    if o == 0 {
      HeapFrame(a, b, t.first);
    } else {
      IndexFrame(a, b, t.indexes[o - 1].header);
    }
  }

  /** A table whose pages are as before is as before. */
  lemma TableFrame(a: Store, b: Store, t: TableInfo)
    requires TableShape(a, t) && forall p: nat :: p in TablePages(a, t) ==> p in a && p in b && b[p] == a[p]
    ensures TableShape(b, t) && TablePages(b, t) == TablePages(a, t) && ViewOf(b, t) == ViewOf(a, t)
  {
    hide *;
    ShapeParts(a, t);
    OwnerInTable(a, t, 0);
    OwnerFrame(a, b, t, 0);
    forall o: nat | o <= |t.indexes| ensures OwnerPages(b, t, o) == OwnerPages(a, t, o) {
      OwnerInTable(a, t, o);
      OwnerFrame(a, b, t, o);
    }
    forall i: nat | i < |t.indexes| ensures IndexSame(a, b, t, i) {
      OwnerInTable(a, t, i + 1);
      OwnerFrame(a, b, t, i + 1);
    }
    SameOwners(a, b, t);
    SameView(a, b, t);
  }

  lemma ShapeParts(a: Store, t: TableInfo)
    requires TableShape(a, t)
    ensures OwnersOk(a, t) && OwnersDisjoint(a, t)
  {
    hide OwnersOk, OwnersDisjoint;
  }

  lemma OwnerInTable(a: Store, t: TableInfo, o: nat)
    requires o <= |t.indexes|
    ensures OwnerPages(a, t, o) <= TablePages(a, t)
  {
    hide OwnerPages;
  }

  lemma SameOwners(a: Store, b: Store, t: TableInfo)
    requires OwnersDisjoint(a, t) && HeapOk(b, t.first)
    requires forall o: nat :: o <= |t.indexes| ==> OwnerPages(b, t, o) == OwnerPages(a, t, o)
    requires forall i: nat :: i < |t.indexes| ==> IndexSame(a, b, t, i)
    ensures TableShape(b, t) && TablePages(b, t) == TablePages(a, t)
  {
    hide OwnerPages, HeapOk, IndexOk, IndexPairs, IndexPages, Width, Rooms;
    forall i: nat | i < |t.indexes| ensures IndexOk(b, t.indexes[i].header) {
      assert IndexSame(a, b, t, i);
    }
    forall p: nat ensures p in TablePages(b, t) <==> p in TablePages(a, t) {
      if p in TablePages(b, t) {
        var o: nat :| o <= |t.indexes| && p in OwnerPages(b, t, o);
        assert p in OwnerPages(a, t, o);
      }
      if p in TablePages(a, t) {
        var o: nat :| o <= |t.indexes| && p in OwnerPages(a, t, o);
        assert p in OwnerPages(b, t, o);
      }
    }
  }

  lemma SameView(a: Store, b: Store, t: TableInfo)
    requires HeapRows(b, t.first) == HeapRows(a, t.first)
    requires forall i: nat :: i < |t.indexes| ==> IndexSame(a, b, t, i)
    ensures ViewOf(b, t) == ViewOf(a, t)
  {
    hide HeapRows, IndexOk, IndexPairs, IndexPages, Width, Rooms;
    forall i: nat | i < |t.indexes|
      ensures ViewOf(b, t).pairs[i] == ViewOf(a, t).pairs[i]
      ensures ViewOf(b, t).rooms[i] == ViewOf(a, t).rooms[i]
      ensures ViewOf(b, t).widths[i] == ViewOf(a, t).widths[i]
    {
      assert IndexSame(a, b, t, i);
    }
  }

  lemma TableFrameOk(a: Store, b: Store, t: TableInfo)
    requires TableOk(a, t) && forall p: nat :: p in TablePages(a, t) ==> p in a && p in b && b[p] == a[p]
    ensures TableOk(b, t) && TablePages(b, t) == TablePages(a, t) && HeapRows(b, t.first) == HeapRows(a, t.first)
  {
    TableOkParts(a, t);
    ViewRows(a, t);
    ViewRows(b, t);
    hide TableShape, TablePages, ViewOf, Agrees, HeapRows;
    TableFrame(a, b, t);
  }

  lemma TableAllocated(s: Store, t: TableInfo)
    requires TableShape(s, t)
    ensures forall p: nat :: p in TablePages(s, t) ==> p in s && p != 0
  {
    hide OwnerPages, OwnersOk, OwnersDisjoint;
    forall p: nat | p in TablePages(s, t) ensures p in s && p != 0 {
      var o: nat :| o <= |t.indexes| && p in OwnerPages(s, t, o);
      OwnersAllocated(s, t, o);
    }
  }

  // ---- Statements on one table ----

  lemma OtherTable(a: Store, b: Store, db: seq<TableInfo>, lost: set<nat>, k: nat, j: nat)
    requires DbOk(a, db, lost) && k < |db| && j < |db| && j != k && TableStep(a, b, db[k])
    ensures TableOk(b, db[j]) && TablePages(b, db[j]) == TablePages(a, db[j]) && TablePages(b, db[j]) !! TablePages(b, db[k])
    ensures HeapRows(b, db[j].first) == HeapRows(a, db[j].first)
  {
    assert TablePages(a, db[k]) !! TablePages(a, db[j]) by {
      if j < k { assert TablePages(a, db[j]) !! TablePages(a, db[k]); } else { assert TablePages(a, db[k]) !! TablePages(a, db[j]); }
    }
    TableOkParts(a, db[j]);
    TableAllocated(a, db[j]);
    hide TableOk, TablePages, HeapRows, TableShape;
    OthersKeep(a, b, TablePages(a, db[k]), TablePages(b, db[k]), TablePages(a, db[j]));
    TableFrameOk(a, b, db[j]);
  }

  /** The tables other than `k` are as before. */
  ghost predicate OthersKept(a: Store, b: Store, db: seq<TableInfo>, k: nat) {
    forall j: nat :: j < |db| && j != k ==>
      && TableOk(b, db[j]) && TablePages(b, db[j]) == TablePages(a, db[j])
      && (k < |db| ==> TablePages(b, db[j]) !! TablePages(b, db[k]))
      && HeapRows(b, db[j].first) == HeapRows(a, db[j].first)
  }

  lemma MakeDbOk(a: Store, b: Store, db: seq<TableInfo>, lost: set<nat>, k: nat)
    requires DbOk(a, db, lost) && k < |db| && OthersKept(a, b, db, k) && TableOk(b, db[k]) && 0 in b
    requires OwnChange(a, b, TablePages(a, db[k]), TablePages(b, db[k])) && NewOwned(a, b, TablePages(b, db[k]))
    ensures DbOk(b, db, lost)
  {
    hide TableOk, TablePages, HeapRows, Disk.IsZeroPage;
    forall i: nat, j: nat | i < j < |db| ensures TablePages(b, db[i]) !! TablePages(b, db[j]) {
      if i != k && j != k { assert TablePages(a, db[i]) !! TablePages(a, db[j]); }
    }
    forall p: nat | p in b && p != 0 ensures Owned(b, db, p) <==> p !in lost {
      if p in a {
        OwnerStays(a, b, db, k, p);
      } else {
        assert p in TablePages(b, db[k]);
      }
    }
    LostStay(a, b, db, lost, k);
  }

  /** A page that was allocated is owned by some table exactly if it was before. */
  lemma OwnerStays(a: Store, b: Store, db: seq<TableInfo>, k: nat, p: nat)
    requires k < |db| && OthersKept(a, b, db, k) && OwnChange(a, b, TablePages(a, db[k]), TablePages(b, db[k])) && p in a
    ensures Owned(b, db, p) <==> Owned(a, db, p)
  {
    hide TableOk, TablePages, HeapRows;
    if Owned(b, db, p) {
      var j: nat :| j < |db| && p in TablePages(b, db[j]);
      assert p in TablePages(a, db[j]);
    }
    if Owned(a, db, p) {
      var j: nat :| j < |db| && p in TablePages(a, db[j]);
      assert p in TablePages(b, db[j]);
    }
  }

  lemma LostStay(a: Store, b: Store, db: seq<TableInfo>, lost: set<nat>, k: nat)
    requires DbOk(a, db, lost) && k < |db| && OwnChange(a, b, TablePages(a, db[k]), TablePages(b, db[k]))
    ensures LostPages(b, lost)
  {
    hide TableOk, TablePages, TablesApart, Disk.IsZeroPage;
    forall p: nat | p in lost ensures p in b && b[p] == a[p] {
      assert p in TablePages(a, db[k]) ==> Owned(a, db, p);
    }
  }

  /** A statement on one table leaves the other tables and page 0 alone, and loses no page. */
  lemma StatementKeepsDb(a: Store, b: Store, db: seq<TableInfo>, lost: set<nat>, k: nat)
    requires DbOk(a, db, lost) && k < |db| && StatementStep(a, b, db[k])
    ensures DbOk(b, db, lost) && 0 in a && 0 in b && b[0] == a[0]
    ensures forall j: nat :: j < |db| && j != k ==> HeapRows(b, db[j].first) == HeapRows(a, db[j].first)
  {
    hide *;
    StepParts(a, b, db[k]);
    DbTable(a, db, lost, k);
    TableAllocated(a, db[k]);
    forall j: nat | j < |db| && j != k
      ensures TableOk(b, db[j]) && TablePages(b, db[j]) == TablePages(a, db[j]) && TablePages(b, db[j]) !! TablePages(b, db[k])
      ensures HeapRows(b, db[j].first) == HeapRows(a, db[j].first)
    {
      OtherTable(a, b, db, lost, k, j);
    }
    MakeOthersKept(a, b, db, k);
    HeaderKept(a, b, TablePages(a, db[k]), TablePages(b, db[k]));
    MakeDbOk(a, b, db, lost, k);
  }

  lemma MakeOthersKept(a: Store, b: Store, db: seq<TableInfo>, k: nat)
    requires forall j: nat :: j < |db| && j != k ==>
               TableOk(b, db[j]) && TablePages(b, db[j]) == TablePages(a, db[j]) && (k < |db| ==> TablePages(b, db[j]) !! TablePages(b, db[k]))
    requires forall j: nat :: j < |db| && j != k ==> HeapRows(b, db[j].first) == HeapRows(a, db[j].first)
    ensures OthersKept(a, b, db, k)
  {
    hide TableOk, TablePages, HeapRows;
  }

  lemma DbTable(s: Store, db: seq<TableInfo>, lost: set<nat>, k: nat)
    requires DbOk(s, db, lost) && k < |db|
    ensures 0 in s && TableOk(s, db[k]) && TableShape(s, db[k])
  {
    hide TableShape, Agrees, TablePages;
  }

  lemma HeaderKept(a: Store, b: Store, before: set<nat>, after: set<nat>)
    requires OwnChange(a, b, before, after) && 0 in a && 0 !in before
    ensures 0 in b && b[0] == a[0] && before <= after
  {
  }

  lemma StepParts(a: Store, b: Store, t: TableInfo)
    requires StatementStep(a, b, t)
    ensures TableOk(b, t) && TableStep(a, b, t) && OwnChange(a, b, TablePages(a, t), TablePages(b, t)) && NewOwned(a, b, TablePages(b, t))
  {
    hide TableOk, TableShape, TablePages;
  }

  /** Changing page 0 changes no table. */
  lemma CatalogPageKeepsDb(a: Store, b: Store, db: seq<TableInfo>, lost: set<nat>)
    requires DbOk(a, db, lost) && 0 in b && b == a[0 := b[0]]
    ensures DbOk(b, db, lost) && forall j: nat :: j < |db| ==> HeapRows(b, db[j].first) == HeapRows(a, db[j].first)
  {
    hide TableOk, TablePages, HeapRows, Disk.IsZeroPage;
    forall j: nat | j < |db|
      ensures TableOk(b, db[j]) && TablePages(b, db[j]) == TablePages(a, db[j]) && HeapRows(b, db[j].first) == HeapRows(a, db[j].first)
    {
      TableOkParts(a, db[j]);
      TableAllocated(a, db[j]);
      TableFrameOk(a, b, db[j]);
    }
    forall p: nat ensures Owned(b, db, p) <==> Owned(a, db, p) {
      SameOwned(a, b, db, p);
    }
  }

  /** Tables that keep their pages own the same. */
  lemma SameOwned(a: Store, b: Store, db: seq<TableInfo>, p: nat)
    requires forall j: nat :: j < |db| ==> TablePages(b, db[j]) == TablePages(a, db[j])
    ensures Owned(b, db, p) <==> Owned(a, db, p)
  {
    hide TablePages;
    if j: nat :| j < |db| && p in TablePages(a, db[j]) {
      assert p in TablePages(b, db[j]);
    }
  }
}
