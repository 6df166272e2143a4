// The state of the buffer pool as a value: its invariant, the page store it
// stands for, and what each elementary step does to both.
module PoolStates {
  import opened Common

  datatype Frame = Frame(data: Bytes, pageId: int, pinCount: int, dirty: bool)

  datatype PoolState = PoolState(
    frames: seq<Frame>,
    table: map<nat, nat>,
    free: seq<nat>,
    evictable: set<nat>,
    file: seq<Bytes>,
    fileFree: set<nat>)
  {
    predicate Allocated(id: int) {
      0 <= id < |file| && id !in fileFree
    }

    /** Free and resident frames partition the pool, and the page table is injective. */
    ghost predicate Bookkeeping() {
      && (forall f :: f in free ==> f < |frames|)
      && (forall i, j :: 0 <= i < j < |free| ==> free[i] != free[j])
      && (forall id :: id in table ==>
            table[id] < |frames| && table[id] !in free && frames[table[id]].pageId == id)
      && (forall f: nat :: f < |frames| ==>
            f in free || (frames[f].pageId in table && table[frames[f].pageId] == f))
    }

    ghost predicate Inv() {
      && Bookkeeping()
      && (forall f :: f in free ==> f !in evictable)
      && (forall f :: f in evictable ==> f < |frames|)
      && (forall f: nat :: f < |frames| ==> |frames[f].data| == PAGE_SIZE)
      && (forall id :: id in table ==> Resident(id))
    }

    /** What holds of every resident page: it is allocated, it may be evicted exactly
        when it is unpinned, and unless it is dirty the file holds the same bytes. */
    ghost predicate Resident(id: nat)
      requires id in table && table[id] < |frames|
    {
      var frame := frames[table[id]];
      && Allocated(id)
      && frame.pinCount >= 0
      && (table[id] in evictable <==> frame.pinCount == 0)
      && (frame.dirty || frame.data == file[id])
    }

    /** What page `id` holds, wherever its bytes are. */
    function Content(id: nat): Bytes
      requires id < |file|
    {
      if id in table && table[id] < |frames| then frames[table[id]].data else file[id]
    }

    function PinCount(id: nat): int {
      if id in table && table[id] < |frames| then frames[table[id]].pinCount else 0
    }

    /** The pages of the database and what they hold. */
    ghost function Store(): map<nat, Bytes> {
      map id: nat | id < |file| && Allocated(id) :: Content(id)
    }

    /** The pin count of every pinned page. */
    ghost function Pins(): map<nat, int> {
      map id | id in table && PinCount(id) > 0 :: PinCount(id)
    }

    /** The resident page `id` gets frame contents `frame`. */
    function WithFrame(id: nat, frame: Frame): PoolState
      requires id in table && table[id] < |frames|
    {
      var f := table[id];
      this.(frames := frames[f := frame],
            evictable := if frame.pinCount == 0 then evictable + {f} else evictable - {f})
    }

    /** The frame of page `id` goes back to the free list. */
    function Released(id: nat, atFront: bool): PoolState
      requires id in table
    {
      var f := table[id];
      this.(table := table - {id}, free := if atFront then [f] + free else free + [f], evictable := evictable - {f})
    }

    /** The first free frame takes page `id`. */
    function Installed(id: nat, frame: Frame): PoolState
      requires free != [] && free[0] < |frames|
    {
      var f := free[0];
      this.(frames := frames[f := frame], table := table[id := f], free := free[1..], evictable := evictable - {f})
    }
  }

  lemma StoreChangesAt(s: PoolState, t: PoolState, id: nat)
    requires |t.file| == |s.file| && t.fileFree == s.fileFree && s.Allocated(id)
    requires forall other: nat :: other != id && other < |s.file| ==> t.Content(other) == s.Content(other)
    ensures t.Store() == s.Store()[id := t.Content(id)]
  {
  }

  lemma PinsChangeAt(s: PoolState, t: PoolState, id: nat)
    requires forall other: nat :: other != id ==> t.PinCount(other) == s.PinCount(other)
    ensures t.Pins() == if t.PinCount(id) > 0 then s.Pins()[id := t.PinCount(id)] else s.Pins() - {id}
  {
  }

  lemma TableInjective(s: PoolState, id: nat, other: nat)
    requires s.Bookkeeping() && id in s.table && other in s.table && other != id
    ensures s.table[other] != s.table[id]
  {
  }

  /** What the invariant says about one resident page. */
  lemma ResidentPage(s: PoolState, id: nat)
    requires s.Inv() && id in s.table
    ensures s.table[id] < |s.frames| && s.frames[s.table[id]].pageId == id && s.Resident(id)
    ensures |s.frames[s.table[id]].data| == PAGE_SIZE
    ensures id in s.Store() && s.Store()[id] == s.frames[s.table[id]].data
    ensures id in s.Pins() <==> s.frames[s.table[id]].pinCount > 0
    ensures id in s.Pins() ==> s.Pins()[id] == s.frames[s.table[id]].pinCount
  {
    assert s.Resident(id);
  }

  lemma ReplaceFrameKeepsInv(s: PoolState, id: nat, frame: Frame)
    requires s.Inv() && id in s.table
    requires |frame.data| == PAGE_SIZE && frame.pageId == id && frame.pinCount >= 0
    requires frame.dirty || frame.data == s.file[id]
    ensures s.WithFrame(id, frame).Inv()
  {
    var t := s.WithFrame(id, frame);
    forall other | other in t.table && other != id ensures t.Resident(other) {
      assert s.Resident(other);
      TableInjective(s, id, other);
    }
  }

  /** Replacing the frame of one resident page changes what that page holds and
      how often it is pinned, and nothing else. */
  lemma ReplaceFrame(s: PoolState, id: nat, frame: Frame)
    requires s.Inv() && id in s.table
    requires |frame.data| == PAGE_SIZE && frame.pageId == id && frame.pinCount >= 0
    requires frame.dirty || frame.data == s.file[id]
    ensures s.WithFrame(id, frame).Inv()
    ensures s.WithFrame(id, frame).Store() == s.Store()[id := frame.data]
    ensures s.WithFrame(id, frame).Pins()
         == if frame.pinCount > 0 then s.Pins()[id := frame.pinCount] else s.Pins() - {id}
  {
    ReplaceFrameKeepsInv(s, id, frame);
    var t := s.WithFrame(id, frame);
    assert s.Resident(id);
    forall other: nat | other != id && other < |s.file|
      ensures t.Content(other) == s.Content(other)
    {
      if other in s.table { TableInjective(s, id, other); }
    }
    forall other: nat | other != id
      ensures t.PinCount(other) == s.PinCount(other)
    {
      if other in s.table { TableInjective(s, id, other); }
    }
    StoreChangesAt(s, t, id);
    PinsChangeAt(s, t, id);
  }

  lemma ReleaseKeepsInv(s: PoolState, id: nat, atFront: bool)
    requires s.Inv() && id in s.table && s.PinCount(id) == 0
    ensures s.Released(id, atFront).Inv()
  {
    var t := s.Released(id, atFront);
    var f := s.table[id];
    assert forall g :: g in t.free <==> g in s.free || g == f;
    forall other | other in t.table ensures t.Resident(other) && t.table[other] != f {
      assert s.Resident(other);
      TableInjective(s, id, other);
    }
  }

  /** Giving up the frame of an unpinned page loses at most that page's contents,
      and nothing when the file holds them. */
  lemma Release(s: PoolState, id: nat, atFront: bool)
    requires s.Inv() && id in s.table && s.PinCount(id) == 0
    ensures id < |s.file| && s.Released(id, atFront).Inv()
    ensures s.Released(id, atFront).Store() == s.Store()[id := s.file[id]]
    ensures s.Released(id, atFront).Pins() == s.Pins()
  {
    assert s.Resident(id);
    ReleaseKeepsInv(s, id, atFront);
    var t := s.Released(id, atFront);
    StoreChangesAt(s, t, id);
    PinsChangeAt(s, t, id);
    assert id !in s.Pins();
  }

  lemma InstallKeepsInv(s: PoolState, id: nat, frame: Frame)
    requires s.Inv() && s.free != [] && s.free[0] < |s.frames| && id !in s.table && s.Allocated(id)
    requires frame == Frame(s.file[id], id, 1, false) && |s.file[id]| == PAGE_SIZE
    ensures s.Installed(id, frame).Inv()
  {
    var t := s.Installed(id, frame);
    var f := s.free[0];
    assert forall g :: g in s.free <==> g in t.free || g == f;
    forall other | other in t.table && other != id ensures t.Resident(other) {
      assert s.Resident(other);
    }
    assert t.Resident(id);
  }

  /** Loading a page into a free frame changes no contents and pins that page once. */
  lemma Install(s: PoolState, id: nat, frame: Frame)
    requires s.Inv() && s.free != [] && s.free[0] < |s.frames| && id !in s.table && s.Allocated(id)
    requires frame == Frame(s.file[id], id, 1, false) && |s.file[id]| == PAGE_SIZE
    ensures s.Installed(id, frame).Inv()
    ensures s.Installed(id, frame).Store() == s.Store()
    ensures s.Installed(id, frame).Pins() == s.Pins()[id := 1]
  {
    InstallKeepsInv(s, id, frame);
    var t := s.Installed(id, frame);
    assert t.Content(id) == s.Content(id);
    StoreChangesAt(s, t, id);
    PinsChangeAt(s, t, id);
  }

  /** The file may change under a page that is dirty, and under a clean one if it still
      agrees with the frame. */
  lemma ChangeFile(s: PoolState, file: seq<Bytes>, fileFree: set<nat>)
    requires s.Inv() && |s.file| <= |file|
    requires forall id :: id in s.table ==>
               id !in fileFree && s.table[id] < |s.frames| && id < |file|
               && (s.frames[s.table[id]].dirty || s.frames[s.table[id]].data == file[id])
    ensures s.(file := file, fileFree := fileFree).Inv()
    ensures s.(file := file, fileFree := fileFree).Pins() == s.Pins()
    ensures forall id: nat :: id in s.table && id < |s.file| ==> s.(file := file, fileFree := fileFree).Content(id) == s.Content(id)
  {
    var t := s.(file := file, fileFree := fileFree);
    forall id | id in t.table ensures t.Resident(id) {
      assert s.Resident(id);
    }
    assert forall other: nat :: t.PinCount(other) == s.PinCount(other);
  }

  /** The frame the pool uses next: the first free one or, when none is free, `victim`. */
  function NextFrame(s: PoolState, victim: nat): nat {
    if s.free != [] then s.free[0] else victim
  }

  /** Page `id` takes over the next frame, with the file in a new state. */
  function TakeFrame(s: PoolState, victim: nat, id: nat, data: Bytes, file: seq<Bytes>, fileFree: set<nat>): PoolState
    requires NextFrame(s, victim) < |s.frames|
  {
    var f := NextFrame(s, victim);
    var table := if s.free != [] then s.table else s.table - {s.frames[f].pageId};
    PoolState(
      s.frames[f := Frame(data, id, 1, false)],
      table[id := f],
      if s.free != [] then s.free[1..] else [],
      s.evictable - {f},
      file,
      fileFree)
  }

  /** What the file must satisfy when page `id` takes a frame: the page that loses its
      frame is safe in the file, and nothing but `id` is allocated or changed. */
  ghost predicate SafeToTake(s: PoolState, victim: nat, id: nat, data: Bytes, file: seq<Bytes>, fileFree: set<nat>) {
    && (s.free == [] ==> victim in s.evictable)
    && id !in s.table && id < |file| && file[id] == data && |data| == PAGE_SIZE
    && |s.file| <= |file|
    && (forall other: nat :: other < |file| && other !in fileFree <==> s.Allocated(other) || other == id)
    && (forall other: nat :: s.Allocated(other) && other != id && other !in s.table ==> file[other] == s.file[other])
    && (forall other: nat :: other in s.table && s.Allocated(other) && s.table[other] < |s.frames| ==>
          || file[other] == s.file[other]
          || file[other] == s.frames[s.table[other]].data)
    && (s.free == [] && victim < |s.frames| && 0 <= s.frames[victim].pageId < |file| ==>
          file[s.frames[victim].pageId] == s.frames[victim].data)
  }

  lemma NextFrameIsUsable(s: PoolState, victim: nat)
    requires s.Inv() && (s.free == [] ==> victim in s.evictable)
    ensures NextFrame(s, victim) == (if s.free != [] then s.free[0] else victim) < |s.frames|
    ensures s.free == [] ==>
              && s.frames[victim].pageId in s.table && s.table[s.frames[victim].pageId] == victim
              && s.frames[victim].pinCount == 0
  {
    if s.free == [] {
      assert s.Resident(s.frames[victim].pageId);
    } else {
      assert s.free[0] in s.free;
    }
  }

  /** The part of taking a frame that happens in the file. */
  lemma TakeFile(s: PoolState, victim: nat, id: nat, data: Bytes, file: seq<Bytes>, fileFree: set<nat>)
    requires s.Inv() && SafeToTake(s, victim, id, data, file, fileFree)
    ensures s.(file := file, fileFree := fileFree).Inv()
    ensures s.(file := file, fileFree := fileFree).Store() == s.Store()[id := data]
    ensures s.(file := file, fileFree := fileFree).Pins() == s.Pins()
  {
    forall other | other in s.table
      ensures s.Resident(other) && other < |file| && s.Allocated(other)
    {
    }
    ChangeFile(s, file, fileFree);
    var t := s.(file := file, fileFree := fileFree);
    assert forall other: nat :: s.Allocated(other) && other != id ==> t.Content(other) == s.Content(other);
  }

  /** The part of taking a frame that happens in memory. */
  lemma TakeMemory(s: PoolState, victim: nat, id: nat, data: Bytes)
    requires s.Inv() && (s.free == [] ==> victim in s.evictable)
    requires id !in s.table && s.Allocated(id) && s.file[id] == data && |data| == PAGE_SIZE
    requires s.free == [] && victim < |s.frames| && 0 <= s.frames[victim].pageId < |s.file| ==>
               s.file[s.frames[victim].pageId] == s.frames[victim].data
    ensures NextFrame(s, victim) < |s.frames|
    ensures TakeFrame(s, victim, id, data, s.file, s.fileFree).Inv()
    ensures TakeFrame(s, victim, id, data, s.file, s.fileFree).Store() == s.Store()
    ensures TakeFrame(s, victim, id, data, s.file, s.fileFree).Pins() == s.Pins()[id := 1]
  {
    NextFrameIsUsable(s, victim);
    var frame := Frame(data, id, 1, false);
    if s.free != [] {
      Install(s, id, frame);
    } else {
      var v: nat := s.frames[victim].pageId;
      ResidentPage(s, v);
      Release(s, v, true);
      hide PoolState.Inv, PoolState.Store, PoolState.Pins;
      assert s.Store()[v := s.file[v]] == s.Store();
      Install(s.Released(v, true), id, frame);
      assert TakeFrame(s, victim, id, data, s.file, s.fileFree) == s.Released(v, true).Installed(id, frame);
    }
  }

  /** Giving a frame to page `id` pins that page once and changes no other contents. */
  lemma TakingAFrame(s: PoolState, victim: nat, id: nat, data: Bytes, file: seq<Bytes>, fileFree: set<nat>)
    requires s.Inv() && SafeToTake(s, victim, id, data, file, fileFree)
    ensures NextFrame(s, victim) < |s.frames|
    ensures TakeFrame(s, victim, id, data, file, fileFree).Inv()
    ensures TakeFrame(s, victim, id, data, file, fileFree).Store() == s.Store()[id := data]
    ensures TakeFrame(s, victim, id, data, file, fileFree).Pins() == s.Pins()[id := 1]
  {
    TakeFile(s, victim, id, data, file, fileFree);
    hide PoolState.Inv, PoolState.Store, PoolState.Pins;
    var s1 := s.(file := file, fileFree := fileFree);
    TakeMemory(s1, victim, id, data);
    assert TakeFrame(s1, victim, id, data, file, fileFree) == TakeFrame(s, victim, id, data, file, fileFree);
  }

  /** The file once the page in frame `victim` has been written back, if that frame
      is needed and dirty. */
  ghost predicate WrittenBack(s: PoolState, victim: nat, file: seq<Bytes>) {
    if s.free == [] && victim < |s.frames| && s.frames[victim].dirty && 0 <= s.frames[victim].pageId < |s.file| then
      file == s.file[s.frames[victim].pageId := s.frames[victim].data]
    else
      file == s.file
  }

  lemma SafeToFetch(s: PoolState, victim: nat, id: nat, data: Bytes, file: seq<Bytes>)
    requires s.Inv() && (s.free == [] ==> victim in s.evictable)
    requires id !in s.table && s.Allocated(id) && data == s.file[id] && |data| == PAGE_SIZE
    requires WrittenBack(s, victim, file)
    ensures SafeToTake(s, victim, id, data, file, s.fileFree)
  {
    NextFrameIsUsable(s, victim);
    if s.free == [] {
      assert s.Resident(s.frames[victim].pageId);
    }
  }

  lemma SafeToAllocate(s: PoolState, victim: nat, id: nat, written: seq<Bytes>, file: seq<Bytes>, fileFree: set<nat>)
    requires s.Inv() && (s.free == [] ==> victim in s.evictable)
    requires WrittenBack(s, victim, written)
    requires |s.file| <= |file| && id < |file| && |file[id]| == PAGE_SIZE && (id < |s.file| ==> id in s.fileFree)
    requires forall other: nat :: other < |file| && other !in fileFree <==> (other < |s.file| && other !in s.fileFree) || other == id
    requires forall other: nat :: other < |s.file| && other != id ==> file[other] == written[other]
    ensures SafeToTake(s, victim, id, file[id], file, fileFree)
  {
    NextFrameIsUsable(s, victim);
    if s.free == [] {
      assert s.Resident(s.frames[victim].pageId);
    }
    forall other: nat | other in s.table ensures other < |s.file| && other !in s.fileFree {
      ResidentPage(s, other);
    }
  }

  /** Page `id` has left the pool and the file has changed. */
  function Dropped(s: PoolState, id: nat, file: seq<Bytes>, fileFree: set<nat>): PoolState {
    if id in s.table && s.table[id] < |s.frames| then
      var f := s.table[id];
      PoolState(s.frames[f := Frame(Zeros(PAGE_SIZE), INVALID_PAGE_ID, 0, false)],
                s.table - {id}, s.free + [f], s.evictable - {f}, file, fileFree)
    else
      s.(file := file, fileFree := fileFree)
  }

  /** Resetting a free frame does not matter. */
  lemma ResetFreeFrame(s: PoolState, f: nat, frame: Frame)
    requires s.Inv() && f in s.free && f < |s.frames| && |frame.data| == PAGE_SIZE
    ensures s.(frames := s.frames[f := frame]).Inv()
    ensures s.(frames := s.frames[f := frame]).Store() == s.Store()
    ensures s.(frames := s.frames[f := frame]).Pins() == s.Pins()
  {
    var t := s.(frames := s.frames[f := frame]);
    forall id | id in t.table ensures t.Resident(id) {
      assert s.Resident(id);
    }
    assert forall id: nat :: id < |s.file| ==> t.Content(id) == s.Content(id);
    assert forall id: nat :: t.PinCount(id) == s.PinCount(id);
  }

  /** Dropping an unpinned page changes nothing but that page. */
  lemma DropPage(s: PoolState, id: nat, file: seq<Bytes>, fileFree: set<nat>)
    requires s.Inv() && s.PinCount(id) == 0
    requires |file| == |s.file| && forall other: nat :: other < |file| && other != id ==> file[other] == s.file[other]
    requires fileFree == s.fileFree || fileFree == s.fileFree + {id}
    ensures Dropped(s, id, file, fileFree).Inv()
    ensures Dropped(s, id, file, fileFree).Store() - {id} == s.Store() - {id}
    ensures id in Dropped(s, id, file, fileFree).Store() <==> id in s.Store() && id !in fileFree
    ensures Dropped(s, id, file, fileFree).Pins() == s.Pins()
  {
    var s1 := s;
    if id in s.table {
      ResidentPage(s, id);
      Release(s, id, false);
      s1 := s.Released(id, false);
      ResetFreeFrame(s1, s.table[id], Frame(Zeros(PAGE_SIZE), INVALID_PAGE_ID, 0, false));
      s1 := s1.(frames := s1.frames[s.table[id] := Frame(Zeros(PAGE_SIZE), INVALID_PAGE_ID, 0, false)]);
    }
    DropFromFile(s1, id, file, fileFree);
  }

  lemma DropFromFile(s: PoolState, id: nat, file: seq<Bytes>, fileFree: set<nat>)
    requires s.Inv() && id !in s.table
    requires |file| == |s.file| && forall other: nat :: other < |file| && other != id ==> file[other] == s.file[other]
    requires fileFree == s.fileFree || fileFree == s.fileFree + {id}
    ensures s.(file := file, fileFree := fileFree).Inv()
    ensures s.(file := file, fileFree := fileFree).Store() - {id} == s.Store() - {id}
    ensures id in s.(file := file, fileFree := fileFree).Store() <==> id in s.Store() && id !in fileFree
    ensures s.(file := file, fileFree := fileFree).Pins() == s.Pins()
  {
    forall other | other in s.table
      ensures s.table[other] < |s.frames| && other < |file| && other !in fileFree
      ensures s.frames[s.table[other]].dirty || s.frames[s.table[other]].data == file[other]
    {
      assert s.Resident(other);
    }
    ChangeFile(s, file, fileFree);
  }

  lemma {:induction false} PinnedFramesArePages(s: PoolState, n: nat) returns (ids: set<nat>)
    requires s.Inv() && s.free == [] && s.evictable == {} && n <= |s.frames|
    ensures |ids| == n && ids <= s.Pins().Keys
    ensures forall id :: id in ids ==> s.table[id] < n
    decreases n
  {
    ids := {};
    if n > 0 {
      ids := PinnedFramesArePages(s, n - 1);
      var id: nat := s.frames[n - 1].pageId;
      assert id in s.table && s.Resident(id);
      ids := ids + {id};
    }
  }

  /** A pool that can take no other page has a pinned page in every frame. */
  lemma NoRoomMeansAllPinned(s: PoolState)
    requires s.Inv() && s.free == [] && s.evictable == {}
    ensures |s.Pins()| >= |s.frames|
  {
    var ids := PinnedFramesArePages(s, |s.frames|);
    SubsetSize(ids, s.Pins().Keys);
  }

  lemma {:induction false} SubsetSize<T>(a: set<T>, b: set<T>)
    requires a <= b
    ensures |a| <= |b|
    decreases a
  {
    if x :| x in a {
      SubsetSize(a - {x}, b - {x});
    }
  }

  // ---- No frame is lost ----

  lemma {:induction false} SetOfDistinct(s: seq<nat>) returns (frames: set<nat>)
    requires forall i, j :: 0 <= i < j < |s| ==> s[i] != s[j]
    ensures |frames| == |s| && forall f: nat :: f in frames <==> f in s
    decreases |s|
  {
    frames := {};
    if s != [] {
      var before := s[..|s| - 1];
      frames := SetOfDistinct(before);
      assert s == before + [s[|s| - 1]];
      frames := frames + {s[|s| - 1]};
    }
  }

  /** The frames of the pages `ids`. */
  lemma {:induction false} FramesOf(s: PoolState, ids: set<nat>) returns (frames: set<nat>)
    requires s.Bookkeeping() && ids <= s.table.Keys
    ensures |frames| == |ids| && forall f: nat :: f in frames <==> exists id :: id in ids && s.table[id] == f
    decreases ids
  {
    frames := {};
    if id: nat :| id in ids {
      frames := FramesOf(s, ids - {id});
      forall other | other in ids && other != id ensures s.table[other] != s.table[id] {
        TableInjective(s, id, other);
      }
      frames := frames + {s.table[id]};
    }
  }

  lemma {:induction false} FirstFrames(n: nat) returns (frames: set<nat>)
    ensures |frames| == n && forall f: nat :: f in frames <==> f < n
    decreases n
  {
    frames := {};
    if n > 0 {
      frames := FirstFrames(n - 1);
      frames := frames + {n - 1};
    }
  }

  lemma FreeAndResident(s: PoolState, free: set<nat>, resident: set<nat>, all: set<nat>)
    requires s.Inv()
    requires forall f: nat :: f in free <==> f in s.free
    requires forall f: nat :: f in resident <==> exists id :: id in s.table && s.table[id] == f
    requires forall f: nat :: f in all <==> f < |s.frames|
    ensures free !! resident && free + resident == all
  {
    forall f: nat | f in all ensures f in free || f in resident {
      if f !in s.free { assert s.table[s.frames[f].pageId] == f; }
    }
  }

  lemma EvictableAndPinned(s: PoolState, resident: set<nat>, pinned: set<nat>)
    requires s.Inv()
    requires forall f: nat :: f in resident <==> exists id :: id in s.table && s.table[id] == f
    requires forall f: nat :: f in pinned <==> exists id :: id in s.Pins() && s.table[id] == f
    ensures pinned !! s.evictable && pinned + s.evictable == resident
  {
    forall f: nat | f in resident ensures f in pinned || f in s.evictable {
      var id: nat :| id in s.table && s.table[id] == f;
      ResidentPage(s, id);
    }
    forall f: nat | f in pinned ensures f in resident && f !in s.evictable {
      var id: nat :| id in s.Pins() && s.table[id] == f;
      ResidentPage(s, id);
    }
    forall f: nat | f in s.evictable ensures f in resident {
      assert f !in s.free && s.table[s.frames[f].pageId] == f;
    }
  }

  /** Free and resident frames add up to the pool, and evictable and pinned pages to the
      resident ones: no frame is ever lost or counted twice. */
  lemma NoFrameIsLost(s: PoolState)
    requires s.Inv()
    ensures |s.free| + |s.table| == |s.frames|
    ensures |s.evictable| + |s.Pins()| == |s.table|
  {
    assert s.Bookkeeping() && s.Pins().Keys <= s.table.Keys;
    var free := SetOfDistinct(s.free);
    var resident := FramesOf(s, s.table.Keys);
    var all := FirstFrames(|s.frames|);
    var pinned := FramesOf(s, s.Pins().Keys);
    hide PoolState.Inv, PoolState.Bookkeeping, PoolState.Pins;
    FreeAndResident(s, free, resident, all);
    EvictableAndPinned(s, resident, pinned);
    assert |free + resident| == |free| + |resident|;
    assert |pinned + s.evictable| == |pinned| + |s.evictable|;
    assert |s.table.Keys| == |s.table| && |s.Pins().Keys| == |s.Pins()|;
  }

  function UpTo(n: nat): (s: set<nat>)
    ensures forall p: nat :: p in s <==> p < n
  {
    if n == 0 then {} else UpTo(n - 1) + {n - 1}
  }

  lemma {:induction false} UpToSize(n: nat)
    ensures |UpTo(n)| == n
  {
    if n > 0 {
      UpToSize(n - 1);
    }
  }

  /** The allocated pages are those of the file that are not free. */
  lemma AllocatedCount(taken: set<nat>, n: nat, free: set<nat>)
    requires forall p: nat :: p in taken <==> p < n && p !in free
    requires forall p :: p in free ==> p < n
    ensures |taken| == n - |free|
    ensures |free| < n <==> |taken| > 0
    ensures |free| > 0 <==> free != {}
  {
    UpToSize(n);
    assert taken == UpTo(n) - free;
    assert UpTo(n) == taken + free && taken !! free;
  }
}
