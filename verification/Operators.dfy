// The operators of a query plan (src/query/operators/).
module Operators {
  import opened Common
  import opened Buffer
  import opened BucketFormat
  import opened RecordFormat
  import opened RecordCodecs
  import opened CatalogFormat
  import opened Catalogs
  import opened PageChains
  import opened HeapStates
  import opened HeapScans
  import opened HeapFiles
  import opened IndexStates
  import opened IndexOutcomes
  import opened HashIndexes
  import opened TableStates
  import opened TableOutcomes
  import opened Queries

  /** Reads a heap file from its first record to its last. */
  class SeqScanOperator {
    const heapFile: HeapFile
    var started: bool
    var finished: bool
    var currentRid: RecordID
    var scanStatus: StatusCode

    constructor (heapFile: HeapFile)
      ensures this.heapFile == heapFile
    {
      this.heapFile := heapFile;
      started, finished, currentRid, scanStatus := false, true, RecordID(INVALID_PAGE_ID, 0), OK;
    }

    /** The scan has returned the first `k` records. */
    ghost predicate At(s: Store, k: nat)
      reads this
    {
      var order := ScanOrder(s, heapFile.firstPageId);
      && !finished && scanStatus == OK && k <= |order|
      && if started then k >= 1 && currentRid == order[k - 1] else k == 0
    }

    method Open() returns (status: StatusCode)
      modifies this
      ensures status == OK && forall s: Store :: At(s, 0)
    {
      started, finished, currentRid, scanStatus := false, false, RecordID(INVALID_PAGE_ID, 0), OK;
      status := OK;
    }

    /** The next record; none when the scan is over or has failed. */
    method Next(ghost k: nat) returns (found: bool, record: Bytes, rid: RecordID)
      requires heapFile.bpm.Valid() && HeapOk(heapFile.bpm.Store(), heapFile.firstPageId) && this !in heapFile.bpm.Repr
      requires At(heapFile.bpm.Store(), k)
      modifies this, heapFile.bpm.Repr
      ensures heapFile.bpm.Valid() && heapFile.bpm.Pins() == old(heapFile.bpm.Pins())
      ensures heapFile.bpm.Store() == old(heapFile.bpm.Store())
      ensures found ==> At(heapFile.bpm.Store(), k + 1) && RowAtPosition(heapFile.bpm.Store(), heapFile.firstPageId, k, record, rid)
      ensures !found ==> finished && (scanStatus == OK ==> k == |ScanOrder(heapFile.bpm.Store(), heapFile.firstPageId)|)
      ensures old(heapFile.bpm.Ready()) ==> scanStatus == OK
    {
      hide *;
      ghost var s := heapFile.bpm.Store();
      ghost var first := heapFile.firstPageId;
      AtParts(s, k);
      HeapIsResumable(s, first, k);
      var status;
      label Before:
      if started {
        status, record, rid := heapFile.GetNextRecord(currentRid, first);
      } else {
        status, record, rid := heapFile.GetFirstRecord();
      }
      NextRow(s, first, k, status, record, rid);
      started := true;
      if status == NOT_FOUND {
        finished := true;
        return false, record, rid;
      }
      if status != OK {
        scanStatus := status;
        finished := true;
        return false, record, rid;
      }
      currentRid := rid;
      MakeAt(s, k);
      return true, record, rid;
    }

    lemma AtParts(s: Store, k: nat)
      requires At(s, k)
      ensures !finished && scanStatus == OK && k <= |ScanOrder(s, heapFile.firstPageId)|
      ensures if started then k >= 1 && currentRid == ScanOrder(s, heapFile.firstPageId)[k - 1] else k == 0
    {
      hide ScanOrder;
    }

    lemma MakeAt(s: Store, k: nat)
      requires !finished && scanStatus == OK && started && k < |ScanOrder(s, heapFile.firstPageId)|
      requires currentRid == ScanOrder(s, heapFile.firstPageId)[k]
      ensures At(s, k + 1)
    {
      hide ScanOrder;
    }

    method Close() returns (status: StatusCode)
      modifies this
      ensures status == scanStatus == old(scanStatus) && finished
    {
      finished := true;
      status := scanStatus;
    }
  }

  /** `record` is the row at position `k` of the scan. */
  ghost predicate RowAtPosition(s: Store, first: int, k: nat, record: Bytes, rid: RecordID) {
    k < |ScanOrder(s, first)| && rid == ScanOrder(s, first)[k] && rid in HeapRows(s, first) && record == HeapRows(s, first)[rid]
  }

  lemma HeapIsResumable(s: Store, first: int, k: nat)
    requires HeapOk(s, first) && k <= |ScanOrder(s, first)|
    ensures k > 0 ==>
              var rid := ScanOrder(s, first)[k - 1];
              && rid.pageId in HeapPages(s, first) && rid.pageId > HEADER_PAGE_ID
              && ScanFrom(s, first, rid.pageId, rid.slotId + 1) == ScanOrder(s, first)[k..]
    ensures k == 0 ==> ScanOrder(s, first)[k..] == ScanOrder(s, first)
  {
    hide *;
    if k > 0 {
      ScanResumes(s, first, k - 1);
    }
  }

  lemma NextRow(s: Store, first: int, k: nat, status: StatusCode, record: Bytes, rid: RecordID)
    requires k <= |ScanOrder(s, first)| && FoundRow(s, first, ScanOrder(s, first)[k..], status, record, rid)
    ensures status == OK ==> RowAtPosition(s, first, k, record, rid) && k < |ScanOrder(s, first)| && rid == ScanOrder(s, first)[k]
    ensures status == NOT_FOUND ==> k == |ScanOrder(s, first)|
  {
    hide ScanOrder, HeapRows;
  }

  /** Reads the rows that an index has for one key. */
  class IndexScanOperator {
    const index: HashIndex
    const heapFile: HeapFile
    const encodedKey: Bytes
    var matchingRids: seq<RecordID>
    var cursor: nat
    var scanStatus: StatusCode

    constructor (index: HashIndex, heapFile: HeapFile, encodedKey: Bytes)
      requires index.bpm == heapFile.bpm
      ensures this.index == index && this.heapFile == heapFile && this.encodedKey == encodedKey
    {
      this.index, this.heapFile, this.encodedKey := index, heapFile, encodedKey;
      matchingRids, cursor, scanStatus := [], 0, OK;
    }

    /** The scan has returned the first `k` of the matching rows. */
    ghost predicate At(s: Store, k: nat)
      reads this
    {
      && scanStatus == OK && cursor == k <= |matchingRids|
      && forall rid :: rid in matchingRids ==> Readable(s, rid)
    }

    /** Looks the key up; the rows of the result are read one by one later. */
    method Open() returns (status: StatusCode)
      requires heapFile.bpm.Valid() && index.bpm == heapFile.bpm && this !in heapFile.bpm.Repr
      requires IndexOk(heapFile.bpm.Store(), index.headerPageId)
      modifies this, heapFile.bpm.Repr
      ensures heapFile.bpm.Valid() && heapFile.bpm.Pins() == old(heapFile.bpm.Pins())
      ensures heapFile.bpm.Store() == old(heapFile.bpm.Store())
      ensures status == scanStatus && cursor == 0
      ensures status == OK ==> LookedUp(heapFile.bpm.Store(), index.headerPageId, encodedKey, matchingRids)
      ensures old(heapFile.bpm.Ready()) ==> status == if |encodedKey| <= MAX_KEY_LENGTH then OK else INVALID_ARGUMENT
    {
      hide *;
      matchingRids, cursor := [], 0;
      scanStatus, matchingRids := index.GetValue(encodedKey);
      status := scanStatus;
    }

    /** The next matching record. A record id that leads to no record is skipped; with the
        pool ready, that cannot happen as long as rows and index agree. */
    method Next(ghost k: nat) returns (found: bool, record: Bytes, rid: RecordID)
      requires heapFile.bpm.Valid() && this !in heapFile.bpm.Repr
      requires At(heapFile.bpm.Store(), k)
      modifies this, heapFile.bpm.Repr
      ensures heapFile.bpm.Valid() && heapFile.bpm.Pins() == old(heapFile.bpm.Pins())
      ensures heapFile.bpm.Store() == old(heapFile.bpm.Store()) && matchingRids == old(matchingRids)
      ensures found ==> RowAt(heapFile.bpm.Store(), rid) == Some(record)
      ensures found ==> 0 < cursor <= |matchingRids| && rid == matchingRids[cursor - 1] && k < cursor && At(heapFile.bpm.Store(), cursor)
      ensures old(heapFile.bpm.Ready()) ==> scanStatus == OK && (found <==> k < |matchingRids|) && (found ==> cursor == k + 1)
    {
      hide *;
      ghost var s := heapFile.bpm.Store();
      IndexAtParts(s, k);
      heapFile.bpm.ReadyParts();
      record, rid := [], RecordID(INVALID_PAGE_ID, 0);
      while cursor < |matchingRids|
        invariant heapFile.bpm.Valid() && heapFile.bpm.Pins() == old(heapFile.bpm.Pins()) && heapFile.bpm.Store() == s
        invariant matchingRids == old(matchingRids) && k <= cursor <= |matchingRids| && scanStatus == OK
        invariant old(heapFile.bpm.Ready()) ==> cursor == k
      {
        var candidate := matchingRids[cursor];
        cursor := cursor + 1;
        assert candidate in matchingRids;
        heapFile.ReadablePage(candidate);
        ReadIsParts(s, candidate);
        heapFile.bpm.ReadyParts();
        var status;
        status, record := heapFile.GetRecord(candidate);
        if status == NOT_FOUND {
          continue;
        }
        if status != OK {
          scanStatus := status;
          return false, record, rid;
        }
        rid := candidate;
        MakeIndexAt(s, cursor);
        return true, record, rid;
      }
      found := false;
    }

    lemma IndexAtParts(s: Store, k: nat)
      requires At(s, k)
      ensures scanStatus == OK && cursor == k <= |matchingRids|
      ensures forall rid :: rid in matchingRids ==> Readable(s, rid)
    {
      hide Readable;
    }

    lemma MakeIndexAt(s: Store, k: nat)
      requires scanStatus == OK && cursor == k <= |matchingRids|
      requires forall rid :: rid in matchingRids ==> Readable(s, rid)
      ensures At(s, k)
    {
      hide Readable;
    }

    method Close() returns (status: StatusCode)
      modifies this
      ensures status == scanStatus == old(scanStatus)
    {
      matchingRids, cursor := [], 0;
      status := scanStatus;
    }
  }

  /** The operator that reads the table. */
  datatype Source = FromHeap(heapScan: SeqScanOperator) | FromIndex(indexScan: IndexScanOperator)

  /** A scan and the FilterOperators on top of it: a row passes the filters in the order of
      the conditions, and the first one it fails drops it. */
  class FilterPlan {
    const source: Source
    const bpm: BufferPoolManager
    const first: nat
    const schema: Schema
    const conditions: seq<Condition>
    var filterStatus: StatusCode
    ghost var position: nat

    constructor (source: Source, bpm: BufferPoolManager, first: nat, schema: Schema, conditions: seq<Condition>)
      ensures this.source == source && this.bpm == bpm && this.first == first
      ensures this.schema == schema && this.conditions == conditions
    {
      this.source, this.bpm, this.first, this.schema, this.conditions := source, bpm, first, schema, conditions;
      filterStatus, position := OK, 0;
    }

    ghost function Objects(): set<object> {
      {this} + match source case FromHeap(scan) => {scan as object} case FromIndex(scan) => {scan as object}
    }

    /** The operators read the table that the plan is for, and are not part of the pool. */
    ghost predicate Wired() {
      && Objects() !! bpm.Repr
      && match source
         case FromHeap(scan) => scan.heapFile.bpm == bpm && scan.heapFile.firstPageId == first
         case FromIndex(scan) => scan.heapFile.bpm == bpm && scan.heapFile.firstPageId == first && scan.index.bpm == bpm
    }

    /** The record ids in the order in which the source returns them. */
    ghost function Order(s: Store): seq<RecordID>
      reads Objects()
    {
      match source
      case FromHeap(scan) => ScanOrder(s, first)
      case FromIndex(scan) => scan.matchingRids
    }

    /** The source has returned the first `position` record ids, and nothing has failed. */
    ghost predicate Running(s: Store)
      reads Objects()
    {
      && filterStatus == OK
      && match source
         case FromHeap(scan) => scan.heapFile.firstPageId == first && scan.At(s, position)
         case FromIndex(scan) => scan.heapFile.firstPageId == first && scan.At(s, position)
    }

    /** The selected rows that are still to come. */
    ghost function Remaining(s: Store): seq<RecordID>
      reads Objects()
    {
      if position <= |Order(s)| then Selected(s, schema, conditions, Order(s)[position..]) else []
    }

    ghost function SourceStatus(): StatusCode
      reads Objects()
    {
      match source
      case FromHeap(scan) => scan.scanStatus
      case FromIndex(scan) => scan.scanStatus
    }

    /** Whether a record satisfies a condition; a record that cannot be read sets the status. */
    method Evaluate(record: Bytes, condition: Condition) returns (yes: bool)
      modifies this`filterStatus
      ensures yes <==> Meets(schema, record, condition)
      ensures yes ==> filterStatus == OK
      ensures filterStatus == if Decode(schema, record).None? then IO_ERROR
                              else if PositionOf(schema, condition.column) >= |schema| then INVALID_ARGUMENT else OK
    {
      hide Decode, StableHash, PositionOf;
      var value;
      var position := PositionOf(schema, condition.column);
      filterStatus, value := GetValue(schema, record, position);
      ValueParts(schema, record, position);
      if filterStatus != OK {
        return false;
      }
      hide ValueOf;
      if value.Null? {
        return false;
      }
      match value {
        case Integer(i) => yes := condition.target.Integer? && CompareIntegers(i, condition.target.i, condition.op);
        case Text(s) => yes := condition.target.Text? && CompareStrings(s, condition.target.s, condition.op);
        case Boolean(b) => yes := condition.target.Boolean? && condition.op == EQ && b == condition.target.b;
      }
    }

    /** Whether a record passes every filter, tried in order; a record that cannot be read
        stops the plan. */
    method PassesFilters(record: Bytes) returns (yes: bool)
      requires filterStatus == OK && ColumnsExist(conditions, schema)
      modifies this`filterStatus
      ensures filterStatus == OK ==> (yes <==> MeetsAll(schema, record, conditions))
      ensures yes ==> filterStatus == OK
      ensures Decode(schema, record).Some? ==> filterStatus == OK
    {
      hide Decode, Meets, HasColumn, PositionOf;
      for k := 0 to |conditions|
        invariant forall j: nat :: j < k ==> Meets(schema, record, conditions[j])
        invariant filterStatus == OK
      {
        PositionFound(schema, conditions[k].column);
        var met := Evaluate(record, conditions[k]);
        if !met {
          return false;
        }
      }
      yes := true;
    }

    lemma WiredParts()
      requires Wired()
      ensures this in Objects() && this !in bpm.Repr && Objects() !! bpm.Repr
      ensures source.FromHeap? ==>
                && source.heapScan in Objects() && source.heapScan !in bpm.Repr
                && source.heapScan.heapFile.bpm == bpm && source.heapScan.heapFile.firstPageId == first
      ensures source.FromIndex? ==>
                && source.indexScan in Objects() && source.indexScan !in bpm.Repr && source.indexScan.index.bpm == bpm
                && source.indexScan.heapFile.bpm == bpm && source.indexScan.heapFile.firstPageId == first
    {
    }

    lemma OrderParts(s: Store)
      ensures source.FromHeap? ==> Order(s) == ScanOrder(s, first) && SourceStatus() == source.heapScan.scanStatus
      ensures source.FromIndex? ==> Order(s) == source.indexScan.matchingRids && SourceStatus() == source.indexScan.scanStatus
    {
      hide ScanOrder;
    }

    lemma RunningParts(s: Store)
      requires Running(s)
      ensures filterStatus == OK && position <= |Order(s)| && SourceStatus() == OK
      ensures source.FromHeap? ==> source.heapScan.heapFile.firstPageId == first && source.heapScan.At(s, position)
      ensures source.FromIndex? ==> source.indexScan.heapFile.firstPageId == first && source.indexScan.At(s, position)
    {
      hide ScanOrder, HeapRows;
    }

    lemma MakeRunning(s: Store)
      requires filterStatus == OK
      requires source.FromHeap? ==> source.heapScan.heapFile.firstPageId == first && source.heapScan.At(s, position)
      requires source.FromIndex? ==> source.indexScan.heapFile.firstPageId == first && source.indexScan.At(s, position)
      ensures Running(s)
    {
      hide ScanOrder, HeapRows, SeqScanOperator.At, IndexScanOperator.At;
    }

    /** The next row of the source. */
    method Pull() returns (found: bool, record: Bytes, rid: RecordID)
      requires bpm.Valid() && HeapOk(bpm.Store(), first) && Wired() && Running(bpm.Store())
      modifies Objects(), bpm.Repr
      ensures bpm.Valid() && bpm.Pins() == old(bpm.Pins()) && bpm.Store() == old(bpm.Store())
      ensures Order(bpm.Store()) == old(Order(bpm.Store())) && filterStatus == OK
      ensures !found ==> position == old(position)
      ensures found ==> Running(bpm.Store()) && RowIs(bpm.Store(), record, rid)
      ensures found ==> old(position) < position <= |Order(bpm.Store())| && rid == Order(bpm.Store())[position - 1]
      ensures old(bpm.Ready()) ==> SourceStatus() == OK && (found <==> old(position) < |Order(bpm.Store())|)
      ensures old(bpm.Ready()) && found ==> position == old(position) + 1
    {
      hide *;
      ghost var s := bpm.Store();
      RunningParts(s);
      WiredParts();
      OrderParts(s);
      match source {
        case FromHeap(scan) =>
          found, record, rid := scan.Next(position);
          if found {
            PositionParts(s, first, position, record, rid);
            position := position + 1;
            MakeRunning(s);
          }
        case FromIndex(scan) =>
          found, record, rid := scan.Next(position);
          if found {
            position := scan.cursor;
            MakeRowIs(s, record, rid);
            MakeRunning(s);
          }
      }
      OrderParts(s);
    }

    lemma RemainingIs(s: Store)
      ensures position <= |Order(s)| ==> Remaining(s) == Selected(s, schema, conditions, Order(s)[position..])
    {
      hide ScanOrder, Selected;
    }

    /** The next row that passes the filters. */
    method Next() returns (found: bool, record: Bytes, rid: RecordID)
      requires bpm.Valid() && HeapOk(bpm.Store(), first) && Wired() && Running(bpm.Store())
      requires ColumnsExist(conditions, schema)
      modifies Objects(), bpm.Repr
      ensures bpm.Valid() && bpm.Pins() == old(bpm.Pins()) && bpm.Store() == old(bpm.Store())
      ensures found ==> Running(bpm.Store()) && RowIs(bpm.Store(), record, rid) && MeetsAll(schema, record, conditions)
      ensures Order(bpm.Store()) == old(Order(bpm.Store()))
      ensures old(position) <= position <= |Order(bpm.Store())| && (found ==> old(position) < position && rid in Order(bpm.Store()))
      ensures old(bpm.Ready()) ==> SourceStatus() == OK
      ensures old(bpm.Ready()) && filterStatus == OK ==> Advanced(old(Remaining(bpm.Store())), Remaining(bpm.Store()), found, rid)
      ensures Decodable(bpm.Store(), schema, Order(bpm.Store())) ==> filterStatus == OK
    {
      hide *;
      ghost var s := bpm.Store();
      ghost var order := Order(s);
      ghost var remaining := Remaining(s);
      WiredParts();
      RunningParts(s);
      RemainingIs(s);
      NothingSelected(s, schema, conditions, order);
      bpm.ReadyParts();
      found, record, rid := true, [], RecordID(INVALID_PAGE_ID, 0);
      while found
        invariant bpm.Valid() && bpm.Pins() == old(bpm.Pins()) && bpm.Store() == s && Order(s) == order
        invariant filterStatus == OK && position <= |order| && old(position) <= position
        invariant found ==> Running(s)
        invariant old(bpm.Ready()) ==> SourceStatus() == OK
        invariant old(bpm.Ready()) ==> if found then remaining == Remaining(s) else remaining == []
        decreases |order| - position + if found then 1 else 0
      {
        ghost var k := position;
        RunningParts(s);
        RemainingIs(s);
        bpm.ReadyParts();
        found, record, rid := Pull();
        if found {
          RunningParts(s);
          RemainingIs(s);
          RowDecodes(s, schema, order, record, rid);
          if old(bpm.Ready()) {
            SelectedStep(s, schema, conditions, order, k, record);
          }
          label Pulled:
          var passes := PassesFilters(record);
          FilterKeeps@Pulled(s);
          if passes {
            MakeAdvanced(remaining, Remaining(s), rid);
            return true, record, rid;
          }
          if filterStatus != OK {
            return false, record, rid;
          }
        }
      }
      MakeAdvanced(remaining, Remaining(s), rid);
    }

    /** Evaluating a filter changes nothing but its own status. */
    twostate lemma FilterKeeps(new s: Store)
      requires source.FromHeap? ==> unchanged(source.heapScan)
      requires source.FromIndex? ==> unchanged(source.indexScan)
      requires position == old(position)
      ensures Order(s) == old(Order(s)) && SourceStatus() == old(SourceStatus())
      ensures old(Running(s)) && filterStatus == OK ==> Running(s)
      ensures Remaining(s) == old(Remaining(s))
    {
      hide ScanOrder, HeapRows, Selected, Readable;
    }

    /** Checks the conditions and opens the source. */
    method Open() returns (status: StatusCode)
      requires bpm.Valid() && HeapOk(bpm.Store(), first) && Wired()
      requires source.FromIndex? ==> IndexOk(bpm.Store(), source.indexScan.index.headerPageId)
      modifies Objects(), bpm.Repr
      ensures bpm.Valid() && bpm.Pins() == old(bpm.Pins()) && bpm.Store() == old(bpm.Store())
      ensures status == OK ==> ColumnsExist(conditions, schema) && position == 0 && filterStatus == OK && SourceStatus() == OK
      ensures status == OK && source.FromHeap? ==> Running(bpm.Store()) && Order(bpm.Store()) == ScanOrder(bpm.Store(), first)
      ensures status == OK && source.FromIndex? ==>
                && LookedUp(bpm.Store(), source.indexScan.index.headerPageId, source.indexScan.encodedKey, source.indexScan.matchingRids)
                && source.indexScan.cursor == 0 && Order(bpm.Store()) == source.indexScan.matchingRids
      ensures old(bpm.Ready()) ==>
                status == if ColumnsExist(conditions, schema) && (source.FromIndex? ==> |source.indexScan.encodedKey| <= MAX_KEY_LENGTH)
                          then OK else INVALID_ARGUMENT
    {
      hide *;
      ghost var s := bpm.Store();
      WiredParts();
      ColumnsExistIs();
      bpm.ReadyParts();
      position := 0;
      filterStatus := OK;
      for k := 0 to |conditions|
        invariant forall j: nat :: j < k ==> HasColumn(schema, conditions[j].column)
        invariant filterStatus == OK && position == 0
        modifies this`filterStatus
      {
        var columnFound, column := FindColumn(schema, conditions[k].column);
        if !columnFound {
          filterStatus := INVALID_ARGUMENT;
          return INVALID_ARGUMENT;
        }
      }
      match source {
        case FromHeap(scan) =>
          status := scan.Open();
          MakeRunning(s);
          RunningParts(s);
        case FromIndex(scan) =>
          status := scan.Open();
      }
      OrderParts(s);
    }

    lemma ColumnsExistIs()
      ensures ColumnsExist(conditions, schema) <==> forall k: nat :: k < |conditions| ==> HasColumn(schema, conditions[k].column)
    {
      hide HasColumn;
    }

    /** The first failure, if there was one. */
    method Close() returns (status: StatusCode)
      requires Wired()
      modifies Objects()
      ensures status == if old(filterStatus) != OK then old(filterStatus) else old(SourceStatus())
    {
      hide ScanOrder, HeapRows, Selected;
      var childStatus;
      match source {
        case FromHeap(scan) => childStatus := scan.Close();
        case FromIndex(scan) => childStatus := scan.Close();
      }
      status := if filterStatus != OK then filterStatus else childStatus;
    }
  }

  /** Cuts the rows of a plan down to some of their columns. */
  class ProjectionOperator {
    const child: FilterPlan
    const inputSchema: Schema
    const selectedFields: seq<nat>
    var projectionStatus: StatusCode

    constructor (child: FilterPlan, inputSchema: Schema, selectedFields: seq<nat>)
      ensures this.child == child && this.inputSchema == inputSchema && this.selectedFields == selectedFields
    {
      this.child, this.inputSchema, this.selectedFields, projectionStatus := child, inputSchema, selectedFields, OK;
    }

    /** The operator is none of the objects below it. */
    ghost predicate Apart() {
      this !in child.Objects() && this !in child.bpm.Repr
    }

    lemma MakeApart()
      requires this !in child.bpm.Repr
      ensures Apart()
    {
    }

    lemma ApartParts()
      requires Apart()
      ensures this !in child.Objects() && this !in child.bpm.Repr
      ensures child.source.FromHeap? ==> child.source.heapScan as object != this
      ensures child.source.FromIndex? ==> child.source.indexScan as object != this
    {
    }

    /** Checks the columns and opens the child. */
    method Open() returns (status: StatusCode)
      requires child.bpm.Valid() && HeapOk(child.bpm.Store(), child.first) && child.Wired() && Apart()
      requires child.source.FromIndex? ==> IndexOk(child.bpm.Store(), child.source.indexScan.index.headerPageId)
      modifies this, child.Objects(), child.bpm.Repr
      ensures child.bpm.Valid() && child.bpm.Pins() == old(child.bpm.Pins()) && child.bpm.Store() == old(child.bpm.Store())
      ensures selectedFields == [] || !InRange(selectedFields, |inputSchema|) ==> status == INVALID_ARGUMENT
      ensures status == OK ==> Opened(child, child.bpm.Store()) && projectionStatus == OK
      ensures old(child.bpm.Ready()) ==>
                status == if selectedFields != [] && InRange(selectedFields, |inputSchema|) && ColumnsExist(child.conditions, child.schema)
                             && (child.source.FromIndex? ==> |child.source.indexScan.encodedKey| <= MAX_KEY_LENGTH)
                          then OK else INVALID_ARGUMENT
    {
      hide *;
      ApartParts();
      RangeParts(selectedFields, |inputSchema|);
      if selectedFields == [] {
        return INVALID_ARGUMENT;
      }
      for k := 0 to |selectedFields|
        invariant forall j: nat :: j < k ==> selectedFields[j] < |inputSchema|
        modifies {}
      {
        if selectedFields[k] >= |inputSchema| {
          return INVALID_ARGUMENT;
        }
      }
      projectionStatus := OK;
      child.bpm.ReadyParts();
      status := child.Open();
      if status == OK {
        MakeOpened(child, child.bpm.Store());
      }
    }

    /** The chosen columns of the next row; none if there is none left or it cannot be cut down. */
    method Next() returns (found: bool, record: Bytes, rid: RecordID)
      requires child.bpm.Valid() && HeapOk(child.bpm.Store(), child.first) && child.Wired() && child.Running(child.bpm.Store()) && Apart()
      requires ColumnsExist(child.conditions, child.schema)
      requires inputSchema == child.schema && projectionStatus == OK
      modifies this, child.Objects(), child.bpm.Repr
      ensures child.bpm.Valid() && child.bpm.Pins() == old(child.bpm.Pins()) && child.bpm.Store() == old(child.bpm.Store())
      ensures child.Order(child.bpm.Store()) == old(child.Order(child.bpm.Store()))
      ensures old(child.position) <= child.position <= |child.Order(child.bpm.Store())| && (found ==> old(child.position) < child.position)
      ensures found ==> projectionStatus == OK && child.Running(child.bpm.Store())
      ensures found ==> ProjectedRow(child.bpm.Store(), inputSchema, child.conditions, selectedFields, record, rid)
      ensures old(child.bpm.Ready()) ==> child.SourceStatus() == OK
      ensures old(child.bpm.Ready()) && projectionStatus == OK && child.filterStatus == OK ==>
                Advanced(old(child.Remaining(child.bpm.Store())), child.Remaining(child.bpm.Store()), found, rid)
      ensures Decodable(child.bpm.Store(), inputSchema, child.Order(child.bpm.Store())) ==> child.filterStatus == OK
      ensures AllProjectable(child.bpm.Store(), inputSchema, child.conditions, selectedFields, child.Order(child.bpm.Store())) ==>
                projectionStatus == OK
    {
      hide *;
      ApartParts();
      child.bpm.ReadyParts();
      ghost var s := child.bpm.Store();
      var input;
      found, input, rid := child.Next();
      record := [];
      if !found {
        return;
      }
      child.RunningParts(s);
      OneProjectable(s, inputSchema, child.conditions, selectedFields, child.Order(s), input, rid);
      label Pulled:
      projectionStatus, record := Project(inputSchema, input, selectedFields);
      child.FilterKeeps@Pulled(s);
      if projectionStatus != OK {
        return false, record, rid;
      }
      MakeProjectedRow(s, inputSchema, child.conditions, selectedFields, input, record, rid);
    }

    /** The first failure, if there was one. */
    method Close() returns (status: StatusCode)
      requires child.Wired() && Apart()
      modifies this, child.Objects()
      ensures projectionStatus == old(projectionStatus)
      ensures status == if old(projectionStatus) != OK then old(projectionStatus)
                        else if old(child.filterStatus) != OK then old(child.filterStatus) else old(child.SourceStatus())
    {
      hide *;
      ApartParts();
      var childStatus := child.Close();
      status := if projectionStatus != OK then projectionStatus else childStatus;
    }
  }

  /** The plan has been opened and has not returned a row yet. */
  ghost predicate Opened(plan: FilterPlan, s: Store)
    reads plan.Objects()
  {
    && ColumnsExist(plan.conditions, plan.schema) && plan.position == 0 && plan.filterStatus == OK && plan.SourceStatus() == OK
    && (plan.source.FromHeap? ==> plan.Running(s) && plan.Order(s) == ScanOrder(s, plan.first))
    && (plan.source.FromIndex? ==>
          && LookedUp(s, plan.source.indexScan.index.headerPageId, plan.source.indexScan.encodedKey, plan.source.indexScan.matchingRids)
          && plan.source.indexScan.cursor == 0 && plan.Order(s) == plan.source.indexScan.matchingRids)
  }

  lemma MakeOpened(plan: FilterPlan, s: Store)
    requires ColumnsExist(plan.conditions, plan.schema) && plan.position == 0 && plan.filterStatus == OK && plan.SourceStatus() == OK
    requires plan.source.FromHeap? ==> plan.Running(s) && plan.Order(s) == ScanOrder(s, plan.first)
    requires plan.source.FromIndex? ==>
               && LookedUp(s, plan.source.indexScan.index.headerPageId, plan.source.indexScan.encodedKey, plan.source.indexScan.matchingRids)
               && plan.source.indexScan.cursor == 0 && plan.Order(s) == plan.source.indexScan.matchingRids
    ensures Opened(plan, s)
  {
    hide LookedUp, FilterPlan.Running, FilterPlan.Order, FilterPlan.SourceStatus, ScanOrder, ColumnsExist;
  }

  lemma OpenedParts(plan: FilterPlan, s: Store)
    requires Opened(plan, s)
    ensures ColumnsExist(plan.conditions, plan.schema) && plan.position == 0 && plan.filterStatus == OK && plan.SourceStatus() == OK
    ensures plan.source.FromHeap? ==> plan.Running(s) && plan.Order(s) == ScanOrder(s, plan.first)
    ensures plan.source.FromIndex? ==>
              && LookedUp(s, plan.source.indexScan.index.headerPageId, plan.source.indexScan.encodedKey, plan.source.indexScan.matchingRids)
              && plan.source.indexScan.cursor == 0 && plan.Order(s) == plan.source.indexScan.matchingRids
  {
    hide LookedUp, FilterPlan.Running, FilterPlan.Order, FilterPlan.SourceStatus, ScanOrder, ColumnsExist;
  }

  /** `record` holds the chosen columns of the record `rid`, which satisfies the conditions. */
  ghost predicate ProjectedRow(s: Store, schema: Schema, conditions: seq<Condition>, fields: seq<nat>, record: Bytes, rid: RecordID) {
    && Picked(s, schema, conditions, rid)
    && Projected(schema, RowAt(s, rid).value, fields, record) && Projectable(schema, RowAt(s, rid).value, fields)
  }

  lemma MakeProjectedRow(s: Store, schema: Schema, conditions: seq<Condition>, fields: seq<nat>, input: Bytes, record: Bytes, rid: RecordID)
    requires RowIs(s, input, rid) && MeetsAll(schema, input, conditions)
    requires Projected(schema, input, fields, record) && Projectable(schema, input, fields)
    ensures ProjectedRow(s, schema, conditions, fields, record, rid)
  {
    hide RowAt, MeetsAll, Projected, Projectable;
  }

  /** Every record that satisfies the conditions can be cut down to the fields. */
  ghost predicate AllProjectable(s: Store, schema: Schema, conditions: seq<Condition>, fields: seq<nat>, rids: seq<RecordID>) {
    forall rid :: rid in rids && Picked(s, schema, conditions, rid) ==> Projectable(schema, RowAt(s, rid).value, fields)
  }

  lemma OneProjectable(s: Store, schema: Schema, conditions: seq<Condition>, fields: seq<nat>, rids: seq<RecordID>, input: Bytes, rid: RecordID)
    requires RowIs(s, input, rid) && MeetsAll(schema, input, conditions) && rid in rids
    ensures AllProjectable(s, schema, conditions, fields, rids) ==> Projectable(schema, input, fields)
  {
    hide RowAt, MeetsAll, Projectable;
  }

  /** The first of `before` has been returned and the rest is left, or there was none. */
  ghost predicate Advanced(before: seq<RecordID>, after: seq<RecordID>, found: bool, rid: RecordID) {
    if found then before == [rid] + after else before == []
  }

  lemma MakeAdvanced(before: seq<RecordID>, after: seq<RecordID>, rid: RecordID)
    ensures before != [] && before[0] == rid && before[1..] == after ==> Advanced(before, after, true, rid)
    ensures before == [] ==> Advanced(before, after, false, rid)
  {
  }

  /** Every record of `rids` can be decoded. */
  ghost predicate Decodable(s: Store, schema: Schema, rids: seq<RecordID>) {
    forall rid :: rid in rids && RowAt(s, rid).Some? ==> Decode(schema, RowAt(s, rid).value).Some?
  }

  ghost predicate ColumnsExist(conditions: seq<Condition>, schema: Schema) {
    forall k: nat :: k < |conditions| ==> HasColumn(schema, conditions[k].column)
  }

  lemma RowDecodes(s: Store, schema: Schema, rids: seq<RecordID>, record: Bytes, rid: RecordID)
    requires RowIs(s, record, rid) && rid in rids
    ensures Decodable(s, schema, rids) ==> Decode(schema, record).Some?
  {
    hide Decode, RowAt;
  }

  /** The next record of the source either is the next selected one, or does not count. */
  lemma SelectedStep(s: Store, schema: Schema, conditions: seq<Condition>, order: seq<RecordID>, k: nat, record: Bytes)
    requires k < |order| && RowIs(s, record, order[k])
    ensures var now, after := Selected(s, schema, conditions, order[k..]), Selected(s, schema, conditions, order[k + 1..]);
            if MeetsAll(schema, record, conditions)
            then now != [] && now[0] == order[k] && now[1..] == after else now == after
  {
    hide RowAt, MeetsAll;
    assert order[k..][1..] == order[k + 1..];
  }

  lemma NothingSelected(s: Store, schema: Schema, conditions: seq<Condition>, order: seq<RecordID>)
    ensures Selected(s, schema, conditions, order[|order|..]) == []
  {
  }

  ghost predicate RowIs(s: Store, record: Bytes, rid: RecordID) {
    RowAt(s, rid) == Some(record)
  }

  lemma PositionParts(s: Store, first: int, k: nat, record: Bytes, rid: RecordID)
    requires HeapOk(s, first) && RowAtPosition(s, first, k, record, rid)
    ensures RowIs(s, record, rid) && k < |ScanOrder(s, first)| && rid == ScanOrder(s, first)[k]
  {
    RowsAreReadable(s, first);
    hide HeapRows, ScanOrder, HeapOk, RowAt;
  }

  lemma MakeRowIs(s: Store, record: Bytes, rid: RecordID)
    requires RowAt(s, rid) == Some(record)
    ensures RowIs(s, record, rid)
  {
    hide RowAt;
  }
}
