// Turning rows into records and back (src/storage/record_codec.cpp).
module RecordCodecs {
  import opened Common
  import opened ByteFormat
  import opened RecordFormat

  /** Why a row cannot be stored. */
  ghost predicate SerializeRefused(columns: Schema, values: seq<Value>, status: StatusCode) {
    match status
    case INVALID_ARGUMENT => !RowFits(columns, values) || HeaderSize(|columns|) > LIMIT16
    case OUT_OF_MEMORY => |values| == |columns| && HeaderSize(|values|) + |Payload(values, |values|)| > LIMIT16
    case _ => false
  }

  /** What the loop of Serialize has written after `k` columns. */
  ghost predicate Serializing(values: seq<Value>, k: nat, bitmap: seq<byte>, offsets: seq<nat>, payload: Bytes) {
    && k <= |values| && |bitmap| == BitmapSize(|values|) && |offsets| == k
    && payload == Payload(values, k)
    && (forall i: nat :: i < k ==> offsets[i] == |Payload(values, i)| <= LIMIT16)
    && (forall i: nat :: i < 8 * |bitmap| ==> (Bit(bitmap[i / 8], i % 8) <==> i < k && values[i].Null?))
  }

  function OffsetBytes(offsets: seq<nat>): Bytes {
    if offsets == [] then [] else OffsetBytes(offsets[..|offsets| - 1]) + U16(offsets[|offsets| - 1])
  }

  method Serialize(columns: Schema, values: seq<Value>) returns (status: StatusCode, record: Bytes)
    ensures status == OK <==> Serializable(columns, values)
    ensures status == OK ==> Encodes(record, values)
    ensures status != OK ==> SerializeRefused(columns, values, status)
  {
    hide *;
    record := [];
    Refusals(columns, values);
    if |values| != |columns| {
      return INVALID_ARGUMENT, record;
    }
    if |columns| > LIMIT16 {
      return INVALID_ARGUMENT, record;
    }
    var bitmapSize := BitmapSize(|columns|);
    var headerSize := HeaderSize(|columns|);
    if headerSize > LIMIT16 {
      return INVALID_ARGUMENT, record;
    }
    var bitmap: seq<byte> := seq(bitmapSize, _ => 0);
    var offsets: seq<nat> := [];
    var payload: Bytes := [];
    SerializeStart(values, bitmap);
    for k := 0 to |columns|
      invariant Serializing(values, k, bitmap, offsets, payload)
      invariant forall i: nat :: i < k ==> Fits(columns[i], values[i])
    {
      SerializeStep(columns, values, k, bitmap, offsets, payload);
      FieldBytesOf(values[k]);
      FitsWhen(columns[k], values[k]);
      if |payload| > LIMIT16 {
        return OUT_OF_MEMORY, record;
      }
      offsets := offsets + [|payload|];
      var value := values[k];
      if value.Null? {
        bitmap := bitmap[k / 8 := SetBit(bitmap[k / 8], k % 8)];
        continue;
      }
      match columns[k].kind {
        case INTEGER =>
          if !value.Integer? {
            return INVALID_ARGUMENT, record;
          }
          payload := payload + I32(value.i);
        case BOOLEAN =>
          if !value.Boolean? {
            return INVALID_ARGUMENT, record;
          }
          payload := payload + [if value.b then 1 else 0];
        case VARCHAR =>
          if !value.Text? {
            return INVALID_ARGUMENT, record;
          }
          if columns[k].length > 0 && |value.s| > columns[k].length {
            return INVALID_ARGUMENT, record;
          }
          payload := payload + value.s;
      }
    }
    SerializingParts(values, |values|, bitmap, offsets, payload);
    if headerSize + |payload| > LIMIT16 {
      return OUT_OF_MEMORY, record;
    }
    record := U16(|columns|) + bitmap + OffsetBytes(offsets) + payload;
    status := OK;
    SerializeEnd(columns, values, bitmap, offsets, payload);
  }

  lemma Refusals(columns: Schema, values: seq<Value>)
    ensures |values| != |columns| || HeaderSize(|columns|) > LIMIT16 || |columns| > LIMIT16 ==>
              !Serializable(columns, values) && SerializeRefused(columns, values, INVALID_ARGUMENT)
    ensures forall i: nat :: |values| == |columns| && i < |values| && !Fits(columns[i], values[i]) ==>
              !Serializable(columns, values) && SerializeRefused(columns, values, INVALID_ARGUMENT)
    ensures |values| == |columns| && HeaderSize(|values|) + |Payload(values, |values|)| > LIMIT16 ==>
              !Serializable(columns, values) && SerializeRefused(columns, values, OUT_OF_MEMORY)
  {
    hide Payload, Fits;
  }

  lemma SerializeStart(values: seq<Value>, bitmap: seq<byte>)
    requires |bitmap| == BitmapSize(|values|) && forall i :: 0 <= i < |bitmap| ==> bitmap[i] == 0
    ensures Serializing(values, 0, bitmap, [], [])
  {
    NoBitsInZero();
    hide Bit;
  }

  lemma BitmapStep(bitmap: seq<byte>, k: nat)
    requires k < 8 * |bitmap|
    ensures forall i: nat :: i < 8 * |bitmap| ==>
              (Bit(bitmap[k / 8 := SetBit(bitmap[k / 8], k % 8)][i / 8], i % 8) <==> i == k || Bit(bitmap[i / 8], i % 8))
  {
    hide Bit, SetBit;
  }

  lemma SerializingParts(values: seq<Value>, k: nat, bitmap: seq<byte>, offsets: seq<nat>, payload: Bytes)
    requires Serializing(values, k, bitmap, offsets, payload)
    ensures k <= |values| && |bitmap| == BitmapSize(|values|) && |offsets| == k && payload == Payload(values, k)
    ensures forall i: nat :: i < k ==> offsets[i] == |Payload(values, i)| <= LIMIT16
    ensures forall i: nat :: i < 8 * |bitmap| ==> (Bit(bitmap[i / 8], i % 8) <==> i < k && values[i].Null?)
    ensures |values| <= 8 * |bitmap|
  {
    hide Bit, Payload;
  }

  lemma MakeSerializing(values: seq<Value>, k: nat, bitmap: seq<byte>, offsets: seq<nat>, payload: Bytes, after: seq<byte>)
    requires Serializing(values, k, bitmap, offsets, payload) && k < |values| && |payload| <= LIMIT16 && |after| == |bitmap|
    requires forall i: nat :: i < 8 * |bitmap| ==> (Bit(after[i / 8], i % 8) <==> (i == k && values[k].Null?) || Bit(bitmap[i / 8], i % 8))
    ensures Serializing(values, k + 1, after, offsets + [|payload|], payload + FieldBytes(values[k]))
  {
    SerializingParts(values, k, bitmap, offsets, payload);
    assert Payload(values, k + 1) == Payload(values, k) + FieldBytes(values[k]);
    hide Bit, Payload, FieldBytes;
  }

  lemma FieldBytesOf(value: Value)
    ensures value.Null? ==> FieldBytes(value) == []
    ensures value.Integer? ==> FieldBytes(value) == I32(value.i)
    ensures value.Boolean? ==> FieldBytes(value) == [if value.b then 1 else 0]
    ensures value.Text? ==> FieldBytes(value) == value.s
  {
  }

  lemma FitsWhen(column: Column, value: Value)
    ensures Fits(column, value) <==>
              match value
              case Null => true
              case Integer(i) => column.kind == INTEGER
              case Text(s) => column.kind == VARCHAR && (column.length > 0 ==> |s| <= column.length)
              case Boolean(b) => column.kind == BOOLEAN
  {
  }

  /** One more column. */
  lemma SerializeStep(columns: Schema, values: seq<Value>, k: nat, bitmap: seq<byte>, offsets: seq<nat>, payload: Bytes)
    requires |values| == |columns| && k < |values| && Serializing(values, k, bitmap, offsets, payload)
    ensures |payload| > LIMIT16 ==> HeaderSize(|values|) + |Payload(values, |values|)| > LIMIT16
    ensures k / 8 < |bitmap| && k % 8 < 8
    ensures |payload| <= LIMIT16 && values[k].Null? ==>
              Serializing(values, k + 1, bitmap[k / 8 := SetBit(bitmap[k / 8], k % 8)], offsets + [|payload|], payload)
    ensures |payload| <= LIMIT16 && !values[k].Null? ==>
              Serializing(values, k + 1, bitmap, offsets + [|payload|], payload + FieldBytes(values[k]))
  {
    hide *;
    SerializingParts(values, k, bitmap, offsets, payload);
    PayloadGrows(values, k, |values|);
    BitmapStep(bitmap, k);
    FieldBytesOf(values[k]);
    if |payload| <= LIMIT16 {
      if values[k].Null? {
        assert payload + FieldBytes(values[k]) == payload;
        MakeSerializing(values, k, bitmap, offsets, payload, bitmap[k / 8 := SetBit(bitmap[k / 8], k % 8)]);
      } else {
        MakeSerializing(values, k, bitmap, offsets, payload, bitmap);
      }
    }
  }

  lemma {:induction false} OffsetBytesAt(offsets: seq<nat>, i: nat)
    ensures |OffsetBytes(offsets)| == 2 * |offsets|
    ensures i < |offsets| ==> OffsetBytes(offsets)[2 * i..2 * i + 2] == U16(offsets[i])
    decreases |offsets|
  {
    if offsets != [] {
      OffsetBytesAt(offsets[..|offsets| - 1], i);
    }
  }

  /** Where the parts of a record are. */
  lemma RecordLayout(head: Bytes, bitmap: Bytes, offsets: Bytes, payload: Bytes, k: nat)
    requires |head| == 2
    ensures var b := head + bitmap + offsets + payload;
            && |b| == 2 + |bitmap| + |offsets| + |payload|
            && b[0..2] == head
            && (forall j: nat :: j < |bitmap| ==> b[2 + j] == bitmap[j])
            && (k + 2 <= |offsets| ==> b[2 + |bitmap| + k..2 + |bitmap| + k + 2] == offsets[k..k + 2])
            && b[2 + |bitmap| + |offsets|..] == payload
  {
  }

  lemma FieldU16(b: Bytes, off: nat, v: nat)
    requires off + 2 <= |b| && b[off..off + 2] == U16(v) && v < 0x1_0000
    ensures GetU16(b, off) == v
  {
    assert b[off] == b[off..off + 2][0] && b[off + 1] == b[off..off + 2][1];
  }

  lemma RecordNulls(values: seq<Value>, bitmap: seq<byte>, b: Bytes)
    requires |bitmap| == BitmapSize(|values|) && |b| >= 2 + |bitmap| && forall j: nat :: j < |bitmap| ==> b[2 + j] == bitmap[j]
    requires forall i: nat :: i < 8 * |bitmap| ==> (Bit(bitmap[i / 8], i % 8) <==> i < |values| && values[i].Null?)
    ensures forall i: nat :: i < |values| ==> (IsNull(b, i) <==> values[i].Null?)
  {
    hide Bit;
    forall i: nat | i < |values| ensures ByteAt(b, 2 + i / 8) == bitmap[i / 8] {}
  }

  lemma RecordOffset(bitmap: seq<byte>, offsets: seq<nat>, payload: Bytes, n: nat, i: nat)
    requires |bitmap| == BitmapSize(n) && |offsets| == n && i < n && offsets[i] <= LIMIT16
    ensures Offset(U16(n) + bitmap + OffsetBytes(offsets) + payload, n, i) == offsets[i]
  {
    RecordLayout(U16(n), bitmap, OffsetBytes(offsets), payload, 2 * i);
    OffsetBytesAt(offsets, i);
    hide U16, OffsetBytes, GetU16, BitmapSize;
    FieldU16(U16(n) + bitmap + OffsetBytes(offsets) + payload, 2 + |bitmap| + 2 * i, offsets[i]);
  }

  lemma MakeEncodes(b: Bytes, values: seq<Value>)
    requires |b| == HeaderSize(|values|) + |Payload(values, |values|)| <= LIMIT16
    requires ColumnCount(b) == |values|
    requires forall i: nat :: i < |values| ==> (IsNull(b, i) <==> values[i].Null?)
    requires forall i: nat :: i < |values| ==> Offset(b, |values|, i) == |Payload(values, i)|
    requires b[HeaderSize(|values|)..] == Payload(values, |values|)
    ensures Encodes(b, values)
  {
    hide IsNull, Offset, Payload, ColumnCount, HeaderSize;
  }

  lemma ColumnCountIs(b: Bytes, n: nat)
    requires |b| >= 2 && b[0..2] == U16(n) && n <= LIMIT16
    ensures ColumnCount(b) == n
  {
    FieldU16(b, 0, n);
  }

  lemma SerializeEnd(columns: Schema, values: seq<Value>, bitmap: seq<byte>, offsets: seq<nat>, payload: Bytes)
    requires |values| == |columns| && Serializing(values, |values|, bitmap, offsets, payload)
    requires forall i: nat :: i < |values| ==> Fits(columns[i], values[i])
    requires HeaderSize(|values|) + |payload| <= LIMIT16
    ensures Serializable(columns, values)
    ensures Encodes(U16(|columns|) + bitmap + OffsetBytes(offsets) + payload, values)
  {
    hide *;
    var n := |values|;
    var b := U16(n) + bitmap + OffsetBytes(offsets) + payload;
    SerializingParts(values, n, bitmap, offsets, payload);
    RecordLayout(U16(n), bitmap, OffsetBytes(offsets), payload, 0);
    OffsetBytesAt(offsets, 0);
    HeaderSizeIs(n);
    ColumnCountIs(b, n);
    RecordNulls(values, bitmap, b);
    forall i: nat | i < n ensures Offset(b, n, i) == |Payload(values, i)| {
      RecordOffset(bitmap, offsets, payload, n, i);
    }
    MakeEncodes(b, values);
    MakeSerializable(columns, values);
  }

  lemma HeaderSizeIs(n: nat)
    ensures HeaderSize(n) == 2 + BitmapSize(n) + 2 * n && |U16(n)| == 2
    ensures HeaderSize(n) <= LIMIT16 ==> n <= LIMIT16
  {
  }

  lemma MakeSerializable(columns: Schema, values: seq<Value>)
    requires |values| == |columns| && forall i: nat :: i < |values| ==> Fits(columns[i], values[i])
    requires HeaderSize(|values|) + |Payload(values, |values|)| <= LIMIT16
    ensures Serializable(columns, values)
  {
    hide Fits, Payload, HeaderSize;
  }

  // ---- Deserialize ----

  /** Reads a record, checking every size and offset before it is used. */
  method Deserialize(columns: Schema, record: Bytes) returns (status: StatusCode, values: seq<Value>)
    ensures status == if Decode(columns, record).Some? then OK else IO_ERROR
    ensures status == OK ==> Decode(columns, record) == Some(values)
  {
    hide *;
    values := [];
    var n := |columns|;
    HeaderParts(columns, record);
    if |record| < 2 {
      return IO_ERROR, values;
    }
    if ColumnCount(record) != n {
      return IO_ERROR, values;
    }
    var headerSize := HeaderSize(n);
    if headerSize > |record| {
      return IO_ERROR, values;
    }
    var payloadSize := |record| - headerSize;
    var previous := 0;
    for i := 0 to n
      invariant previous == if i == 0 then 0 else Offset(record, n, i - 1)
      invariant forall j: nat :: j < i ==> Offset(record, n, j) <= payloadSize
      invariant forall j: nat :: j + 1 < i ==> Offset(record, n, j) <= Offset(record, n, j + 1)
    {
      var offset := Offset(record, n, i);
      if offset > payloadSize {
        return IO_ERROR, values;
      }
      if offset < previous {
        return IO_ERROR, values;
      }
      previous := offset;
    }
    MakeHeaderFits(record, n);
    for i := 0 to n
      invariant |values| == i
      invariant forall j: nat :: j < i ==> FieldAt(columns, record, j) == Some(values[j])
    {
      FieldParts(columns, record, i);
      var start, end := Offset(record, n, i), FieldEnd(record, n, i);
      if end < start || end > payloadSize {
        assert false;
      }
      if IsNull(record, i) {
        values := values + [Null];
        continue;
      }
      var field := record[headerSize + start..headerSize + end];
      match columns[i].kind {
        case INTEGER =>
          if |field| != 4 {
            return IO_ERROR, values;
          }
          values := values + [Integer(GetI32(field, 0))];
        case BOOLEAN =>
          if |field| != 1 {
            return IO_ERROR, values;
          }
          values := values + [Boolean(field[0] != 0)];
        case VARCHAR =>
          values := values + [Text(field)];
      }
    }
    status := OK;
    DecodeIs(columns, record, values);
  }

  lemma HeaderParts(columns: Schema, b: Bytes)
    ensures !HeaderFits(b, |columns|) ==> Decode(columns, b).None?
    ensures HeaderFits(b, |columns|) ==> |b| >= 2 && ColumnCount(b) == |columns| && HeaderSize(|columns|) <= |b|
    ensures HeaderFits(b, |columns|) ==> forall i: nat :: i < |columns| ==> Offset(b, |columns|, i) <= |b| - HeaderSize(|columns|)
    ensures HeaderFits(b, |columns|) ==> forall i: nat :: i + 1 < |columns| ==> Offset(b, |columns|, i) <= Offset(b, |columns|, i + 1)
    ensures forall i: nat :: i < |columns| && FieldAt(columns, b, i).None? ==> Decode(columns, b).None?
  {
    hide FieldAt, Offset, ColumnCount, HeaderSize;
  }

  lemma MakeHeaderFits(b: Bytes, n: nat)
    requires |b| >= 2 && ColumnCount(b) == n && HeaderSize(n) <= |b|
    requires forall i: nat :: i < n ==> Offset(b, n, i) <= |b| - HeaderSize(n)
    requires forall i: nat :: i + 1 < n ==> Offset(b, n, i) <= Offset(b, n, i + 1)
    ensures HeaderFits(b, n)
  {
    hide ColumnCount, HeaderSize, Offset;
  }

  lemma FieldParts(columns: Schema, b: Bytes, i: nat)
    requires HeaderFits(b, |columns|) && i < |columns|
    ensures Offset(b, |columns|, i) <= FieldEnd(b, |columns|, i) <= |b| - HeaderSize(|columns|)
    ensures IsNull(b, i) ==> FieldAt(columns, b, i) == Some(Null)
    ensures !IsNull(b, i) ==>
              var field := b[HeaderSize(|columns|) + Offset(b, |columns|, i)..HeaderSize(|columns|) + FieldEnd(b, |columns|, i)];
              FieldAt(columns, b, i) ==
                match columns[i].kind
                case INTEGER => if |field| == 4 then Some(Integer(GetI32(field, 0))) else None
                case BOOLEAN => if |field| == 1 then Some(Boolean(field[0] != 0)) else None
                case VARCHAR => Some(Text(field))
  {
    hide IsNull, Offset, HeaderSize, GetI32, ColumnCount;
  }

  /** The value of one column. */
  method GetValue(columns: Schema, record: Bytes, column: nat) returns (status: StatusCode, value: Value)
    ensures status == OK ==> ValueOf(columns, record, column) == Some(value)
    ensures status == if Decode(columns, record).None? then IO_ERROR else if column >= |columns| then INVALID_ARGUMENT else OK
  {
    hide *;
    value := Null;
    ValueParts(columns, record, column);
    var values;
    status, values := Deserialize(columns, record);
    if status != OK {
      return;
    }
    if column >= |values| {
      return INVALID_ARGUMENT, value;
    }
    value := values[column];
  }

  /** The value of one column of a record, if the record is well-formed. */
  function ValueOf(columns: Schema, record: Bytes, column: nat): Option<Value> {
    match Decode(columns, record)
    case Some(values) => if column < |values| then Some(values[column]) else None
    case None => None
  }

  lemma ValueParts(columns: Schema, record: Bytes, column: nat)
    ensures Decode(columns, record).Some? ==> |Decode(columns, record).value| == |columns|
    ensures Decode(columns, record).Some? && column < |columns| ==>
              ValueOf(columns, record, column) == Some(Decode(columns, record).value[column])
  {
    hide FieldAt, HeaderFits;
  }

  // ---- Project ----

  function ChosenColumns(columns: Schema, indices: seq<nat>): Schema
    requires forall k: nat :: k < |indices| ==> indices[k] < |columns|
  {
    seq(|indices|, (k: nat) requires k < |indices| => columns[indices[k]])
  }

  function ChosenValues(values: seq<Value>, indices: seq<nat>): seq<Value>
    requires forall k: nat :: k < |indices| ==> indices[k] < |values|
  {
    seq(|indices|, (k: nat) requires k < |indices| => values[indices[k]])
  }

  predicate InRange(indices: seq<nat>, n: nat) {
    forall k: nat :: k < |indices| ==> indices[k] < n
  }

  /** `output` is a record of the chosen columns of `record`. */
  ghost predicate Projected(columns: Schema, record: Bytes, indices: seq<nat>, output: Bytes) {
    && Decode(columns, record).Some? && |Decode(columns, record).value| == |columns| && InRange(indices, |columns|)
    && Decode(ChosenColumns(columns, indices), output) == Some(ChosenValues(Decode(columns, record).value, indices))
  }

  /** The record can be read, and its chosen columns make a record that is not too long. */
  ghost predicate Projectable(columns: Schema, record: Bytes, indices: seq<nat>) {
    && Decode(columns, record).Some? && |Decode(columns, record).value| == |columns| && InRange(indices, |columns|)
    && Serializable(ChosenColumns(columns, indices), ChosenValues(Decode(columns, record).value, indices))
  }

  lemma ProjectableParts(columns: Schema, record: Bytes, indices: seq<nat>)
    ensures Decode(columns, record).None? || !InRange(indices, |columns|) ==> !Projectable(columns, record, indices)
  {
    hide Decode, InRange, Serializable;
  }

  /** A record of the chosen columns. */
  method Project(columns: Schema, record: Bytes, indices: seq<nat>) returns (status: StatusCode, output: Bytes)
    ensures status == OK ==> Projected(columns, record, indices, output)
    ensures status == OK <==> Projectable(columns, record, indices)
    ensures Decode(columns, record).None? <==> status == IO_ERROR
    ensures Decode(columns, record).Some? && !InRange(indices, |columns|) ==> status == INVALID_ARGUMENT
  {
    hide *;
    output := [];
    ValueParts(columns, record, 0);
    ProjectableParts(columns, record, indices);
    RangeParts(indices, |columns|);
    var values;
    status, values := Deserialize(columns, record);
    if status != OK {
      return;
    }
    var chosenColumns: Schema := [];
    var chosenValues: seq<Value> := [];
    for k := 0 to |indices|
      invariant |chosenColumns| == |chosenValues| == k
      invariant forall j: nat :: j < k ==> indices[j] < |columns|
      invariant forall j: nat :: j < k ==> chosenColumns[j] == columns[indices[j]] && chosenValues[j] == values[indices[j]]
    {
      if indices[k] >= |columns| {
        return INVALID_ARGUMENT, output;
      }
      chosenColumns := chosenColumns + [columns[indices[k]]];
      chosenValues := chosenValues + [values[indices[k]]];
    }
    status, output := Serialize(chosenColumns, chosenValues);
    ProjectEnd(columns, record, indices, values, chosenColumns, chosenValues, status, output);
  }

  lemma RangeParts(indices: seq<nat>, n: nat)
    ensures InRange(indices, n) <==> forall k: nat :: k < |indices| ==> indices[k] < n
  {
  }

  lemma ProjectEnd(columns: Schema, record: Bytes, indices: seq<nat>, values: seq<Value>, chosenColumns: Schema, chosenValues: seq<Value>,
                   status: StatusCode, output: Bytes)
    requires Decode(columns, record) == Some(values) && |values| == |columns| && InRange(indices, |columns|)
    requires |chosenColumns| == |chosenValues| == |indices|
    requires forall j: nat :: j < |indices| ==> chosenColumns[j] == columns[indices[j]] && chosenValues[j] == values[indices[j]]
    requires status == OK ==> Serializable(chosenColumns, chosenValues) && Encodes(output, chosenValues)
    requires status != OK ==> SerializeRefused(chosenColumns, chosenValues, status)
    requires status == OK <==> Serializable(chosenColumns, chosenValues)
    ensures status == OK ==> Projected(columns, record, indices, output)
    ensures status == OK <==> Projectable(columns, record, indices)
    ensures status != IO_ERROR
  {
    if status == OK {
      SerializableParts(chosenColumns, chosenValues);
      RoundTrip(chosenColumns, output, chosenValues);
    }
    hide Decode, Serializable, Encodes, RowFits, HeaderSize, Payload;
    assert chosenColumns == ChosenColumns(columns, indices);
    assert chosenValues == ChosenValues(values, indices);
  }

  lemma SerializableParts(columns: Schema, values: seq<Value>)
    requires Serializable(columns, values)
    ensures RowFits(columns, values)
  {
    hide RowFits, HeaderSize, Payload;
  }
}
