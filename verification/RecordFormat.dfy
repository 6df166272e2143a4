// The encoding of rows as records: a column count, a null bitmap, the offset of every
// column, and the column values (docs/record_format.md).
module RecordFormat {
  import opened Common
  import opened ByteFormat

  datatype TypeId = INTEGER | VARCHAR | BOOLEAN

  /** A column; VARCHAR columns of length 0 are unbounded. */
  datatype Column = Column(name: Bytes, kind: TypeId, length: nat)

  type Schema = seq<Column>

  datatype Value = Null | Integer(i: Int32) | Text(s: Bytes) | Boolean(b: bool)

  const LIMIT16: nat := 65535

  // ---- The null bitmap ----

  /** The low `n` bits of `x`, lowest first. */
  function Bits(x: nat, n: nat): (s: seq<bool>)
    ensures |s| == n
  {
    if n == 0 then [] else [x % 2 == 1] + Bits(x / 2, n - 1)
  }

  function FromBits(s: seq<bool>): nat {
    if s == [] then 0 else (if s[0] then 1 else 0) + 2 * FromBits(s[1..])
  }

  function Power2(n: nat): nat {
    if n == 0 then 1 else 2 * Power2(n - 1)
  }

  lemma {:induction false} BitsFromBits(s: seq<bool>)
    ensures Bits(FromBits(s), |s|) == s && FromBits(s) < Power2(|s|)
    decreases |s|
  {
    if s != [] {
      BitsFromBits(s[1..]);
      assert s == [s[0]] + s[1..];
    }
  }

  predicate Bit(x: byte, b: nat) {
    b < 8 && Bits(x, 8)[b]
  }

  /** `x` with bit `b` set. */
  function SetBit(x: byte, b: nat): (y: byte)
    ensures b < 8 ==> forall c: nat :: c < 8 ==> (Bit(y, c) <==> c == b || Bit(x, c))
  {
    if b < 8 then
      var s := Bits(x, 8)[b := true];
      BitsFromBits(s);
      assert Power2(8) == 256;
      FromBits(s)
    else
      x
  }

  lemma NoBitsInZero()
    ensures forall b: nat :: !Bit(0, b)
  {
    assert FromBits([false, false, false, false, false, false, false, false]) == 0;
    BitsFromBits([false, false, false, false, false, false, false, false]);
  }

  // ---- The parts of a record ----

  function BitmapSize(n: nat): nat {
    (n + 7) / 8
  }

  function HeaderSize(n: nat): nat {
    2 + BitmapSize(n) + 2 * n
  }

  function ColumnCount(b: Bytes): nat {
    GetU16(b, 0)
  }

  function ByteAt(b: Bytes, i: nat): byte {
    if i < |b| then b[i] else 0
  }

  predicate IsNull(b: Bytes, i: nat) {
    Bit(ByteAt(b, 2 + i / 8), i % 8)
  }

  /** Where column `i` starts in the payload of a record of `n` columns. */
  function Offset(b: Bytes, n: nat, i: nat): nat {
    GetU16(b, 2 + BitmapSize(n) + 2 * i)
  }

  function FieldBytes(value: Value): Bytes {
    match value
    case Null => []
    case Integer(i) => I32(i)
    case Text(s) => s
    case Boolean(b) => [if b then 1 else 0]
  }

  /** The bytes of the first `k` values. */
  function Payload(values: seq<Value>, k: nat): Bytes {
    if k == 0 || k > |values| then [] else Payload(values, k - 1) + FieldBytes(values[k - 1])
  }

  /** `b` is the record of `values`. */
  ghost predicate Encodes(b: Bytes, values: seq<Value>) {
    var n := |values|;
    && |b| == HeaderSize(n) + |Payload(values, n)| <= LIMIT16
    && ColumnCount(b) == n
    && (forall i: nat :: i < n ==> (IsNull(b, i) <==> values[i].Null?))
    && (forall i: nat :: i < n ==> Offset(b, n, i) == |Payload(values, i)|)
    && b[HeaderSize(n)..] == Payload(values, n)
  }

  /** The value has the type of the column, or is NULL. */
  predicate Fits(column: Column, value: Value) {
    match value
    case Null => true
    case Integer(i) => column.kind == INTEGER
    case Text(s) => column.kind == VARCHAR && (column.length > 0 ==> |s| <= column.length)
    case Boolean(b) => column.kind == BOOLEAN
  }

  predicate RowFits(columns: Schema, values: seq<Value>) {
    |values| == |columns| && forall i: nat :: i < |values| ==> Fits(columns[i], values[i])
  }

  /** Which rows can be stored as records. */
  predicate Serializable(columns: Schema, values: seq<Value>) {
    RowFits(columns, values) && HeaderSize(|values|) + |Payload(values, |values|)| <= LIMIT16
  }

  // ---- Decoding ----

  /** Where the bytes of column `i` end. */
  function FieldEnd(b: Bytes, n: nat, i: nat): int {
    if i + 1 < n then Offset(b, n, i + 1) else |b| - HeaderSize(n)
  }

  function FieldSlice(b: Bytes, n: nat, i: nat): Bytes {
    var start, end := HeaderSize(n) + Offset(b, n, i), HeaderSize(n) + FieldEnd(b, n, i);
    if start <= end <= |b| then b[start..end] else []
  }

  /** The value that the bytes of a column hold, if they can hold one. */
  function ParseField(kind: TypeId, field: Bytes): Option<Value> {
    match kind
    case INTEGER => if |field| == 4 then Some(Integer(GetI32(field, 0))) else None
    case BOOLEAN => if |field| == 1 then Some(Boolean(field[0] != 0)) else None
    case VARCHAR => Some(Text(field))
  }

  function FieldAt(columns: Schema, b: Bytes, i: nat): Option<Value>
    requires i < |columns|
  {
    if IsNull(b, i) then Some(Null) else ParseField(columns[i].kind, FieldSlice(b, |columns|, i))
  }

  /** The header of a record of `n` columns is consistent with its size. */
  predicate HeaderFits(b: Bytes, n: nat) {
    && |b| >= 2 && ColumnCount(b) == n && HeaderSize(n) <= |b|
    && (forall i: nat :: i < n ==> Offset(b, n, i) <= |b| - HeaderSize(n))
    && (forall i: nat :: i + 1 < n ==> Offset(b, n, i) <= Offset(b, n, i + 1))
  }

  /** The row that a record stands for; None if the record is malformed. */
  function Decode(columns: Schema, b: Bytes): Option<seq<Value>> {
    if HeaderFits(b, |columns|) && forall i: nat :: i < |columns| ==> FieldAt(columns, b, i).Some? then
      Some(seq(|columns|, i requires 0 <= i < |columns| => FieldAt(columns, b, i).value))
    else
      None
  }

  predicate OfKind(value: Value, kind: TypeId) {
    match value
    case Null => true
    case Integer(_) => kind == INTEGER
    case Text(_) => kind == VARCHAR
    case Boolean(_) => kind == BOOLEAN
  }

  /** Whatever the bytes, what is read from a column is NULL or of its type. */
  lemma DecodedKinds(columns: Schema, b: Bytes)
    requires Decode(columns, b).Some?
    ensures |Decode(columns, b).value| == |columns|
    ensures forall i: nat :: i < |columns| ==> OfKind(Decode(columns, b).value[i], columns[i].kind)
  {
    hide HeaderFits, FieldSlice, IsNull, GetI32;
    forall i: nat | i < |columns| ensures OfKind(Decode(columns, b).value[i], columns[i].kind) {
      assert FieldAt(columns, b, i).Some? && Decode(columns, b).value[i] == FieldAt(columns, b, i).value;
    }
  }

  lemma {:induction false} PayloadGrows(values: seq<Value>, j: nat, k: nat)
    requires j <= k <= |values|
    ensures |Payload(values, j)| <= |Payload(values, k)|
    ensures Payload(values, k)[..|Payload(values, j)|] == Payload(values, j)
    decreases k
  {
    if j < k {
      PayloadGrows(values, j, k - 1);
    }
  }

  /** The bytes of one column, cut out of the payload. */
  lemma FieldOfPayload(values: seq<Value>, i: nat)
    requires i < |values|
    ensures |Payload(values, i)| <= |Payload(values, i + 1)| <= |Payload(values, |values|)|
    ensures Payload(values, |values|)[|Payload(values, i)|..|Payload(values, i + 1)|] == FieldBytes(values[i])
  {
    var all, upto := Payload(values, |values|), Payload(values, i + 1);
    PayloadGrows(values, i, i + 1);
    PayloadGrows(values, i + 1, |values|);
    assert all[|Payload(values, i)|..|upto|] == all[..|upto|][|Payload(values, i)|..];
    assert upto == Payload(values, i) + FieldBytes(values[i]);
  }

  lemma ParseFieldBytes(column: Column, value: Value)
    requires Fits(column, value) && !value.Null?
    ensures ParseField(column.kind, FieldBytes(value)) == Some(value)
  {
    if value.Integer? {
      var s := I32(value.i);
      assert Put([0, 0, 0, 0], 0, s) == s;
      GetPutI32([0, 0, 0, 0], 0, value.i);
    }
  }

  lemma SliceOfTail(b: Bytes, h: nat, lo: nat, hi: nat)
    requires h <= |b| && lo <= hi <= |b| - h
    ensures b[h + lo..h + hi] == b[h..][lo..hi]
  {
  }

  lemma EncodesParts(b: Bytes, values: seq<Value>, i: nat)
    requires Encodes(b, values)
    ensures |b| == HeaderSize(|values|) + |Payload(values, |values|)| && ColumnCount(b) == |values|
    ensures i < |values| ==> (IsNull(b, i) <==> values[i].Null?)
    ensures i < |values| ==> Offset(b, |values|, i) == |Payload(values, i)|
    ensures b[HeaderSize(|values|)..] == Payload(values, |values|)
  {
    hide IsNull, Offset, Payload, HeaderSize, ColumnCount;
  }

  lemma EncodedSlice(b: Bytes, values: seq<Value>, i: nat)
    requires Encodes(b, values) && i < |values|
    ensures FieldSlice(b, |values|, i) == FieldBytes(values[i])
    ensures Offset(b, |values|, i) <= FieldEnd(b, |values|, i) <= |b| - HeaderSize(|values|)
  {
    hide *;
    var n, h := |values|, HeaderSize(|values|);
    EncodesParts(b, values, i);
    EncodesParts(b, values, i + 1);
    FieldOfPayload(values, i);
    SliceOfTail(b, h, |Payload(values, i)|, |Payload(values, i + 1)|);
    SliceParts(b, n, i);
  }

  lemma SliceParts(b: Bytes, n: nat, i: nat)
    ensures FieldEnd(b, n, i) == if i + 1 < n then Offset(b, n, i + 1) else |b| - HeaderSize(n)
    ensures Offset(b, n, i) <= FieldEnd(b, n, i) <= |b| - HeaderSize(n) ==>
              FieldSlice(b, n, i) == b[HeaderSize(n) + Offset(b, n, i)..HeaderSize(n) + FieldEnd(b, n, i)]
  {
    hide Offset, HeaderSize;
  }

  lemma EncodedField(columns: Schema, b: Bytes, values: seq<Value>, i: nat)
    requires Encodes(b, values) && RowFits(columns, values) && i < |values|
    ensures FieldAt(columns, b, i) == Some(values[i])
  {
    EncodesParts(b, values, i);
    EncodedSlice(b, values, i);
    assert Fits(columns[i], values[i]);
    hide Encodes, FieldBytes, Payload, IsNull, ColumnCount, FieldSlice, HeaderSize, Offset, Fits, ParseField;
    if !values[i].Null? {
      ParseFieldBytes(columns[i], values[i]);
    }
  }

  lemma EncodedHeader(b: Bytes, values: seq<Value>)
    requires Encodes(b, values)
    ensures HeaderFits(b, |values|)
  {
    var n := |values|;
    EncodesParts(b, values, 0);
    forall i: nat | i < n ensures Offset(b, n, i) <= FieldEnd(b, n, i) <= |b| - HeaderSize(n) {
      EncodedSlice(b, values, i);
    }
    hide Encodes, Payload, IsNull, Offset, ColumnCount;
  }

  lemma DecodeIs(columns: Schema, b: Bytes, values: seq<Value>)
    requires HeaderFits(b, |columns|) && |values| == |columns|
    requires forall i: nat :: i < |columns| ==> FieldAt(columns, b, i) == Some(values[i])
    ensures Decode(columns, b) == Some(values)
  {
    assert forall i: nat :: i < |columns| ==> FieldAt(columns, b, i).Some?;
    assert Decode(columns, b).Some?;
    var decoded := Decode(columns, b).value;
    assert decoded == values;
  }

  /** Decoding a record gives back the row, with its NULLs and empty strings. */
  lemma RoundTrip(columns: Schema, b: Bytes, values: seq<Value>)
    requires Encodes(b, values) && RowFits(columns, values)
    ensures Decode(columns, b) == Some(values)
  {
    hide *;
    RowFitsParts(columns, values);
    EncodedHeader(b, values);
    forall i: nat | i < |values| ensures FieldAt(columns, b, i) == Some(values[i]) {
      EncodedField(columns, b, values, i);
    }
    DecodeIs(columns, b, values);
  }

  lemma RowFitsParts(columns: Schema, values: seq<Value>)
    requires RowFits(columns, values)
    ensures |values| == |columns|
  {
  }
}
