// Bytes as they are on disk: hash values, index keys and records by their numbers.
module FormatExamples {
  import opened Common
  import opened ByteFormat
  import opened BucketFormat
  import opened RecordFormat
  import opened IndexKeys
  import opened IndexStates

  // ---- The hash ----

  /** One more byte: exclusive or with the low byte, and then the multiplication, in 64 bits. */
  lemma HashStep(key: Bytes, b: byte)
    ensures var hash := StableHash(key); var low := hash % 256;
            StableHash(key + [b]) == (hash - low + Xor(low, b, 8)) * 1099511628211 % 0x1_0000_0000_0000_0000
  {
    assert (key + [b])[..|key|] == key;
    hide Xor;
  }

  lemma HashStart()
    ensures StableHash([]) == 0xCBF2_9CE4_8422_2325
  {
  }

  lemma XorStep(a: nat, b: nat, bits: nat)
    ensures Xor(a, b, bits) == if bits == 0 then 0 else (if a % 2 == b % 2 then 0 else 1) + 2 * Xor(a / 2, b / 2, bits - 1)
  {
  }

  lemma ExclusiveOr()
    ensures Xor(0x25, 97, 8) == 0x44
  {
    hide Xor;
    XorStep(37, 97, 8);
    XorStep(18, 48, 7);
    XorStep(9, 24, 6);
    XorStep(4, 12, 5);
    XorStep(2, 6, 4);
    XorStep(1, 3, 3);
    XorStep(0, 1, 2);
    XorStep(0, 0, 1);
    XorStep(0, 0, 0);
  }

  /** The published FNV-1a values of the empty text and of "a". */
  lemma PublishedHashes()
    ensures StableHash([]) == 0xCBF2_9CE4_8422_2325
    ensures StableHash([97]) == 0xAF63_DC4C_8601_EC8C
  {
    hide StableHash;
    HashStart();
    ExclusiveOr();
    hide Xor;
    assert [] + [97] == [97];
    HashStep([], 97);
  }

  // ---- Index keys ----

  /** A tag for the type, and then the value, integers with the low byte first. */
  lemma KeysByNumbers(s: Bytes)
    ensures KeyOf(Integer(1)) == Some([1, 1, 0, 0, 0]) && KeyOf(Integer(-2)) == Some([1, 254, 255, 255, 255])
    ensures KeyOf(Boolean(true)) == Some([3, 1]) && KeyOf(Boolean(false)) == Some([3, 0])
    ensures |s| <= 63 ==> KeyOf(Text(s)) == Some([2] + s)
  {
    var one: Bytes, minusTwo: Bytes := [1, 0, 0, 0], [254, 255, 255, 255];
    assert I32(1) == one && I32(-2) == minusTwo;
    assert [1] + one == [1, 1, 0, 0, 0] && [1] + minusTwo == [1, 254, 255, 255, 255];
  }

  // ---- Records ----

  const RECORD: Bytes := [3, 0, 1, 0, 0, 0, 0, 2, 0, 97, 98, 1]
  const VALUES: seq<Value> := [Null, Text([97, 98]), Boolean(true)]

  /** The record of (NULL, 'ab', TRUE): three columns, the first of them NULL, their offsets,
      and the values. */
  lemma RecordByNumbers()
    ensures RECORD == [3, 0, 1, 0, 0, 0, 0, 2, 0, 97, 98, 1] && VALUES == [Null, Text([97, 98]), Boolean(true)]
    ensures Encodes(RECORD, VALUES)
  {
    hide *;
    TheseAre();
    PayloadByNumbers();
    HeaderByNumbers();
    FirstBit();
    ThreeColumns(RECORD, VALUES);
  }

  lemma TheseAre()
    ensures RECORD == [3, 0, 1, 0, 0, 0, 0, 2, 0, 97, 98, 1] && VALUES == [Null, Text([97, 98]), Boolean(true)]
  {
  }

  lemma ThreeColumns(b: Bytes, values: seq<Value>)
    requires |values| == 3 && |b| == HeaderSize(3) + |Payload(values, 3)| <= LIMIT16 && ColumnCount(b) == 3
    requires (IsNull(b, 0) <==> values[0].Null?) && (IsNull(b, 1) <==> values[1].Null?) && (IsNull(b, 2) <==> values[2].Null?)
    requires Offset(b, 3, 0) == |Payload(values, 0)| && Offset(b, 3, 1) == |Payload(values, 1)| && Offset(b, 3, 2) == |Payload(values, 2)|
    requires b[HeaderSize(3)..] == Payload(values, 3)
    ensures Encodes(b, values)
  {
    hide Payload, IsNull, Offset, ColumnCount, HeaderSize;
  }

  lemma PayloadByNumbers()
    ensures Payload(VALUES, 0) == [] && Payload(VALUES, 1) == [] && Payload(VALUES, 2) == [97, 98] && Payload(VALUES, 3) == [97, 98, 1]
  {
    assert FieldBytes(VALUES[0]) == [] && FieldBytes(VALUES[1]) == [97, 98] && FieldBytes(VALUES[2]) == [1];
    assert Payload(VALUES, 1) == Payload(VALUES, 0) + FieldBytes(VALUES[0]);
    assert Payload(VALUES, 2) == Payload(VALUES, 1) + FieldBytes(VALUES[1]);
    assert Payload(VALUES, 3) == Payload(VALUES, 2) + FieldBytes(VALUES[2]);
    hide Payload;
  }

  lemma HeaderByNumbers()
    ensures |RECORD| == 12 && HeaderSize(3) == 9 && RECORD[9..] == [97, 98, 1] && LIMIT16 >= 12
    ensures ColumnCount(RECORD) == 3 && Offset(RECORD, 3, 0) == 0 && Offset(RECORD, 3, 1) == 0 && Offset(RECORD, 3, 2) == 2
  {
    assert BitmapSize(3) == 1;
  }

  lemma FirstBit()
    ensures IsNull(RECORD, 0) && !IsNull(RECORD, 1) && !IsNull(RECORD, 2)
  {
    assert ByteAt(RECORD, 2) == 1;
    assert Bits(1, 8) == [true] + Bits(0, 7);
    assert Bits(0, 7) == [false] + Bits(0, 6);
    assert Bits(0, 6) == [false] + Bits(0, 5);
  }
}
