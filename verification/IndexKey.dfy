// The encoding of column values as index keys (src/index/index_key.cpp).
module IndexKeys {
  import opened Common
  import opened ByteFormat
  import opened BucketFormat
  import opened RecordFormat

  /** The key of a value: a type tag and the value. NULLs have no key, and neither have
      texts that do not fit. */
  function KeyOf(value: Value): (key: Option<Bytes>)
    ensures key.Some? ==> 0 < |key.value| <= MAX_KEY_LENGTH
  {
    match value
    case Null => None
    case Integer(i) => Some([1] + I32(i))
    case Text(s) => if |s| + 1 > MAX_KEY_LENGTH then None else Some([2] + s)
    case Boolean(b) => Some([3, if b then 1 else 0])
  }

  /** Every value has a key, except NULL and texts of more than 63 bytes. */
  lemma WhichValuesHaveKeys(value: Value)
    ensures KeyOf(value).Some? <==> !value.Null? && (value.Text? ==> |value.s| <= 63)
  {
  }

  /** Different values have different keys. */
  lemma KeysAreInjective(a: Value, b: Value)
    requires KeyOf(a).Some? && KeyOf(a) == KeyOf(b)
    ensures a == b
  {
    var key := KeyOf(a).value;
    assert key == KeyOf(b).value;
    assert key[0] == if a.Integer? then 1 else if a.Text? then 2 else 3;
    assert key[0] == if b.Integer? then 1 else if b.Text? then 2 else 3;
    if a.Integer? {
      assert key[1..] == I32(a.i) && key[1..] == I32(b.i);
      var zero: Bytes := [0, 0, 0, 0];
      assert Put(zero, 0, I32(a.i)) == I32(a.i) && Put(zero, 0, I32(b.i)) == I32(b.i);
      GetPutI32(zero, 0, a.i);
      GetPutI32(zero, 0, b.i);
    } else if a.Text? {
      assert a.s == key[1..] && b.s == key[1..];
    } else {
      assert key[1] == if a.b then 1 else 0;
      assert key[1] == if b.b then 1 else 0;
    }
  }

  /** The little-endian bytes of the low `k` bytes of an unsigned value. */
  lemma ShiftStep(raw: nat, k: nat, shifted: nat)
    requires k < 4 && raw < 0x1_0000_0000
    requires shifted == if k == 0 then raw else if k == 1 then raw / 256 else if k == 2 then raw / 256 / 256 else raw / 256 / 256 / 256
    ensures U32(raw)[k] == shifted % 256
  {
  }

  method Encode(value: Value) returns (status: StatusCode, key: Bytes)
    ensures status == if KeyOf(value).Some? then OK else INVALID_ARGUMENT
    ensures status == OK ==> KeyOf(value) == Some(key)
  {
    key := [];
    match value {
      case Null =>
        status := INVALID_ARGUMENT;
      case Integer(i) =>
        key := [1];
        var raw := i as int % 0x1_0000_0000;
        var shifted := raw;
        for k := 0 to 4
          invariant key == [1] + U32(raw)[..k]
          invariant shifted == if k == 0 then raw else if k == 1 then raw / 256 else if k == 2 then raw / 256 / 256
                               else if k == 3 then raw / 256 / 256 / 256 else raw / 256 / 256 / 256 / 256
        {
          ShiftStep(raw, k, shifted);
          key := key + [shifted % 256];
          shifted := shifted / 256;
        }
        assert U32(raw)[..4] == U32(raw) == I32(i);
        status := OK;
      case Text(s) =>
        if |s| + 1 > MAX_KEY_LENGTH {
          return INVALID_ARGUMENT, key;
        }
        key := [2] + s;
        status := OK;
      case Boolean(b) =>
        key := [3, if b then 1 else 0];
        status := OK;
    }
  }
}
