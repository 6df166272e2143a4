// Little-endian fields inside byte buffers, as the page formats store them.
module ByteFormat {
  import opened Common

  const INT32_LIMIT: int := 0x8000_0000

  predicate IsInt32(v: int) { -INT32_LIMIT <= v < INT32_LIMIT }

  /** `b` with `s` written over it from offset `off` on, where there is room for it. */
  function Put(b: Bytes, off: nat, s: Bytes): (r: Bytes)
    ensures |r| == |b|
  {
    if off + |s| <= |b| then b[..off] + s + b[off + |s|..] else b
  }

  /** What each byte is after `s` has been written. */
  lemma PutAt(b: Bytes, off: nat, s: Bytes, x: nat)
    requires off + |s| <= |b| && x < |b|
    ensures Put(b, off, s)[x] == if off <= x < off + |s| then s[x - off] else b[x]
  {
  }

  /** The `n` bytes from offset `off` on, if there are so many. */
  function Slice(b: Bytes, off: nat, n: nat): Bytes {
    if off + n <= |b| then b[off..off + n] else []
  }

  /** The low 16 bits of `v`. */
  function U16(v: nat): (s: Bytes)
    ensures |s| == 2
  {
    [v % 256, v / 256 % 256]
  }

  /** The low 32 bits of `v`. */
  function U32(v: nat): (s: Bytes)
    ensures |s| == 4
  {
    [v % 256, v / 256 % 256, v / 256 / 256 % 256, v / 256 / 256 / 256 % 256]
  }

  function I32(v: int): (s: Bytes)
    ensures |s| == 4
  {
    U32(v % 0x1_0000_0000)
  }

  function GetU16(b: Bytes, off: nat): (v: nat)
    ensures v < 0x1_0000
  {
    if off + 2 <= |b| then b[off] as int + 256 * (b[off + 1] as int) else 0
  }

  function GetU32(b: Bytes, off: nat): (v: nat)
    ensures v < 0x1_0000_0000
  {
    if off + 4 <= |b| then
      b[off] as int + 256 * (b[off + 1] as int) + 65536 * (b[off + 2] as int) + 16777216 * (b[off + 3] as int)
    else
      0
  }

  function GetI32(b: Bytes, off: nat): (v: int)
    ensures IsInt32(v)
  {
    var raw := GetU32(b, off);
    if raw >= 0x8000_0000 then raw - 0x1_0000_0000 else raw
  }

  /** Reading back what was written. */
  lemma GetPutU16(b: Bytes, off: nat, v: nat)
    requires off + 2 <= |b| && v < 0x1_0000
    ensures GetU16(Put(b, off, U16(v)), off) == v
  {
  }

  lemma GetPutU32(b: Bytes, off: nat, v: nat)
    requires off + 4 <= |b| && v < 0x1_0000_0000
    ensures GetU32(Put(b, off, U32(v)), off) == v
  {
    var r := Put(b, off, U32(v));
    assert r[off] == v % 256 && r[off + 1] == v / 256 % 256;
    assert r[off + 2] == v / 256 / 256 % 256 && r[off + 3] == v / 256 / 256 / 256;
  }

  lemma GetPutI32(b: Bytes, off: nat, v: int)
    requires off + 4 <= |b| && IsInt32(v)
    ensures GetI32(Put(b, off, I32(v)), off) == v
  {
    GetPutU32(b, off, v % 0x1_0000_0000);
  }

  /** Fields depend only on their own bytes. */
  lemma SameU16(a: Bytes, b: Bytes, off: nat)
    requires |a| == |b|
    requires off + 2 <= |a| ==> a[off] == b[off] && a[off + 1] == b[off + 1]
    ensures GetU16(a, off) == GetU16(b, off)
  {
  }

  lemma SameU32(a: Bytes, b: Bytes, off: nat)
    requires |a| == |b|
    requires forall x: nat :: off <= x < off + 4 && x < |a| ==> a[x] == b[x]
    ensures GetU32(a, off) == GetU32(b, off)
  {
  }

  lemma SameI32(a: Bytes, b: Bytes, off: nat)
    requires |a| == |b|
    requires forall x: nat :: off <= x < off + 4 && x < |a| ==> a[x] == b[x]
    ensures GetI32(a, off) == GetI32(b, off)
  {
  }

  /** Clearing the whole of a buffer. */
  lemma WholePage(c: Bytes, b: Bytes)
    requires |b| == PAGE_SIZE && c == Put(b, 0, Zeros(PAGE_SIZE - 0))
    ensures c == Zeros(PAGE_SIZE)
  {
  }

  /** Copies `s` into the buffer. */
  method Write(a: array<byte>, off: nat, s: Bytes)
    requires off + |s| <= a.Length
    modifies a
    ensures a[..] == Put(old(a[..]), off, s)
  {
    forall i | 0 <= i < |s| {
      a[off + i] := s[i];
    }
  }

  /** Clears the bytes from `off` up to `end`. */
  method Clear(a: array<byte>, off: nat, end: nat)
    requires off <= end <= a.Length
    modifies a
    ensures a[..] == Put(old(a[..]), off, Zeros(end - off))
  {
    forall i | off <= i < end {
      a[i] := 0;
    }
  }
}
