/** Byte buffers and the signed 32-bit little-endian integers of every frame header. */
module Bytes {
  import opened Outcomes

  type Byte = n: int | 0 <= n < 256
  type Buffer = seq<Byte>

  const INT32_MAX := 0x7fff_ffff

  predicate IsInt32(n: int) {
    -0x8000_0000 <= n < 0x8000_0000
  }

  function Unsigned(n: int): (u: nat)
    requires IsInt32(n)
    ensures u < 0x1_0000_0000
  {
    if n < 0 then n + 0x1_0000_0000 else n
  }

  function Int32LE(n: int): (b: Buffer)
    requires IsInt32(n)
    ensures |b| == 4
  {
    var u0 := Unsigned(n);
    var u1 := u0 / 0x100;
    var u2 := u1 / 0x100;
    [u0 % 0x100, u1 % 0x100, u2 % 0x100, u2 / 0x100]
  }

  function Assembled(a: int, b: int, c: int, d: int): int {
    a + 0x100 * (b + 0x100 * (c + 0x100 * d))
  }

  lemma Parts(a: Byte, b: Byte, c: Byte, d: Byte)
    ensures var u := Assembled(a, b, c, d);
            && u % 0x100 == a && u / 0x100 % 0x100 == b
            && u / 0x100 / 0x100 % 0x100 == c && u / 0x100 / 0x100 / 0x100 == d
  {
    assert Assembled(a, b, c, d) / 0x100 == Assembled(b, c, d, 0);
    assert Assembled(b, c, d, 0) / 0x100 == Assembled(c, d, 0, 0);
  }

  /** The integer at an offset. */
  function Int32At(b: Buffer, offset: nat): (n: int)
    requires offset + 4 <= |b|
    ensures IsInt32(n)
  {
    var u := Assembled(b[offset], b[offset + 1], b[offset + 2], b[offset + 3]);
    if u < 0x8000_0000 then u else u - 0x1_0000_0000
  }

  /** The lowest byte comes first, and negative numbers are written as their two's complement. */
  lemma LittleEndian(n: int)
    requires IsInt32(n)
    ensures var b := Int32LE(n);
            b[0] as int + 0x100 * b[1] as int + 0x1_0000 * b[2] as int + 0x100_0000 * b[3] as int ==
            if n < 0 then n + 0x1_0000_0000 else n
  {
  }

  /** Decoding undoes encoding for every signed 32-bit integer. */
  lemma ReadsBack(n: int)
    requires IsInt32(n)
    ensures Int32At(Int32LE(n), 0) == n
  {
  }

  /** Encoding undoes decoding for every four bytes, so the encoding is a bijection. */
  lemma WritesBack(b: Buffer)
    requires |b| == 4
    ensures Int32LE(Int32At(b, 0)) == b
  {
    Parts(b[0], b[1], b[2], b[3]);
  }

  /** `Buffer.readInt32LE`: an offset outside the buffer throws. */
  function ReadInt32LE(b: Buffer, offset: int): Attempt<int> {
    if 0 <= offset && offset + 4 <= |b| then Returned(Int32At(b, offset)) else Thrown
  }

  function Clamp(i: int, length: nat): (n: nat)
    ensures n <= length
  {
    if i < 0 then (if length + i < 0 then 0 else length + i) else if i > length then length else i
  }

  /** `Buffer.slice(start, end)`: bounds count from the end when negative and are clamped. */
  function Slice(b: Buffer, start: int, end: int): Buffer {
    var (s, e) := (Clamp(start, |b|), Clamp(end, |b|));
    if s < e then b[s..e] else []
  }

  /** `Buffer.slice(start)`. */
  function SliceFrom(b: Buffer, start: int): Buffer {
    b[Clamp(start, |b|)..]
  }

  /** A bound within the buffer is taken as it is, one beyond it as its end. */
  lemma SliceWithin(b: Buffer, i: int, j: int)
    requires 0 <= i <= j
    ensures i <= |b| ==> SliceFrom(b, i) == b[i..] && Slice(b, i, j) == if j <= |b| then b[i..j] else b[i..]
    ensures i > |b| ==> SliceFrom(b, i) == [] && Slice(b, i, j) == []
  {
  }

  /** A negative bound counts from the end, and not beyond the start. */
  lemma SliceNegative(b: Buffer, k: int)
    requires k > 0
    ensures k <= |b| ==> SliceFrom(b, -k) == b[|b| - k..] && Slice(b, 0, -k) == b[..|b| - k]
    ensures k > |b| ==> SliceFrom(b, -k) == b && Slice(b, 0, -k) == []
  {
  }

  /** `Buffer.writeInt32LE`: overwrites four bytes, or throws and writes nothing. */
  method WriteInt32LE(header: array<Byte>, value: int, offset: nat) returns (ok: bool)
    requires offset + 4 <= header.Length
    modifies header
    ensures ok == IsInt32(value)
    ensures header[..offset] == old(header[..offset]) && header[offset + 4..] == old(header[offset + 4..])
    ensures header[offset..offset + 4] == if ok then Int32LE(value) else old(header[offset..offset + 4])
  {
    ok := IsInt32(value);
    if ok {
      var b := Int32LE(value);
      header[offset], header[offset + 1], header[offset + 2], header[offset + 3] := b[0], b[1], b[2], b[3];
    }
  }
}
