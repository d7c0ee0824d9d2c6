/** Option: the value of an attribute that may never have been assigned. */
module Wrappers {
  datatype Option<+T> = None | Some(value: T)
}

/**
 * Big-endian fixed-width integers as they appear on the wire, the way the
 * codec packs them with `struct.pack` ('B', 'b', 'h', 'i', 'I') and reads them
 * with `int.from_bytes(..., byteorder='big')`.
 */
module Wire {
  /** One octet. */
  type Byte = x: int | 0 <= x < 256
  type Bytes = seq<Byte>

  const TWO_15: int := 0x8000
  const TWO_16: int := 0x1_0000
  const TWO_31: int := 0x8000_0000
  const TWO_32: int := 0x1_0000_0000

  predicate IsInt16(x: int) { -TWO_15 <= x < TWO_15 }
  predicate IsInt32(x: int) { -TWO_31 <= x < TWO_31 }

  /** `int.from_bytes` of two bytes, unsigned. */
  function DecodeU16(s: Bytes): (v: nat)
    requires |s| == 2
    ensures v < TWO_16
  {
    s[0] as int * 0x100 + s[1] as int
  }

  /** `int.from_bytes` of four bytes, unsigned. */
  function DecodeU32(s: Bytes): (v: nat)
    requires |s| == 4
    ensures v < TWO_32
  {
    DecodeU16(s[..2]) * TWO_16 + DecodeU16(s[2..])
  }

  /** A two-byte field read as a two's-complement int16. */
  function DecodeI16(s: Bytes): (v: int)
    requires |s| == 2
    ensures IsInt16(v)
    ensures v < 0 <==> s[0] >= 0x80
  {
    var u := DecodeU16(s);
    if u < TWO_15 then u else u - TWO_16
  }

  /** A four-byte field read as a two's-complement int32. */
  function DecodeI32(s: Bytes): (v: int)
    requires |s| == 4
    ensures IsInt32(v)
    ensures v < 0 <==> s[0] >= 0x80
  {
    var u := DecodeU32(s);
    if u < TWO_31 then u else u - TWO_32
  }

  /** `struct.pack('!H', x)`. */
  function EncodeU16(x: nat): (r: Bytes)
    requires x < TWO_16
    ensures |r| == 2 && DecodeU16(r) == x
  {
    [x / 0x100, x % 0x100]
  }

  /** `struct.pack('>I', x)`. */
  function EncodeU32(x: nat): (r: Bytes)
    requires x < TWO_32
    ensures |r| == 4 && DecodeU32(r) == x
  {
    var high := EncodeU16(x / TWO_16);
    var low := EncodeU16(x % TWO_16);
    assert (high + low)[..2] == high && (high + low)[2..] == low;
    high + low
  }

  /** `struct.pack('!h', x)`: two's complement in two bytes. */
  function EncodeI16(x: int): (r: Bytes)
    requires IsInt16(x)
    ensures |r| == 2 && DecodeI16(r) == x
  {
    EncodeU16(if x < 0 then x + TWO_16 else x)
  }

  /** `struct.pack('!i', x)`: two's complement in four bytes. */
  function EncodeI32(x: int): (r: Bytes)
    requires IsInt32(x)
    ensures |r| == 4 && DecodeI32(r) == x
  {
    EncodeU32(if x < 0 then x + TWO_32 else x)
  }

  /** `struct.pack('!b', x)`: two's complement in one byte. */
  function EncodeI8(x: int): (r: Bytes)
    requires -0x80 <= x < 0x80
    ensures |r| == 1 && (if r[0] < 0x80 then r[0] as int else r[0] as int - 0x100) == x
  {
    [if x < 0 then x + 0x100 else x]
  }

  /** Decoding is injective: every two-byte field is the encoding of its value. */
  lemma EncodeDecodeU16(s: Bytes)
    requires |s| == 2
    ensures EncodeU16(DecodeU16(s)) == s
  {
  }

  /** Every four-byte field is the encoding of its value. */
  lemma EncodeDecodeU32(s: Bytes)
    requires |s| == 4
    ensures EncodeU32(DecodeU32(s)) == s
  {
    var high := DecodeU16(s[..2]);
    var low := DecodeU16(s[2..]);
    assert DecodeU32(s) / TWO_16 == high && DecodeU32(s) % TWO_16 == low;
    EncodeDecodeU16(s[..2]);
    EncodeDecodeU16(s[2..]);
    assert s == s[..2] + s[2..];
  }

  /** The middle part of a five-part concatenation, as a slice. */
  lemma SliceMiddle(a: Bytes, b: Bytes, c: Bytes, d: Bytes, e: Bytes, i: nat, j: nat)
    requires i == |a| + |b| && j == i + |c|
    ensures (a + b + c + d + e)[i..j] == c
  {
    var s := a + b + c + d + e;
    forall k | 0 <= k < |c|
      ensures s[i..j][k] == c[k]
    {
      assert s[i + k] == c[k];
    }
  }

  /** Dropping `i` bytes and then `j` more drops `i + j`. */
  lemma DropDrop(s: Bytes, i: nat, j: nat)
    requires i + j <= |s|
    ensures s[i..][j..] == s[i + j..]
  {
    forall k | 0 <= k < |s| - i - j
      ensures s[i..][j..][k] == s[i + j..][k]
    {
    }
  }

  /** `n` zero bytes, such as the nil topic id. */
  function Zeros(n: nat): (r: Bytes)
    ensures |r| == n && forall i | 0 <= i < n :: r[i] == 0
  {
    seq(n, _ => 0)
  }

  /**
   * A complete message: a signed 32-bit big-endian size of everything that
   * follows, then the content (`struct.pack('!i', len(content)) + content`).
   */
  function Frame(content: Bytes): (r: Bytes)
    requires |content| < TWO_31
    ensures |r| == |content| + 4
    ensures DecodeI32(r[..4]) == |r| - 4
    ensures r[4..] == content
  {
    EncodeI32(|content|) + content
  }
}
