/**
 * Signed 32-bit integers as four little-endian bytes in two's complement,
 * the encoding `Buffer.writeInt32LE` produces.
 */
module Int32LE {

  /** An octet of a buffer. */
  type Byte = b: int | 0 <= b < 256

  const Two31: int := 0x8000_0000
  const Two32: int := 0x1_0000_0000

  /** The range of a signed 32-bit integer, -2^31 .. 2^31 - 1. */
  predicate IsInt32(v: int) {
    -Two31 <= v < Two31
  }

  /** 256^n, the number of values n bytes can hold. */
  function Pow256(n: nat): (r: nat)
    ensures r > 0
  {
    if n == 0 then 1 else 256 * Pow256(n - 1)
  }

  lemma Pow256Four()
    ensures Pow256(4) == Two32
  {
    assert Pow256(1) == 256;
    assert Pow256(2) == 65536;
    assert Pow256(3) == 16777216;
  }

  /** The low n bytes of u, least significant first. */
  function ToBytesLE(u: nat, n: nat): (r: seq<Byte>)
    ensures |r| == n
  {
    if n == 0 then [] else [u % 256] + ToBytesLE(u / 256, n - 1)
  }

  /** The unsigned value of little-endian bytes. */
  function FromBytesLE(b: seq<Byte>): (r: nat)
    ensures r < Pow256(|b|)
  {
    if b == [] then 0 else b[0] + 256 * FromBytesLE(b[1..])
  }

  /** Reading back the n bytes written for u gives u, whenever u fits in n bytes. */
  lemma {:induction false} FromToBytesLE(u: nat, n: nat)
    requires u < Pow256(n)
    ensures FromBytesLE(ToBytesLE(u, n)) == u
  {
    if n > 0 {
      FromToBytesLE(u / 256, n - 1);
      assert ToBytesLE(u, n)[1..] == ToBytesLE(u / 256, n - 1);
    }
  }

  /** Writing the value of a byte sequence gives back the same bytes. */
  lemma {:induction false} ToFromBytesLE(b: seq<Byte>)
    ensures ToBytesLE(FromBytesLE(b), |b|) == b
  {
    if b != [] {
      ToFromBytesLE(b[1..]);
      var u := FromBytesLE(b);
      assert u % 256 == b[0];
      assert u / 256 == FromBytesLE(b[1..]);
      assert b == [b[0]] + b[1..];
    }
  }

  /** The two's-complement bit pattern of v, read as an unsigned number. */
  function ToUnsigned32(v: int): (u: nat)
    requires IsInt32(v)
    ensures u < Two32
    ensures v >= 0 ==> u == v
    ensures v < 0 ==> u == v + Two32
  {
    if v < 0 then v + Two32 else v
  }

  /** The four bytes `writeInt32LE(v, offset)` stores at offset .. offset + 4. */
  function EncodeInt32(v: int): (r: seq<Byte>)
    requires IsInt32(v)
    ensures |r| == 4
  {
    ToBytesLE(ToUnsigned32(v), 4)
  }

  /** The signed value `readInt32LE` gives for four bytes. */
  function DecodeInt32(b: seq<Byte>): (v: int)
    requires |b| == 4
    ensures IsInt32(v)
  {
    Pow256Four();
    var u := FromBytesLE(b);
    if u < Two31 then u else u - Two32
  }

  /** Round trip: every int32 is recovered from its four bytes. */
  lemma DecodeEncodeInt32(v: int)
    requires IsInt32(v)
    ensures DecodeInt32(EncodeInt32(v)) == v
  {
    Pow256Four();
    FromToBytesLE(ToUnsigned32(v), 4);
  }

  /** Round trip: every four-byte pattern is the encoding of the int32 it decodes to. */
  lemma EncodeDecodeInt32(b: seq<Byte>)
    requires |b| == 4
    ensures EncodeInt32(DecodeInt32(b)) == b
  {
    Pow256Four();
    ToFromBytesLE(b);
  }

  /** Distinct int32 values have distinct encodings. */
  lemma EncodeInt32Injective(x: int, y: int)
    requires IsInt32(x) && IsInt32(y)
    ensures EncodeInt32(x) == EncodeInt32(y) <==> x == y
  {
    if EncodeInt32(x) == EncodeInt32(y) {
      DecodeEncodeInt32(x);
      DecodeEncodeInt32(y);
    }
  }

  /** The four bytes written, one position at a time, least significant first. */
  lemma EncodeInt32Bytes(v: int)
    requires IsInt32(v)
    ensures var u := ToUnsigned32(v);
            EncodeInt32(v) == [u % 256, u / 256 % 256, u / 256 / 256 % 256, u / 256 / 256 / 256 % 256]
  {
    var u := ToUnsigned32(v);
    assert ToBytesLE(u / 256 / 256 / 256, 1) == [u / 256 / 256 / 256 % 256];
    assert ToBytesLE(u / 256 / 256, 2) == [u / 256 / 256 % 256] + ToBytesLE(u / 256 / 256 / 256, 1);
    assert ToBytesLE(u / 256, 3) == [u / 256 % 256] + ToBytesLE(u / 256 / 256, 2);
    assert ToBytesLE(u, 4) == [u % 256] + ToBytesLE(u / 256, 3);
  }

  /** The sign lives in the top bit of the last byte: v is negative exactly when byte 3 is 0x80 or more. */
  lemma EncodeInt32Sign(v: int)
    requires IsInt32(v)
    ensures EncodeInt32(v)[3] >= 128 <==> v < 0
  {
    EncodeInt32Bytes(v);
  }

  /** Zero is four zero bytes; -1 is four 0xFF bytes (two's complement). */
  lemma EncodeInt32Examples()
    ensures EncodeInt32(0) == [0, 0, 0, 0]
    ensures EncodeInt32(-1) == [0xFF, 0xFF, 0xFF, 0xFF]
    ensures EncodeInt32(5) == [5, 0, 0, 0]
    ensures EncodeInt32(-Two31) == [0, 0, 0, 0x80]
    ensures EncodeInt32(Two31 - 1) == [0xFF, 0xFF, 0xFF, 0x7F]
  {
    EncodeInt32Bytes(0);
    EncodeInt32Bytes(-1);
    EncodeInt32Bytes(5);
    EncodeInt32Bytes(-Two31);
    EncodeInt32Bytes(Two31 - 1);
  }
}
