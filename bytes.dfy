/** Bytes as the file channel sees them, Java's signed view of a byte, and the
    big-endian 64-bit value that a checksum footer stores. */
module Bytes {

  /** One byte of a file, as its unsigned bit pattern. */
  type Byte = b: int | 0 <= b < 256

  /** A Java `long`, as its 64-bit two's-complement bit pattern. Checksums are
      only ever compared for equality, and two longs are equal exactly when
      their bit patterns are. */
  type Long = x: int | 0 <= x < 0x1_0000_0000_0000_0000

  /** Number of bytes in a `long`, and in the checksum at the end of a footer. */
  const LongBytes := 8

  /** The value of a Java `byte` holding the bit pattern `b`. */
  function Signed(b: Byte): (v: int)
    ensures -128 <= v < 128
    ensures (v - b) % 256 == 0
  {
    if b < 128 then b else b - 256
  }

  /** The bit pattern of the Java `byte` whose value is `v`. */
  function Unsigned(v: int): (b: Byte)
    requires -128 <= v < 128
    ensures Signed(b) == v
  {
    if v < 0 then v + 256 else v
  }

  /** Java's narrowing cast `(byte) x`: keep the low 8 bits of the int and read
      them as a signed byte. */
  function NarrowToByte(x: int): (v: int)
    ensures -128 <= v < 128
    ensures (x - v) % 256 == 0
  {
    (x + 128) % 256 - 128
  }

  /** The new byte that `(byte) (oldValue + 1)` computes from the old one,
      done in Java's signed arithmetic. As a bit pattern it is the old byte
      plus one, modulo 256, so it always differs from the old byte. */
  function Increment(b: Byte): (r: Byte)
    ensures r == (b as int + 1) % 256
    ensures r != b
  {
    Unsigned(NarrowToByte(Signed(b) + 1))
  }

  /** The increment wraps around: the bit pattern 0xFF becomes 0x00, and the
      Java byte 127 becomes -128. */
  lemma IncrementWrapsAround()
    ensures Increment(0xFF) == 0x00
    ensures Signed(Increment(Unsigned(127))) == -128
  {
  }

  /** 256 to the power `n`. */
  function Pow256(n: nat): nat
  {
    if n == 0 then 1 else 256 * Pow256(n - 1)
  }

  /** The unsigned value of a sequence of bytes read most significant first. */
  function BigEndian(s: seq<Byte>): (v: nat)
    ensures v < Pow256(|s|)
  {
    if s == [] then 0 else BigEndian(s[..|s| - 1]) * 256 + s[|s| - 1]
  }

  /** `DataInput.readLong`: eight bytes, most significant first. */
  function ReadLong(s: seq<Byte>): (v: Long)
    requires |s| == LongBytes
  {
    assert Pow256(LongBytes) == 0x1_0000_0000_0000_0000;
    BigEndian(s)
  }

  /** `readLong` gives byte `i` of the eight the weight 256 to the power
      `7 - i`. */
  lemma ReadLongWeights(s: seq<Byte>)
    requires |s| == LongBytes
    ensures ReadLong(s) == s[0] as int * 0x100_0000_0000_0000 + s[1] as int * 0x1_0000_0000_0000
                           + s[2] as int * 0x100_0000_0000 + s[3] as int * 0x1_0000_0000
                           + s[4] as int * 0x100_0000 + s[5] as int * 0x1_0000 + s[6] as int * 0x100 + s[7]
  {
    assert BigEndian(s[..1]) == s[0] by { assert s[..1][..0] == []; }
    assert BigEndian(s[..2]) == s[0] as int * 0x100 + s[1] by { assert s[..2][..1] == s[..1]; }
    assert BigEndian(s[..3]) == s[0] as int * 0x1_0000 + s[1] as int * 0x100 + s[2]
      by { assert s[..3][..2] == s[..2]; }
    assert BigEndian(s[..4]) == s[0] as int * 0x100_0000 + s[1] as int * 0x1_0000 + s[2] as int * 0x100 + s[3]
      by { assert s[..4][..3] == s[..3]; }
    assert BigEndian(s[..5]) == s[0] as int * 0x1_0000_0000 + s[1] as int * 0x100_0000 + s[2] as int * 0x1_0000
                                + s[3] as int * 0x100 + s[4]
      by { assert s[..5][..4] == s[..4]; }
    assert BigEndian(s[..6]) == s[0] as int * 0x100_0000_0000 + s[1] as int * 0x1_0000_0000 + s[2] as int * 0x100_0000
                                + s[3] as int * 0x1_0000 + s[4] as int * 0x100 + s[5]
      by { assert s[..6][..5] == s[..5]; }
    assert BigEndian(s[..7]) == s[0] as int * 0x1_0000_0000_0000 + s[1] as int * 0x100_0000_0000
                                + s[2] as int * 0x1_0000_0000 + s[3] as int * 0x100_0000 + s[4] as int * 0x1_0000
                                + s[5] as int * 0x100 + s[6]
      by { assert s[..7][..6] == s[..6]; }
    assert s[..8] == s;
  }

  /** Two byte sequences of one length that read as the same number are the
      same sequence: no two distinct footers store the same checksum. */
  lemma {:induction false} BigEndianInjective(a: seq<Byte>, b: seq<Byte>)
    requires |a| == |b|
    requires BigEndian(a) == BigEndian(b)
    ensures a == b
  {
    if a != [] {
      var n := |a| - 1;
      var x, y := BigEndian(a[..n]), BigEndian(b[..n]);
      assert x * 256 + a[n] == y * 256 + b[n];
      assert x == y && a[n] == b[n];
      BigEndianInjective(a[..n], b[..n]);
      assert a == a[..n] + [a[n]];
      assert b == b[..n] + [b[n]];
    }
  }

  /** A footer whose bytes changed reads as a different `long`. */
  lemma ReadLongInjective(a: seq<Byte>, b: seq<Byte>)
    requires |a| == LongBytes && |b| == LongBytes
    ensures ReadLong(a) == ReadLong(b) <==> a == b
  {
    if ReadLong(a) == ReadLong(b) {
      BigEndianInjective(a, b);
    }
  }
}
