/**
 * Java's primitive value types as the writer uses them, and the big-endian
 * byte order that `java.nio.ByteBuffer` uses by default for its puts.
 */
module JavaBytes {

  newtype byte = x: int | 0 <= x < 0x100

  /** A Java `char`: one UTF-16 code unit (surrogates included). */
  newtype CodeUnit = x: int | 0 <= x < 0x1_0000

  /** A Java `long`. */
  newtype Long = x: int | -0x8000_0000_0000_0000 <= x < 0x8000_0000_0000_0000

  /** A Java `double`, kept as its raw IEEE-754 bit pattern (`Double.doubleToRawLongBits`). */
  newtype DoubleBits = x: int | 0 <= x < 0x1_0000_0000_0000_0000

  const INT_MIN: int := -0x8000_0000
  const INT_MAX: int := 0x7FFF_FFFF

  /** `v` fits in a Java `int`. */
  predicate IsInt(v: int) {
    INT_MIN <= v <= INT_MAX
  }

  const POSITIVE_ZERO: DoubleBits := 0
  const NEGATIVE_ZERO: DoubleBits := 0x8000_0000_0000_0000

  /** Java's `d != 0.0` is false exactly for +0.0 and -0.0. */
  predicate IsZero(d: DoubleBits) {
    d == POSITIVE_ZERO || d == NEGATIVE_ZERO
  }

  /** All exponent bits set and a non-zero fraction. */
  predicate IsNaN(d: DoubleBits) {
    (d as int / 0x10_0000_0000_0000) % 0x800 == 0x7FF && d as int % 0x10_0000_0000_0000 != 0
  }

  /** NaN compares unequal to 0.0, so a NaN is never treated as zero. */
  lemma NaNIsNonZero(d: DoubleBits)
    requires IsNaN(d)
    ensures !IsZero(d)
  {
  }

  function Pow256(w: nat): (r: nat)
    ensures r > 0
  {
    if w == 0 then 1 else 256 * Pow256(w - 1)
  }

  /** The unsigned value of a byte string, most significant byte first. */
  function FromBigEndian(s: seq<byte>): (n: nat)
    ensures n < Pow256(|s|)
  {
    if s == [] then 0 else FromBigEndian(s[..|s| - 1]) * 256 + s[|s| - 1] as int
  }

  /** The `w` bytes of `n`, most significant first; reading them back gives `n`. */
  function BigEndian(n: nat, w: nat): (r: seq<byte>)
    requires n < Pow256(w)
    ensures |r| == w
    ensures FromBigEndian(r) == n
  {
    if w == 0 then []
    else
      var high := BigEndian(n / 256, w - 1);
      assert (high + [(n % 256) as byte])[..w - 1] == high;
      high + [(n % 256) as byte]
  }

  const TWO_TO_32: int := 0x1_0000_0000

  /** The four bytes `ByteBuffer.putInt(v)` stores: `v` in 32-bit two's complement, big-endian. */
  function IntBytes(v: int): (r: seq<byte>)
    ensures |r| == 4
  {
    var u := v % TWO_TO_32;
    [(u / 0x100_0000) as byte, (u / 0x1_0000 % 0x100) as byte, (u / 0x100 % 0x100) as byte, (u % 0x100) as byte]
  }

  /** The four bytes are the generic big-endian encoding of the low 32 bits. */
  lemma IntBytesIsBigEndian(v: int)
    ensures IntBytes(v) == BigEndian(v % TWO_TO_32, 4)
  {
    var u := v % TWO_TO_32;
    assert u / 0x100 / 0x100 == u / 0x1_0000;
    assert u / 0x1_0000 / 0x100 == u / 0x100_0000;
    assert u / 0x100_0000 / 0x100 == 0;
  }

  /** The two bytes `ByteBuffer.putChar(c)` stores. */
  function CharBytes(c: CodeUnit): (r: seq<byte>)
    ensures |r| == 2
  {
    BigEndian(c as nat, 2)
  }

  /** The eight bytes `ByteBuffer.putDouble(d)` stores: the raw bit pattern, big-endian. */
  function DoubleBytes(d: DoubleBits): (r: seq<byte>)
    ensures |r| == 8
  {
    BigEndian(d as nat, 8)
  }

  /** Reads four bytes as a signed 32-bit integer, as `ByteBuffer.getInt` would. */
  function IntOf(s: seq<byte>): (v: int)
    requires |s| == 4
    ensures IsInt(v)
  {
    var u := FromBigEndian(s);
    if u > INT_MAX then u - TWO_TO_32 else u
  }

  /** `putInt` followed by `getInt` is the identity on every Java `int`. */
  lemma IntRoundTrip(v: int)
    requires IsInt(v)
    ensures IntOf(IntBytes(v)) == v
  {
    IntBytesIsBigEndian(v);
  }
}
