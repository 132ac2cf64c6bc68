/** Bytes, machine integers and the small result types shared by every module. */
module Bytes {

  datatype Option<+T> = None | Some(value: T)

  type byte = x: int | 0 <= x < 256

  /** A C++ `std::string` is a sequence of bytes. */
  type bytes = seq<byte>

  const TWO31 := 0x8000_0000
  const TWO32 := 0x1_0000_0000
  const TWO64 := 0x1_0000_0000_0000_0000

  predicate IsInt32(x: int) { -TWO31 <= x < TWO31 }

  type int32 = x: int | IsInt32(x)

  /** The value a 32-bit signed integer takes when `v` is cast to it. */
  function ToInt32(v: int): (x: int)
    ensures IsInt32(x)
    ensures IsInt32(v) ==> x == v
  {
    var u := v % TWO32;
    if u < TWO31 then u else u - TWO32
  }

  /** A signed value cast to an unsigned 64-bit one: negative values are sign-extended. */
  function ToUInt64(x: int): (v: nat)
    ensures v < TWO64
  {
    x % TWO64
  }

  lemma SignExtensionRoundTrip(x: int)
    requires IsInt32(x)
    ensures ToInt32(ToUInt64(x)) == x
  {
    if x < 0 {
      assert ToUInt64(x) == x + TWO64;
      assert (x + TWO64) % TWO32 == x + TWO32;
    }
  }

  /** An unsigned 32-bit integer as it lies in memory on the little-endian machines the
      two programs run on (`os.write(reinterpret_cast<const char*>(&len), sizeof(len))`). */
  function LittleEndian32(n: nat): (b: bytes)
    requires n < TWO32
    ensures |b| == 4
  {
    [n % 256, n / 256 % 256, n / 65536 % 256, n / 16777216]
  }

  function FromLittleEndian32(b: bytes): (n: nat)
    requires |b| == 4
    ensures n < TWO32
  {
    var b0: int, b1: int, b2: int, b3: int := b[0], b[1], b[2], b[3];
    b0 + 256 * b1 + 65536 * b2 + 16777216 * b3
  }

  lemma LittleEndianRoundTrip(n: nat)
    requires n < TWO32
    ensures FromLittleEndian32(LittleEndian32(n)) == n
  {
    assert n / 65536 == n / 256 / 256;
    assert n / 16777216 == n / 65536 / 256;
  }
}
