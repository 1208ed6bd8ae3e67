/**
 * PHP's `pack("i*", ...)` and `unpack("i*", ...)` on a little-endian host whose C `int` has
 * 32 bits: each element becomes four bytes holding its low 32 bits, least significant byte
 * first; reading back sign-extends each group of four bytes and ignores a shorter tail.
 */
module Packing {

  type Byte = b: int | 0 <= b < 256

  const Two32: int := 0x1_0000_0000
  const Two31: int := 0x8000_0000

  predicate InInt32(x: int) {
    -Two31 <= x < Two31
  }

  /** The low 32 bits of `x`, as an unsigned number (two's complement for negative `x`). */
  function Low32(x: int): (u: nat)
    ensures u < Two32
  {
    x % Two32
  }

  /** The signed 32-bit integer whose bit pattern is `u`. */
  function SignExtend(u: nat): (x: int)
    requires u < Two32
    ensures InInt32(x)
  {
    if u < Two31 then u else u - Two32
  }

  /**
   * What a value becomes after it has been written as a C `int` and read back: the signed
   * 32-bit integer congruent to it modulo 2^32, which is the value itself when it fits.
   */
  function Wrap32(x: int): (r: int)
    ensures InInt32(r)
    ensures (x - r) % Two32 == 0
    ensures InInt32(x) ==> r == x
  {
    SignExtend(Low32(x))
  }

  function Wrap32All(data: seq<int>): (r: seq<int>)
    ensures |r| == |data|
  {
    seq(|data|, i requires 0 <= i < |data| => Wrap32(data[i]))
  }

  /** Euclidean division by a positive `d` has one quotient and one remainder. */
  lemma DivMod(a: int, d: int, q: int, r: int)
    requires d > 0 && 0 <= r < d && a == q * d + r
    ensures a / d == q && a % d == r
  {
    var k := q - a / d;
    assert k * d == a % d - r by {
      assert a == (a / d) * d + a % d;
      assert q * d - (a / d) * d == k * d;
    }
    if k > 0 {
      MultipleAtLeast(k, d);
    } else if k < 0 {
      MultipleAtLeast(-k, d);
    }
  }

  /** A positive multiple of `d` is at least `d`. */
  lemma MultipleAtLeast(k: int, d: int)
    requires k >= 1 && d > 0
    ensures k * d >= d
  {
    assert k * d == (k - 1) * d + d;
  }

  /** `pack("i", x)`: four bytes, least significant first. */
  function EncodeWord(x: int): (b: seq<Byte>)
    ensures |b| == 4
  {
    var u := Low32(x);
    [u % 256, u / 256 % 256, u / 0x1_0000 % 256, u / 0x100_0000]
  }

  /** `unpack("i", b)` for exactly four bytes. */
  function DecodeWord(b: seq<Byte>): (x: int)
    requires |b| == 4
    ensures InInt32(x)
  {
    SignExtend(b[0] as int + 0x100 * (b[1] as int) + 0x1_0000 * (b[2] as int) + 0x100_0000 * (b[3] as int))
  }

  /** `pack("i*", ...data)`. */
  function Pack(data: seq<int>): (r: seq<Byte>)
    ensures |r| == 4 * |data|
  {
    if data == [] then [] else EncodeWord(data[0]) + Pack(data[1..])
  }

  /** `array_values(unpack("i*", bytes))`: one element per whole group of four bytes. */
  function Unpack(bytes: seq<Byte>): (r: seq<int>)
    ensures |r| == |bytes| / 4
    ensures forall i | 0 <= i < |r| :: InInt32(r[i])
  {
    if |bytes| < 4 then [] else [DecodeWord(bytes[..4])] + Unpack(bytes[4..])
  }

  /** Decoding the four bytes of one element gives the element wrapped to 32 bits. */
  lemma DecodeEncodeWord(x: int)
    ensures DecodeWord(EncodeWord(x)) == Wrap32(x)
  {
    var u := Low32(x);
    var q1 := u / 256;
    var q2 := q1 / 256;
    var q3 := q2 / 256;
    DivMod(u, 0x1_0000, q2, 256 * (q1 % 256) + u % 256);
    DivMod(u, 0x100_0000, q3, 0x1_0000 * (q2 % 256) + 256 * (q1 % 256) + u % 256);
    assert u % 256 + 0x100 * (q1 % 256) + 0x1_0000 * (q2 % 256) + 0x100_0000 * q3 == u;
  }

  /** Unpacking a packed array gives every element back, wrapped to 32 bits. */
  lemma {:induction false} UnpackPack(data: seq<int>)
    ensures Unpack(Pack(data)) == Wrap32All(data)
  {
    if data != [] {
      var bytes := Pack(data);
      assert bytes[..4] == EncodeWord(data[0]);
      assert bytes[4..] == Pack(data[1..]);
      DecodeEncodeWord(data[0]);
      UnpackPack(data[1..]);
    }
  }

  /** The round trip of `set` then `get`: every element in the 32-bit signed range comes back unchanged. */
  lemma PackRoundTrip(data: seq<int>)
    requires forall i | 0 <= i < |data| :: InInt32(data[i])
    ensures Unpack(Pack(data)) == data
  {
    UnpackPack(data);
  }

  /** An element outside the 32-bit range does not come back: unpacking yields a different value. */
  lemma PackLosesWideValues(data: seq<int>, i: nat)
    requires i < |data| && !InInt32(data[i])
    ensures Unpack(Pack(data))[i] != data[i]
    ensures Unpack(Pack(data))[i] == Wrap32(data[i])
  {
    UnpackPack(data);
  }
}
