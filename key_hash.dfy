/**
 * `ArrayMemoryStorage::intHash`: the identifier of a key. The MD5 digest of the key
 * (RFC 1321) is an input; the rest is modelled: the first eight digest bytes read as two
 * big-endian unsigned 32-bit words, their decimal strings concatenated, cut to 20
 * characters and cast to a PHP integer.
 */
module KeyHash {
  import PhpInt
  import opened Decimal
  import opened Packing

  /** `unpack('N', b)`: four bytes as an unsigned big-endian integer. */
  function BigEndianWord(b: seq<Byte>): (w: nat)
    requires |b| == 4
    ensures w < Two32
    ensures w / 0x100_0000 == b[0] && w / 0x1_0000 % 0x100 == b[1]
    ensures w / 0x100 % 0x100 == b[2] && w % 0x100 == b[3]
  {
    var low16 := 0x100 * (b[2] as int) + b[3] as int;
    var low24 := 0x1_0000 * (b[1] as int) + low16;
    DivMod(low16, 0x100, b[2], b[3]);
    DivMod(low24, 0x1_0000, b[1], low16);
    DivMod(low24, 0x100, 0x100 * (b[1] as int) + b[2], b[3]);
    var w := 0x100_0000 * (b[0] as int) + low24;
    DivMod(w, 0x100_0000, b[0], low24);
    DivMod(w, 0x1_0000, 0x100 * (b[0] as int) + b[1], low16);
    DivMod(w, 0x100, 0x1_0000 * (b[0] as int) + 0x100 * (b[1] as int) + b[2], b[3]);
    DivMod(0x100 * (b[0] as int) + b[1], 0x100, b[0], b[1]);
    DivMod(0x1_0000 * (b[0] as int) + 0x100 * (b[1] as int) + b[2], 0x100, 0x100 * (b[0] as int) + b[1], b[2]);
    w
  }

  function High(digest: seq<Byte>): nat
    requires |digest| == 16
  {
    BigEndianWord(digest[..4])
  }

  function Low(digest: seq<Byte>): nat
    requires |digest| == 16
  {
    BigEndianWord(digest[4..8])
  }

  /** `substr(s, 0, n)`. */
  function Prefix(s: string, n: nat): (p: string)
    ensures |p| <= n && p <= s
    ensures |s| <= n ==> p == s
    ensures |s| > n ==> |p| == n
  {
    if |s| <= n then s else s[..n]
  }

  /** `intHash` of a key whose raw MD5 digest is `digest`. */
  function IntHash(digest: seq<Byte>): (h: int)
    requires |digest| == 16
    ensures 0 <= h <= PhpInt.Max
  {
    var hash := Digits(High(digest)) + Digits(Low(digest));
    PhpInt.Saturate(Value(Prefix(hash, 20)))
  }

  /** A 32-bit word prints with at most ten decimal digits. */
  lemma WordDigits(w: nat)
    requires w < Two32
    ensures |Digits(w)| <= 10
  {
    DigitsLengthBounds(w, 10);
  }

  /**
   * The cut to 20 characters never shortens the concatenation, so the hash is the number
   * the two words spell side by side, capped at PHP_INT_MAX.
   */
  lemma IntHashValue(digest: seq<Byte>)
    requires |digest| == 16
    ensures |Digits(High(digest)) + Digits(Low(digest))| <= 20
    ensures IntHash(digest)
         == PhpInt.Saturate(High(digest) * Pow10(|Digits(Low(digest))|) + Low(digest))
  {
    var hi, lo := High(digest), Low(digest);
    WordDigits(hi);
    WordDigits(lo);
    ValueOfConcat(Digits(hi), Digits(lo));
    ValueOfDigits(hi);
    ValueOfDigits(lo);
  }

  /**
   * Whenever both words have ten digits the 20-digit number exceeds PHP_INT_MAX, so every
   * such key gets the same identifier, PHP_INT_MAX.
   */
  lemma IntHashSaturates(digest: seq<Byte>)
    requires |digest| == 16
    requires High(digest) >= 1_000_000_000 && Low(digest) >= 1_000_000_000
    ensures IntHash(digest) == PhpInt.Max
  {
    var hi, lo := High(digest), Low(digest);
    IntHashValue(digest);
    WordDigits(lo);
    DigitsLengthBounds(lo, 10);
    assert Pow10(9) == 1_000_000_000;
    assert Pow10(10) == 10_000_000_000;
    assert |Digits(lo)| == 10;
    AtLeastProduct(hi, 1_000_000_000, Pow10(10));
    assert hi * Pow10(10) >= 10_000_000_000_000_000_000;
  }

  lemma AtLeastProduct(a: nat, b: nat, c: nat)
    requires a >= b
    ensures a * c >= b * c
  {
  }

  /** Two digests that differ in their first eight bytes can still give the same identifier. */
  lemma IntHashCollides()
    ensures var d1 := [0, 0, 0, 1, 0, 0, 0, 23] + seq(8, _ => 0);
            var d2 := [0, 0, 0, 12, 0, 0, 0, 3] + seq(8, _ => 0);
            d1 != d2 && IntHash(d1) == 123 && IntHash(d2) == 123
  {
    var d1: seq<Byte> := [0, 0, 0, 1, 0, 0, 0, 23] + seq(8, _ => 0);
    var d2: seq<Byte> := [0, 0, 0, 12, 0, 0, 0, 3] + seq(8, _ => 0);
    assert d1[3] != d2[3];
    SmallWordsHash(d1, 1, 23, 2);
    SmallWordsHash(d2, 12, 3, 1);
  }

  /**
   * A digest whose two words are `hi` and `lo`, with `lo` printing in `k` digits, has the
   * identifier hi·10^k + lo, when that stays within PHP_INT_MAX.
   */
  lemma SmallWordsHash(digest: seq<Byte>, hi: Byte, lo: Byte, k: nat)
    requires digest == [0, 0, 0, hi, 0, 0, 0, lo] + seq(8, _ => 0)
    requires 1 <= k && Pow10(k - 1) <= lo < Pow10(k) && hi * Pow10(k) + lo <= PhpInt.Max
    ensures IntHash(digest) == hi * Pow10(k) + lo
  {
    assert High(digest) == hi && Low(digest) == lo by {
      assert digest[..4] == [0, 0, 0, hi] && digest[4..8] == [0, 0, 0, lo];
    }
    IntHashValue(digest);
    DigitsLengthBounds(lo, k);
  }
}
