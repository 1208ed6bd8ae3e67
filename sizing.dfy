/**
 * `ArrayMemoryStorage::getEmptyVar` and `getMemSize`: the bootstrap sentinel array and the
 * size requested for a new segment, which is derived from the length of PHP's `serialize()`
 * of that array.
 */
module Sizing {
  import PhpInt
  import opened Decimal
  import opened Packing

  /** The number of iterations of `for ($i = 0; $i < $length; $i++)`: none for a negative length. */
  function Count(length: int): (n: nat)
    ensures length >= 0 ==> n == length
    ensures length < 0 ==> n == 0
  {
    if length < 0 then 0 else length
  }

  /** The array `getEmptyVar` builds: `n` copies of PHP_INT_MAX. */
  function Sentinels(n: nat): (r: seq<int>)
    ensures |r| == n
    ensures forall i | 0 <= i < n :: r[i] == PhpInt.Max
  {
    seq(n, _ => PhpInt.Max)
  }

  /** The `i:<k>;i:<v>;` items of `serialize()` for a list of ints, numbered from `first`. */
  function SerializedItems(values: seq<int>, first: nat): (s: string)
    ensures |s| >= 8 * |values|
  {
    if values == [] then ""
    else "i:" + Digits(first) + ";i:" + IntString(values[0]) + ";" + SerializedItems(values[1..], first + 1)
  }

  /** `serialize($list)` for a 0-indexed PHP list of ints: `a:<count>:{<items>}`. */
  function SerializeIntList(values: seq<int>): (s: string)
    ensures |s| >= 6 + 8 * |values|
    ensures s[..2] == "a:" && s[|s| - 1] == '}'
  {
    var count, items := Digits(|values|), SerializedItems(values, 0);
    assert |"a:" + count + ":{" + items + "}"| == 5 + |count| + |items|;
    "a:" + count + ":{" + items + "}"
  }

  /** `ceil(a / b)` for non-negative `a` and positive `b`, in integers. */
  function CeilDiv(a: nat, b: nat): (q: nat)
    requires b > 0
    ensures q * b >= a
    ensures q == 0 || (q - 1) * b < a
  {
    (a + b - 1) / b
  }

  /**
   * `getMemSize` given the length `s` of the serialized empty array: a 24-byte header, the
   * serialized length rounded up to a multiple of 4, and 16 bytes of slack.
   */
  function MemSize(s: nat): (size: nat)
    ensures size >= 40
    ensures (size - 40) % 4 == 0
    ensures s <= size - 40 < s + 4
  {
    24 + (CeilDiv(s, 4) * 4 + 16)
  }

  /** PHP_INT_MAX prints with 19 digits. */
  lemma MaxDigits()
    ensures |IntString(PhpInt.Max)| == 19
  {
    assert Pow10(18) == 1_000_000_000_000_000_000 by {
      assert Pow10(9) == 1_000_000_000;
      assert Pow10(18) == Pow10(9) * Pow10(9) by { Pow10Add(9, 9); }
    }
    assert Pow10(19) == 10 * Pow10(18);
    DigitsLengthBounds(PhpInt.Max, 19);
  }

  /** Each item of PHP_INT_MAX takes `i:`, the index, `;i:`, the 19 digits of PHP_INT_MAX and `;`. */
  lemma {:induction false} SentinelItemsLength(n: nat, first: nat)
    ensures |SerializedItems(Sentinels(n), first)| >= 26 * n
  {
    if n > 0 {
      var v := Sentinels(n);
      assert v[1..] == Sentinels(n - 1);
      MaxDigits();
      SentinelItemsLength(n - 1, first + 1);
      assert |SerializedItems(v, first)|
          == 6 + |Digits(first)| + |IntString(PhpInt.Max)| + |SerializedItems(Sentinels(n - 1), first + 1)|;
    }
  }

  /**
   * The segment requested for `length` elements holds at least 46 + 26 bytes per element,
   * more than the 4 bytes per element of the packed array. The envelope that
   * `shm_put_var` adds around the stored value is not sized here.
   */
  lemma MemSizeBound(length: int)
    ensures MemSize(|SerializeIntList(Sentinels(Count(length)))|) >= 46 + 26 * Count(length)
  {
    SentinelItemsLength(Count(length), 0);
  }

  /** PHP_INT_MAX has all of its low 32 bits set, so it packs to four 0xFF bytes. */
  lemma {:induction false} SentinelsPackToOnes(n: nat)
    ensures Pack(Sentinels(n)) == seq(4 * n, _ => 0xFF)
  {
    if n > 0 {
      assert Sentinels(n)[1..] == Sentinels(n - 1);
      assert Low32(PhpInt.Max) == 0xFFFF_FFFF;
      SentinelsPackToOnes(n - 1);
    }
  }

  /**
   * The bootstrap sentinel does not survive the round trip: each PHP_INT_MAX written by
   * the bootstrap reads back as -1.
   */
  lemma SentinelsReadBack(n: nat)
    ensures Unpack(Pack(Sentinels(n))) == seq(n, _ => -1)
  {
    UnpackPack(Sentinels(n));
    assert Wrap32(PhpInt.Max) == -1 by {
      assert Low32(PhpInt.Max) == 0xFFFF_FFFF;
    }
  }
}
