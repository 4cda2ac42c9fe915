/**
  UTF-16 code units (sections 2.1 and 2.2 of RFC 2781).  Masks and shifts are
  written as the remainders and divisions they compute.
 */
module Utf16 {
  import opened Utf8

  /** `getUTF16LengthFromCodePointValue` */
  function UnitCount(c: CodePoint): nat
  {
    if c <= 0xD7FF || 0xE000 <= c <= 0xFFFF then 1 else 2
  }

  /** `toUTF16WideString` */
  function Units(c: CodePoint): seq<int>
  {
    if UnitCount(c) == 1 then [c] else [(c - 0x1_0000) / 0x400 + 0xD800, (c - 0x1_0000) % 0x400 + 0xDC00]
  }

  /** `isUTF16SurrogateCodeUnit` */
  predicate IsSurrogate(unit: int) { 0xD800 <= unit <= 0xDFFF || unit >= 0x1_0000 }

  /** `_initFromUTF16Surrogates` */
  function Join(lead: nat, trail: nat): int
  {
    (lead / 0x40 % 0x20 + 1) * 0x1_0000 + (lead % 0x40 * 0x400 + trail % 0x400)
  }

  /** The constructor from a wide string; -1 where it throws at the end of the string. */
  function FirstCodePoint(units: seq<int>): int
    requires |units| > 0 && forall i :: 0 <= i < |units| ==> units[i] >= 0
  {
    if !IsSurrogate(units[0]) then units[0] else if |units| <= 1 then -1 else Join(units[0], units[1])
  }

  /** Splitting and joining again gives the code point back, unless it is itself one of the surrogate values. */
  lemma UnitsRoundTrip(c: CodePoint)
    ensures |Units(c)| == UnitCount(c) && forall i :: 0 <= i < |Units(c)| ==> Units(c)[i] >= 0
    ensures FirstCodePoint(Units(c)) == c <==> !(0xD800 <= c <= 0xDFFF)
  {
    if UnitCount(c) == 2 {
      var x := c - 0x1_0000;
      assert x == x / 0x400 * 0x400 + x % 0x400;
      if c >= 0x1_0000 {
        PairFields(x / 0x400, x % 0x400);
      }
    }
  }

  /** One unit alone is a code point exactly if it is no surrogate value and fits 16 bits. */
  lemma OneUnit(unit: nat)
    ensures FirstCodePoint([unit]) == if unit <= 0xD7FF || 0xE000 <= unit <= 0xFFFF then unit else -1
  {
  }

  /** The pairs of the first and the last code point that takes two units. */
  lemma FirstAndLastPair()
    ensures Units(0x1_0000) == [0xD800, 0xDC00] && Units(0x10_FFFF) == [0xDBFF, 0xDFFF]
    ensures Units(0xFFFF) == [0xFFFF] && Units(0xE000) == [0xE000] && Units(0xD7FF) == [0xD7FF]
  {
  }

  /** The first surrogate value is split into two units, of which the first is no surrogate. */
  lemma SurrogateChanged()
    ensures Units(0xD800) == [0xD7F6, 0xDC00] && FirstCodePoint(Units(0xD800)) == 0xD7F6
  {
  }

  lemma PairFields(high: nat, low: nat)
    requires high < 0x400 && low < 0x400
    ensures Join(high + 0xD800, low + 0xDC00) == 0x1_0000 + high * 0x400 + low
  {
    assert high == high / 0x40 * 0x40 + high % 0x40;
    assert (high + 0xD800) % 0x40 == high % 0x40;
    assert (high + 0xD800) / 0x40 == high / 0x40 + 0x360;
    assert (high / 0x40 + 0x360) % 0x20 == high / 0x40;
  }
}
