/** The byte helpers of the adapter (main.js:839-869). Bytes arrive from the
    socket as integers 0..255; the helpers combine them with JavaScript's
    bitwise operators, modelled in the `Bits` module. */
module Bytes {
  import opened Wrappers
  import opened Bits

  type Byte = x: int | 0 <= x < 0x100
  type Word = x: int | 0 <= x < 0x1_0000

  /** `byte2short(lo, hi)`: the little-endian reading of two bytes, from
      which both bytes read back. `Byte2ShortBits` shows that the source's
      `(hi << 8) | (lo & 0xFF)` computes it. */
  function Byte2Short(lo: Byte, hi: Byte): (w: Word)
    ensures w / 0x100 == hi && w % 0x100 == lo
  {
    DivModUnique(0x100 * hi + lo, 0x100, hi, lo);
    0x100 * hi + lo
  }

  /** JavaScript's `(hi << 8) | (lo & 0xFF)` on two bytes is their
      little-endian reading. */
  lemma Byte2ShortBits(lo: Byte, hi: Byte)
    ensures JsOr(JsShl(hi, 8), JsAnd(lo, 0xFF)) == Byte2Short(lo, hi)
  {
    assert Pow2(8) == 0x100;
    JsAndLow(lo, 8);
    assert JsAnd(lo, 0xFF) == lo;
    Int32Small(hi);
    Int32Small(hi * 0x100);
    assert JsShl(hi, 8) == hi * 0x100;
    JsOrDisjoint(lo, hi, 8);
  }

  /** `byte2int(loLo, loHi, hiLo, hiHi)`: the signed 32-bit reading of four
      little-endian bytes. It is non-negative exactly when the most significant
      byte is below 0x80. `Byte2IntBits` shows that the source's
      `(byte2short(loLo, loHi) & 0xFFFF) | (byte2short(hiLo, hiHi) << 16)`
      computes it. */
  function Byte2Int(loLo: Byte, loHi: Byte, hiLo: Byte, hiHi: Byte): (v: int)
    ensures hiHi < 0x80 ==>
      v == loLo + 0x100 * loHi + 0x1_0000 * hiLo + 0x100_0000 * hiHi
    ensures hiHi >= 0x80 ==>
      v == loLo + 0x100 * loHi + 0x1_0000 * hiLo + 0x100_0000 * hiHi - TwoTo32
    ensures -0x8000_0000 <= v < 0x8000_0000
    ensures v >= 0 <==> hiHi < 0x80
  {
    var u := Byte2Short(loLo, loHi) + 0x1_0000 * Byte2Short(hiLo, hiHi);
    if u >= 0x8000_0000 then u - TwoTo32 else u
  }

  /** JavaScript's `(low & 0xFFFF) | (high << 16)` on the two words of
      `byte2int` is their signed 32-bit reading. */
  lemma Byte2IntBits(loLo: Byte, loHi: Byte, hiLo: Byte, hiHi: Byte)
    ensures var low, high := Byte2Short(loLo, loHi), Byte2Short(hiLo, hiHi);
      JsOr(JsAnd(low, 0xFFFF), JsShl(high, 16)) == Byte2Int(loLo, loHi, hiLo, hiHi)
  {
    var low, high := Byte2Short(loLo, loHi), Byte2Short(hiLo, hiHi);
    IntSteps(low, high);
    Byte2IntSigned(loLo, loHi, hiLo, hiHi);
  }

  /** `byte2int` is the ECMAScript ToInt32 of the unsigned reading. */
  lemma Byte2IntSigned(loLo: Byte, loHi: Byte, hiLo: Byte, hiHi: Byte)
    ensures Byte2Int(loLo, loHi, hiLo, hiHi)
         == ToInt32(Byte2Short(loLo, loHi) + 0x1_0000 * Byte2Short(hiLo, hiHi))
  {
    SignedReading(Byte2Short(loLo, loHi) + 0x1_0000 * Byte2Short(hiLo, hiHi));
  }

  lemma IntSteps(low: Word, high: Word)
    ensures JsOr(JsAnd(low, 0xFFFF), JsShl(high, 16)) == ToInt32(low + 0x1_0000 * high)
  {
    LowHalf(low);
    ShiftHalf(high);
    JsOrCongruent(JsAnd(low, 0xFFFF), JsShl(high, 16), low, ToInt32(0x1_0000 * high));
    OrPatterns(low, high);
    OrHalves(low, high);
  }

  lemma JsOrCongruent(a: int, b: int, c: int, d: int)
    requires a == c && b == d
    ensures JsOr(a, b) == JsOr(c, d)
  {
  }

  /** `low & 0xFFFF` for a 16-bit `low`. */
  lemma LowHalf(low: Word)
    ensures JsAnd(low, 0xFFFF) == low
  {
    Pow2Of16();
    JsAndLow(low, 16);
  }

  /** `high << 16` for a 16-bit `high`, and its 32-bit pattern. */
  lemma ShiftHalf(high: Word)
    ensures JsShl(high, 16) == ToInt32(0x1_0000 * high)
    ensures ToUint32(ToInt32(0x1_0000 * high)) == 0x1_0000 * high
  {
    Pow2Of16();
    Int32Small(high);
    Pattern(0x1_0000 * high);
  }

  lemma Pattern(u: int)
    requires 0 <= u < TwoTo32
    ensures ToUint32(ToInt32(u)) == u
  {
  }

  /** `low | (high << 16)` works on the two unsigned 32-bit patterns. */
  lemma OrPatterns(low: Word, high: Word)
    ensures JsOr(low, ToInt32(0x1_0000 * high)) == ToInt32(Or(low, 0x1_0000 * high))
  {
    ShiftHalf(high);
    Int32Small(low);
  }

  /** The two halves do not overlap, so or-ing them adds them. */
  lemma OrHalves(low: Word, high: Word)
    ensures Or(low, 0x1_0000 * high) == low + 0x1_0000 * high
  {
    Pow2Of16();
    OrDisjoint(low, high, 16);
    ShlMul(high, 16);
  }

  /** The signed reading of a 32-bit pattern. */
  lemma SignedReading(u: int)
    requires 0 <= u < TwoTo32
    ensures ToInt32(u) == if u >= 0x8000_0000 then u - TwoTo32 else u
  {
    DivModUnique(u, TwoTo32, 0, u);
  }

  /** `readBlock(data, length)`: the first `length` bytes, or nothing (`null`)
      when fewer have arrived. */
  function ReadBlock(data: seq<Byte>, length: nat): (r: Option<seq<Byte>>)
    ensures r.Some? <==> |data| >= length
    ensures r.Some? ==> |r.value| == length && r.value <= data
  {
    if |data| >= length then Some(data[..length]) else None
  }
}
