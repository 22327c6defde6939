/** Decoding of the sixteen analog input words of a UVR1611 record
    (main.js:143-149, 178-195 and the arithmetic at 478-512). A word packs a sign
    flag (bit 15), a three-bit unit tag (bits 12-14) and a twelve-bit magnitude
    (bits 0-11). */
module Inputs {
  import opened Bits
  import opened Bytes

  /** Bit 15 of the raw word, the sign flag of the magnitude. */
  predicate Negative(word: Word) {
    word >= 0x8000
  }

  /** The low twelve bits of the raw word. */
  function Magnitude(word: Word): nat {
    word % 0x1000
  }

  // The bit operations of the decoder, one lemma per step.

  /** `value >> 8` and `value & 0xFF` split a word into its two bytes. */
  lemma SplitWord(word: Word)
    ensures JsShr(word, 8) == word / 0x100
    ensures JsAnd(word, 0xFF) == word % 0x100
  {
    Pow2Values();
    Int32Small(word);
    JsAndLow(word, 8);
  }

  /** `highByte & 0x80`, `highByte & 0x70` and `highByte & 0x0F` on a byte. */
  lemma SplitHighByte(highByte: Byte)
    ensures JsAnd(highByte, 0x80) == if highByte >= 0x80 then 0x80 else 0
    ensures JsAnd(highByte, 0x70) == highByte / 0x10 % 8 * 0x10
    ensures JsAnd(highByte, 0x0F) == highByte % 0x10
  {
    SignOfByte(highByte);
    UnitOfByte(highByte);
    LowNibble(highByte);
  }

  lemma SignOfByte(highByte: Byte)
    ensures JsAnd(highByte, 0x80) == if highByte >= 0x80 then 0x80 else 0
  {
    assert Pow2(7) == 0x80;
    JsAndBit(highByte, 7);
    assert Bit(highByte, 7) <==> highByte >= 0x80;
  }

  lemma UnitOfByte(highByte: Byte)
    ensures JsAnd(highByte, 0x70) == highByte / 0x10 % 8 * 0x10
  {
    assert Pow2(3) == 8 && Pow2(4) == 0x10 && (Pow2(3) - 1) * Pow2(4) == 0x70;
    JsAndField(highByte, 3, 4);
  }

  lemma LowNibble(highByte: Byte)
    ensures JsAnd(highByte, 0x0F) == highByte % 0x10
  {
    assert Pow2(4) == 0x10;
    JsAndLow(highByte, 4);
  }

  /** Restoring the high nibble with `| 0xF000` and taking `~x & 0xFFFF` of a
      twelve-bit magnitude leaves 4095 less the magnitude. */
  lemma Complement(m: int)
    requires 0 <= m < 0x1000
    ensures JsOr(m, 0xF000) == m + 0xF000
    ensures JsAnd(JsNot(m + 0xF000), 0xFFFF) == 0x0FFF - m
  {
    Pow2Values();
    assert 0xF000 == 15 * Pow2(12);
    JsOrDisjoint(m, 15, 12);
    Int32Small(m + 0xF000);
    JsAndLow(- (m + 0xF000) - 1, 16);
    DivModUnique(- (m + 0xF000) - 1, 0x1_0000, -1, 0x0FFF - m);
  }

  /** `(x + 1) & 0xFFFF` below 2^16 does not wrap around. */
  lemma NoWrap(x: int)
    requires 0 <= x < 0xFFFF
    ensures JsAnd(x + 1, 0xFFFF) == x + 1
  {
    Pow2Values();
    JsAndLow(x + 1, 16);
  }

  /** The twelve-bit magnitude is the low nibble of the high byte followed by
      the low byte. */
  lemma MagnitudeBytes(word: Word)
    ensures 0x100 * (word / 0x100 % 0x10) + word % 0x100 == Magnitude(word)
  {
    var hb := word / 0x100;
    DivDiv(word, 0x100, 0x10);
    DivModUnique(word, 0x1000, hb / 0x10, 0x100 * (hb % 0x10) + word % 0x100);
  }

  /** The sign/magnitude decoding of main.js:481-496, step by step: split the
      word into bytes, keep the low nibble of the high byte, and for a negative
      word restore the high nibble, take the sixteen-bit two's complement and
      negate it. The result is the magnitude, less 4096 when bit 15 is set. */
  function DecodeSigned12(word: Word): (v: int)
    ensures !Negative(word) ==> v == Magnitude(word)
    ensures Negative(word) ==> v == Magnitude(word) - 0x1000
  {
    SplitWord(word);
    var highByte := JsShr(word, 8);
    var lowByte := JsAnd(word, 0xFF);
    SplitHighByte(highByte);
    var signBit := JsAnd(highByte, 0x80);
    var input := Byte2Short(lowByte, JsAnd(highByte, 0x0F));
    MagnitudeBytes(word);
    if signBit != 0 then
      Complement(input);
      var restored := JsOr(input, 0xF000);
      var inverted := JsAnd(JsNot(restored), 0xFFFF);
      NoWrap(inverted);
      var incremented := JsAnd(inverted + 1, 0xFFFF);
      - incremented
    else
      input
  }

  /** The unit tag `(value >> 8) & 0x70`: bits 12-14 of the word, as a multiple
      of 0x10. */
  function UnitBits(word: Word): (tag: Byte)
    ensures tag == word / 0x1000 % 8 * 0x10
  {
    SplitWord(word);
    SplitHighByte(word / 0x100);
    DivDiv(word, 0x100, 0x10);
    JsAnd(JsShr(word, 8), 0x70)
  }

  /** The decoded value lies in -4096..4095 and is negative exactly when bit 15
      is set. */
  lemma DecodeRange(word: Word)
    ensures -0x1000 <= DecodeSigned12(word) < 0x1000
    ensures DecodeSigned12(word) < 0 <==> Negative(word)
  {
  }

  /** The word with its unit tag cleared: the magnitude and the sign flag. */
  function ClearUnit(word: Word): (cleared: Word)
    ensures cleared % 0x1000 == word % 0x1000 && cleared / 0x1000 == word / 0x1000 / 8 * 8
  {
    var q := word / 0x1000;
    DivModUnique(word - UnitBits(word) * 0x100, 0x1000, q - q % 8, word % 0x1000);
    word - UnitBits(word) * 0x100
  }

  /** The unit tag never reaches the value: the word with its tag cleared
      decodes alike. */
  lemma DecodeIgnoresUnitBits(word: Word)
    ensures DecodeSigned12(ClearUnit(word)) == DecodeSigned12(word)
  {
    DecodeSign(word);
    DecodeSign(ClearUnit(word));
  }

  /** Bit 15 is the top bit of the three-bit field above the magnitude. */
  lemma DecodeSign(word: Word)
    ensures Negative(word) <==> word / 0x1000 / 8 == 1
  {
  }

  /** The decoding loses nothing: the value together with the unit tag gives
      the raw word back. */
  lemma DecodeInjective(a: Word, b: Word)
    requires UnitBits(a) == UnitBits(b) && DecodeSigned12(a) == DecodeSigned12(b)
    ensures a == b
  {
    DecodeRange(a);
    DecodeRange(b);
    var qa, qb := a / 0x1000, b / 0x1000;
    assert Negative(a) == Negative(b);
    assert Magnitude(a) == Magnitude(b);
    assert qa % 8 == qb % 8;
    assert qa / 8 == qb / 8 by {
      DivDiv(a, 0x1000, 8);
      DivDiv(b, 0x1000, 8);
    }
    assert qa == qb;
  }

  /** `determineUnit(unitBits)`. */
  function DetermineUnit(unitBits: Byte): (unit: string)
    ensures unit == "unknown" <==> unitBits !in {0x00, 0x10, 0x20, 0x30, 0x60, 0x70}
  {
    if unitBits == 0x00 then "unused"
    else if unitBits == 0x10 then "digital"
    else if unitBits == 0x20 then "°C"
    else if unitBits == 0x30 then "l/h"
    else if unitBits == 0x60 then "W/m²"
    else if unitBits == 0x70 then "°C (room sensor)"
    else "unknown"
  }

  /** The unit of an input word, as computed at initialisation (main.js:146-148):
      "unknown" exactly for the tags 4 and 5, and a distinct name for each other
      tag. */
  function UnitOf(word: Word): (unit: string)
    ensures unit == "unknown" <==> word / 0x1000 % 8 in {4, 5}
  {
    DetermineUnit(UnitBits(word))
  }

  /** Apart from "unknown", each unit name stands for one tag. */
  lemma UnitOfDistinct(a: Word, b: Word)
    requires UnitOf(a) == UnitOf(b) != "unknown"
    ensures a / 0x1000 % 8 == b / 0x1000 % 8
  {
  }

  /** The units of all inputs of a record, keyed like the inputs (main.js:144-153). */
  function UnitsOf(inputs: map<string, Word>): (units: map<string, string>)
    ensures units.Keys == inputs.Keys
    ensures forall key | key in inputs :: units[key] == UnitOf(inputs[key])
  {
    map key | key in inputs :: UnitOf(inputs[key])
  }

  /** The value published for an input word (main.js:497-512): tenths of a
      degree for temperatures, four litres per hour per step for flow, the
      sign flag for digital inputs, the low nine bits of the decoded number in
      tenths of a degree for room sensors and the decoded number for every other
      tag. */
  function ScaledValue(word: Word): real
  {
    var input := DecodeSigned12(word);
    var unitBits := UnitBits(word);
    if unitBits == 0x20 then input as real / 10.0
    else if unitBits == 0x30 then input as real * 4.0
    else if unitBits == 0x10 then (if JsAnd(word, 0x8000) != 0 then 1.0 else 0.0)
    else if unitBits == 0x70 then JsAnd(input, 0x1FF) as real / 10.0
    else input as real
  }

  /** A decoded input: the published value and its unit. */
  datatype Reading = Reading(value: real, unit: string)

  /** The input as a (value, unit) pair. */
  function DecodeInput(word: Word): Reading
  {
    Reading(ScaledValue(word), UnitOf(word))
  }

  /** The signed twelve-bit number of a word, from its sign flag and magnitude. */
  function Signed12(word: Word): int {
    Magnitude(word) - (if Negative(word) then 0x1000 else 0)
  }

  /** The value of an input word per unit tag, in terms of the word's fields. */
  lemma ScaledValueByUnit(word: Word)
    ensures var tag := word / 0x1000 % 8;
      var m := Signed12(word);
      && (tag == 2 ==> DecodeInput(word) == Reading(m as real / 10.0, "°C"))
      && (tag == 3 ==> DecodeInput(word) == Reading(m as real * 4.0, "l/h"))
      && (tag == 6 ==> DecodeInput(word) == Reading(m as real, "W/m²"))
      && (tag == 0 ==> DecodeInput(word) == Reading(m as real, "unused"))
      && (tag in {4, 5} ==> DecodeInput(word) == Reading(m as real, "unknown"))
  {
  }

  /** `value & 0x8000` tests the sign flag. */
  lemma SignFlag(word: Word)
    ensures JsAnd(word, 0x8000) != 0 <==> Negative(word)
  {
    Pow2Values();
    Pow2Mul(12, 3);
    JsAndBit(word, 15);
    assert Bit(word, 15) <==> Negative(word);
  }

  /** A digital input reads 1 exactly when bit 15 is set, and 0 otherwise,
      whatever the magnitude bits hold. */
  lemma DigitalValue(word: Word)
    requires word / 0x1000 % 8 == 1
    ensures DecodeInput(word) == Reading(if Negative(word) then 1.0 else 0.0, "digital")
  {
    SignFlag(word);
  }

  /** A room sensor reads the low nine bits of the word in tenths of a degree;
      the sign flag does not change it. */
  lemma RoomSensorValue(word: Word)
    requires word / 0x1000 % 8 == 7
    ensures DecodeInput(word) == Reading((word % 0x200) as real / 10.0, "°C (room sensor)")
    ensures 0.0 <= DecodeInput(word).value <= 51.1
  {
    RoomSensorMask(word);
  }

  /** `input & 0x1FF` keeps the low nine bits of the raw word. */
  lemma RoomSensorMask(word: Word)
    ensures JsAnd(DecodeSigned12(word), 0x1FF) == word % 0x200
  {
    var input := DecodeSigned12(word);
    assert Pow2(9) == 0x200;
    JsAndLow(input, 9);
    NineBits(word);
  }

  /** The low nine bits survive the sign/magnitude decoding. */
  lemma NineBits(word: Word)
    ensures DecodeSigned12(word) % 0x200 == word % 0x200
  {
    var m: int := Magnitude(word);
    ModMod(word, 0x200, 8);
    if Negative(word) {
      DivModUnique(m, 0x200, m / 0x200, m % 0x200);
      DivModUnique(m - 0x1000, 0x200, m / 0x200 - 8, m % 0x200);
    }
  }

  /** Temperatures span -409.6 to 409.5 degrees. */
  lemma TemperatureRange(word: Word)
    requires word / 0x1000 % 8 == 2
    ensures -409.6 <= DecodeInput(word).value <= 409.5
  {
    DecodeRange(word);
  }
}
