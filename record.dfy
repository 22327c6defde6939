/** The record decoding of `fetchStateValuesFromDevice` and `parseUvrRecord`
    (main.js:597-631, 687-788): the frame guard on the reply to the
    current-data command, and the fixed-offset reads of a 57-byte UVR1611 frame
    into outputs, speed levels, raw input words and two heat meters. */
module Record {
  import opened Wrappers
  import opened Bits
  import opened Bytes
  import opened Text

  const FrameLength: nat := 57
  const FrameStart: Byte := 0x80
  const UnexpectedFormat: string := "Unexpected data format"
  const InvalidResponse: string := "Invalid response from device"

  /** The guard of main.js:607-627: a frame starting with 0x80 is cut to its
      first 57 bytes; a shorter one is an invalid response, and one starting
      with any other byte has an unexpected format. */
  function FrameGuard(data: seq<Byte>): (r: Result<seq<Byte>>)
    ensures r.Ok? <==> |data| >= FrameLength && data[0] == FrameStart
    ensures r.Ok? ==> r.value == data[..FrameLength]
    ensures r.Err? ==>
      r.error == if |data| > 0 && data[0] == FrameStart then InvalidResponse else UnexpectedFormat
  {
    if |data| > 0 && data[0] == FrameStart then
      match ReadBlock(data, FrameLength)
      case Some(block) => Ok(block)
      case None => Err(InvalidResponse)
    else
      Err(UnexpectedFormat)
  }

  /** An output's state, "ON" or "OFF". */
  datatype Switch = On | Off

  /** A heat meter's state, "active" or "inactive". */
  datatype MeterStatus = Active | Inactive

  /** JavaScript's truthiness of a masked number, as an output state. */
  function SwitchOf(masked: int): Switch {
    if masked != 0 then On else Off
  }

  function StatusOf(masked: int): MeterStatus {
    if masked != 0 then Active else Inactive
  }

  /** The decoded record, one map per object of `uvrRecord`. */
  datatype UvrRecord = UvrRecord(
    outputs: map<string, Switch>,
    speedLevels: map<string, Byte>,
    inputs: map<string, Word>,
    meterStatus: map<string, MeterStatus>,
    meters: map<string, real>)

  /** The key of output `n`, "A01" to "A13". */
  function OutputKey(n: nat): string
    requires n < 100
  {
    "A" + TwoDigits(n)
  }

  /** The key of input `n`, "S01" to "S16", written as main.js:726 builds it. */
  function InputKey(n: nat): string
    requires n < 100
  {
    "S" + TwoDigits(n)
  }

  /** The keys of outputs 1 to n. */
  function OutputKeys(n: nat): set<string>
    requires n < 100
  {
    set k | 1 <= k <= n :: OutputKey(k)
  }

  /** The keys of inputs 1 to n. */
  function InputKeys(n: nat): set<string>
    requires n < 100
  {
    set k | 1 <= k <= n :: InputKey(k)
  }

  lemma OutputKeysStep(n: nat)
    requires 1 <= n < 100
    ensures OutputKeys(n) == OutputKeys(n - 1) + {OutputKey(n)}
  {
  }

  lemma InputKeysStep(n: nat)
    requires 1 <= n < 100
    ensures InputKeys(n) == InputKeys(n - 1) + {InputKey(n)}
  {
  }

  lemma OutputKeyInjective(a: nat, b: nat)
    requires a < 100 && b < 100 && OutputKey(a) == OutputKey(b)
    ensures a == b
  {
    assert TwoDigits(a) == OutputKey(a)[1..];
    assert TwoDigits(b) == OutputKey(b)[1..];
    TwoDigitsInjective(a, b);
  }

  lemma InputKeyInjective(a: nat, b: nat)
    requires a < 100 && b < 100 && InputKey(a) == InputKey(b)
    ensures a == b
  {
    assert TwoDigits(a) == InputKey(a)[1..];
    assert TwoDigits(b) == InputKey(b)[1..];
    TwoDigitsInjective(a, b);
  }

  /** The first `n` outputs of the output word, each set from its mask
      `1 << (k - 1)` as main.js:698-710 does. */
  function OutputsUpTo(output: Word, n: nat): map<string, Switch>
    requires n < 100
  {
    if n == 0 then map[]
    else OutputsUpTo(output, n - 1)[OutputKey(n) := SwitchOf(JsAnd(output, Pow2(n - 1)))]
  }

  /** `(output & (1 << i)) ? "ON" : "OFF"` tests bit i. */
  lemma SwitchOfBit(output: Word, i: nat)
    requires i <= 12
    ensures SwitchOf(JsAnd(output, Pow2(i))) == if Bit(output, i) then On else Off
  {
    JsAndBit(output, i);
  }

  /** The first `n` outputs have exactly the keys A01 to An. */
  lemma {:induction false} OutputsUpToKeys(output: Word, n: nat)
    requires n <= 13
    ensures OutputsUpTo(output, n).Keys == OutputKeys(n)
  {
    if n > 0 {
      OutputsUpToKeys(output, n - 1);
      OutputKeysStep(n);
    }
  }

  /** Output k of the first `n` is on exactly when bit k - 1 of the output
      word is set. */
  lemma {:induction false} OutputsUpToValues(output: Word, n: nat)
    requires n <= 13
    ensures forall k | 1 <= k <= n ::
      && OutputKey(k) in OutputsUpTo(output, n)
      && OutputsUpTo(output, n)[OutputKey(k)] == if Bit(output, k - 1) then On else Off
  {
    if n > 0 {
      OutputsUpToValues(output, n - 1);
      SwitchOfBit(output, n - 1);
      forall k | 1 <= k < n
        ensures OutputKey(k) != OutputKey(n)
      {
        if OutputKey(k) == OutputKey(n) {
          OutputKeyInjective(k, n);
        }
      }
    }
  }

  /** The first `n` inputs, as the loop of main.js:725-727 has them after `n`
      iterations. */
  function InputsUpTo(response: seq<Byte>, n: nat): map<string, Word>
    requires n <= 16 && |response| >= 33
  {
    if n == 0 then map[]
    else InputsUpTo(response, n - 1)[InputKey(n) := Byte2Short(response[2 * n - 1], response[2 * n])]
  }

  /** The first `n` inputs have exactly the keys S01 to Sn. */
  lemma {:induction false} InputsUpToKeys(response: seq<Byte>, n: nat)
    requires n <= 16 && |response| >= 33
    ensures InputsUpTo(response, n).Keys == InputKeys(n)
  {
    if n > 0 {
      InputsUpToKeys(response, n - 1);
      InputKeysStep(n);
    }
  }

  /** Input k of the first `n` is the little-endian word of r[2k - 1] and
      r[2k]. */
  lemma {:induction false} InputsUpToValues(response: seq<Byte>, n: nat)
    requires n <= 16 && |response| >= 33
    ensures forall k | 1 <= k <= n ::
      && InputKey(k) in InputsUpTo(response, n)
      && InputsUpTo(response, n)[InputKey(k)] == 0x100 * (response[2 * k] as int) + response[2 * k - 1]
  {
    if n > 0 {
      InputsUpToValues(response, n - 1);
      forall k | 1 <= k < n
        ensures InputKey(k) != InputKey(n)
      {
        if InputKey(k) == InputKey(n) {
          InputKeyInjective(k, n);
        }
      }
    }
  }

  /** The thirteen outputs of a frame have its output layout. */
  lemma OutputsOfFrame(r: seq<Byte>)
    requires |r| >= 35
    ensures OutputsLayout(r, OutputsUpTo(Byte2Short(r[33], r[34]), 13))
  {
    OutputsUpToKeys(Byte2Short(r[33], r[34]), 13);
    OutputsUpToValues(Byte2Short(r[33], r[34]), 13);
  }

  /** The sixteen inputs of a frame have its input layout. */
  lemma InputsOfFrame(r: seq<Byte>)
    requires |r| >= 33
    ensures InputsLayout(r, InputsUpTo(r, 16))
  {
    InputsUpToKeys(r, 16);
    InputsUpToValues(r, 16);
  }

  /** The masks of main.js:698-710 are the powers of two 2^0 to 2^12. */
  lemma OutputMasks()
    ensures Pow2(0) == 0x01 && Pow2(1) == 0x02 && Pow2(2) == 0x04 && Pow2(3) == 0x08
    ensures Pow2(4) == 0x10 && Pow2(5) == 0x20 && Pow2(6) == 0x40 && Pow2(7) == 0x80
    ensures Pow2(8) == 0x100 && Pow2(9) == 0x200 && Pow2(10) == 0x400 && Pow2(11) == 0x800
    ensures Pow2(12) == 0x1000
  {
    Pow2Values();
  }

  /** Bit k of the output word `byte2short(r[33], r[34])` is bit k of r[33] for
      k below 8 and bit k - 8 of r[34] above. */
  lemma WordBit(lo: Byte, hi: Byte, k: nat)
    requires k < 16
    ensures Bit(0x100 * hi + lo, k) == if k < 8 then Bit(lo, k) else Bit(hi, k - 8)
  {
    if k < 8 {
      LowByteBit(lo, hi, k);
    } else {
      HighByteBit(lo, hi, k);
    }
  }

  lemma LowByteBit(lo: Byte, hi: Byte, k: nat)
    requires k < 8
    ensures (0x100 * hi + lo) / Pow2(k) == Pow2(8 - k) * hi + lo / Pow2(k)
    ensures Bit(0x100 * hi + lo, k) == Bit(lo, k)
  {
    var p, q := Pow2(k), Pow2(8 - k);
    assert Pow2(8) == 0x100;
    Pow2Mul(k, 8 - k);
    DivBasics(lo, p);
    MulAssoc(p, q, hi);
    MulAdd(p, q * hi, lo / p);
    DivModUnique(0x100 * hi + lo, p, q * hi + lo / p, lo % p);
    EvenShift(hi, lo / p, 8 - k);
  }

  /** Adding a multiple of an even power of two keeps the last bit. */
  lemma EvenShift(a: nat, b: nat, n: nat)
    requires n >= 1
    ensures (Pow2(n) * a + b) % 2 == b % 2
  {
    Double(a, Pow2(n - 1));
    DivModUnique(Pow2(n) * a + b, 2, a * Pow2(n - 1) + b / 2, b % 2);
  }

  lemma HighByteBit(lo: Byte, hi: Byte, k: nat)
    requires 8 <= k < 16
    ensures Bit(0x100 * hi + lo, k) == Bit(hi, k - 8)
  {
    var x := 0x100 * hi + lo;
    assert Pow2(8) == 0x100;
    Pow2Mul(8, k - 8);
    DivModUnique(x, 0x100, hi, lo);
    DivDiv(x, 0x100, Pow2(k - 8));
  }

  /** The outputs of a frame: A01 to A13, output k on exactly when bit k - 1 of
      the little-endian word of r[33] and r[34] is set. */
  predicate OutputsLayout(r: seq<Byte>, outputs: map<string, Switch>)
    requires |r| >= 35
  {
    && outputs.Keys == OutputKeys(13)
    && forall k | 1 <= k <= 13 ::
         outputs[OutputKey(k)] == if Bit(0x100 * (r[34] as int) + r[33], k - 1) then On else Off
  }

  /** The speed levels of a frame: the raw bytes r[35] to r[38], unmasked. */
  function SpeedLevelsOf(r: seq<Byte>): map<string, Byte>
    requires |r| >= 39
  {
    map["DzA1" := r[35], "DzA2" := r[36], "DzA6" := r[37], "DzA7" := r[38]]
  }

  /** The inputs of a frame: S01 to S16, input n the little-endian word of
      r[2n - 1] and r[2n]. */
  predicate InputsLayout(r: seq<Byte>, inputs: map<string, Word>)
    requires |r| >= 33
  {
    && inputs.Keys == InputKeys(16)
    && forall n | 1 <= n <= 16 :: inputs[InputKey(n)] == 0x100 * (r[2 * n] as int) + r[2 * n - 1]
  }

  /** The states of the two heat meters: meter c is active exactly when bit
      c - 1 of r[39] is set. */
  function MeterStatusOf(r: seq<Byte>): map<string, MeterStatus>
    requires |r| >= 40
  {
    map["wmz1" := if Bit(r[39], 0) then Active else Inactive,
        "wmz2" := if Bit(r[39], 1) then Active else Inactive]
  }

  /** The readings of the two heat meters: an active meter reports the power
      and energy of its eight bytes (r[40..48] and r[48..56]), an inactive one
      0 for both. */
  function MetersOf(r: seq<Byte>): map<string, real>
    requires |r| >= 56
  {
    map["current_heat_power1" := if Bit(r[39], 0) then HeatPower(r[40], r[41], r[42], r[43]) else 0.0,
        "total_heat_energy1" := if Bit(r[39], 0) then HeatEnergy(r[44], r[45], r[46], r[47]) else 0.0,
        "current_heat_power2" := if Bit(r[39], 1) then HeatPower(r[48], r[49], r[50], r[51]) else 0.0,
        "total_heat_energy2" := if Bit(r[39], 1) then HeatEnergy(r[52], r[53], r[54], r[55]) else 0.0]
  }

  /** Where each part of the record comes from in the frame. */
  predicate Layout(r: seq<Byte>, rec: UvrRecord)
    requires |r| >= 56
  {
    && OutputsLayout(r, rec.outputs)
    && rec.speedLevels == SpeedLevelsOf(r)
    && InputsLayout(r, rec.inputs)
    && rec.meterStatus == MeterStatusOf(r)
    && rec.meters == MetersOf(r)
  }

  /** The record of a frame, assembled from the output and input maps as the
      parser fills them in. */
  function RecordOf(r: seq<Byte>): UvrRecord
    requires |r| >= 56
  {
    UvrRecord(OutputsUpTo(Byte2Short(r[33], r[34]), 13), SpeedLevelsOf(r), InputsUpTo(r, 16),
              MeterStatusOf(r), MetersOf(r))
  }

  /** The record of a frame has the frame's layout, and it is the only record
      that has. */
  lemma RecordOfLayout(r: seq<Byte>, rec: UvrRecord)
    requires |r| >= 56
    ensures Layout(r, RecordOf(r))
    ensures Layout(r, rec) <==> rec == RecordOf(r)
  {
    OutputsOfFrame(r);
    InputsOfFrame(r);
    if Layout(r, rec) {
      LayoutUnique(r, rec, RecordOf(r));
    }
  }

  /** The current heat power of a meter (main.js:747-753): the 24-bit count
      of the three upper bytes, plus hundredths from the lowest byte, over 100.
      The correction for a negative count tests a byte against 32767 and so
      never applies: the power is never negative. */
  function HeatPower(lowLow: Byte, lowHigh: Byte, highLow: Byte, highHigh: Byte): (p: real)
    ensures p == ((10 * (lowHigh + 0x100 * highLow + 0x1_0000 * highHigh)) as real
                  + (lowLow * 10) as real / 256.0) / 100.0
    ensures 0.0 <= p < 1677721.6
  {
    var hundredths := (lowLow * 10) as real / 256.0;
    var count := Byte2Int(lowHigh, highLow, highHigh, 0);
    var numerator :=
      if highHigh > 32767 then (10 * (count - 65536)) as real - hundredths
      else (10 * count) as real + hundredths;
    numerator / 100.0
  }

  /** The total heat energy of a meter (main.js:756-757): a word of tenths of
      a kWh plus a word of MWh, in kWh. */
  function HeatEnergy(kwhLo: Byte, kwhHi: Byte, mwhLo: Byte, mwhHi: Byte): (e: real)
    ensures e == (0x100 * kwhHi + kwhLo) as real / 10.0 + (0x100 * mwhHi + mwhLo) as real * 1000.0
    ensures 0.0 <= e
  {
    Byte2Short(kwhLo, kwhHi) as real / 10.0 + Byte2Short(mwhLo, mwhHi) as real * 1000.0
  }

  /** `wmz & 0x1` and `wmz & 0x2` test bits 0 and 1 of the status byte. */
  lemma StatusBits(wmz: Byte)
    ensures JsAnd(wmz, 0x1) != 0 <==> Bit(wmz, 0)
    ensures JsAnd(wmz, 0x2) != 0 <==> Bit(wmz, 1)
  {
    JsAndBit(wmz, 0);
    JsAndBit(wmz, 1);
  }

  /** The outputs part of `parseUvrRecord` (main.js:697-710): the word of
      r[33] and r[34], tested against the masks 0x01 to 0x1000. */
  method ParseOutputs(response: seq<Byte>) returns (outputs: map<string, Switch>)
    requires |response| >= 35
    ensures outputs == OutputsUpTo(Byte2Short(response[33], response[34]), 13)
    ensures OutputsLayout(response, outputs)
  {
    var output := Byte2Short(response[33], response[34]);
    OutputMasks();
    outputs := map[];
    outputs := outputs[OutputKey(1) := SwitchOf(JsAnd(output, 0x01))];
    assert outputs == OutputsUpTo(output, 1);
    outputs := outputs[OutputKey(2) := SwitchOf(JsAnd(output, 0x02))];
    assert outputs == OutputsUpTo(output, 2);
    outputs := outputs[OutputKey(3) := SwitchOf(JsAnd(output, 0x04))];
    assert outputs == OutputsUpTo(output, 3);
    outputs := outputs[OutputKey(4) := SwitchOf(JsAnd(output, 0x08))];
    assert outputs == OutputsUpTo(output, 4);
    outputs := outputs[OutputKey(5) := SwitchOf(JsAnd(output, 0x10))];
    assert outputs == OutputsUpTo(output, 5);
    outputs := outputs[OutputKey(6) := SwitchOf(JsAnd(output, 0x20))];
    assert outputs == OutputsUpTo(output, 6);
    outputs := outputs[OutputKey(7) := SwitchOf(JsAnd(output, 0x40))];
    assert outputs == OutputsUpTo(output, 7);
    outputs := outputs[OutputKey(8) := SwitchOf(JsAnd(output, 0x80))];
    assert outputs == OutputsUpTo(output, 8);
    outputs := outputs[OutputKey(9) := SwitchOf(JsAnd(output, 0x100))];
    assert outputs == OutputsUpTo(output, 9);
    outputs := outputs[OutputKey(10) := SwitchOf(JsAnd(output, 0x200))];
    assert outputs == OutputsUpTo(output, 10);
    outputs := outputs[OutputKey(11) := SwitchOf(JsAnd(output, 0x400))];
    assert outputs == OutputsUpTo(output, 11);
    outputs := outputs[OutputKey(12) := SwitchOf(JsAnd(output, 0x800))];
    assert outputs == OutputsUpTo(output, 12);
    outputs := outputs[OutputKey(13) := SwitchOf(JsAnd(output, 0x1000))];
    assert outputs == OutputsUpTo(output, 13);
    OutputsOfFrame(response);
  }

  /** The inputs part of `parseUvrRecord` (main.js:725-727): sixteen words,
      keyed S01 to S16. */
  method ParseInputs(response: seq<Byte>) returns (inputs: map<string, Word>)
    requires |response| >= 33
    ensures inputs == InputsUpTo(response, 16)
    ensures InputsLayout(response, inputs)
  {
    inputs := map[];
    for i := 0 to 16
      invariant inputs == InputsUpTo(response, i)
    {
      inputs := inputs[InputKey(i + 1) := Byte2Short(response[i * 2 + 1], response[i * 2 + 2])];
    }
    InputsOfFrame(response);
  }

  /** The heat-meter part of `parseUvrRecord` (main.js:733-783). */
  method ParseMeters(response: seq<Byte>) returns (status: map<string, MeterStatus>, meters: map<string, real>)
    requires |response| >= 56
    ensures status == MeterStatusOf(response) && meters == MetersOf(response)
  {
    var wmz := response[39];
    StatusBits(wmz);
    status := map[];
    status := status["wmz1" := StatusOf(JsAnd(wmz, 0x1))];
    status := status["wmz2" := StatusOf(JsAnd(wmz, 0x2))];

    meters := map[];
    if JsAnd(wmz, 0x1) != 0 {
      meters := meters["current_heat_power1" := HeatPower(response[40], response[41], response[42], response[43])];
      meters := meters["total_heat_energy1" := HeatEnergy(response[44], response[45], response[46], response[47])];
    } else {
      meters := meters["current_heat_power1" := 0.0];
      meters := meters["total_heat_energy1" := 0.0];
    }
    if JsAnd(wmz, 0x2) != 0 {
      meters := meters["current_heat_power2" := HeatPower(response[48], response[49], response[50], response[51])];
      meters := meters["total_heat_energy2" := HeatEnergy(response[52], response[53], response[54], response[55])];
    } else {
      meters := meters["current_heat_power2" := 0.0];
      meters := meters["total_heat_energy2" := 0.0];
    }
  }

  /** `parseUvrRecord` (main.js:687-788) on the 57-byte block the frame guard
      keeps: it builds the record of the frame. */
  method ParseUvrRecord(response: seq<Byte>) returns (rec: UvrRecord)
    requires |response| >= 56
    ensures rec == RecordOf(response)
  {
    var outputs := ParseOutputs(response);
    var speedLevels: map<string, Byte> := map[];
    speedLevels := speedLevels["DzA1" := response[35]];
    speedLevels := speedLevels["DzA2" := response[36]];
    speedLevels := speedLevels["DzA6" := response[37]];
    speedLevels := speedLevels["DzA7" := response[38]];
    var inputs := ParseInputs(response);
    var status, meters := ParseMeters(response);
    rec := UvrRecord(outputs, speedLevels, inputs, status, meters);
  }

  // What the layout says about a decoded record.

  /** Outputs A01 to A08 follow the bits of r[33] and outputs A09 to A13 the
      low five bits of r[34]. */
  lemma OutputBytes(r: seq<Byte>, rec: UvrRecord)
    requires |r| >= 56 && Layout(r, rec)
    ensures forall k | 1 <= k <= 8 :: rec.outputs[OutputKey(k)] == On <==> Bit(r[33], k - 1)
    ensures forall k | 9 <= k <= 13 :: rec.outputs[OutputKey(k)] == On <==> Bit(r[34], k - 9)
  {
    forall k | 1 <= k <= 13
      ensures rec.outputs[OutputKey(k)] == On <==>
        if k <= 8 then Bit(r[33], k - 1) else Bit(r[34], k - 9)
    {
      WordBit(r[33], r[34], k - 1);
    }
  }

  /** Each input word gives its two bytes back: the frame's bytes 1 to 32 are
      determined by the inputs. */
  lemma InputBytes(r: seq<Byte>, rec: UvrRecord)
    requires |r| >= 56 && Layout(r, rec)
    ensures forall n | 1 <= n <= 16 ::
      rec.inputs[InputKey(n)] / 0x100 == r[2 * n] && rec.inputs[InputKey(n)] % 0x100 == r[2 * n - 1]
  {
    forall n | 1 <= n <= 16
      ensures rec.inputs[InputKey(n)] / 0x100 == r[2 * n] && rec.inputs[InputKey(n)] % 0x100 == r[2 * n - 1]
    {
      DivModUnique(rec.inputs[InputKey(n)], 0x100, r[2 * n], r[2 * n - 1]);
    }
  }

  lemma {:induction false} OutputKeyCount(n: nat)
    requires n < 100
    ensures |OutputKeys(n)| == n
  {
    if n > 0 {
      OutputKeyCount(n - 1);
      forall k | 1 <= k <= n - 1
        ensures OutputKey(k) != OutputKey(n)
      {
        if OutputKey(k) == OutputKey(n) {
          OutputKeyInjective(k, n);
        }
      }
      OutputKeysStep(n);
    }
  }

  lemma {:induction false} InputKeyCount(n: nat)
    requires n < 100
    ensures |InputKeys(n)| == n
  {
    if n > 0 {
      InputKeyCount(n - 1);
      forall k | 1 <= k <= n - 1
        ensures InputKey(k) != InputKey(n)
      {
        if InputKey(k) == InputKey(n) {
          InputKeyInjective(k, n);
        }
      }
      InputKeysStep(n);
    }
  }

  /** A record has exactly 13 outputs, 4 speed levels, 16 inputs, 2 meter
      states and 4 meter values. */
  lemma RecordSizes(r: seq<Byte>, rec: UvrRecord)
    requires |r| >= 56 && Layout(r, rec)
    ensures |rec.outputs| == 13 && |rec.speedLevels| == 4 && |rec.inputs| == 16
    ensures |rec.meterStatus| == 2 && |rec.meters| == 4
  {
    OutputsSize(r, rec.outputs);
    InputsSize(r, rec.inputs);
    MetersSize(r);
  }

  lemma OutputsSize(r: seq<Byte>, outputs: map<string, Switch>)
    requires |r| >= 35 && OutputsLayout(r, outputs)
    ensures |outputs| == 13
  {
    OutputKeyCount(13);
    assert |outputs| == |outputs.Keys|;
  }

  lemma InputsSize(r: seq<Byte>, inputs: map<string, Word>)
    requires |r| >= 33 && InputsLayout(r, inputs)
    ensures |inputs| == 16
  {
    InputKeyCount(16);
    assert |inputs| == |inputs.Keys|;
  }

  lemma MetersSize(r: seq<Byte>)
    requires |r| >= 56
    ensures |SpeedLevelsOf(r)| == 4 && |MeterStatusOf(r)| == 2 && |MetersOf(r)| == 4
  {
    assert |SpeedLevelsOf(r)| == |SpeedLevelsOf(r).Keys|;
    assert |MeterStatusOf(r)| == |MeterStatusOf(r).Keys|;
    assert |MetersOf(r)| == |MetersOf(r).Keys|;
  }

  /** The outputs of a frame are determined by it. */
  lemma OutputsUnique(r: seq<Byte>, a: map<string, Switch>, b: map<string, Switch>)
    requires |r| >= 35 && OutputsLayout(r, a) && OutputsLayout(r, b)
    ensures a == b
  {
    forall key | key in a
      ensures a[key] == b[key]
    {
      var k :| 1 <= k <= 13 && key == OutputKey(k);
    }
  }

  /** The inputs of a frame are determined by it: they are the ones the
      input loop builds. */
  lemma InputsUnique(r: seq<Byte>, inputs: map<string, Word>)
    requires |r| >= 33 && InputsLayout(r, inputs)
    ensures inputs == InputsUpTo(r, 16)
  {
    var built := InputsUpTo(r, 16);
    InputsOfFrame(r);
    forall key | key in inputs
      ensures inputs[key] == built[key]
    {
      var n :| 1 <= n <= 16 && key == InputKey(n);
    }
  }

  /** The layout leaves no freedom: a frame has exactly one record. */
  lemma LayoutUnique(r: seq<Byte>, a: UvrRecord, b: UvrRecord)
    requires |r| >= 56 && Layout(r, a) && Layout(r, b)
    ensures a == b
  {
    OutputsUnique(r, a.outputs, b.outputs);
    InputsUnique(r, a.inputs);
    InputsUnique(r, b.inputs);
  }
}
