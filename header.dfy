/** The device information read at start-up (main.js:214-373): the header
    frame's mode and device-type bytes, the module id, the firmware version and
    the transmission mode. */
module Header {
  import opened Wrappers
  import opened Bytes
  import opened Text

  /** The command bytes `readDeviceInfo` sends, in order. */
  const VersionRequest: Byte := 0x81
  const HeaderRead: Byte := 0xAA
  const FirmwareRequest: Byte := 0x82
  const ModeRequest: Byte := 0x21

  /** The mode bytes of a header frame: one DL bus, two DL buses, CAN bus. */
  const ModeOneDl: Byte := 0xA8
  const ModeTwoDl: Byte := 0xD1
  const ModeCan: Byte := 0xDC

  /** The device-type codes. */
  const TypeUvr61: Byte := 0x5A
  const TypeUvr1611: Byte := 0x76

  /** `data[i]`, which is `undefined` past the end of the buffer. */
  function At(data: seq<Byte>, i: nat): (b: Option<Byte>)
    ensures b.Some? <==> i < |data|
    ensures b.Some? ==> b.value == data[i]
  {
    if i < |data| then Some(data[i]) else None
  }

  /** JavaScript's string form of a byte that may be `undefined`, in decimal. */
  function DecimalOrUndefined(b: Option<Byte>): string {
    if b.Some? then NatToString(b.value, 10) else "undefined"
  }

  /** The name of a device-type code (main.js:318-345); `undefined` falls into
      the default case. */
  function TypeName(code: Option<Byte>): (name: string)
    ensures code == Some(TypeUvr61) ==> name == "UVR61-3"
    ensures code == Some(TypeUvr1611) ==> name == "UVR1611"
    ensures name == "Unknown" <==> code != Some(TypeUvr61) && code != Some(TypeUvr1611)
  {
    if code == Some(TypeUvr61) then "UVR61-3"
    else if code == Some(TypeUvr1611) then "UVR1611"
    else "Unknown"
  }

  /** The error `readDeviceInfo` throws for a mode byte it does not know. */
  function UnknownMode(mode: Byte): string {
    "Unknown mode: 0x" + NatToString(mode, 16)
  }

  const UnknownModePrefixLength: nat := 16

  datatype DeviceTypes = DeviceTypes(mode: string, uvrType: string, uvr2Type: Option<string>)

  /** The header decoding of main.js:246-345 on the frame answering `0xAA`:
      the mode from byte 1, the device type from byte 5 (forced to UVR1611 on
      the CAN bus) and, with two DL buses only, a second type from byte 6.
      Callers pass the reply of the retry loop, which is longer than one byte. */
  function DecodeHeader(data: seq<Byte>): Result<DeviceTypes>
    requires |data| > 1
  {
    var mode := data[1];
    if mode != ModeOneDl && mode != ModeTwoDl && mode != ModeCan then
      Err(UnknownMode(mode))
    else
      var modeName :=
        if mode == ModeOneDl then "1DL"
        else if mode == ModeTwoDl then "2DL"
        else DecimalOrUndefined(At(data, 5)) + "CAN";
      var uvrType := if mode == ModeCan then Some(TypeUvr1611) else At(data, 5);
      var uvr2Type := if mode == ModeTwoDl then At(data, 6) else None;
      Ok(DeviceTypes(modeName, TypeName(uvrType),
                     if uvr2Type.Some? then Some(TypeName(uvr2Type)) else None))
  }

  /** Exactly the three known mode bytes are accepted; the error names the
      rejected byte in hexadecimal, and that byte reads back from it. */
  lemma DecodeHeaderModes(data: seq<Byte>)
    requires |data| > 1
    ensures DecodeHeader(data).Err? <==> data[1] !in {ModeOneDl, ModeTwoDl, ModeCan}
    ensures data[1] == ModeOneDl ==> DecodeHeader(data).value.mode == "1DL"
    ensures data[1] == ModeTwoDl ==> DecodeHeader(data).value.mode == "2DL"
    ensures DecodeHeader(data).Err? ==>
      var msg := DecodeHeader(data).error;
      && msg[..UnknownModePrefixLength] == "Unknown mode: 0x"
      && ParseNat(msg[UnknownModePrefixLength..], 16) == data[1]
    ensures DecodeHeader(data).Err? ==>
      DecodeHeader(data).error == "Unknown mode: 0x" + NatToString(data[1], 16)
  {
    var msg := UnknownMode(data[1]);
    assert msg[UnknownModePrefixLength..] == NatToString(data[1], 16);
    ParseNatToString(data[1], 16);
  }

  /** The device type: byte 5 named for the DL buses (the name of `undefined`
      when the frame is shorter), UVR1611 on the CAN bus whatever byte 5 holds. */
  lemma DecodeHeaderType(data: seq<Byte>)
    requires |data| > 1 && DecodeHeader(data).Ok?
    ensures data[1] == ModeCan ==> DecodeHeader(data).value.uvrType == "UVR1611"
    ensures data[1] != ModeCan ==> DecodeHeader(data).value.uvrType == TypeName(At(data, 5))
    ensures DecodeHeader(data).value.uvrType in {"UVR61-3", "UVR1611", "Unknown"}
  {
  }

  /** A second device type is reported exactly with two DL buses and a byte 6. */
  lemma DecodeHeaderSecondType(data: seq<Byte>)
    requires |data| > 1 && DecodeHeader(data).Ok?
    ensures DecodeHeader(data).value.uvr2Type.Some? <==> data[1] == ModeTwoDl && |data| > 6
    ensures DecodeHeader(data).value.uvr2Type.Some? ==>
      DecodeHeader(data).value.uvr2Type.value == TypeName(Some(data[6]))
  {
  }

  /** On the CAN bus the mode names the number of CAN frames from byte 5 in
      decimal, which reads back from the mode string, or "undefined" when the
      frame has no byte 5; either way it ends in "CAN". */
  lemma CanFrameCount(data: seq<Byte>)
    requires |data| > 1 && data[1] == ModeCan
    ensures var mode := DecodeHeader(data).value.mode;
      && |mode| > 3 && mode[|mode| - 3..] == "CAN"
      && (|data| > 5 ==>
            && mode[..|mode| - 3] == NatToString(data[5], 10)
            && (forall i | 0 <= i < |mode| - 3 :: IsDigit(mode[i], 10))
            && (mode[0] == '0' ==> data[5] == 0 && |mode| == 4)
            && ParseNat(mode[..|mode| - 3], 10) == data[5])
      && (|data| <= 5 ==> mode[..|mode| - 3] == "undefined")
  {
    var count := DecimalOrUndefined(At(data, 5));
    var mode := count + "CAN";
    assert mode[..|mode| - 3] == count;
    if |data| > 5 {
      ParseNatToString(data[5], 10);
    }
  }

  /** Distinct bus set-ups give distinct mode strings: the mode byte, and on the
      CAN bus byte 5 (or its absence), can be read back from the mode. */
  lemma ModeNameInjective(a: seq<Byte>, b: seq<Byte>)
    requires |a| > 1 && |b| > 1 && DecodeHeader(a).Ok? && DecodeHeader(b).Ok?
    requires DecodeHeader(a).value.mode == DecodeHeader(b).value.mode
    ensures a[1] == b[1]
    ensures a[1] == ModeCan ==> At(a, 5) == At(b, 5)
  {
    var mode := DecodeHeader(a).value.mode;
    if a[1] == ModeCan || b[1] == ModeCan {
      if a[1] == ModeCan {
        CanFrameCount(a);
      }
      if b[1] == ModeCan {
        CanFrameCount(b);
      }
      assert mode[|mode| - 1] == 'N';
    }
  }

  /** The firmware version, the reply's first byte in hundredths
      (`data.readUInt8(0) / 100`); an empty reply makes `readUInt8` throw. */
  function FirmwareVersion(reply: seq<Byte>): (r: Result<real>)
    ensures r.Ok? <==> |reply| > 0
    ensures r.Ok? ==> 0.0 <= r.value <= 2.55 && r.value * 100.0 == reply[0] as real
  {
    if |reply| == 0 then Err(OffsetOutOfRange) else Ok(reply[0] as real / 100.0)
  }

  /** The transmission mode, the reply's first byte in upper-case hexadecimal
      (`readUInt8(0).toString(16).toUpperCase()`): one or two digits `0`-`9`,
      `A`-`F`, with no leading zero, that read back as the byte. */
  function TransmissionMode(reply: seq<Byte>): (r: Result<string>)
    ensures r.Ok? <==> |reply| > 0
    ensures r.Ok? ==> 1 <= |r.value| <= 2 && ParseNat(r.value, 16) == reply[0]
    ensures r.Ok? ==> forall i | 0 <= i < |r.value| :: IsUpperHexDigit(r.value[i])
    ensures r.Ok? && r.value[0] == '0' ==> reply[0] == 0 && r.value == "0"
  {
    if |reply| == 0 then Err(OffsetOutOfRange)
    else
      var digits := NatToString(reply[0], 16);
      ParseNatToString(reply[0], 16);
      ParseNatToUpper(digits, 16);
      HexDigitCount(reply[0]);
      assert digits[0] == '0' ==> ToUpper(digits) == "0";
      Ok(ToUpper(digits))
  }

  /** A byte has one or two hexadecimal digits. */
  lemma HexDigitCount(b: Byte)
    ensures |NatToString(b, 16)| <= 2
  {
    if b >= 16 {
      assert NatToString(b, 16) == NatToString(b / 16, 16) + [DigitChar(b % 16)];
    }
  }

  /** A stand-in for the message of the error `readUInt8(0)` throws on an
      empty buffer; Node's exact text is not reproduced. */
  const OffsetOutOfRange: string := "The value of \"offset\" is out of range."

  /** The module id, `"0x" + data.toString("hex").toUpperCase()` on the reply to
      the version request. */
  function ModuleId(reply: seq<Byte>): (id: string)
    ensures |id| == 2 + 2 * |reply| && id[..2] == "0x"
    ensures forall i | 2 <= i < |id| :: IsUpperHexDigit(id[i])
  {
    "0x" + ToUpper(HexBytes(reply))
  }

  /** Every byte of the version reply reads back from its two digits of the
      module id. */
  lemma ModuleIdBytes(reply: seq<Byte>, i: nat)
    requires i < |reply|
    ensures ParseNat(ModuleId(reply)[2 + 2 * i..4 + 2 * i], 16) == reply[i]
  {
    var hex := HexBytes(reply);
    var pair := hex[2 * i..2 * i + 2];
    assert ModuleId(reply)[2 + 2 * i..4 + 2 * i] == ToUpper(pair);
    HexBytesAt(reply, i);
    ParseNatToUpper(pair, 16);
  }

  datatype DeviceInfo = DeviceInfo(
    types: DeviceTypes,
    moduleId: string,
    firmwareVersion: real,
    transmissionMode: string)

  /** The device information from the four replies `readDeviceInfo` receives,
      in order; the first failing step decides the error. */
  function DeviceInfoOf(version: seq<Byte>, header: seq<Byte>, firmware: seq<Byte>,
                        mode: seq<Byte>): Result<DeviceInfo>
    requires |header| > 1
  {
    var types := DecodeHeader(header);
    if types.Err? then Err(types.error)
    else
      var fw := FirmwareVersion(firmware);
      if fw.Err? then Err(fw.error)
      else
        var tm := TransmissionMode(mode);
        if tm.Err? then Err(tm.error)
        else Ok(DeviceInfo(types.value, ModuleId(version), fw.value, tm.value))
  }
}
