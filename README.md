# BL-NET / D-LOGG adapter: a verified model of its telegram decoding and polling

The ioBroker adapter `uvr16xx-blnet` talks to a Technische Alternative BL-NET
(or D-LOGG) data logger over a raw TCP socket. Every command is a few bytes.
The logger answers with a binary frame, and the adapter decodes the frame into
ioBroker states. This project models, in Dafny, the part of `main.js` that
decides what those states are:

- **Byte helpers** (module `Bytes`): `byte2short`, `byte2int` and `readBlock`.
  JavaScript's `&`, `|`, `~`, `<<` and `>>` on 32-bit integers are written out
  in module `Bits`, so the source's own bit expressions are proved equal to
  plain arithmetic.
- **Input decoding** (module `Inputs`): the 12-bit sign/magnitude value of an
  input word, its unit tag in bits 12-14, `determineUnit`, and the scaling per
  unit. The scaling is inlined in `declareOrUpdateObjects` in the source; here
  it is lifted into `DecodeInput`, a function from a word to a (value, unit)
  pair.
- **Device information** (module `Header`): the header frame's mode byte and
  device-type bytes, the firmware version, the transmission mode and the
  module id that `readDeviceInfo` reads at start-up.
- **Text conversions** (module `Text`): `toString(radix)`, `padStart`,
  `toUpperCase` and `Buffer.toString("hex")`, as far as the keys and the
  device information use them.
- **Retry loop** (module `Retry`): `fetchDataBlockFromDevice` on an abstract
  transport. The transport is the sequence of replies the logger will give,
  each one data bytes or an error.
- **Record decoding** (module `Record`): the frame guard of
  `fetchStateValuesFromDevice` and `parseUvrRecord`. The parser is a method
  that fills the maps as the source does. It is proved to build the one record
  that matches the frame's fixed byte layout.
- **Conversations** (module `Session`): functions of the pending replies that
  say which commands `readDeviceInfo`, `fetchStateValuesFromDevice` and
  `readSystemConfiguration` send and what they return.
- **The adapter object** (module `Adapter`): a class with the `initialized`
  flag, the remembered system configuration, the `info.connection` state and
  the transport. Its methods mirror `sendCommand`, the retry loop, the three
  reads and one tick of `startPolling`. Each is proved against the
  conversation functions.

Byte values are integers 0..255 and words are integers 0..65535. Scaled values
(tenths, ×4, hundredths) are `real`.

Where the code and the project's prose documentation disagree, the model
follows the code:

- Speed levels are the raw bytes r[35..38], not masked.
- The unit tag 0x60 ("W/m²") leaves the decoded integer unscaled.
- A frame needs at least 57 bytes.
- `determineUnit(0)` is "unused".
- The CAN mode (0xDC) forces device type 0x76 whatever byte 5 holds.
- `fetchStateValuesFromDevice` swallows its errors and returns `undefined`.
  So a failed poll after initialisation leaves `success`, and with it the
  connection state, true.
- A tick that initialises successfully also polls in that same tick.

## Model

| member | source | states |
|---|---|---|
| Bytes.Byte2Short | main.js:854-856 | the word of two bytes gives both bytes back: `w / 256 == hi` and `w % 256 == lo` |
| Bytes.Byte2ShortBits | main.js:854-856 | the source expression `(hi << 8) \| (lo & 0xFF)` under JavaScript's 32-bit operators equals `Byte2Short(lo, hi)` |
| Bytes.Byte2Int | main.js:867-869 | the little-endian value of four bytes, less 2^32 when the top byte is 0x80 or more; the result lies in the signed 32-bit range and is non-negative exactly when the top byte is below 0x80 |
| Bytes.Byte2IntBits | main.js:867-869 | the source expression `(byte2short(..) & 0xFFFF) \| (byte2short(..) << 16)` under JavaScript's operators equals `Byte2Int` |
| Bytes.Byte2IntSigned | main.js:867-869 | `byte2int` is ECMAScript ToInt32 of the unsigned 32-bit reading |
| Bytes.ReadBlock | main.js:839-845 | a block exists exactly when the data has at least `length` bytes; it then has `length` bytes and is a prefix of the data |
| Inputs.SplitWord | main.js:481-482 | `value >> 8` and `value & 0xFF` are the high and low bytes of the word |
| Inputs.SplitHighByte | main.js:483-485 | `& 0x80`, `& 0x70` and `& 0x0F` on the high byte give the sign bit, the unit field and the low nibble |
| Inputs.Complement | main.js:489-491 | for a 12-bit magnitude m, `m \| 0xF000` is `m + 0xF000`, and `~x & 0xFFFF` of that is `0x0FFF - m` |
| Inputs.DecodeSigned12 | main.js:481-496 | the source's step-by-step decoding returns the 12-bit magnitude when bit 15 is clear, and the magnitude minus 4096 when it is set |
| Inputs.DecodeRange | main.js:481-496 | the decoded value lies in -4096..4095 and is negative exactly when bit 15 is set |
| Inputs.DecodeIgnoresUnitBits | main.js:484-485 | clearing the unit tag in bits 12-14 does not change the decoded value |
| Inputs.DecodeInjective | main.js:481-496 | two words with the same unit tag and the same decoded value are the same word: the decoding loses nothing |
| Inputs.UnitBits | main.js:146-147 | `(value >> 8) & 0x70` is bits 12-14 of the word, times 0x10 |
| Inputs.UnitOf | main.js:146-148 | an input's unit is "unknown" exactly for the tags 4 and 5 (0x40, 0x50) |
| Inputs.UnitOfDistinct | main.js:178-195 | apart from "unknown", each unit name comes from a single tag |
| Inputs.UnitsOf | main.js:143-153 | the units map has exactly the input keys, and each unit is the unit of that input's word |
| Inputs.DetermineUnit | main.js:178-195 | `determineUnit`: "unknown" exactly for the values other than 0x00, 0x10, 0x20, 0x30, 0x60 and 0x70; the name of each of those is stated per tag by `UnitOf`, `ScaledValueByUnit`, `DigitalValue` and `RoomSensorValue` |
| Inputs.ScaledValue | main.js:497-512 | the published value of an input word; what it is for each tag is stated by `ScaledValueByUnit`, `DigitalValue`, `RoomSensorValue` and `TemperatureRange` |
| Inputs.DecodeInput | main.js:479-513 | the lifted decoder from a word to its (value, unit) pair; its meaning per tag is stated by the same four lemmas |
| Inputs.ScaledValueByUnit | main.js:497-512 | per tag: 0x20 gives the signed value / 10 in "°C", 0x30 gives ×4 in "l/h", 0x60, 0x00, 0x40 and 0x50 give the signed value unscaled with their unit names |
| Inputs.SignFlag | main.js:505 | `value & 0x8000` is non-zero exactly when bit 15 is set |
| Inputs.DigitalValue | main.js:504-506 | a digital input (tag 0x10) reads 1 when bit 15 is set and 0 otherwise, whatever its magnitude |
| Inputs.RoomSensorValue | main.js:507-509 | a room sensor (tag 0x70) reads the low nine bits of the raw word in tenths, between 0 and 51.1, whatever the sign bit |
| Inputs.RoomSensorMask | main.js:508 | `input & 0x1FF` on the decoded (possibly negative) value is the raw word's low nine bits |
| Inputs.NineBits | main.js:485-496 | the decoding keeps the low nine bits of the word modulo 512 |
| Inputs.TemperatureRange | main.js:498-500 | temperatures lie between -409.6 and 409.5 degrees |
| Text.NatToString | main.js:255 | `toString(radix)` writes at least one character, every one a digit of the radix (`0`-`9`, then lower-case `a`-`f`), and no leading zero |
| Text.ParseNatToString | main.js:255 | reading back what `toString(radix)` wrote gives the number |
| Text.PadStart | main.js:726 | `padStart` keeps the string at the end and fills in front up to the width |
| Text.TwoDigitsPadStart | main.js:726 | the two-digit key number is what `(i + 1).toString().padStart(2, "0")` writes |
| Text.TwoDigitsRoundTrip | main.js:726 | the two digits read back to the number |
| Text.TwoDigitsInjective | main.js:726 | distinct numbers give distinct two-digit keys |
| Text.ToUpper | main.js:356 | upper-casing keeps the length, maps each character, and leaves no lower-case letter |
| Text.ParseNatToUpper | main.js:356 | upper-casing hexadecimal text keeps its value |
| Text.HexBytes | main.js:229 | hex text has two characters per byte, every one a hexadecimal digit `0`-`9` or `a`-`f` |
| Text.HexBytesAt | main.js:229 | each byte reads back from its two hex digits |
| Header.At | main.js:255 | `data[i]` is defined exactly inside the buffer and is then the byte there |
| Header.DecodeHeader | main.js:246-345 | the header decoder: from the header reply to the mode string, the device type and the optional second type, or the "Unknown mode" error; stated by `DecodeHeaderModes`, `DecodeHeaderType`, `DecodeHeaderSecondType`, `CanFrameCount`, `ModeNameInjective` and the contract of `TypeName` |
| Header.TypeName | main.js:318-345 | the name of a device-type code: 0x5A gives "UVR61-3", 0x76 gives "UVR1611", and "Unknown" exactly for every other code, `undefined` included |
| Header.DecodeHeaderModes | main.js:246-259 | 0xA8 gives the mode "1DL" and 0xD1 gives "2DL"; the header is rejected exactly when byte 1 is not 0xA8, 0xD1 or 0xDC; the error is exactly "Unknown mode: 0x" followed by `toString(16)` of byte 1, which reads back as byte 1 |
| Header.DecodeHeaderType | main.js:262-330 | the device type is UVR1611 on the CAN bus, otherwise the name of byte 5 (of `undefined` when the frame is shorter); the name is one of "UVR61-3", "UVR1611", "Unknown" |
| Header.DecodeHeaderSecondType | main.js:262-345 | a second type exists exactly with two DL buses (0xD1) and a byte 6, and is then the name of byte 6 |
| Header.CanFrameCount | main.js:254-255 | on the CAN bus the mode string ends in "CAN"; in front stands byte 5 exactly as `toString()` writes it (decimal digits, no leading zero, reading back as byte 5), or "undefined" when the reply has no byte 5 |
| Header.ModeNameInjective | main.js:246-259 | for header replies of any accepted length, equal mode strings come from the same mode byte and, on the CAN bus, the same byte 5 or the same absence of it |
| Header.FirmwareVersion | main.js:347-350 | the version exists exactly when the reply is non-empty; it is the first byte in hundredths, between 0 and 2.55 |
| Header.TransmissionMode | main.js:353-356 | the mode exists exactly when the reply is non-empty; it is one or two characters, each `0`-`9` or `A`-`F`, with no leading zero, and reads back as the first byte |
| Header.ModuleId | main.js:363 | the module id is "0x" followed by two characters per byte of the version reply, every one an upper-case hexadecimal digit `0`-`9` or `A`-`F` |
| Header.ModuleIdBytes | main.js:229 | every byte of the version reply reads back from its two digits of the module id |
| Header.DeviceInfoOf | main.js:226-366 | the device information from the version, header, firmware and mode replies, failing at the first step that fails; `Session.ReadDeviceInfoSpecOk` ties it to the conversation |
| Retry.FetchFromSpec | main.js:646-673 | from any attempt on, the loop resolves with the first accepted reply before the fifth command, and otherwise rejects after five commands with no reply accepted |
| Retry.FetchSpec | main.js:641-679 | the loop sends one to five commands; it resolves exactly when one of the first five replies is data longer than one byte, and then with the first such reply; otherwise it rejects after five commands with "Max retries reached" |
| Retry.FetchFrom | main.js:646-673 | the retry loop from a given attempt on, with the number of commands sent; stated by `FetchFromSpec` |
| Retry.Fetch | main.js:641-679 | `fetchDataBlockFromDevice` on the pending replies; stated by `FetchSpec` and implemented by `Adapter.Adapter.FetchDataBlock` |
| Record.FrameGuard | main.js:606-627 | a frame is accepted exactly when it starts with 0x80 and has at least 57 bytes, and is then cut to its first 57; otherwise the error is "Invalid response from device" for a short 0x80 frame and "Unexpected data format" for the rest |
| Record.OutputKeyInjective | main.js:698-710 | distinct output numbers give distinct keys "A01".."A13" |
| Record.InputKeyInjective | main.js:726 | distinct input numbers give distinct keys "S01".."S16" |
| Record.OutputsUpTo | main.js:697-710 | the first n outputs of the output word; stated by `OutputsUpToKeys` and `OutputsUpToValues` |
| Record.InputsUpTo | main.js:724-727 | the inputs after n iterations of the input loop; stated by `InputsUpToKeys` and `InputsUpToValues` |
| Record.SwitchOfBit | main.js:698-710 | `(output & (1 << i)) ? "ON" : "OFF"` is "ON" exactly when bit i of the output word is set |
| Record.OutputsUpToKeys | main.js:698-710 | the first n outputs have exactly the keys A01..An |
| Record.OutputsUpToValues | main.js:698-710 | output k is "ON" exactly when bit k-1 of the output word is set |
| Record.InputsUpToKeys | main.js:725-727 | after n iterations of the input loop the keys are exactly S01..Sn |
| Record.InputsUpToValues | main.js:725-727 | input k is the little-endian word of r[2k-1] and r[2k] |
| Record.OutputsOfFrame | main.js:697-710 | the thirteen outputs built from a frame have the frame's output layout |
| Record.InputsOfFrame | main.js:725-727 | the sixteen inputs built from a frame have the frame's input layout |
| Record.WordBit | main.js:697 | bit k of `byte2short(r[33], r[34])` is bit k of r[33] for k < 8, and bit k-8 of r[34] otherwise |
| Record.StatusBits | main.js:733-735 | `wmz & 0x1` and `wmz & 0x2` test bits 0 and 1 of r[39] |
| Record.HeatPower | main.js:741-753 | the power is `(10·(r41 + 256·r42 + 65536·r43) + r40·10/256) / 100`; it is never negative, because the correction for a negative count cannot fire |
| Record.HeatEnergy | main.js:756-757 | the energy is the word of tenths of a kWh / 10 plus the word of MWh × 1000, never negative |
| Record.SpeedLevelsOf | main.js:715-719 | the speed levels DzA1, DzA2, DzA6 and DzA7 are the raw bytes r[35] to r[38] |
| Record.MeterStatusOf | main.js:733-735 | meter 1 (2) is active exactly when bit 0 (1) of r[39] is set; `ParseMeters` builds it and `StatusBits` ties it to the masks |
| Record.MetersOf | main.js:740-783 | the four meter readings: power and energy of an active meter from its eight bytes, 0 for an inactive one; `ParseMeters` builds it, `HeatPower` and `HeatEnergy` state the formulas |
| Record.RecordOf | main.js:687-788 | the record of a frame; `RecordOfLayout` and `LayoutUnique` show it is the one record with the frame's layout, `ParseUvrRecord` builds it |
| Record.ParseOutputs | main.js:697-710 | the thirteen assignments build the outputs of the frame, with their layout |
| Record.ParseInputs | main.js:724-727 | the sixteen-iteration loop builds the inputs of the frame, with their layout |
| Record.ParseMeters | main.js:732-783 | the meter states and readings are those of the frame: an active meter reports power and energy from its bytes, an inactive one 0 for both |
| Record.ParseUvrRecord | main.js:687-788 | the parser returns the record of the frame |
| Record.RecordOfLayout | main.js:687-788 | the record of a frame has the frame's byte layout, and a record has that layout exactly when it is the record of the frame |
| Record.OutputBytes | main.js:697-710 | outputs A01..A08 follow the bits of r[33], and A09..A13 the low five bits of r[34] |
| Record.InputBytes | main.js:725-727 | each input word gives its two frame bytes back |
| Record.OutputKeyCount | main.js:698-710 | there are exactly n output keys A01..An |
| Record.InputKeyCount | main.js:725-727 | there are exactly n input keys S01..Sn |
| Record.RecordSizes | main.js:687-788 | a record has exactly 13 outputs, 4 speed levels, 16 inputs, 2 meter states and 4 meter values |
| Record.OutputsUnique | main.js:697-710 | the output layout determines the outputs |
| Record.InputsUnique | main.js:725-727 | the input layout determines the inputs: they are the ones the loop builds |
| Record.LayoutUnique | main.js:687-788 | the layout leaves no freedom: a frame has exactly one record |
| Session.FrameUnitsSpec | main.js:143-153 | the units of a frame have the keys S01..S16, and each is the unit of the frame's input word |
| Session.FrameUnits | main.js:143-153 | the units `readSystemConfiguration` derives from a frame; stated by `FrameUnitsSpec` |
| Session.ReadDeviceInfoSpec | main.js:214-373 | the `readDeviceInfo` conversation on the pending replies: its result and the commands it sends; stated by `ReadDeviceInfoSpecProperties`, `ReadDeviceInfoSpecOk` and `ReadDeviceInfoSpecOkIff`, implemented by `Adapter.Adapter.ReadDeviceInfo` |
| Session.HeaderStage | main.js:231-345 | the header request through the retry loop and its decoding, then the rest of the conversation; implemented by `Adapter.Adapter.ReadHeader` |
| Session.FirmwareStage | main.js:347-366 | the firmware and mode requests, each failing on a missing or empty reply; implemented by `Adapter.Adapter.ReadFirmware` |
| Session.StateFrameSpec | main.js:597-631 | the frame request on the pending replies; stated by `StateFrameSpecProperties`, implemented by `Adapter.Adapter.FetchStateValues` |
| Session.ReadConfigurationSpec | main.js:121-171 | the `readSystemConfiguration` conversation; stated by `ReadConfigurationSpecProperties`, implemented by `Adapter.Adapter.ReadSystemConfiguration` |
| Session.ReadDeviceInfoSpecProperties | main.js:214-373 | `readDeviceInfo` sends the version request first and at most eight commands; the firmware request goes out only after an accepted header with a known mode |
| Session.ReadDeviceInfoSpecOk | main.js:214-373 | on success the four replies it used are data, the commands are the version request, the header requests of the retry loop, the firmware request and the mode request, and the result is `DeviceInfoOf` those replies |
| Session.ReadDeviceInfoSpecOkIff | main.js:214-373 | `readDeviceInfo` succeeds exactly when the version reply, an accepted header, the firmware reply and the mode reply all arrive and `DeviceInfoOf` accepts them |
| Session.StateFrameSpecProperties | main.js:597-631 | the frame request sends `[0xAB, index]` one to five times; it succeeds exactly when the retry loop and the frame guard do, with the first 57 bytes of the accepted reply, which starts with 0x80 |
| Session.ReadConfigurationSpecProperties | main.js:121-171 | `readSystemConfiguration` succeeds exactly when the device information and the frame after it both do; its commands start with those of `readDeviceInfo`; on success it has the device information and a 57-byte frame |
| Adapter.Adapter.constructor | main.js:38-65 | `onReady`: not initialized, the empty configuration, not connected, nothing sent and no time spent |
| Adapter.Adapter.SendCommand | main.js:797-830 | one command consumes the next reply (or "Connection closed unexpectedly" when none is left), is recorded as sent, and costs 2000 ms; nothing else changes |
| Adapter.Adapter.FetchDataBlock | main.js:641-679 | the loop returns what `Fetch` specifies, consumes as many replies as it made attempts, and sends that many copies of the command |
| Adapter.Adapter.ReadDeviceInfo | main.js:214-373 | the result and the commands sent are those of `ReadDeviceInfoSpec` on the pending replies |
| Adapter.Adapter.ReadHeader | main.js:231-345 | the header request and its decoding, then the firmware and mode requests, agree with `HeaderStage` |
| Adapter.Adapter.ReadFirmware | main.js:347-366 | the firmware and mode requests agree with `FirmwareStage` |
| Adapter.Adapter.FetchStateValues | main.js:597-631 | the state values are the record of the frame `StateFrameSpec` accepts, and nothing when it fails; the commands sent are the spec's |
| Adapter.Adapter.ReadSystemConfiguration | main.js:121-171 | the returned configuration is the failed one when either read fails, and otherwise holds the record, the device information and the units of the frame |
| Adapter.Adapter.Initialize | main.js:75-97 | the adapter takes the configuration `readSystemConfiguration` returns, publishes its success as the connection state, and is initialized exactly when it succeeded |
| Adapter.Adapter.Poll | main.js:99-113 | only the state values change, to the record of the polled frame or nothing; success, device information, units and connection state stay |
| Adapter.Adapter.Tick | main.js:73-114 | initialisation is never lost; an uninitialised adapter first reads the configuration and, once initialized, polls in the same tick; an initialized one only polls and keeps its device information and units; in every case the replies left are those after the commands sent, so ticks compose |

## Left out

- Socket I/O in `sendCommand` (main.js:797-830) is replaced by the sequence of replies the logger will give. Each reply is data bytes or an error message. When the sequence runs out, the socket closes without data and the reply is "Connection closed unexpectedly".
- A command that never settles is not modelled. `sendCommand` (main.js:806-829) sets no socket timeout, so a logger that accepts the connection but neither sends data nor closes it leaves the promise pending, and the retry loop and the tick with it. In the model every command gets a reply, and the termination of the retry loop and of a tick rests on that.
- The 2000 ms pause before each command is a ghost millisecond counter. Timers, `setInterval`, `setTimeout`, `clearTimeout` and the interleaving of promises are not modelled. A tick and the retry loop run as sequential steps.
- `declareOrUpdateObjects` (main.js:385-585) and every `setState`, `setObjectNotExistsAsync` and `this.log.*` call are host glue. Only the input arithmetic at main.js:479-512 is modelled, as `Inputs.DecodeInput`. The errors these calls could throw are not modelled, so neither are the catch blocks at main.js:93-96 and 109-112, which only they can reach.
- `logHexDump` and all logging are debug output only.
- The firmware version is kept as the real number `byte / 100`. JavaScript's number-to-string formatting of it is not modelled.
- `this.uvr_mode`, the raw mode byte kept on the adapter, is not a field of the model. The decoded mode string is.
- The adapter constructor's event bindings (main.js:17-33), `onStateChange` and `onUnload` (main.js:901-918) are host glue.
- The `can_frame_index`, IP address, port and poll interval come from the host's configuration. The frame index is a constructor parameter of type `Byte`, and the rest are not used by the model. The source puts the configured index into a `Uint8Array`, which wraps any value outside 0..255 modulo 256; the model takes only indexes already in 0..255 and does not model that wrap.
- The error text of an empty reply (`readUInt8` throwing a RangeError) is a fixed string. Node's exact message is not reproduced.
- `stateValues` is `None` both where the source stores an empty object and where it stores `undefined`.
- The "ON"/"OFF" and "active"/"inactive" strings are the datatypes `Switch` and `MeterStatus`.
- Record.HeatPower: the source's correction for a negative power tests a byte against 32767, so it never applies. The model keeps that dead branch as written and proves the power non-negative.
- The JSON/CMI transport has no code in `main.js`, so there is nothing to model for it.
