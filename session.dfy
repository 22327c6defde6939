/** The conversations the adapter holds with the device, as functions of the
    replies the device will give: which commands go out, in which order, and
    what comes back. `readDeviceInfo` (main.js:215-373), the frame request of
    `fetchStateValuesFromDevice` (main.js:597-631) and
    `readSystemConfiguration` (main.js:121-171). Each command consumes one
    reply, so the replies left after a conversation are the ones after its
    commands. */
module Session {
  import opened Wrappers
  import opened Bytes
  import opened Header
  import opened Retry
  import opened Record
  import opened Inputs

  /** A conversation's result and the commands it sent, in order. */
  datatype Exchange<T> = Exchange(result: Result<T>, commands: seq<seq<Byte>>)

  /** The command that asks for the current data of CAN frame `index`. */
  const ReadCurrentData: Byte := 0xAB

  function PollCommand(canFrameIndex: Byte): seq<Byte> {
    [ReadCurrentData, canFrameIndex]
  }

  function Repeat(command: seq<Byte>, n: nat): (s: seq<seq<Byte>>)
    ensures |s| == n && forall i | 0 <= i < n :: s[i] == command
  {
    seq(n, _ => command)
  }

  lemma RepeatStep(command: seq<Byte>, n: nat)
    ensures Repeat(command, n) + [command] == Repeat(command, n + 1)
  {
  }

  lemma AppendAssoc<T>(a: seq<T>, b: seq<T>, c: seq<T>)
    ensures a + b + c == a + (b + c)
  {
  }

  /** `readDeviceInfo`: the version request, the header through the retry loop,
      then the firmware and mode requests. The first failure ends the
      conversation: an unknown mode is rejected before the firmware request is
      sent, and an empty firmware reply before the mode request. */
  function ReadDeviceInfoSpec(pending: seq<Reply>): Exchange<DeviceInfo> {
    var version := Outcome(pending, 0);
    if version.Failure? then Exchange(Err(version.message), [[VersionRequest]])
    else
      var rest := HeaderStage(version.bytes, Drop(pending, 1));
      Exchange(rest.result, [[VersionRequest]] + rest.commands)
  }

  /** The header request through the retry loop and its decoding, then the
      remaining requests. */
  function HeaderStage(version: seq<Byte>, pending: seq<Reply>): Exchange<DeviceInfo> {
    var header := Fetch(pending);
    var sent := Repeat([HeaderRead], header.attempts);
    if header.result.Err? then Exchange(Err(header.result.error), sent)
    else
      FetchSpec(pending);
      var types := DecodeHeader(header.result.value);
      if types.Err? then Exchange(Err(types.error), sent)
      else
        var rest := FirmwareStage(version, types.value, Drop(pending, header.attempts));
        Exchange(rest.result, sent + rest.commands)
  }

  /** The firmware request, then the transmission-mode request. */
  function FirmwareStage(version: seq<Byte>, types: DeviceTypes, pending: seq<Reply>): Exchange<DeviceInfo> {
    var firmware := Outcome(pending, 0);
    if firmware.Failure? then Exchange(Err(firmware.message), [[FirmwareRequest]])
    else
      var fw := FirmwareVersion(firmware.bytes);
      if fw.Err? then Exchange(Err(fw.error), [[FirmwareRequest]])
      else
        var mode := Outcome(pending, 1);
        var sent := [[FirmwareRequest], [ModeRequest]];
        if mode.Failure? then Exchange(Err(mode.message), sent)
        else
          var tm := TransmissionMode(mode.bytes);
          if tm.Err? then Exchange(Err(tm.error), sent)
          else Exchange(Ok(DeviceInfo(types, ModuleId(version), fw.value, tm.value)), sent)
  }

  /** The frame request of `fetchStateValuesFromDevice`: the retry loop on
      [0xAB, index], then the frame guard. */
  function StateFrameSpec(pending: seq<Reply>, canFrameIndex: Byte): Exchange<seq<Byte>> {
    var f := Fetch(pending);
    var sent := Repeat(PollCommand(canFrameIndex), f.attempts);
    if f.result.Err? then Exchange(Err(f.result.error), sent)
    else Exchange(FrameGuard(f.result.value), sent)
  }

  /** What a successful `readSystemConfiguration` learns: the device
      information and the frame read right after it. */
  datatype Configured = Configured(info: DeviceInfo, frame: seq<Byte>)

  /** `readSystemConfiguration`: the device information, then one frame; it
      fails when either fails. */
  function ReadConfigurationSpec(pending: seq<Reply>, canFrameIndex: Byte): Exchange<Configured> {
    var info := ReadDeviceInfoSpec(pending);
    if info.result.Err? then Exchange(Err(info.result.error), info.commands)
    else
      var state := StateFrameSpec(Drop(pending, |info.commands|), canFrameIndex);
      var sent := info.commands + state.commands;
      if state.result.Err? then Exchange(Err(state.result.error), sent)
      else Exchange(Ok(Configured(info.result.value, state.result.value)), sent)
  }

  /** The units `readSystemConfiguration` derives from a frame's inputs. */
  function FrameUnits(frame: seq<Byte>): map<string, string>
    requires |frame| >= 33
  {
    UnitsOf(InputsUpTo(frame, 16))
  }

  /** Each of the sixteen inputs gets the unit named by the tag in bits 12-14
      of its word. */
  lemma FrameUnitsSpec(frame: seq<Byte>)
    requires |frame| >= 33
    ensures FrameUnits(frame).Keys == InputKeys(16)
    ensures forall n | 1 <= n <= 16 ::
      FrameUnits(frame)[InputKey(n)] == UnitOf(0x100 * (frame[2 * n] as int) + frame[2 * n - 1])
  {
    InputsOfFrame(frame);
  }

  /** `readDeviceInfo` sends the version request first and at most eight
      commands in all. The firmware request goes out only after a header of a
      known mode. When it succeeds, and exactly when, is stated by
      `ReadDeviceInfoSpecOk` and `ReadDeviceInfoSpecOkIff`. */
  lemma ReadDeviceInfoSpecProperties(pending: seq<Reply>)
    ensures var x := ReadDeviceInfoSpec(pending);
      && 1 <= |x.commands| <= 8
      && x.commands[0] == [VersionRequest]
      && (forall i | 1 <= i < |x.commands| && x.commands[i] == [FirmwareRequest] ::
            var h := Fetch(Drop(pending, 1)).result; h.Ok? && |h.value| > 1 && DecodeHeader(h.value).Ok?)
  {
    var x := ReadDeviceInfoSpec(pending);
    FetchSpec(Drop(pending, 1));
    var h := Fetch(Drop(pending, 1));
    if Outcome(pending, 0).Data? && (h.result.Err? || DecodeHeader(h.result.value).Err?) {
      forall i | 1 <= i < |x.commands|
        ensures x.commands[i] == [HeaderRead]
      {
      }
    }
  }

  /** On success, the device information is `DeviceInfoOf` of the four
      replies, and the commands are the version request, the header requests
      of the retry loop, the firmware request and the mode request. */
  lemma ReadDeviceInfoSpecOk(pending: seq<Reply>)
    requires ReadDeviceInfoSpec(pending).result.Ok?
    ensures var h := Fetch(Drop(pending, 1));
      && Outcome(pending, 0).Data?
      && h.result.Ok? && |h.result.value| > 1
      && Outcome(pending, 1 + h.attempts).Data?
      && Outcome(pending, 2 + h.attempts).Data?
      && ReadDeviceInfoSpec(pending).commands ==
           [[VersionRequest]] + Repeat([HeaderRead], h.attempts) + [[FirmwareRequest], [ModeRequest]]
      && ReadDeviceInfoSpec(pending).result ==
           DeviceInfoOf(Outcome(pending, 0).bytes, h.result.value,
                        Outcome(pending, 1 + h.attempts).bytes, Outcome(pending, 2 + h.attempts).bytes)
  {
    FetchSpec(Drop(pending, 1));
  }

  /** The converse of `ReadDeviceInfoSpecOk`: `readDeviceInfo` succeeds
      exactly when the version reply, an accepted header, the firmware reply
      and the mode reply all arrive and `DeviceInfoOf` accepts them. */
  lemma ReadDeviceInfoSpecOkIff(pending: seq<Reply>)
    ensures var h := Fetch(Drop(pending, 1));
      ReadDeviceInfoSpec(pending).result.Ok? <==>
        && Outcome(pending, 0).Data?
        && h.result.Ok? && |h.result.value| > 1
        && Outcome(pending, 1 + h.attempts).Data?
        && Outcome(pending, 2 + h.attempts).Data?
        && DeviceInfoOf(Outcome(pending, 0).bytes, h.result.value,
                        Outcome(pending, 1 + h.attempts).bytes, Outcome(pending, 2 + h.attempts).bytes).Ok?
  {
    var h := Fetch(Drop(pending, 1));
    FetchSpec(Drop(pending, 1));
    if ReadDeviceInfoSpec(pending).result.Ok? {
      ReadDeviceInfoSpecOk(pending);
    } else if Outcome(pending, 0).Data? && h.result.Ok? {
      DropOutcome(Drop(pending, 1), h.attempts, 0);
      DropOutcome(Drop(pending, 1), h.attempts, 1);
      DropOutcome(pending, 1, h.attempts);
      DropOutcome(pending, 1, h.attempts + 1);
    }
  }

  /** A frame request sends the poll command one to five times and, on
      success, yields the first 57 bytes of an accepted reply that starts with
      0x80. */
  lemma StateFrameSpecProperties(pending: seq<Reply>, canFrameIndex: Byte)
    ensures var x := StateFrameSpec(pending, canFrameIndex);
      && 1 <= |x.commands| <= MaxRetries
      && (forall i | 0 <= i < |x.commands| :: x.commands[i] == [ReadCurrentData, canFrameIndex])
      && (x.result.Ok? ==>
            var reply := Outcome(pending, |x.commands| - 1);
            && Accepted(reply) && |reply.bytes| >= FrameLength && reply.bytes[0] == FrameStart
            && x.result.value == reply.bytes[..FrameLength])
      && (x.result.Ok? <==> Fetch(pending).result.Ok? && FrameGuard(Fetch(pending).result.value).Ok?)
  {
    FetchSpec(pending);
  }

  /** `readSystemConfiguration` succeeds exactly when the device information
      and the frame after it both do; it then has sent the device-information
      commands followed by the poll commands. */
  lemma ReadConfigurationSpecProperties(pending: seq<Reply>, canFrameIndex: Byte)
    ensures var x := ReadConfigurationSpec(pending, canFrameIndex);
      var info := ReadDeviceInfoSpec(pending);
      && (x.result.Ok? <==>
            info.result.Ok? && StateFrameSpec(Drop(pending, |info.commands|), canFrameIndex).result.Ok?)
      && x.commands[..|info.commands|] == info.commands
      && (x.result.Ok? ==>
            && x.result.value.info == info.result.value
            && |x.result.value.frame| == FrameLength && x.result.value.frame[0] == FrameStart
            && |x.commands| > |info.commands|)
  {
    var info := ReadDeviceInfoSpec(pending);
    if info.result.Ok? {
      StateFrameSpecProperties(Drop(pending, |info.commands|), canFrameIndex);
    }
  }
}
