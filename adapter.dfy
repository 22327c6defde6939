/** The adapter object (main.js:17-114, 121-171, 215-373, 597-679, 797-830): the
    `initialized` flag, the remembered system configuration and the
    `info.connection` state, updated by the polling tick. The device is the
    sequence of replies it will give; every command takes the next one after a
    two-second pause. */
module Adapter {
  import opened Wrappers
  import opened Bytes
  import opened Inputs
  import opened Header
  import opened Retry
  import opened Record
  import opened Session

  /** `this.systemConfiguration`: `stateValues` and `deviceInfo` are `None`
      where the source holds an empty object or `undefined`. */
  datatype SystemConfiguration = SystemConfiguration(
    success: bool,
    stateValues: Option<UvrRecord>,
    deviceInfo: Option<DeviceInfo>,
    units: map<string, string>)

  /** The configuration a failed `readSystemConfiguration` returns, which is
      also the one `onReady` starts from. */
  const Failed: SystemConfiguration := SystemConfiguration(false, None, None, map[])

  /** `values` is what the frame request found: the record of the frame, or
      nothing when the request failed. */
  predicate Decoded(frame: Result<seq<Byte>>, values: Option<UvrRecord>) {
    if frame.Ok? then |frame.value| >= 56 && values == Some(RecordOf(frame.value))
    else values == None
  }

  /** `config` is what `readSystemConfiguration` returns after the
      conversation `x`. */
  predicate ConfiguredBy(x: Exchange<Configured>, config: SystemConfiguration) {
    if x.result.Err? then config == Failed
    else
      && |x.result.value.frame| >= 56
      && config == SystemConfiguration(true, Some(RecordOf(x.result.value.frame)), Some(x.result.value.info),
                                       FrameUnits(x.result.value.frame))
  }

  class Adapter {
    /** The replies the device will give to the next commands. */
    var replies: seq<Reply>
    /** The commands written to the device so far. */
    ghost var sent: seq<seq<Byte>>
    /** Milliseconds spent in the pause before each command. */
    ghost var clockMs: nat

    /** `this.config.can_frame_index`. */
    const canFrameIndex: Byte
    var initialized: bool
    var config: SystemConfiguration
    /** The `info.connection` state. */
    var connection: bool

    ghost predicate Valid()
      reads this
    {
      && clockMs == CommandSpacingMs * |sent|
      && connection == config.success
      && (initialized ==> config.success && config.deviceInfo.Some?)
    }

    /** `onReady`: not initialized, the empty configuration, nothing sent. */
    constructor (script: seq<Reply>, canFrameIndex: Byte)
      ensures Valid()
      ensures replies == script && sent == [] && clockMs == 0
      ensures this.canFrameIndex == canFrameIndex
      ensures !initialized && config == Failed && !connection
    {
      this.canFrameIndex := canFrameIndex;
      replies := script;
      sent := [];
      clockMs := 0;
      initialized := false;
      config := Failed;
      connection := false;
    }

    /** `sendCommand`: wait two seconds, write the command, take the next
        reply. */
    method SendCommand(command: seq<Byte>) returns (reply: Reply)
      requires Valid()
      modifies this
      ensures Valid()
      ensures reply == Outcome(old(replies), 0)
      ensures replies == Drop(old(replies), 1)
      ensures sent == old(sent) + [command]
      ensures clockMs == old(clockMs) + CommandSpacingMs
      ensures initialized == old(initialized) && config == old(config) && connection == old(connection)
    {
      reply := Outcome(replies, 0);
      replies := Drop(replies, 1);
      sent := sent + [command];
      clockMs := clockMs + CommandSpacingMs;
    }

    /** `fetchDataBlockFromDevice`: up to five attempts, each one command; the
        first reply longer than one byte is the result. */
    method FetchDataBlock(command: seq<Byte>) returns (r: Result<seq<Byte>>)
      requires Valid()
      modifies this
      ensures Valid()
      ensures var f := Fetch(old(replies));
        && r == f.result
        && replies == Drop(old(replies), f.attempts)
        && sent == old(sent) + Repeat(command, f.attempts)
      ensures initialized == old(initialized) && config == old(config) && connection == old(connection)
    {
      var attempt := 0;
      r := Err(MaxRetriesReached);
      while attempt < MaxRetries
        invariant 0 <= attempt <= MaxRetries && Valid()
        invariant Fetch(old(replies)) == FetchFrom(old(replies), attempt)
        invariant replies == Drop(old(replies), attempt)
        invariant sent == old(sent) + Repeat(command, attempt)
        invariant r == Err(MaxRetriesReached)
        invariant initialized == old(initialized) && config == old(config) && connection == old(connection)
      {
        attempt := attempt + 1;
        DropOutcome(old(replies), attempt - 1, 0);
        DropDrop(old(replies), attempt - 1, 1);
        RepeatStep(command, attempt - 1);
        AppendAssoc(old(sent), Repeat(command, attempt - 1), [command]);
        var reply := SendCommand(command);
        if reply.Data? && |reply.bytes| > 1 {
          return Ok(reply.bytes);
        }
      }
    }

    /** `readDeviceInfo`: the version request, then the rest. */
    method ReadDeviceInfo() returns (r: Result<DeviceInfo>)
      requires Valid()
      modifies this
      ensures Valid()
      ensures var x := ReadDeviceInfoSpec(old(replies));
        && r == x.result
        && replies == Drop(old(replies), |x.commands|)
        && sent == old(sent) + x.commands
      ensures initialized == old(initialized) && config == old(config) && connection == old(connection)
    {
      ghost var p := replies;
      var version := SendCommand([VersionRequest]);
      if version.Failure? {
        return Err(version.message);
      }
      ghost var rest := HeaderStage(version.bytes, Drop(p, 1));
      assert ReadDeviceInfoSpec(p) == Exchange(rest.result, [[VersionRequest]] + rest.commands);
      ghost var before := sent;
      r := ReadHeader(version.bytes);
      DropDrop(p, 1, |rest.commands|);
      AppendAssoc(old(sent), [[VersionRequest]], rest.commands);
      assert r == ReadDeviceInfoSpec(p).result;
      assert replies == Drop(p, |ReadDeviceInfoSpec(p).commands|);
      assert sent == before + rest.commands;
    }

    /** The header request of `readDeviceInfo` and its decoding. */
    method ReadHeader(version: seq<Byte>) returns (r: Result<DeviceInfo>)
      requires Valid()
      modifies this
      ensures Valid()
      ensures var x := HeaderStage(version, old(replies));
        && r == x.result
        && replies == Drop(old(replies), |x.commands|)
        && sent == old(sent) + x.commands
      ensures initialized == old(initialized) && config == old(config) && connection == old(connection)
    {
      ghost var p := replies;
      var header := FetchDataBlock([HeaderRead]);
      if header.Err? {
        return Err(header.error);
      }
      FetchSpec(p);
      var types := DecodeHeader(header.value);
      if types.Err? {
        return Err(types.error);
      }
      ghost var n := Fetch(p).attempts;
      ghost var rest := FirmwareStage(version, types.value, Drop(p, n));
      assert HeaderStage(version, p) == Exchange(rest.result, Repeat([HeaderRead], n) + rest.commands);
      ghost var before := sent;
      r := ReadFirmware(version, types.value);
      DropDrop(p, n, |rest.commands|);
      AppendAssoc(old(sent), Repeat([HeaderRead], n), rest.commands);
      assert r == HeaderStage(version, p).result;
      assert replies == Drop(p, |HeaderStage(version, p).commands|);
      assert sent == before + rest.commands;
    }

    /** The firmware and transmission-mode requests of `readDeviceInfo`. */
    method ReadFirmware(version: seq<Byte>, types: DeviceTypes) returns (r: Result<DeviceInfo>)
      requires Valid()
      modifies this
      ensures Valid()
      ensures var x := FirmwareStage(version, types, old(replies));
        && r == x.result
        && replies == Drop(old(replies), |x.commands|)
        && sent == old(sent) + x.commands
      ensures initialized == old(initialized) && config == old(config) && connection == old(connection)
    {
      ghost var p := replies;
      var firmware := SendCommand([FirmwareRequest]);
      if firmware.Failure? {
        return Err(firmware.message);
      }
      var fw := FirmwareVersion(firmware.bytes);
      if fw.Err? {
        return Err(fw.error);
      }
      DropOutcome(p, 1, 0);
      var mode := SendCommand([ModeRequest]);
      DropDrop(p, 1, 1);
      if mode.Failure? {
        return Err(mode.message);
      }
      var tm := TransmissionMode(mode.bytes);
      if tm.Err? {
        return Err(tm.error);
      }
      r := Ok(DeviceInfo(types, ModuleId(version), fw.value, tm.value));
    }

    /** `fetchStateValuesFromDevice`: one frame request for the configured CAN
        frame, then the record; any failure yields nothing. */
    method FetchStateValues() returns (values: Option<UvrRecord>)
      requires Valid()
      modifies this
      ensures Valid()
      ensures var x := StateFrameSpec(old(replies), canFrameIndex);
        && Decoded(x.result, values)
        && replies == Drop(old(replies), |x.commands|)
        && sent == old(sent) + x.commands
      ensures initialized == old(initialized) && config == old(config) && connection == old(connection)
    {
      var data := FetchDataBlock(PollCommand(canFrameIndex));
      if data.Err? {
        return None;
      }
      var response := FrameGuard(data.value);
      if response.Err? {
        return None;
      }
      var rec := ParseUvrRecord(response.value);
      values := Some(rec);
    }

    /** `readSystemConfiguration`: the device information, then the state
        values and the unit of every input; a failure of either gives the
        failed configuration. */
    method ReadSystemConfiguration() returns (result: SystemConfiguration)
      requires Valid()
      modifies this
      ensures Valid()
      ensures var x := ReadConfigurationSpec(old(replies), canFrameIndex);
        && ConfiguredBy(x, result)
        && replies == Drop(old(replies), |x.commands|)
        && sent == old(sent) + x.commands
      ensures initialized == old(initialized) && config == old(config) && connection == old(connection)
    {
      ghost var p := replies;
      ghost var before := sent;
      var info := ReadDeviceInfo();
      ghost var infoSpec := ReadDeviceInfoSpec(p);
      if info.Err? {
        return Failed;
      }
      ghost var n := |infoSpec.commands|;
      ghost var state := StateFrameSpec(Drop(p, n), canFrameIndex);
      ghost var x := ReadConfigurationSpec(p, canFrameIndex);
      assert x.commands == infoSpec.commands + state.commands;
      var values := FetchStateValues();
      DropDrop(p, n, |state.commands|);
      AppendAssoc(before, infoSpec.commands, state.commands);
      assert replies == Drop(p, |x.commands|);
      assert sent == before + x.commands;
      if values.None? {
        return Failed;
      }
      var rec := values.value;
      var units := UnitsOf(rec.inputs);
      assert x.result.value.frame == state.result.value;
      result := SystemConfiguration(true, values, Some(info.value), units);
    }

    /** The first block of a polling tick: read the system configuration,
        publish its success as the connection state and become initialized on
        success. */
    method Initialize()
      requires Valid() && !initialized
      modifies this
      ensures Valid()
      ensures var x := ReadConfigurationSpec(old(replies), canFrameIndex);
        && ConfiguredBy(x, config)
        && (initialized <==> x.result.Ok?)
        && replies == Drop(old(replies), |x.commands|)
        && sent == old(sent) + x.commands
    {
      ghost var x := ReadConfigurationSpec(replies, canFrameIndex);
      config := ReadSystemConfiguration();
      assert config.success <==> x.result.Ok?;
      assert config.success ==> config.deviceInfo.Some?;
      connection := config.success;
      if config.success {
        initialized := true;
      }
    }

    /** The second block of a polling tick: fetch the state values into the
        configuration, which keeps its success and hence the connection
        state. */
    method Poll()
      requires Valid() && initialized
      modifies this
      ensures Valid() && initialized
      ensures var x := StateFrameSpec(old(replies), canFrameIndex);
        && config == old(config).(stateValues := config.stateValues)
        && Decoded(x.result, config.stateValues)
        && replies == Drop(old(replies), |x.commands|)
        && sent == old(sent) + x.commands
    {
      var values := FetchStateValues();
      config := config.(stateValues := values);
      connection := config.success;
    }

    /** One tick of the polling interval (`startPolling`): an adapter that is
        not yet initialized first tries to initialize; an initialized adapter,
        including one initialized in this very tick, then polls. Once
        initialized, the device information and the units never change again
        and the connection state stays true. */
    method Tick()
      requires Valid()
      modifies this
      ensures Valid()
      ensures old(initialized) ==> initialized
      ensures !old(initialized) ==>
        var x := ReadConfigurationSpec(old(replies), canFrameIndex);
        && (initialized <==> x.result.Ok?)
        && (x.result.Err? ==>
              && config == Failed
              && replies == Drop(old(replies), |x.commands|)
              && sent == old(sent) + x.commands)
        && (x.result.Ok? ==>
              var poll := StateFrameSpec(Drop(old(replies), |x.commands|), canFrameIndex);
              && config.deviceInfo == Some(x.result.value.info)
              && config.units == FrameUnits(x.result.value.frame)
              && Decoded(poll.result, config.stateValues)
              && replies == Drop(old(replies), |x.commands| + |poll.commands|)
              && sent == old(sent) + x.commands + poll.commands)
      ensures old(initialized) ==>
        var poll := StateFrameSpec(old(replies), canFrameIndex);
        && config == old(config).(stateValues := config.stateValues)
        && Decoded(poll.result, config.stateValues)
        && replies == Drop(old(replies), |poll.commands|)
        && sent == old(sent) + poll.commands
    {
      ghost var before := replies;
      ghost var wasInitialized := initialized;
      if !initialized {
        Initialize();
      }
      ghost var afterInit := replies;
      if initialized {
        Poll();
      }
      if !wasInitialized && initialized {
        var x := ReadConfigurationSpec(before, canFrameIndex);
        var poll := StateFrameSpec(afterInit, canFrameIndex);
        DropDrop(before, |x.commands|, |poll.commands|);
      }
    }
  }
}
