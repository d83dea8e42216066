/** The sync coordinator (`sync_device_args`): a per-address state machine
    that reacts to each decoded advertisement. A temperature or humidity
    reading from an address not yet handled either marks the address as
    handled (when it is configured to be omitted) or runs the clock protocol
    against it, marking it handled only when the protocol succeeds and
    reporting the failure otherwise.

    The shared set of handled devices and the log channel are the fields of
    `SyncSession`, updated one callback at a time; `Step` is the same
    transition on values, and the lemmas below are stated about it. */
module SyncCoordinator {
  import opened Base
  import opened Lib
  import opened Advertisement
  import opened ClockSync

  /** A call to the device's write operation, with the buffer handed over. */
  datatype Write = Write(address: u64, buffer: seq<u8>)

  /** The coordinator's shared state: the handled devices, the events sent
      on the log channel and the write calls issued. */
  datatype SyncState = SyncState(handled: set<u64>, log: seq<SyncLogKind>, writes: seq<Write>)

  const Initial: SyncState := SyncState({}, [], [])

  /** The address the coordinator acts on: only temperature and humidity
      readings qualify, since battery readings may come from other devices. */
  function SyncAddress(kind: AdvertisementKind): (a: Option<u64>)
    ensures a.Some? <==> kind.Temperature? || kind.Humidity?
    ensures a.Some? ==> a.value == kind.reading.address
  {
    match kind
    case Temperature(v) => Some(v.address)
    case Humidity(v) => Some(v.address)
    case _ => None
  }

  /** The device is configured to be skipped; a missing entry or an absent
      `omit` flag means it is not. */
  predicate IsOmit(config: map<u64, DeviceConfig>, address: u64)
    ensures IsOmit(config, address) ==> address in config
    ensures address in config && config[address].omit.None? ==> !IsOmit(config, address)
  {
    address in config && config[address].omit == Some(true)
  }

  /** The configured device's timezone hour. Which hour a timezone name
      stands for at the current moment comes from a timezone database; it is
      the parameter `zoneHour`. */
  function DeviceTimezone(config: map<u64, DeviceConfig>, address: u64, zoneHour: string -> i8): (r: Option<i8>)
    ensures r.Some? <==> address in config && config[address].timezone.Some?
    ensures r.Some? ==> r.value == zoneHour(config[address].timezone.value)
  {
    if address in config && config[address].timezone.Some? then Some(zoneHour(config[address].timezone.value))
    else None
  }

  /** The configured offset in seconds; none for an unconfigured device. */
  function DeviceOffset(config: map<u64, DeviceConfig>, address: u64): (r: Option<i32>)
    ensures address !in config ==> r.None?
    ensures address in config ==> r == config[address].offsetSeconds
  {
    if address in config then config[address].offsetSeconds else None
  }

  /** The write calls of one run, as seen from outside. */
  function WriteCalls(address: u64, written: Option<seq<u8>>): seq<Write> {
    if written.Some? then [Write(address, written.value)] else []
  }

  /** The coordinator's reaction to one decoded advertisement, given the
      device's answers and the current epoch should the protocol run. */
  function Step(s: SyncState, config: map<u64, DeviceConfig>, kind: AdvertisementKind,
                radio: Radio, now: u64, zoneHour: string -> i8): (r: SyncState)
    ensures s.handled <= r.handled
    ensures |s.log| <= |r.log| && r.log[..|s.log|] == s.log
    ensures |s.writes| <= |r.writes| && r.writes[..|s.writes|] == s.writes
  {
    match SyncAddress(kind)
    case None => s
    case Some(a) =>
      if a in s.handled then s
      else if IsOmit(config, a) then
        SyncState(s.handled + {a}, s.log + [Progress(a, ConfiguredAsOmit)], s.writes)
      else
        var t := ClockRun(a, DeviceTimezone(config, a, zoneHour), DeviceOffset(config, a), radio, now);
        match t.result
        case Ok(_) => SyncState(s.handled + {a}, s.log + t.events, s.writes + WriteCalls(a, t.written))
        case Err(reason) => SyncState(s.handled, s.log + t.events + [Error(a, reason)], s.writes + WriteCalls(a, t.written))
  }

  // ---------------------------------------------------------------------
  // Reading the log
  // ---------------------------------------------------------------------

  /** The event records that `address` was dealt with for good: its clock
      was set, or it was skipped as configured. */
  predicate IsResolution(e: SyncLogKind, address: u64) {
    e.Progress? && e.address == address && (e.log.SyncClock? || e.log.ConfiguredAsOmit?)
  }

  function Resolutions(log: seq<SyncLogKind>, address: u64): nat {
    if log == [] then 0
    else Resolutions(log[..|log| - 1], address) + (if IsResolution(log[|log| - 1], address) then 1 else 0)
  }

  /** The reasons carried by the error events of a log, in order. */
  function ErrorReasons(log: seq<SyncLogKind>): seq<string> {
    if log == [] then []
    else ErrorReasons(log[..|log| - 1]) + (if log[|log| - 1].Error? then [log[|log| - 1].reason] else [])
  }

  lemma {:induction false} ResolutionsAppend(log: seq<SyncLogKind>, more: seq<SyncLogKind>, address: u64)
    ensures Resolutions(log + more, address) == Resolutions(log, address) + Resolutions(more, address)
  {
    if more == [] {
      assert log + more == log;
    } else {
      ResolutionsAppend(log, more[..|more| - 1], address);
      assert (log + more)[..|log + more| - 1] == log + more[..|more| - 1];
    }
  }

  lemma {:induction false} ErrorReasonsAppend(log: seq<SyncLogKind>, more: seq<SyncLogKind>)
    ensures ErrorReasons(log + more) == ErrorReasons(log) + ErrorReasons(more)
  {
    if more == [] {
      assert log + more == log;
    } else {
      ErrorReasonsAppend(log, more[..|more| - 1]);
      assert (log + more)[..|log + more| - 1] == log + more[..|more| - 1];
    }
  }

  /** A protocol run logs one resolution for its own address exactly when
      it succeeds, and no error event. */
  lemma ClockRunLog(address: u64, tz: Option<i8>, offset: Option<i32>, radio: Radio, now: u64, b: u64)
    ensures var t := ClockRun(address, tz, offset, radio, now);
      && Resolutions(t.events, b) == (if t.result.Ok? && b == address then 1 else 0)
      && ErrorReasons(t.events) == []
  {
    StageEventsLog(address, 1, b);
    StageEventsLog(address, 2, b);
    StageEventsLog(address, 3, b);
    if radio.connect && ServiceFailure(radio).None? && CharacteristicFailure(radio).None? {
      var rest := TimeAndWrite(address, tz, offset, radio.write, now);
      TimeAndWriteLog(address, tz, offset, radio.write, now, b);
      ResolutionsAppend(StageEvents(address, 3), rest.events, b);
      ErrorReasonsAppend(StageEvents(address, 3), rest.events);
    }
  }

  lemma StageEventsLog(address: u64, n: nat, b: u64)
    requires n <= 3
    ensures Resolutions(StageEvents(address, n), b) == 0
    ensures ErrorReasons(StageEvents(address, n)) == []
  {
    NoResolutions(StageEvents(address, n), b);
    NoErrorReasons(StageEvents(address, n));
  }

  lemma TimeAndWriteLog(address: u64, tz: Option<i8>, offset: Option<i32>, write: bool, now: u64, b: u64)
    ensures var t := TimeAndWrite(address, tz, offset, write, now);
      && Resolutions(t.events, b) == (if write && b == address then 1 else 0)
      && ErrorReasons(t.events) == []
  {
    var t := TimeAndWrite(address, tz, offset, write, now);
    TimeAndWriteEvents(address, tz, offset, write, now);
    NoErrorReasons(t.events);
    if write {
      NoResolutions(t.events[..|t.events| - 1], b);
    } else {
      NoResolutions(t.events, b);
    }
  }

  lemma {:induction false} NoResolutions(log: seq<SyncLogKind>, address: u64)
    requires forall k | 0 <= k < |log| :: !IsResolution(log[k], address)
    ensures Resolutions(log, address) == 0
  {
    if log != [] {
      NoResolutions(log[..|log| - 1], address);
    }
  }

  lemma {:induction false} NoErrorReasons(log: seq<SyncLogKind>)
    requires forall k | 0 <= k < |log| :: log[k].Progress?
    ensures ErrorReasons(log) == []
  {
    if log != [] {
      NoErrorReasons(log[..|log| - 1]);
    }
  }

  // ---------------------------------------------------------------------
  // What one step promises
  // ---------------------------------------------------------------------

  /** Only a temperature or humidity reading triggers anything, and a
      handled address is left alone: no event, no protocol run, the set
      unchanged. */
  lemma StepNoOp(s: SyncState, config: map<u64, DeviceConfig>, kind: AdvertisementKind,
                 radio: Radio, now: u64, zoneHour: string -> i8)
    requires SyncAddress(kind).None? || SyncAddress(kind).value in s.handled
    ensures Step(s, config, kind, radio, now, zoneHour) == s
  {
  }

  /** A reading from an unhandled address configured as omitted marks it
      handled with exactly one progress event, and never contacts the
      device. */
  lemma StepOmit(s: SyncState, config: map<u64, DeviceConfig>, kind: AdvertisementKind,
                 radio: Radio, now: u64, zoneHour: string -> i8)
    requires SyncAddress(kind).Some? && SyncAddress(kind).value !in s.handled
    requires IsOmit(config, kind.reading.address)
    ensures var r := Step(s, config, kind, radio, now, zoneHour);
      && r.handled == s.handled + {kind.reading.address}
      && r.log[|s.log|..] == [Progress(kind.reading.address, ConfiguredAsOmit)]
      && r.writes == s.writes
  {
  }

  /** A reading from an unhandled address that is not omitted runs the
      protocol: the address becomes handled exactly when no step fails;
      otherwise the set is unchanged and exactly one error event, carrying
      the first failing step's reason, is added. Only this address's write
      calls are issued. */
  lemma StepRunsProtocol(s: SyncState, config: map<u64, DeviceConfig>, kind: AdvertisementKind,
                         radio: Radio, now: u64, zoneHour: string -> i8)
    requires SyncAddress(kind).Some? && SyncAddress(kind).value !in s.handled
    requires !IsOmit(config, kind.reading.address)
    ensures var a := kind.reading.address;
      var r := Step(s, config, kind, radio, now, zoneHour);
      match FirstFailure(StepFailures(radio))
      case None =>
        && r.handled == s.handled + {a}
        && ErrorReasons(r.log[|s.log|..]) == []
        && |r.writes| == |s.writes| + 1 && r.writes[|s.writes|].address == a
      case Some((_, reason)) =>
        && r.handled == s.handled
        && ErrorReasons(r.log[|s.log|..]) == [reason]
        && forall k | |s.writes| <= k < |r.writes| :: r.writes[k].address == a
  {
    var a := kind.reading.address;
    var tz, offset := DeviceTimezone(config, a, zoneHour), DeviceOffset(config, a);
    var t := ClockRun(a, tz, offset, radio, now);
    var r := Step(s, config, kind, radio, now, zoneHour);
    ClockRunStopsAtFirstFailure(a, tz, offset, radio, now);
    ClockRunLog(a, tz, offset, radio, now, a);
    if t.result.Ok? {
      assert r.log[|s.log|..] == t.events;
    } else {
      assert r.log[|s.log|..] == t.events + [Error(a, t.result.error)];
      ErrorReasonsAppend(t.events, [Error(a, t.result.error)]);
      assert ErrorReasons([Error(a, t.result.error)]) == [t.result.error];
    }
  }

  /** The same reading delivered twice: once the first delivery has
      resolved the address (skipped as configured, or synced), the second
      changes nothing, so the protocol runs at most once. */
  lemma RepeatedReadingRunsOnce(s: SyncState, config: map<u64, DeviceConfig>, kind: AdvertisementKind,
                                first: Radio, second: Radio, now: u64, later: u64, zoneHour: string -> i8)
    requires SyncAddress(kind).Some? && SyncAddress(kind).value !in s.handled
    requires IsOmit(config, kind.reading.address) || FirstFailure(StepFailures(first)).None?
    ensures var once := Step(s, config, kind, first, now, zoneHour);
      && kind.reading.address in once.handled
      && Step(once, config, kind, second, later, zoneHour) == once
  {
    if !IsOmit(config, kind.reading.address) {
      StepRunsProtocol(s, config, kind, first, now, zoneHour);
    }
  }

  // ---------------------------------------------------------------------
  // Exactly once, over any sequence of callbacks
  // ---------------------------------------------------------------------

  /** Every handled address has been resolved exactly once in the log, and
      no other address has been resolved. */
  predicate Consistent(s: SyncState) {
    forall a: u64 :: Resolutions(s.log, a) == (if a in s.handled then 1 else 0)
  }

  lemma StepPreservesConsistent(s: SyncState, config: map<u64, DeviceConfig>, kind: AdvertisementKind,
                                radio: Radio, now: u64, zoneHour: string -> i8)
    requires Consistent(s)
    ensures Consistent(Step(s, config, kind, radio, now, zoneHour))
  {
    var r := Step(s, config, kind, radio, now, zoneHour);
    forall b: u64 ensures Resolutions(r.log, b) == (if b in r.handled then 1 else 0) {
      StepResolutions(s, config, kind, radio, now, zoneHour, b);
      assert Resolutions(s.log, b) == (if b in s.handled then 1 else 0);
    }
  }

  /** A step adds one resolution event for an address exactly when it
      moves that address into the handled set, and none otherwise. */
  predicate StepAddsResolution(s: SyncState, r: SyncState, b: u64) {
    Resolutions(r.log, b) == Resolutions(s.log, b) + (if b in r.handled && b !in s.handled then 1 else 0)
  }

  lemma StepResolutions(s: SyncState, config: map<u64, DeviceConfig>, kind: AdvertisementKind,
                        radio: Radio, now: u64, zoneHour: string -> i8, b: u64)
    ensures StepAddsResolution(s, Step(s, config, kind, radio, now, zoneHour), b)
  {
    if SyncAddress(kind).Some? && kind.reading.address !in s.handled {
      var a := kind.reading.address;
      if IsOmit(config, a) {
        OmitResolutions(s.log, a, b);
      } else {
        RunResolutions(s.log, a, DeviceTimezone(config, a, zoneHour), DeviceOffset(config, a), radio, now, b);
      }
    }
  }

  lemma OmitResolutions(log: seq<SyncLogKind>, a: u64, b: u64)
    ensures Resolutions(log + [Progress(a, ConfiguredAsOmit)], b) == Resolutions(log, b) + (if b == a then 1 else 0)
  {
    ResolutionsAppend(log, [Progress(a, ConfiguredAsOmit)], b);
    assert [Progress(a, ConfiguredAsOmit)][..0] == [];
  }

  /** The events one protocol run appends, its error event included,
      resolve its address exactly when the run succeeds. */
  lemma RunResolutions(log: seq<SyncLogKind>, a: u64, tz: Option<i8>, offset: Option<i32>, radio: Radio, now: u64, b: u64)
    ensures var t := ClockRun(a, tz, offset, radio, now);
      && (t.result.Ok? ==> Resolutions(log + t.events, b) == Resolutions(log, b) + (if b == a then 1 else 0))
      && (t.result.Err? ==> Resolutions(log + t.events + [Error(a, t.result.error)], b) == Resolutions(log, b))
  {
    var t := ClockRun(a, tz, offset, radio, now);
    ClockRunLog(a, tz, offset, radio, now, b);
    ResolutionsAppend(log, t.events, b);
    if t.result.Err? {
      ResolutionsAppend(log + t.events, [Error(a, t.result.error)], b);
      assert [Error(a, t.result.error)][..0] == [];
    }
  }

  /** One callback: the decoded advertisement, the device's answers should
      the protocol run, and the epoch at that moment. */
  datatype Callback = Callback(kind: AdvertisementKind, radio: Radio, now: u64)

  function Steps(s: SyncState, config: map<u64, DeviceConfig>, callbacks: seq<Callback>, zoneHour: string -> i8): SyncState
  {
    if callbacks == [] then s
    else
      var c := callbacks[|callbacks| - 1];
      Step(Steps(s, config, callbacks[..|callbacks| - 1], zoneHour), config, c.kind, c.radio, c.now, zoneHour)
  }

  /** Whatever advertisements arrive and however the devices answer, each
      address is synced or skipped at most once, and exactly once when it is
      in the handled set. */
  lemma {:induction false} ResolvedExactlyOnce(config: map<u64, DeviceConfig>, callbacks: seq<Callback>,
                                               zoneHour: string -> i8, a: u64)
    ensures var s := Steps(Initial, config, callbacks, zoneHour);
      Resolutions(s.log, a) == (if a in s.handled then 1 else 0)
  {
    ConsistentSteps(config, callbacks, zoneHour);
  }

  lemma {:induction false} ConsistentSteps(config: map<u64, DeviceConfig>, callbacks: seq<Callback>, zoneHour: string -> i8)
    ensures Consistent(Steps(Initial, config, callbacks, zoneHour))
  {
    if callbacks != [] {
      var c := callbacks[|callbacks| - 1];
      ConsistentSteps(config, callbacks[..|callbacks| - 1], zoneHour);
      StepPreservesConsistent(Steps(Initial, config, callbacks[..|callbacks| - 1], zoneHour),
                              config, c.kind, c.radio, c.now, zoneHour);
    }
  }

  // ---------------------------------------------------------------------
  // The imperative coordinator
  // ---------------------------------------------------------------------

  /** The handled-device set and the log channel shared by the advertisement
      callbacks, and the write calls issued to devices. */
  class SyncSession {
    var handled: set<u64>
    var log: seq<SyncLogKind>
    var writes: seq<Write>

    function State(): SyncState
      reads this
    {
      SyncState(handled, log, writes)
    }

    constructor()
      ensures State() == Initial
    {
      handled := {};
      log := [];
      writes := [];
    }

    /** Sends one progress event for `address`. */
    method LogProgress(address: u64, message: Message)
      modifies this`log
      ensures log == old(log) + [Progress(address, message)]
    {
      log := log + [Progress(address, message)];
    }

    /** Runs the clock protocol against `address`, logging each step before
        attempting it and stopping at the first failure. */
    method SyncXiaomiClock(address: u64, timezoneHour: Option<i8>, offsetSeconds: Option<i32>, radio: Radio, now: u64)
      returns (result: Result<(), string>)
      modifies this`log, this`writes
      ensures var t := ClockRun(address, timezoneHour, offsetSeconds, radio, now);
        && result == t.result
        && log == old(log) + t.events
        && writes == old(writes) + WriteCalls(address, t.written)
    {
      LogProgress(address, Connecting);
      if !radio.connect {
        return Err("Failed to connect");
      }

      LogProgress(address, QueryingService(LYWSD02_SERVICE_UUID));
      match radio.services {
        case CallFailed =>
          return Err("Failed to query service");
        case Completed(success, count) =>
          if !success {
            return Err("Communication error");
          }
          if count == 0 {
            return Err("No services returned");
          }
      }

      LogProgress(address, QueryingCharacteristic(LYWSD02_CHARACTERISTIC_TIME_UUID));
      match radio.characteristics {
        case CallFailed =>
          return Err("Failed to query characteristic");
        case Completed(success, count) =>
          if !success {
            return Err("Communication error");
          }
          if count == 0 {
            return Err("No characteristic returned");
          }
      }

      result := WriteTime(address, timezoneHour, offsetSeconds, radio.write, now);
    }

    /** The end of the protocol, once the time characteristic is found:
        computes the time to write, hands the buffer to the write call and
        reports the time written. */
    method WriteTime(address: u64, timezoneHour: Option<i8>, offsetSeconds: Option<i32>, write: bool, now: u64)
      returns (result: Result<(), string>)
      modifies this`log, this`writes
      ensures var t := TimeAndWrite(address, timezoneHour, offsetSeconds, write, now);
        && result == t.result
        && log == old(log) + t.events
        && writes == old(writes) + WriteCalls(address, t.written)
    {
      var epochTime: u64 := now;
      var timezone: i8 := DEFAULT_TIMEZONE;
      if timezoneHour.Some? {
        var tz := timezoneHour.value;
        if tz >= -24 && tz <= 24 {
          timezone := tz;
        }
      }

      if offsetSeconds.Some? {
        var diff := offsetSeconds.value;
        var temp := AsI64(epochTime);
        temp := WrapI64(temp + diff);
        if temp > 0 {
          epochTime := temp;
          LogProgress(address, AdjustClock(diff));
        }
      }

      var buffer := WriteBuffer(epochTime, timezone);
      writes := writes + [Write(address, buffer)];
      if !write {
        return Err("Failed to sync time");
      }

      LogProgress(address, SyncClock(epochTime, timezone));
      return Ok(());
    }

    /** The callback for one received advertisement. */
    method SyncDeviceArgs(config: map<u64, DeviceConfig>, args: Option<ReceivedEventArgs>,
                          radio: Radio, now: u64, zoneHour: string -> i8)
      requires DecodeAdvertisement(args).Ok?
      modifies this
      ensures State() == Step(old(State()), config, DecodeAdvertisement(args).value, radio, now, zoneHour)
      ensures Consistent(old(State())) ==> Consistent(State())
    {
      ghost var before := State();
      var address := SyncAddress(DecodeAdvertisement(args).value);
      if address.Some? {
        var a := address.value;
        if a in handled {
          // already synced or skipped: nothing to do
        } else if IsOmit(config, a) {
          handled := handled + {a};
          LogProgress(a, ConfiguredAsOmit);
        } else {
          var timezoneHour: Option<i8> := None;
          var offsetSeconds: Option<i32> := None;
          if a in config {
            timezoneHour := DeviceTimezone(config, a, zoneHour);
            offsetSeconds := config[a].offsetSeconds;
          }
          var r := SyncXiaomiClock(a, timezoneHour, offsetSeconds, radio, now);
          match r {
            case Ok(_) =>
              handled := handled + {a};
            case Err(msg) =>
              log := log + [Error(a, msg)];
          }
        }
      }
      if Consistent(before) {
        StepPreservesConsistent(before, config, DecodeAdvertisement(args).value, radio, now, zoneHour);
      }
    }
  }
}
