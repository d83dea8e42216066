/** The clock synchronisation protocol run against one LYWSD02 device
    (`sync_xiaomi_clock`): connect, look up the clock service, look up the
    time characteristic, compute the time to write, write it. Each step
    logs a progress event before it is attempted, and the first step that
    fails ends the run with that step's reason.

    The calls into the Bluetooth stack are not modelled; their answers are
    the `Radio` value, and the current epoch is a parameter. This module
    holds the pure parts: the log vocabulary, the time computation, the
    5-byte write buffer and `ClockRun`, the trace a run produces, which the
    imperative protocol in `SyncCoordinator` follows step by step. */
module ClockSync {
  import opened Base
  import Lib

  /** EBE0CCB0-7A0A-4B0C-8A1A-6FF2997DA3A6 */
  const LYWSD02_SERVICE_UUID: Guid := 0xEBE0CCB0_7A0A_4B0C_8A1A_6FF2997DA3A6
  /** EBE0CCB7-7A0A-4B0C-8A1A-6FF2997DA3A6 */
  const LYWSD02_CHARACTERISTIC_TIME_UUID: Guid := 0xEBE0CCB7_7A0A_4B0C_8A1A_6FF2997DA3A6

  /** The timezone written when none is configured or the configured one is
      out of range (Korean standard time). */
  const DEFAULT_TIMEZONE: i8 := 9

  const I64_BOUND: int := 0x8000_0000_0000_0000

  /** The progress messages; the text rendering of the numeric ones is not
      modelled, only what they carry. */
  datatype Message =
    | Connecting
    | QueryingService(serviceUuid: Guid)
    | QueryingCharacteristic(characteristicUuid: Guid)
    | AdjustClock(offsetSeconds: i32)
    | SyncClock(epoch: u64, timezone: i8)
    | ConfiguredAsOmit

  /** One event sent from the callback thread to the thread that prints. */
  datatype SyncLogKind =
    | Progress(address: u64, log: Message)
    | Error(address: u64, reason: string)

  /** The answer to a service or characteristic query: the call itself
      failed, or it completed with a communication status and some number
      of matching results. */
  datatype Lookup = CallFailed | Completed(success: bool, count: nat)

  /** How the device session answers each call the protocol makes. `write`
      is whether the write call returned without error; the communication
      status it returns is not inspected. */
  datatype Radio = Radio(connect: bool, services: Lookup, characteristics: Lookup, write: bool)

  /** What one run of the protocol does: the progress events it logs, the
      buffer it hands to the write call if it gets that far, and its
      result. */
  datatype ClockTrace = ClockTrace(events: seq<SyncLogKind>, written: Option<seq<u8>>, result: Result<(), string>)

  // ---------------------------------------------------------------------
  // Time computation
  // ---------------------------------------------------------------------

  /** The timezone written: the supplied hour when it lies in [-24, 24],
      otherwise (also when none is supplied) the default. */
  function ResolveTimezone(tz: Option<i8>): (t: i8)
    ensures -24 <= t <= 24
    ensures tz.Some? && -24 <= tz.value <= 24 ==> t == tz.value
    ensures tz.None? || !(-24 <= tz.value <= 24) ==> t == DEFAULT_TIMEZONE
  {
    var timezone := DEFAULT_TIMEZONE;
    match tz
    case Some(h) => if h >= -24 && h <= 24 then h else timezone
    case None => timezone
  }

  /** `x as i64` for a u64: the same 64 bits read as two's complement. */
  function AsI64(x: u64): (r: int)
    ensures -I64_BOUND <= r < I64_BOUND
    ensures (r - x) % U64_BOUND == 0
    ensures x < I64_BOUND ==> r == x
  {
    if x < I64_BOUND then x else x - U64_BOUND
  }

  /** The i64 addition, wrapping on overflow as a release build does. */
  function WrapI64(x: int): (r: int)
    ensures -I64_BOUND <= r < I64_BOUND
    ensures (r - x) % U64_BOUND == 0
    ensures -I64_BOUND <= x < I64_BOUND ==> r == x
  {
    (x + I64_BOUND) % U64_BOUND - I64_BOUND
  }

  datatype Adjusted = Adjusted(epoch: u64, committed: bool)

  /** The offset adjustment: `epoch + offset` computed as i64 is committed
      only when it is greater than zero; otherwise the epoch stays as it was.
      For every epoch a clock can report (below 2^63 - 2^31) this is plain
      addition. */
  function AdjustEpoch(epoch: u64, offset: Option<i32>): (a: Adjusted)
    ensures !a.committed ==> a.epoch == epoch
    ensures a.committed ==> offset.Some? && a.epoch > 0
    ensures epoch < I64_BOUND - 0x8000_0000 ==>
      && (a.committed <==> offset.Some? && epoch + offset.value > 0)
      && (a.committed ==> a.epoch == epoch + offset.value)
  {
    match offset
    case None => Adjusted(epoch, false)
    case Some(diff) =>
      var temp := WrapI64(AsI64(epoch) + diff);
      if temp > 0 then Adjusted(temp, true) else Adjusted(epoch, false)
  }

  /** An offset of +120 s moves epoch 1000 to 1120; an offset of -2000 s
      would make it negative, so 1000 is kept. Hour 25 falls back to the
      default, while -24 and 24 are kept. */
  lemma TimeExamples()
    ensures AdjustEpoch(1000, Some(120)) == Adjusted(1120, true)
    ensures AdjustEpoch(1000, Some(-2000)) == Adjusted(1000, false)
    ensures ResolveTimezone(Some(25)) == DEFAULT_TIMEZONE == 9
    ensures ResolveTimezone(Some(-24)) == -24 && ResolveTimezone(Some(24)) == 24
  {
  }

  // ---------------------------------------------------------------------
  // The write buffer
  // ---------------------------------------------------------------------

  /** The `n` low bytes of `x`, least significant first. */
  function LittleEndian(x: nat, n: nat): (bs: seq<u8>)
    ensures |bs| == n
  {
    if n == 0 then [] else [x % 0x100] + LittleEndian(x / 0x100, n - 1)
  }

  /** The value of bytes read least significant first. */
  function LittleEndianValue(bs: seq<u8>): nat {
    if bs == [] then 0 else bs[0] + 0x100 * LittleEndianValue(bs[1..])
  }

  lemma {:induction false} LittleEndianRoundTrip(x: nat, n: nat)
    requires x < Lib.Pow256(n)
    ensures LittleEndianValue(LittleEndian(x, n)) == x
  {
    if n > 0 {
      LittleEndianRoundTrip(x / 0x100, n - 1);
      assert LittleEndian(x, n)[1..] == LittleEndian(x / 0x100, n - 1);
    }
  }

  /** The buffer written to the time characteristic: `epoch as u32` in
      little-endian order, then `timezone as u8`. */
  function WriteBuffer(epoch: u64, timezone: i8): (buffer: seq<u8>)
    ensures |buffer| == 5
  {
    LittleEndian(epoch % U32_BOUND, 4) + [timezone % 0x100]
  }

  /** How the device reads the buffer back: an unsigned 32-bit epoch and a
      signed hour. */
  function ReadBuffer(buffer: seq<u8>): (epochAndZone: (nat, int))
    requires |buffer| == 5
  {
    (LittleEndianValue(buffer[..4]), if buffer[4] < 0x80 then buffer[4] as int else buffer[4] as int - 0x100)
  }

  /** The buffer carries the epoch modulo 2^32 and the timezone unchanged. */
  lemma WriteBufferRoundTrip(epoch: u64, timezone: i8)
    ensures ReadBuffer(WriteBuffer(epoch, timezone)) == (epoch % U32_BOUND, timezone)
  {
    var b := WriteBuffer(epoch, timezone);
    assert Lib.Pow256(4) == U32_BOUND;
    LittleEndianRoundTrip(epoch % U32_BOUND, 4);
    assert b[..4] == LittleEndian(epoch % U32_BOUND, 4);
  }

  // ---------------------------------------------------------------------
  // One run of the protocol
  // ---------------------------------------------------------------------

  /** The reason a lookup fails: the query call failed, its status was not
      success, or it returned nothing. `None` when a result was found. */
  function LookupFailure(l: Lookup, callFailed: string, empty: string): (r: Option<string>)
    ensures r.None? <==> l.Completed? && l.success && l.count > 0
  {
    match l
    case CallFailed => Some(callFailed)
    case Completed(success, count) =>
      if !success then Some("Communication error")
      else if count == 0 then Some(empty)
      else None
  }

  function ServiceFailure(radio: Radio): Option<string> {
    LookupFailure(radio.services, "Failed to query service", "No services returned")
  }

  function CharacteristicFailure(radio: Radio): Option<string> {
    LookupFailure(radio.characteristics, "Failed to query characteristic", "No characteristic returned")
  }

  /** The progress events of the first `n` lookup stages, in order:
      connecting, querying the service, querying the characteristic. */
  function StageEvents(address: u64, n: nat): (events: seq<SyncLogKind>)
    requires n <= 3
    ensures |events| == n
  {
    [Progress(address, Connecting),
     Progress(address, QueryingService(LYWSD02_SERVICE_UUID)),
     Progress(address, QueryingCharacteristic(LYWSD02_CHARACTERISTIC_TIME_UUID))][..n]
  }

  /** The end of a run, once both lookups have found their target: compute
      the time (logging an adjustment when one is committed), hand the
      buffer to the write call, and report the time written. */
  function TimeAndWrite(address: u64, tz: Option<i8>, offset: Option<i32>, write: bool, now: u64): (t: ClockTrace)
    ensures t.written.Some? && |t.written.value| == 5
    ensures t.result.Ok? <==> write
    ensures !write ==> t.result == Err("Failed to sync time")
  {
    var timezone := ResolveTimezone(tz);
    var adjusted := AdjustEpoch(now, offset);
    var adjust := if adjusted.committed then [Progress(address, AdjustClock(offset.value))] else [];
    var buffer := WriteBuffer(adjusted.epoch, timezone);
    if !write then ClockTrace(adjust, Some(buffer), Err("Failed to sync time"))
    else ClockTrace(adjust + [Progress(address, SyncClock(adjusted.epoch, timezone))], Some(buffer), Ok(()))
  }

  /** The trace of `sync_xiaomi_clock` for `address`, given the configured
      timezone hour and offset, the device's answers and the current epoch. */
  function ClockRun(address: u64, tz: Option<i8>, offset: Option<i32>, radio: Radio, now: u64): (t: ClockTrace)
    ensures |t.events| >= 1 && t.events[0] == Progress(address, Connecting)
    ensures t.written.Some? <==> radio.connect && ServiceFailure(radio).None? && CharacteristicFailure(radio).None?
    ensures t.result.Ok? ==> t.written.Some?
  {
    if !radio.connect then
      ClockTrace(StageEvents(address, 1), None, Err("Failed to connect"))
    else if ServiceFailure(radio).Some? then
      ClockTrace(StageEvents(address, 2), None, Err(ServiceFailure(radio).value))
    else if CharacteristicFailure(radio).Some? then
      ClockTrace(StageEvents(address, 3), None, Err(CharacteristicFailure(radio).value))
    else
      var rest := TimeAndWrite(address, tz, offset, radio.write, now);
      ClockTrace(StageEvents(address, 3) + rest.events, rest.written, rest.result)
  }

  // ---------------------------------------------------------------------
  // What a run promises
  // ---------------------------------------------------------------------

  /** The failure reason of each external step, in protocol order: connect,
      service lookup, characteristic lookup, write. */
  function StepFailures(radio: Radio): (fs: seq<Option<string>>)
    ensures |fs| == 4
  {
    [ if radio.connect then None else Some("Failed to connect"),
      ServiceFailure(radio),
      CharacteristicFailure(radio),
      if radio.write then None else Some("Failed to sync time") ]
  }

  /** The first failing step and its reason. */
  function FirstFailure(fs: seq<Option<string>>): (r: Option<(nat, string)>)
    ensures r.Some? ==>
              && r.value.0 < |fs|
              && fs[r.value.0] == Some(r.value.1)
              && forall k | 0 <= k < r.value.0 :: fs[k].None?
    ensures r.None? ==> forall k | 0 <= k < |fs| :: fs[k].None?
  {
    if fs == [] then None
    else if fs[0].Some? then Some((0, fs[0].value))
    else match FirstFailure(fs[1..])
      case None => None
      case Some((k, reason)) => Some((k + 1, reason))
  }

  /** The steps run strictly in order and the first failure ends the run:
      a run succeeds exactly when no step fails; otherwise it fails with the
      first failing step's reason, having logged the stage events
      (connecting, querying the service, querying the characteristic, in
      that order) up to and including that step's and nothing else, and it
      reaches the write call only if the failing step is the write itself.
      Once all three lookups succeed, the rest of the log is the time and
      write phase's. */
  lemma ClockRunStopsAtFirstFailure(address: u64, tz: Option<i8>, offset: Option<i32>, radio: Radio, now: u64)
    ensures var t := ClockRun(address, tz, offset, radio, now);
      var rest := TimeAndWrite(address, tz, offset, radio.write, now).events;
      match FirstFailure(StepFailures(radio))
      case None =>
        && t.result == Ok(())
        && t.written.Some?
        && t.events == StageEvents(address, 3) + rest
      case Some((k, reason)) =>
        && t.result == Err(reason)
        && (t.written.Some? <==> k == 3)
        && (k < 3 ==> t.events == StageEvents(address, k + 1))
        && (k == 3 ==> t.events == StageEvents(address, 3) + rest)
  {
    var fs := StepFailures(radio);
    if !radio.connect {
      assert FirstFailure(fs) == Some((0, "Failed to connect"));
    } else if ServiceFailure(radio).Some? {
      assert FirstFailure(fs[1..]) == Some((0, ServiceFailure(radio).value));
    } else if CharacteristicFailure(radio).Some? {
      assert fs[2..] == fs[1..][1..];
      assert FirstFailure(fs[2..]) == Some((0, CharacteristicFailure(radio).value));
    } else {
      FirstFailureOfLastStep(radio);
      var rest := TimeAndWrite(address, tz, offset, radio.write, now);
      TimeAndWriteEvents(address, tz, offset, radio.write, now);
    }
  }

  /** With both lookups successful, only the write can fail. */
  lemma FirstFailureOfLastStep(radio: Radio)
    requires radio.connect && ServiceFailure(radio).None? && CharacteristicFailure(radio).None?
    ensures FirstFailure(StepFailures(radio)) == if radio.write then None else Some((3, "Failed to sync time"))
  {
    var fs := StepFailures(radio);
    assert fs[2..] == fs[1..][1..];
    assert fs[3..] == fs[2..][1..];
    assert fs[3..][1..] == [];
    if radio.write {
      assert FirstFailure(fs[3..]) == None;
    } else {
      assert FirstFailure(fs[3..]) == Some((0, "Failed to sync time"));
    }
  }

  /** The end of a run logs, for its address, one "Adjust clock" event
      carrying the offset exactly when the adjustment is committed, and
      then, on success only, the time written; it always reaches the write
      call, and it succeeds exactly when the write does. */
  lemma TimeAndWriteEvents(address: u64, tz: Option<i8>, offset: Option<i32>, write: bool, now: u64)
    ensures var t := TimeAndWrite(address, tz, offset, write, now);
      var adjusted := AdjustEpoch(now, offset);
      && t.written.Some?
      && (t.result.Ok? <==> write)
      && |t.events| == (if adjusted.committed then 1 else 0) + (if write then 1 else 0)
      && (adjusted.committed ==> t.events[0] == Progress(address, AdjustClock(offset.value)))
      && (write ==> t.events[|t.events| - 1] == Progress(address, SyncClock(adjusted.epoch, ResolveTimezone(tz))))
      && (forall k | 0 <= k < |t.events| ::
            && t.events[k].Progress? && t.events[k].address == address
            && (t.events[k].log.AdjustClock? <==> adjusted.committed && k == 0)
            && (t.events[k].log.AdjustClock? || t.events[k].log.SyncClock?)
            && (t.events[k].log.SyncClock? <==> write && k == |t.events| - 1))
  {
  }

  /** A run that reaches the write hands over exactly 5 bytes that read
      back as the (possibly adjusted) epoch modulo 2^32 and the resolved
      timezone; a successful run ends by logging that epoch and timezone. */
  lemma ClockRunWritesTime(address: u64, tz: Option<i8>, offset: Option<i32>, radio: Radio, now: u64)
    ensures var t := ClockRun(address, tz, offset, radio, now);
      var epoch := AdjustEpoch(now, offset).epoch;
      && (t.written.Some? ==>
            |t.written.value| == 5 && ReadBuffer(t.written.value) == (epoch % U32_BOUND, ResolveTimezone(tz)))
      && (t.result.Ok? ==> t.events[|t.events| - 1] == Progress(address, SyncClock(epoch, ResolveTimezone(tz))))
  {
    WriteBufferRoundTrip(AdjustEpoch(now, offset).epoch, ResolveTimezone(tz));
  }
}
