# xiaomi BLE clock sync — a Dafny model

This project models the decision logic of `xiaomi`, a command-line tool that
works with Xiaomi LYWSD02 Bluetooth LE thermometer clocks. The tool has two
commands:

- **scan** listens to advertisements for a while and prints a table of the
  last temperature, humidity and battery value seen per device.
- **sync** connects to each thermometer it hears and writes the current
  time and timezone into the device's time characteristic. Each device is
  handled once, or skipped when configured so.

The model has five modules, one per part of that logic:

| file | module | models |
|---|---|---|
| `base.dfy` | `Base` | `Option`, `Result`, and the fixed-width integers u8, i8, i32 and u64 as subset types of `int`; 128-bit GUIDs as integers |
| `lib.dfy` | `Lib` | `format_bluetooth_address`, `decode_bluetooth_adddress` (with `from_str_radix` and `split`), the `DeviceConfig` record and `Config::get_device_by_name` |
| `advertisement.dfy` | `Advertisement` | `decode_advertisement`: the Environmental Sensing service check, the first Service Data section (AD type 0x16), and the fixed-offset payload bytes 14, 17 and 18 |
| `clock_sync.dfy` | `ClockSync` | the log vocabulary and the pure kernel of `sync_xiaomi_clock`: the timezone fallback, the i64 offset adjustment, the 5-byte little-endian write buffer, and `ClockRun`, the trace of one protocol run |
| `sync.dfy` | `SyncCoordinator` | `sync_device_args`, the per-address state machine over the handled-device set and the log channel. The class `SyncSession` holds that state and runs `sync_xiaomi_clock` step by step; the value-level `Step` is the same transition |
| `scan.dfy` | `Scan` | `SensorData` and its setters as a class; the scan callback's filter and `process_data`'s map update as the class `ScanSession` over a queue and a map of entries |

Everything outside the tool is a parameter:

- **Bluetooth stack.** Each external call's answer is one field of a `Radio` value: whether the connection was made, the answer to the service and characteristic queries, and whether the write call returned without error. The communication status that call returns is not inspected.
- **System clock.** The current epoch is the parameter `now`.
- **Timezone database.** It is the function parameter `zoneHour`, from a timezone name to its current hour offset.
- **Channels.** Each channel becomes a sequence that the sending side appends to.

## Model

| member | source | states |
|---|---|---|
| `Lib.FromStrRadix16` | xiaomi/src/lib.rs:31 | a parsed value always fits the target type |
| `Lib.FromStrRadix16Plain` | xiaomi/src/lib.rs:44 | without a leading '+', a string parses exactly when it is a non-empty run of hex digits whose value fits: a non-digit character fails, a digit run whose value is at or above the bound fails, and a digit run that fits parses to its value |
| `Lib.FromStrRadix16Plus` | xiaomi/src/lib.rs:31 | a single leading '+' is accepted and ignored; a second '+' after it makes the parse fail |
| `Lib.FromStrRadix16Empty` | xiaomi/src/lib.rs:31 | neither the empty string nor a lone '+' parses |
| `Lib.UpperHexByte` | xiaomi/src/lib.rs:17-23 | `{:02X}` of a byte is exactly two upper-case hex digits whose value is the byte |
| `Lib.AddressBytes` | xiaomi/src/lib.rs:5-15 | six bytes, most significant first, taken from bits 47..0 |
| `Lib.FormatBluetoothAddress` | xiaomi/src/lib.rs:4-24 | the rendered address is 17 characters long |
| `Lib.FormatLayout` | xiaomi/src/lib.rs:4-24 | colons at positions 2, 5, 8, 11 and 14; byte k as two hex digits at 3k and 3k+1; no lower-case letter |
| `Lib.FormatIgnoresHighBits` | xiaomi/src/lib.rs:5-15 | bits 48 and above do not change the rendered address |
| `Lib.Split` | xiaomi/src/lib.rs:36 | at least one piece, and no piece contains the separator |
| `Lib.SplitThenJoin` | xiaomi/src/lib.rs:36 | joining the pieces of a split with the separator gives back the string |
| `Lib.JoinThenSplit` | xiaomi/src/lib.rs:36 | splitting a join of separator-free pieces gives back the pieces |
| `Lib.ParsePieces` | xiaomi/src/lib.rs:43-52 | succeeds exactly when every piece parses as a hex u8, and then holds each piece's value in order |
| `Lib.FoldBytesInjective` | xiaomi/src/lib.rs:46 | two byte sequences of the same length accumulate to the same value only if they are equal |
| `Lib.DecodeAddress` | xiaomi/src/lib.rs:29-55 | a whole-string hex u64 is returned as is, with no 48-bit limit; otherwise anything but 6 colon-separated pieces is an error; with 6 pieces the result is Ok exactly when every piece parses; a colon-form result is below 2^48 |
| `Lib.DecodeBluetoothAddress` | xiaomi/src/lib.rs:29-55 | the imperative parser returns exactly `DecodeAddress` of its input, including both error messages |
| `Lib.ConvertBytes` | xiaomi/src/lib.rs:41-52 | the accumulation loop, computing `converted << 8` or-ed with `v` on a u64 at each step, succeeds exactly when every piece parses, and then returns the big-endian fold of the parsed bytes |
| `Lib.ParseStep` | xiaomi/src/lib.rs:44-50 | one pass of the loop body: when the piece does not parse as a hex byte, the whole list of pieces fails to parse; otherwise the parsed prefix grows by that byte and the shifted accumulator equals the big-endian fold of the longer prefix |
| `Lib.ParsePiecesPrefix` | xiaomi/src/lib.rs:43-44 | parsing one more piece that parses as a byte extends the parsed prefix by exactly that byte |
| `Lib.ShiftLeft8` | xiaomi/src/lib.rs:46 | `<< 8` on a u64 multiplies by 256 whenever no bit is shifted past bit 63 |
| `Lib.BitOrLowBits` | xiaomi/src/lib.rs:46 | or-ing a value below 2^k into a number whose low k bits are zero adds it |
| `Lib.ShiftOrAppendsByte` | xiaomi/src/lib.rs:46 | while the accumulator is below 2^56, `converted << 8` or-ed with `v` equals `converted * 256 + v` |
| `Lib.AccumulateByte` | xiaomi/src/lib.rs:46 | with at most five bytes accumulated, one more step of the loop extends the big-endian fold by the new byte, with no bit lost |
| `Lib.AddressBytesFold` | xiaomi/src/lib.rs:5-15 | accumulating the six address bytes big-endian gives the address modulo 2^48 |
| `Lib.FormatThenDecode` | xiaomi/src/lib.rs:4-55 | decoding a formatted address gives its low 48 bits, so every 48-bit address survives the round trip |
| `Lib.FormatExample` | xiaomi/src/lib.rs:141 | 0x112233445566 renders as "11:22:33:44:55:66" |
| `Lib.FormatUpperExample` | xiaomi/src/lib.rs:144 | 0x0a0b0c0d0e0f renders in upper case as "0A:0B:0C:0D:0E:0F" |
| `Lib.DecodePlainExample` | xiaomi/src/lib.rs:150 | "112233445566" decodes as one hex number to 0x112233445566 |
| `Lib.DecodeColonExample` | xiaomi/src/lib.rs:153 | "11:22:33:44:55:66" decodes to 0x112233445566 |
| `Lib.DecodeLower` | xiaomi/src/lib.rs:154 | "A:b:c:d:e:f" decodes to 0x0a0b0c0d0e0f |
| `Lib.DecodeWrongPieceCounts` | xiaomi/src/lib.rs:157-158 | two pieces and seven pieces are both the "not 6 byte form" error |
| `Lib.AsciiLower` | xiaomi/src/lib.rs:106 | same length; each upper-case ASCII letter becomes its lower-case letter (code point + 32); other characters unchanged |
| `Lib.AsciiLowerEqualIff` | xiaomi/src/lib.rs:106 | two strings lower-case to the same string exactly when they have the same length and agree at each position up to the case of ASCII letters |
| `Lib.Config.GetDeviceByName` | xiaomi/src/lib.rs:103-112 | None exactly when there is no device list or no device's name matches ignoring case; otherwise the first matching device |
| `Advertisement.FirstServiceData` | xiaomi/src/ble.rs:55-59 | the index of the first section with AD type 0x16, or None when there is none |
| `Advertisement.DecodeServiceData` | xiaomi/src/ble.rs:68-86 | a panic exactly when the payload is too short for the bytes read; subtype 4 gives temperature, 6 humidity and 10 battery, and anything else Unknown (never Omit); the temperature and humidity value is the unsigned `b17 + 256*b18`, in 0..65535; the battery value is `b17`; the reading carries the address |
| `Advertisement.DecodeAdvertisement` | xiaomi/src/ble.rs:44-97 | no arguments or no Environmental Sensing UUID gives Unknown whatever the sections hold; with the UUID, Omit exactly when no section has type 0x16; a reading carries the advertisement's address |
| `Advertisement.DecodeUsesOnlyFirstServiceData` | xiaomi/src/ble.rs:55-88 | the outcome is the decoding of the first 0x16 section, and replacing every later section leaves it unchanged |
| `Advertisement.DecodeReadingIff` | xiaomi/src/ble.rs:44-97 | a reading comes out exactly when the UUID is present and the first 0x16 section is long enough and has subtype 4, 6 or 10 |
| `Advertisement.TwoByteValueIsUnsigned` | xiaomi/src/ble.rs:70 | bytes FF FF read as 65535, not -1 |
| `Advertisement.DecodeExamples` | xiaomi/src/ble.rs:68-85 | FA 00 under subtype 4 is 250 tenths; 26 02 under subtype 6 is 550 tenths; 80 under subtype 10 is 80; subtype 99 is Unknown |
| `ClockSync.ResolveTimezone` | xiaomi/src/ble.rs:219-225 | the result is always in [-24, 24]; a supplied hour in that range is kept; otherwise, including when none is supplied, the result is 9 |
| `ClockSync.AsI64` | xiaomi/src/ble.rs:229 | `epoch as i64`: a value in the i64 range with the same 64 bits, equal to the epoch below 2^63 |
| `ClockSync.WrapI64` | xiaomi/src/ble.rs:230 | the i64 addition wraps: the result is in the i64 range, congruent to the exact sum modulo 2^64, and equal to it when it fits |
| `ClockSync.AdjustEpoch` | xiaomi/src/ble.rs:227-235 | an uncommitted adjustment leaves the epoch as it was; a committed one has an offset and a positive result; for any epoch below 2^63 - 2^31 it is committed exactly when an offset is given and epoch + offset > 0, and then the result is that sum |
| `ClockSync.TimeExamples` | xiaomi/src/ble.rs:218-235 | epoch 1000 with +120 s gives 1120; with -2000 s it stays 1000; hour 25 falls back to 9; -24 and 24 are kept |
| `ClockSync.LittleEndianRoundTrip` | xiaomi/src/ble.rs:240-242 | reading n little-endian bytes back gives any value below 256^n |
| `ClockSync.WriteBuffer` | xiaomi/src/ble.rs:237-246 | the buffer is exactly 5 bytes |
| `ClockSync.WriteBufferRoundTrip` | xiaomi/src/ble.rs:240-243 | the buffer reads back as the epoch modulo 2^32 and the timezone as a signed byte |
| `ClockSync.LookupFailure` | xiaomi/src/ble.rs:180-213 | a lookup fails unless the call completed with status success and at least one result |
| `ClockSync.TimeAndWrite` | xiaomi/src/ble.rs:218-255 | the time and write phase always hands 5 bytes to the write call and succeeds exactly when the write does, else fails with "Failed to sync time"; its log is stated by `TimeAndWriteEvents` and its buffer by `ClockRunWritesTime` |
| `ClockSync.ClockRun` | xiaomi/src/ble.rs:172-256 | a run always logs Connecting first, reaches the write call exactly when the connection and both lookups succeed, and succeeds only after a write; the order of steps and the exact log are stated by `ClockRunStopsAtFirstFailure` |
| `ClockSync.FirstFailure` | xiaomi/src/ble.rs:172-256 | the first failing step and its reason; None only when no step fails |
| `ClockSync.ClockRunStopsAtFirstFailure` | xiaomi/src/ble.rs:172-256 | a run succeeds exactly when no step fails; otherwise it fails with the first failing step's reason; the log is exactly Connecting, QueryingService, QueryingCharacteristic in that order up to and including the failing step's, with nothing else on an early failure; once all lookups succeed the rest of the log is the time and write phase's; it reaches the write call only when the write is the failing step |
| `ClockSync.TimeAndWriteEvents` | xiaomi/src/ble.rs:218-255 | once both lookups succeed, the run always reaches the write and succeeds exactly when the write does; it logs one "Adjust clock" event carrying the offset, first, exactly when the adjustment is committed, and on success a final "Sync clock" event with the epoch and timezone written, and nothing else |
| `ClockSync.ClockRunWritesTime` | xiaomi/src/ble.rs:237-255 | the written buffer is 5 bytes holding the adjusted epoch modulo 2^32 and the resolved timezone; a successful run ends with the "Sync clock" event for that epoch and timezone |
| `SyncCoordinator.IsOmit` | xiaomi/src/ble.rs:124-131 | a device is skipped only when it has a configuration entry, and an entry without an `omit` flag is not skipped; its effect on a step is stated by `StepOmit` |
| `SyncCoordinator.DeviceTimezone` | xiaomi/src/ble.rs:150-151 | an hour is supplied exactly when the device is configured with a timezone name, and it is that name's current hour |
| `SyncCoordinator.DeviceOffset` | xiaomi/src/ble.rs:150-152 | the configured offset in seconds, and none for an unconfigured device |
| `SyncCoordinator.SyncAddress` | xiaomi/src/ble.rs:107-115 | only temperature and humidity readings yield an address, and it is the reading's address |
| `SyncCoordinator.Step` | xiaomi/src/ble.rs:104-166 | the handled set never shrinks; the log and the write calls are only appended to |
| `SyncCoordinator.StepNoOp` | xiaomi/src/ble.rs:135-138 | an advertisement that is not a temperature or humidity reading, or one from a handled address, changes nothing |
| `SyncCoordinator.StepOmit` | xiaomi/src/ble.rs:124-145 | an unhandled address configured as omitted becomes handled, with exactly one "Configured as Omit" progress event and no write |
| `SyncCoordinator.StepRunsProtocol` | xiaomi/src/ble.rs:146-163 | otherwise the protocol runs: the address becomes handled exactly when no step fails; on failure the set is unchanged and exactly one error event is added, with the first failure's reason; only this address is written to |
| `SyncCoordinator.RepeatedReadingRunsOnce` | xiaomi/src/ble.rs:135-163 | after an omit or a successful sync, a second delivery of the same reading changes nothing |
| `SyncCoordinator.ClockRunLog` | xiaomi/src/ble.rs:172-256 | a protocol run logs one resolution ("Sync clock") for its own address exactly when it succeeds, and no error event |
| `SyncCoordinator.StepPreservesConsistent` | xiaomi/src/ble.rs:104-166 | one step keeps the invariant "each handled address has exactly one resolution event in the log, and no other address has one" |
| `SyncCoordinator.ResolvedExactlyOnce` | xiaomi/src/ble.rs:104-166 | over any sequence of callbacks from the empty state, each address is synced or skipped at most once, and exactly once when it is handled |
| `SyncCoordinator.SyncSession.constructor` | xiaomi/src/main.rs:79-82 | an empty handled set, log and write list |
| `SyncCoordinator.SyncSession.LogProgress` | xiaomi/src/ble.rs:168-170 | appends exactly one progress event |
| `SyncCoordinator.SyncSession.SyncXiaomiClock` | xiaomi/src/ble.rs:172-256 | the imperative protocol returns `ClockRun`'s result, appends exactly its events to the log, and issues exactly its write call |
| `SyncCoordinator.SyncSession.WriteTime` | xiaomi/src/ble.rs:218-255 | the time computation and the write, step by step on the mutable locals, match `TimeAndWrite` |
| `SyncCoordinator.SyncSession.SyncDeviceArgs` | xiaomi/src/ble.rs:104-166 | the callback's new state is `Step` of the old one, and it keeps the exactly-once invariant |
| `Scan.SensorData.constructor` | xiaomi/src/main.rs:325-327 | all three fields start as None |
| `Scan.SensorData.SetTemperature` | xiaomi/src/main.rs:329-331 | sets the temperature and leaves humidity and battery as they were |
| `Scan.SensorData.SetHumidity` | xiaomi/src/main.rs:333-335 | sets the humidity and leaves the other two fields as they were |
| `Scan.SensorData.SetBattery` | xiaomi/src/main.rs:337-339 | sets the battery and leaves the other two fields as they were |
| `Scan.FieldOf` | xiaomi/src/main.rs:256-267 | exactly the temperature, humidity and battery outcomes fill a field |
| `Scan.Record` | xiaomi/src/main.rs:240-269 | anything but a reading leaves the table as it was; a reading adds its own address to the table's addresses and no other; field by field it is stated by `RecordUpdatesOneField` |
| `Scan.RecordUpdatesOneField` | xiaomi/src/main.rs:250-267 | a reading adds its address when absent, with every field empty; it sets its own field to its value; every other field and every other address's entry stay as they were |
| `Scan.LastValueWins` | xiaomi/src/main.rs:232-274 | from an empty table, an address has an entry exactly when some reading came from it, and each field holds the last value received for it |
| `Scan.ScanExample` | xiaomi/src/main.rs:250-267 | temperature 25.0, then 26.0, then humidity 40.0 leave 26.0, 40.0 and no battery |
| `Scan.ScanSession.constructor` | xiaomi/src/main.rs:186-187 | an empty channel and an empty table |
| `Scan.ScanSession.OnReceived` | xiaomi/src/main.rs:194-205 | temperature, humidity and battery outcomes are forwarded to the channel; Unknown and Omit are dropped |
| `Scan.ScanSession.ProcessData` | xiaomi/src/main.rs:232-274 | returns false and changes nothing when the channel is empty; otherwise takes the first message off it and the table becomes `Record` of the old table and that message; no two addresses ever share an entry |
| `Scan.ScanSession.Store` | xiaomi/src/main.rs:250-267 | for a reading, the table becomes `Record` of the old table and that reading, and no two addresses share an entry |
| `Scan.ScanSession.AddEntry` | xiaomi/src/main.rs:251-253 | an absent address gets a new entry with every field empty; every other address keeps its entry |
| `Scan.ScanSession.SetField` | xiaomi/src/main.rs:256-267 | the reading's own address gets the entry `Record` gives it; every other address keeps its entry |

## Left out

- The Windows Bluetooth LE calls are not modelled: the advertisement watcher, `FromBluetoothAddressAsync`, the GATT service and characteristic queries, `WriteValueAsync`, and the `DataReader`/`DataWriter` stream objects. Each call's outcome is an input, and payloads are byte sequences.
- The `unwrap()` calls on those APIs are left out, along with the panics they could raise.
- Threads are left out: the `Arc<Mutex<..>>` locks, the `mpsc` channels and the watcher's lifetime and teardown ordering. The coordinator and the aggregator run one callback at a time.
- The timed receive loop is left out. That is `recv_timeout` and the monitoring periods (10 seconds for scan, 30 for sync). `ProcessData` returning false stands for a receive that found nothing.
- `f32` arithmetic is left out. The decoder keeps temperature and humidity as integer tenths, and the `/ 10.0` division is not modelled. `SensorData` stores these integers.
- `get_timezone_diff_hour` (the chrono-tz lookup, including its panic on an unknown timezone name) is the function parameter `zoneHour`.
- `get_unix_epoc` is the parameter `now`.
- Configuration loading is not part of this model. That covers TOML and serde deserialisation (`string_to_bluetooth_address` included), `load_config`, `check_config` and the address-keyed map they build.
- Presentation is not part of this model: clap argument parsing, spinners, tables, emoji and the name shown per device.
- Log messages keep their payload but not their `format!` rendering. The UUID hex, "Sync clock" and "Adjust clock" texts are not modelled.
- `Lib.AsciiLower`: folds only ASCII letters, where `to_lowercase` is Unicode-aware.
- `Lib.FromStrRadix16`: models hex digits, the optional leading '+' and the range check; it does not model Rust's error kinds.
- `Advertisement.DecodeAdvertisement`: a payload too short for bytes 14, 17 or 18 panics in the code. The model gives it as an explicit `Err(IndexOutOfBounds)` outcome, and the two callbacks require a decode without panic.
- `ClockSync.AdjustEpoch`: the i64 addition is modelled as wrapping, as a release build performs it. A debug build would panic on overflow, which no real epoch and i32 offset reach.

Points where the code behaves differently from what a first reading of the protocol might suggest; the model follows the code:

- The temperature and humidity value is unsigned rather than sign-extended.
- An unknown subtype gives Unknown rather than Omit.
- A short payload panics rather than failing to decode.
- A write counts as done when the write call returns without error, whatever communication status it reports. A write the device rejects still logs "Sync clock", returns success and marks the device handled.
- "Adjust clock" shows the offset as minutes:seconds, not as hours and minutes.
