/** Classification of one received BLE advertisement (`decode_advertisement`):
    only advertisements listing the Environmental Sensing service are
    considered; the first Service Data section (AD type 0x16, Bluetooth Core
    Specification Supplement, Part A, section 1.11) is read at fixed offsets:
    byte 14 selects the reading, bytes 17 and 18 carry its value. */
module Advertisement {
  import opened Base

  /** 0000181a-0000-1000-8000-00805f9b34fb */
  const ENVIRONMENTAL_SENSING_SERVICE_UUID: Guid := 0x0000181a_0000_1000_8000_00805f9b34fb

  /** AD type of a Service Data section. */
  const SERVICE_DATA: u8 := 0x16

  const KIND_OFFSET: nat := 14
  const VALUE_OFFSET: nat := 17

  /** One data section of an advertisement: its AD type and its payload. */
  datatype DataSection = DataSection(dataType: u8, data: seq<u8>)

  /** What the BLE stack reports for one received advertisement. */
  datatype ReceivedEventArgs = ReceivedEventArgs(
    bluetoothAddress: u64,
    serviceUuids: seq<Guid>,
    dataSections: seq<DataSection>)

  /** A reading and the address it came from. `value` is the integer the
      source turns into an f32: tenths of a degree or of a percent for
      temperature and humidity (the source divides by 10), whole percent for
      battery. */
  datatype SensorValue = SensorValue(address: u64, value: int)

  datatype AdvertisementKind =
    | Unknown
    | Omit
    | Temperature(reading: SensorValue)
    | Humidity(reading: SensorValue)
    | Battery(reading: SensorValue)
  {
    predicate IsReading() {
      Temperature? || Humidity? || Battery?
    }
  }

  /** Indexing a payload past its end: the Rust code panics here. */
  datatype Panic = IndexOutOfBounds(index: nat, len: nat)

  /** The position of the first Service Data section, if there is one. */
  function FirstServiceData(sections: seq<DataSection>): (r: Option<nat>)
    ensures r.Some? ==>
      && r.value < |sections|
      && sections[r.value].dataType == SERVICE_DATA
      && forall j | 0 <= j < r.value :: sections[j].dataType != SERVICE_DATA
    ensures r.None? ==> forall j | 0 <= j < |sections| :: sections[j].dataType != SERVICE_DATA
  {
    if sections == [] then None
    else if sections[0].dataType == SERVICE_DATA then Some(0)
    else match FirstServiceData(sections[1..])
      case None => None
      case Some(i) => Some(i + 1)
  }

  /** Decodes the payload of the first Service Data section. Byte 14 selects
      the reading: 4 temperature and 6 humidity, both `b[17] + 256 * b[18]`
      read as unsigned; 10 battery, `b[17]`; anything else is not
      recognised. A payload too short for the bytes read is a panic at the
      first index out of range (14, then 17, then 18). */
  function DecodeServiceData(address: u64, vector: seq<u8>): (r: Result<AdvertisementKind, Panic>)
    ensures r.Err? <==>
      || |vector| <= KIND_OFFSET
      || (vector[KIND_OFFSET] in {4, 6} && |vector| <= VALUE_OFFSET + 1)
      || (vector[KIND_OFFSET] == 10 && |vector| <= VALUE_OFFSET)
    ensures r.Ok? ==> r.value != Omit
    ensures r.Ok? && r.value.IsReading() ==> r.value.reading.address == address
    ensures r.Ok? && (r.value.Temperature? || r.value.Humidity?) ==>
      && |vector| > VALUE_OFFSET + 1
      && r.value.reading.value == vector[VALUE_OFFSET] as int + 256 * vector[VALUE_OFFSET + 1] as int
      && 0 <= r.value.reading.value < 0x1_0000
    ensures r.Ok? && r.value.Battery? ==>
      |vector| > VALUE_OFFSET && r.value.reading.value == vector[VALUE_OFFSET] < 0x100
    ensures r.Ok? ==>
      && (r.value.Temperature? <==> vector[KIND_OFFSET] == 4)
      && (r.value.Humidity? <==> vector[KIND_OFFSET] == 6)
      && (r.value.Battery? <==> vector[KIND_OFFSET] == 10)
  {
    if |vector| <= KIND_OFFSET then Err(IndexOutOfBounds(KIND_OFFSET, |vector|))
    else match vector[KIND_OFFSET]
      case 4 =>
        if |vector| <= VALUE_OFFSET then Err(IndexOutOfBounds(VALUE_OFFSET, |vector|))
        else if |vector| <= VALUE_OFFSET + 1 then Err(IndexOutOfBounds(VALUE_OFFSET + 1, |vector|))
        else Ok(Temperature(SensorValue(address, vector[VALUE_OFFSET] as int + vector[VALUE_OFFSET + 1] as int * 256)))
      case 6 =>
        if |vector| <= VALUE_OFFSET then Err(IndexOutOfBounds(VALUE_OFFSET, |vector|))
        else if |vector| <= VALUE_OFFSET + 1 then Err(IndexOutOfBounds(VALUE_OFFSET + 1, |vector|))
        else Ok(Humidity(SensorValue(address, vector[VALUE_OFFSET] as int + vector[VALUE_OFFSET + 1] as int * 256)))
      case 10 =>
        if |vector| <= VALUE_OFFSET then Err(IndexOutOfBounds(VALUE_OFFSET, |vector|))
        else Ok(Battery(SensorValue(address, vector[VALUE_OFFSET])))
      case _ => Ok(Unknown)
  }

  /** Classifies an advertisement. Without the event arguments, or without
      the Environmental Sensing service among the advertised services, it is
      `Unknown` whatever its data sections hold; with the service but no
      Service Data section it is `Omit`; otherwise the first Service Data
      section alone decides. */
  function DecodeAdvertisement(args: Option<ReceivedEventArgs>): (r: Result<AdvertisementKind, Panic>)
    ensures args.None? || ENVIRONMENTAL_SENSING_SERVICE_UUID !in args.value.serviceUuids ==> r == Ok(Unknown)
    ensures args.Some? && ENVIRONMENTAL_SENSING_SERVICE_UUID in args.value.serviceUuids ==>
      ((forall j | 0 <= j < |args.value.dataSections| :: args.value.dataSections[j].dataType != SERVICE_DATA)
       <==> r == Ok(Omit))
    ensures r.Ok? && r.value.IsReading() ==> r.value.reading.address == args.value.bluetoothAddress
  {
    match args
    case None => Ok(Unknown)
    case Some(args) =>
      if ENVIRONMENTAL_SENSING_SERVICE_UUID !in args.serviceUuids then Ok(Unknown)
      else match FirstServiceData(args.dataSections)
        case None => Ok(Omit)
        case Some(i) => DecodeServiceData(args.bluetoothAddress, args.dataSections[i].data)
  }

  /** The section at `i` is the first Service Data section. */
  predicate IsFirstServiceData(sections: seq<DataSection>, i: nat) {
    && i < |sections|
    && sections[i].dataType == SERVICE_DATA
    && forall j | 0 <= j < i :: sections[j].dataType != SERVICE_DATA
  }

  lemma FirstServiceDataFinds(sections: seq<DataSection>, i: nat)
    requires IsFirstServiceData(sections, i)
    ensures FirstServiceData(sections) == Some(i)
  {
  }

  /** When the service is advertised, the outcome is the decoding of the
      first Service Data section's payload, and the sections after it are
      never looked at: replacing them with anything leaves the outcome as
      it was. */
  lemma DecodeUsesOnlyFirstServiceData(args: ReceivedEventArgs, i: nat, later: seq<DataSection>)
    requires ENVIRONMENTAL_SENSING_SERVICE_UUID in args.serviceUuids
    requires IsFirstServiceData(args.dataSections, i)
    ensures DecodeAdvertisement(Some(args))
         == DecodeServiceData(args.bluetoothAddress, args.dataSections[i].data)
    ensures DecodeAdvertisement(Some(args.(dataSections := args.dataSections[..i + 1] + later)))
         == DecodeAdvertisement(Some(args))
  {
    FirstServiceDataFinds(args.dataSections, i);
    var cut := args.dataSections[..i + 1] + later;
    assert IsFirstServiceData(cut, i) by {
      assert cut[i] == args.dataSections[i];
      forall j | 0 <= j < i ensures cut[j].dataType != SERVICE_DATA {
        assert cut[j] == args.dataSections[j];
      }
    }
    FirstServiceDataFinds(cut, i);
  }

  /** A reading is produced exactly when the service is advertised and the
      first Service Data section is long enough and carries subtype 4, 6 or
      10; its value never depends on sections other than that one. */
  lemma DecodeReadingIff(args: ReceivedEventArgs)
    ensures DecodeAdvertisement(Some(args)).Ok? && DecodeAdvertisement(Some(args)).value.IsReading()
        <==> exists i | 0 <= i < |args.dataSections| ::
               && ENVIRONMENTAL_SENSING_SERVICE_UUID in args.serviceUuids
               && IsFirstServiceData(args.dataSections, i)
               && ReadingPayload(args.dataSections[i].data)
  {
    var r := DecodeAdvertisement(Some(args));
    if ENVIRONMENTAL_SENSING_SERVICE_UUID in args.serviceUuids {
      match FirstServiceData(args.dataSections)
      case None =>
      case Some(i) =>
        forall k | 0 <= k < |args.dataSections| && IsFirstServiceData(args.dataSections, k)
          ensures k == i
        {
          FirstServiceDataFinds(args.dataSections, k);
        }
    }
  }

  /** A payload long enough for its subtype, with subtype 4, 6 or 10. */
  predicate ReadingPayload(vector: seq<u8>) {
    && |vector| > KIND_OFFSET
    && (|| (vector[KIND_OFFSET] in {4, 6} && |vector| > VALUE_OFFSET + 1)
        || (vector[KIND_OFFSET] == 10 && |vector| > VALUE_OFFSET))
  }

  /** The two value bytes are combined unsigned: 0xFF 0xFF reads as 65535
      tenths, not as -1. */
  lemma TwoByteValueIsUnsigned(address: u64, vector: seq<u8>)
    requires |vector| == 19 && vector[KIND_OFFSET] == 4
    requires vector[VALUE_OFFSET] == 0xFF && vector[VALUE_OFFSET + 1] == 0xFF
    ensures DecodeServiceData(address, vector) == Ok(Temperature(SensorValue(address, 65535)))
  {
  }

  /** One payload per subtype: 4 with value bytes FA 00 is 25.0 degrees,
      6 with 26 02 is 55.0 percent humidity, 10 with 0x50 is 80 percent
      battery, and subtype 99 is not recognised. */
  lemma DecodeExamples(address: u64, vector: seq<u8>)
    requires |vector| == 19
    ensures vector[KIND_OFFSET] == 4 && vector[VALUE_OFFSET] == 0xFA && vector[VALUE_OFFSET + 1] == 0 ==>
      DecodeServiceData(address, vector) == Ok(Temperature(SensorValue(address, 250)))
    ensures vector[KIND_OFFSET] == 6 && vector[VALUE_OFFSET] == 0x26 && vector[VALUE_OFFSET + 1] == 0x02 ==>
      DecodeServiceData(address, vector) == Ok(Humidity(SensorValue(address, 550)))
    ensures vector[KIND_OFFSET] == 10 && vector[VALUE_OFFSET] == 0x50 ==>
      DecodeServiceData(address, vector) == Ok(Battery(SensorValue(address, 80)))
    ensures vector[KIND_OFFSET] == 99 ==> DecodeServiceData(address, vector) == Ok(Unknown)
  {
  }
}
