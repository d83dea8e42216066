/** The scan command's aggregation: the advertisement callback forwards
    sensor readings over a channel, and the main loop takes them off one at
    a time into a per-address table of the last temperature, humidity and
    battery values seen.

    `SensorData` is the mutable table entry; `ScanSession` holds the channel
    (a queue of decoded advertisements) and the table (a map from address to
    entry). `Record` is the effect of one reading on a value snapshot of the
    table, and `RecordAll` the effect of many; the last-value-wins property
    is proved about them. Reading values are integer tenths (temperature,
    humidity) or percent (battery). */
module Scan {
  import opened Base
  import opened Advertisement

  /** The three readings kept per device. */
  datatype Readings = Readings(temperature: Option<int>, humidity: Option<int>, battery: Option<int>)

  const NoReadings: Readings := Readings(None, None, None)

  /** The table entry of one device, updated in place. */
  class SensorData {
    var temperature: Option<int>
    var humidity: Option<int>
    var battery: Option<int>

    function Snapshot(): Readings
      reads this
    {
      Readings(temperature, humidity, battery)
    }

    constructor()
      ensures Snapshot() == NoReadings
    {
      humidity := None;
      temperature := None;
      battery := None;
    }

    method SetTemperature(value: int)
      modifies this
      ensures Snapshot() == old(Snapshot()).(temperature := Some(value))
    {
      temperature := Some(value);
    }

    method SetHumidity(value: int)
      modifies this
      ensures Snapshot() == old(Snapshot()).(humidity := Some(value))
    {
      humidity := Some(value);
    }

    method SetBattery(value: int)
      modifies this
      ensures Snapshot() == old(Snapshot()).(battery := Some(value))
    {
      battery := Some(value);
    }
  }

  // ---------------------------------------------------------------------
  // The table as a value
  // ---------------------------------------------------------------------

  datatype Field = TemperatureField | HumidityField | BatteryField

  function Get(r: Readings, f: Field): Option<int> {
    match f
    case TemperatureField => r.temperature
    case HumidityField => r.humidity
    case BatteryField => r.battery
  }

  /** The field a decoded advertisement fills in, if any. */
  function FieldOf(kind: AdvertisementKind): (f: Option<Field>)
    ensures f.Some? <==> kind.IsReading()
  {
    match kind
    case Temperature(_) => Some(TemperatureField)
    case Humidity(_) => Some(HumidityField)
    case Battery(_) => Some(BatteryField)
    case _ => None
  }

  /** The table after one decoded advertisement: a reading creates its
      address's entry when absent and overwrites its own field there;
      anything else leaves the table as it was. */
  function Record(table: map<u64, Readings>, kind: AdvertisementKind): (t: map<u64, Readings>)
    ensures !kind.IsReading() ==> t == table
    ensures kind.IsReading() ==> t.Keys == table.Keys + {kind.reading.address}
  {
    if !kind.IsReading() then table
    else
      var a := kind.reading.address;
      var entry := if a in table then table[a] else NoReadings;
      var v := Some(kind.reading.value);
      table[a := match kind
                 case Temperature(_) => entry.(temperature := v)
                 case Humidity(_) => entry.(humidity := v)
                 case Battery(_) => entry.(battery := v)]
  }

  /** One reading sets exactly its own field of its own address's entry:
      the entry's other fields, and every other address's entry, stay as
      they were, and a new entry starts empty. */
  lemma RecordUpdatesOneField(table: map<u64, Readings>, kind: AdvertisementKind)
    requires kind.IsReading()
    ensures var t := Record(table, kind);
      var a := kind.reading.address;
      var before := if a in table then table[a] else NoReadings;
      && t.Keys == table.Keys + {a}
      && (forall b | b in table && b != a :: t[b] == table[b])
      && (forall f: Field :: Get(t[a], f) == if Some(f) == FieldOf(kind) then Some(kind.reading.value) else Get(before, f))
  {
  }

  /** Recording into a table equals first giving the address an empty
      entry when it has none, then recording into that entry. */
  lemma RecordInEntry(table: map<u64, Readings>, kind: AdvertisementKind)
    requires kind.IsReading()
    ensures var a := kind.reading.address;
      var withEntry := if a in table then table else table[a := NoReadings];
      Record(table, kind) == withEntry[a := Record(withEntry, kind)[a]]
  {
  }

  function RecordAll(table: map<u64, Readings>, kinds: seq<AdvertisementKind>): map<u64, Readings> {
    if kinds == [] then table
    else Record(RecordAll(table, kinds[..|kinds| - 1]), kinds[|kinds| - 1])
  }

  /** The last value a sequence of advertisements carries for one field of
      one address. */
  function LastValue(kinds: seq<AdvertisementKind>, a: u64, f: Field): Option<int> {
    if kinds == [] then None
    else
      var k := kinds[|kinds| - 1];
      if FieldOf(k) == Some(f) && k.reading.address == a then Some(k.reading.value)
      else LastValue(kinds[..|kinds| - 1], a, f)
  }

  /** Starting from an empty table, an address has an entry exactly when
      some reading came from it, and each of its fields holds the last value
      received for that field (none if none was received). */
  lemma {:induction false} LastValueWins(kinds: seq<AdvertisementKind>, a: u64, f: Field)
    ensures var t := RecordAll(map[], kinds);
      && (a in t <==> exists k | 0 <= k < |kinds| :: kinds[k].IsReading() && kinds[k].reading.address == a)
      && (a in t ==> Get(t[a], f) == LastValue(kinds, a, f))
  {
    if kinds != [] {
      var init := kinds[..|kinds| - 1];
      var last := kinds[|kinds| - 1];
      LastValueWins(init, a, f);
      var t := RecordAll(map[], kinds);
      if last.IsReading() {
        RecordUpdatesOneField(RecordAll(map[], init), last);
        if last.reading.address == a {
          assert kinds[|kinds| - 1].IsReading() && kinds[|kinds| - 1].reading.address == a;
          if a !in RecordAll(map[], init) {
            assert LastValue(init, a, f) == None by {
              NoReadingNoValue(init, a, f);
            }
          }
        }
      }
      if exists k | 0 <= k < |kinds| :: kinds[k].IsReading() && kinds[k].reading.address == a {
        var k :| 0 <= k < |kinds| && kinds[k].IsReading() && kinds[k].reading.address == a;
        if k < |kinds| - 1 {
          assert init[k] == kinds[k];
        }
      }
      assert forall k | 0 <= k < |init| :: init[k] == kinds[k];
    }
  }

  lemma {:induction false} NoReadingNoValue(kinds: seq<AdvertisementKind>, a: u64, f: Field)
    requires !exists k | 0 <= k < |kinds| :: kinds[k].IsReading() && kinds[k].reading.address == a
    ensures LastValue(kinds, a, f) == None
  {
    if kinds != [] {
      var init := kinds[..|kinds| - 1];
      assert forall k | 0 <= k < |init| :: init[k] == kinds[k];
      NoReadingNoValue(init, a, f);
    }
  }

  /** Temperature 25.0 then 26.0 then humidity 40.0 from one device leave
      26.0, 40.0 and no battery value in its entry. */
  lemma ScanExample(a: u64)
    ensures RecordAll(map[], [Temperature(SensorValue(a, 250)), Temperature(SensorValue(a, 260)),
                              Humidity(SensorValue(a, 400))])
         == map[a := Readings(Some(260), Some(400), None)]
  {
    var kinds := [Temperature(SensorValue(a, 250)), Temperature(SensorValue(a, 260)), Humidity(SensorValue(a, 400))];
    assert kinds[..2][..1] == kinds[..1];
    assert kinds[..1][..0] == [];
    assert RecordAll(map[], kinds[..1]) == map[a := Readings(Some(250), None, None)];
    assert RecordAll(map[], kinds[..2]) == map[a := Readings(Some(260), None, None)];
    assert kinds[..3] == kinds;
  }

  // ---------------------------------------------------------------------
  // The imperative scan
  // ---------------------------------------------------------------------

  /** The channel from the advertisement callback to the main loop, and the
      table of devices seen. */
  class ScanSession {
    var queue: seq<AdvertisementKind>
    var sensors: map<u64, SensorData>

    /** No two addresses share an entry object. */
    predicate Valid()
      reads this`sensors
    {
      forall a, b | a in sensors && b in sensors && a != b :: sensors[a] != sensors[b]
    }

    /** The table's current contents. */
    function Table(): map<u64, Readings>
      reads this`sensors, sensors.Values
    {
      map a | a in sensors :: sensors[a].Snapshot()
    }

    constructor()
      ensures Valid() && queue == [] && Table() == map[]
    {
      queue := [];
      sensors := map[];
    }

    /** The advertisement callback: forwards readings, drops everything
        else. */
    method OnReceived(args: Option<ReceivedEventArgs>)
      requires DecodeAdvertisement(args).Ok?
      modifies this`queue
      ensures var kind := DecodeAdvertisement(args).value;
        queue == old(queue) + (if kind.IsReading() then [kind] else [])
    {
      var value := DecodeAdvertisement(args).value;
      match value {
        case Temperature(_) =>
          queue := queue + [value];
        case Humidity(_) =>
          queue := queue + [value];
        case Battery(_) =>
          queue := queue + [value];
        case _ =>
      }
    }

    /** Takes one advertisement off the channel into the table; `false`
        when there was none to take. */
    method ProcessData() returns (received: bool)
      requires Valid()
      modifies this, sensors.Values
      ensures Valid()
      ensures received <==> old(queue) != []
      ensures !received ==> queue == old(queue) && Table() == old(Table())
      ensures received ==> queue == old(queue)[1..] && Table() == Record(old(Table()), old(queue)[0])
    {
      if queue == [] {
        return false;
      }
      var data := queue[0];
      queue := queue[1..];
      if data.IsReading() {
        Store(data);
      }
      return true;
    }

    /** The table update for one reading: the entry for its address,
        created empty when absent, gets the reading's field set. */
    method Store(data: AdvertisementKind)
      requires Valid() && data.IsReading()
      modifies this`sensors, sensors.Values
      ensures Valid()
      ensures Table() == Record(old(Table()), data)
    {
      ghost var table := Table();
      if data.reading.address !in sensors {
        AddEntry(data.reading.address);
      }
      RecordInEntry(table, data);
      SetField(data);
    }

    /** A fresh, empty entry for a new address. */
    method AddEntry(a: u64)
      requires Valid() && a !in sensors
      modifies this`sensors
      ensures Valid() && a in sensors && fresh(sensors[a])
      ensures sensors == old(sensors)[a := sensors[a]]
      ensures Table() == old(Table())[a := NoReadings]
    {
      var entry := new SensorData();
      sensors := sensors[a := entry];
    }

    /** Sets the reading's field in its address's existing entry. */
    method SetField(data: AdvertisementKind)
      requires Valid() && data.IsReading() && data.reading.address in sensors
      modifies sensors[data.reading.address]
      ensures Valid()
      ensures Table() == old(Table())[data.reading.address := Record(old(Table()), data)[data.reading.address]]
    {
      var value := data.reading;
      var entry := sensors[value.address];
      match data {
        case Temperature(_) => entry.SetTemperature(value.value);
        case Humidity(_) => entry.SetHumidity(value.value);
        case Battery(_) => entry.SetBattery(value.value);
      }
      assert forall b | b in sensors && b != value.address :: sensors[b] != entry;
    }
  }
}
