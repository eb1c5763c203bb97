/** Temperature collection from the primary hardware-sensor backend
    (get_temperatures_lhm).

    The backend's lifecycle (creating the computer handle, enabling the CPU and GPU
    classes, opening, refreshing and closing it) is foreign code; what the model takes
    is the data it hands back: the hardware items with their sensors, or the exception
    it raised on the way.
 */
module LhmSensors {

  datatype Option<T> = None | Some(value: T)

  /** A temperature as it is recorded for an entry: a finite float, an infinite float,
      a float NaN, or a value of some other type. */
  datatype Current = Finite(celsius: real) | Infinite(negative: bool) | NaN | NonFloat

  /** The kind of quantity a sensor measures; only temperatures are collected. */
  datatype SensorType = Temperature | OtherType(name: string)

  /** A sensor as the backend reports it; a sensor with no reading has value None. */
  datatype Sensor = Sensor(name: string, kind: SensorType, value: Option<Current>)

  /** A hardware item (a CPU, a GPU) with its sensors. */
  datatype HardwareItem = HardwareItem(name: string, sensors: seq<Sensor>)

  /** What the backend hands back for one query: the hardware items, or the message of
      the exception it raised. */
  datatype Backend = Opened(items: seq<HardwareItem>) | Raised(message: string)

  /** One collected reading: the sensor's name and its temperature. */
  datatype Entry = Entry(sensorName: string, current: Current)

  /** Collected readings by hardware-item name. */
  type Groups = map<string, seq<Entry>>

  /** Why the collection produced no data. */
  datatype LhmError =
    | NotLoaded(storedError: string)
    | OperationFailed(message: string)

  /** The entry recorded for a sensor: a missing value becomes NaN. */
  function EntryOf(s: Sensor): Entry
  {
    Entry(s.name, if s.value.Some? then s.value.value else NaN)
  }

  predicate IsTemperature(s: Sensor)
  {
    s.kind == Temperature
  }

  /** The entries collected for one hardware item: one per temperature sensor, in order. */
  function GroupEntries(sensors: seq<Sensor>): (r: seq<Entry>)
    ensures |r| <= |sensors|
    ensures forall e :: e in r <==>
      exists k :: 0 <= k < |sensors| && IsTemperature(sensors[k]) && e == EntryOf(sensors[k])
    ensures r == [] <==> forall k :: 0 <= k < |sensors| ==> !IsTemperature(sensors[k])
    decreases |sensors|
  {
    if sensors == [] then []
    else
      var init := sensors[..|sensors| - 1];
      var last := sensors[|sensors| - 1];
      assert forall k :: 0 <= k < |init| ==> init[k] == sensors[k];
      GroupEntries(init) + (if IsTemperature(last) then [EntryOf(last)] else [])
  }

  /** Collecting the entries of a concatenation is concatenating the collected entries:
      with GroupEntriesOfOne, this fixes the order of the entries and how many there are. */
  lemma {:induction false} GroupEntriesAppend(a: seq<Sensor>, b: seq<Sensor>)
    ensures GroupEntries(a + b) == GroupEntries(a) + GroupEntries(b)
    decreases |b|
  {
    if b == [] {
      assert a + b == a;
    } else {
      var b' := b[..|b| - 1];
      GroupEntriesAppend(a, b');
      assert (a + b)[..|a + b| - 1] == a + b';
      assert (a + b)[|a + b| - 1] == b[|b| - 1];
    }
  }

  /** One sensor gives one entry when it measures a temperature, and none otherwise. */
  lemma GroupEntriesOfOne(s: Sensor)
    ensures GroupEntries([s]) == if IsTemperature(s) then [EntryOf(s)] else []
  {
    assert [s][..0] == [];
  }

  /** The groups collected from the hardware items, in order: an item is added under its
      name only when it has a temperature sensor, and a later item with the same name
      replaces an earlier one. */
  function CollectGroups(items: seq<HardwareItem>): (r: Groups)
    ensures forall g :: g in r ==> r[g] != []
    ensures forall g :: g in r <==>
      exists i :: 0 <= i < |items| && items[i].name == g && GroupEntries(items[i].sensors) != []
    decreases |items|
  {
    if items == [] then map[]
    else
      var init := items[..|items| - 1];
      var last := items[|items| - 1];
      assert forall i :: 0 <= i < |init| ==> init[i] == items[i];
      var entries := GroupEntries(last.sensors);
      if entries != [] then CollectGroups(init)[last.name := entries] else CollectGroups(init)
  }

  /** The collector: walks the hardware items and their sensors, filling the group map. */
  method GetTemperaturesLhm(available: bool, loadError: string, backend: Backend)
    returns (temps: Groups, err: Option<LhmError>)
    ensures !available ==> temps == map[] && err == Some(NotLoaded(loadError))
    ensures available && backend.Raised? ==>
      temps == map[] && err == Some(OperationFailed(backend.message))
    ensures available && backend.Opened? ==> temps == CollectGroups(backend.items) && err == None
    ensures err.None? <==> available && backend.Opened?
  {
    temps := map[];
    if !available {
      return temps, Some(NotLoaded(loadError));
    }
    if backend.Raised? {
      return map[], Some(OperationFailed(backend.message));
    }
    var items := backend.items;
    for i := 0 to |items|
      invariant temps == CollectGroups(items[..i])
    {
      var item := items[i];
      var groupTemps: seq<Entry> := [];
      for k := 0 to |item.sensors|
        invariant groupTemps == GroupEntries(item.sensors[..k])
      {
        var sensor := item.sensors[k];
        assert item.sensors[..k + 1][..k] == item.sensors[..k];
        if sensor.kind == Temperature {
          var current := if sensor.value.Some? then sensor.value.value else NaN;
          groupTemps := groupTemps + [Entry(sensor.name, current)];
        }
      }
      assert item.sensors[..|item.sensors|] == item.sensors;
      assert items[..i + 1][..i] == items[..i];
      if groupTemps != [] {
        temps := temps[item.name := groupTemps];
      }
    }
    assert items[..|items|] == items;
    return temps, None;
  }

  /** Every collected group is the entry list of some hardware item of that name. */
  lemma {:induction false} GroupComesFromItem(items: seq<HardwareItem>, g: string)
    requires g in CollectGroups(items)
    ensures exists i ::
      0 <= i < |items| && items[i].name == g && CollectGroups(items)[g] == GroupEntries(items[i].sensors)
    decreases |items|
  {
    var init := items[..|items| - 1];
    var last := items[|items| - 1];
    assert forall i :: 0 <= i < |init| ==> init[i] == items[i];
    if last.name == g && GroupEntries(last.sensors) != [] {
      assert CollectGroups(items)[g] == GroupEntries(items[|items| - 1].sensors);
    } else {
      GroupComesFromItem(init, g);
    }
  }

  /** A temperature sensor without a reading is recorded in its item's group as NaN. */
  lemma MissingValueRecordedAsNaN(sensors: seq<Sensor>, k: nat)
    requires k < |sensors| && IsTemperature(sensors[k]) && sensors[k].value.None?
    ensures Entry(sensors[k].name, NaN) in GroupEntries(sensors)
  {
    assert EntryOf(sensors[k]) == Entry(sensors[k].name, NaN);
  }

  /** The group of a name holds the entries of the LAST item of that name that has a
      temperature sensor; earlier items of the same name are overwritten. */
  lemma {:induction false} LastItemOfNameWins(items: seq<HardwareItem>, i: nat)
    requires i < |items| && GroupEntries(items[i].sensors) != []
    requires forall j :: i < j < |items| && items[j].name == items[i].name ==>
      GroupEntries(items[j].sensors) == []
    ensures items[i].name in CollectGroups(items)
    ensures CollectGroups(items)[items[i].name] == GroupEntries(items[i].sensors)
    decreases |items|
  {
    var init := items[..|items| - 1];
    var last := items[|items| - 1];
    if i < |items| - 1 {
      assert init[i] == items[i];
      assert forall j :: i < j < |init| ==> init[j] == items[j];
      LastItemOfNameWins(init, i);
      assert last.name != items[i].name || GroupEntries(last.sensors) == [];
    }
  }

  /** Two items of the same name, both with temperature sensors: only the second one's
      readings are kept. */
  lemma SameNameOverwrites(first: HardwareItem, second: HardwareItem)
    requires first.name == second.name
    requires GroupEntries(first.sensors) != [] && GroupEntries(second.sensors) != []
    ensures CollectGroups([first, second]) == map[second.name := GroupEntries(second.sensors)]
  {
    assert [first, second][..1] == [first];
    assert [first][..0] == [];
  }
}
