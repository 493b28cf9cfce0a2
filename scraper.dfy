/**
 * The stateful part of `DataScraper` (scraper.py): the per-device baseline
 * `last_data`, the change detector `_has_data_changed` and the store gate
 * `store_measurement`, with the `FlowDatabase` it writes to.
 *
 * `datetime.now(...)` is the parameter `now`. How the database answers the
 * two writes is the parameter `storage`: `add_device` and `add_measurement`
 * commit on their own connections, so the second can raise after the
 * first has committed; the exception leaves `store_measurement`.
 */
module Scraper {
  import opened Wrappers
  import MeasurementStore

  /** The compared part of a reading: `depth_mm`, `velocity_mps`, `flow_lps`. */
  datatype Fields = Fields(depth: Option<real>, velocity: Option<real>, flow: Option<real>)

  /** `depth_changed or velocity_changed or flow_changed`. */
  predicate Differs(last: Fields, next: Fields)
  {
    last.depth != next.depth || last.velocity != next.velocity || last.flow != next.flow
  }

  /** Comparing the three fields is comparing whole readings; nothing else is compared. */
  lemma DiffersIffUnequal(last: Fields, next: Fields)
    ensures Differs(last, next) <==> last != next
  {
  }

  /** The detector's answer: a first sighting, or some field differs from the baseline. */
  predicate Changed(lastData: map<string, Fields>, deviceId: string, next: Fields)
  {
    deviceId !in lastData || Differs(lastData[deviceId], next)
  }

  /** The baseline after the detector ran: replaced only on change. */
  function AfterObserve(lastData: map<string, Fields>, deviceId: string, next: Fields): map<string, Fields>
  {
    if Changed(lastData, deviceId, next) then lastData[deviceId := next] else lastData
  }

  /**
   * Whatever the answer, the baseline ends up equal to the reading, and
   * other devices' baselines are untouched.
   */
  lemma ObserveRecordsReading(lastData: map<string, Fields>, deviceId: string, next: Fields)
    ensures deviceId in AfterObserve(lastData, deviceId, next)
    ensures AfterObserve(lastData, deviceId, next)[deviceId] == next
    ensures forall d :: d != deviceId ==>
      (d in AfterObserve(lastData, deviceId, next) <==> d in lastData)
      && (d in lastData ==> AfterObserve(lastData, deviceId, next)[d] == lastData[d])
  {
  }

  /** A first sighting always reports a change. */
  lemma FirstSightingChanges(lastData: map<string, Fields>, deviceId: string, next: Fields)
    requires deviceId !in lastData
    ensures Changed(lastData, deviceId, next)
    ensures AfterObserve(lastData, deviceId, next) == lastData[deviceId := next]
  {
  }

  /** Seeing the same reading again reports no change and changes nothing. */
  lemma ObserveIdempotent(lastData: map<string, Fields>, deviceId: string, next: Fields)
    ensures !Changed(AfterObserve(lastData, deviceId, next), deviceId, next)
    ensures AfterObserve(AfterObserve(lastData, deviceId, next), deviceId, next) == AfterObserve(lastData, deviceId, next)
  {
  }

  /** The baseline of a device, when it has one. */
  function Baseline(lastData: map<string, Fields>, deviceId: string): Option<Fields>
  {
    if deviceId in lastData then Some(lastData[deviceId]) else None
  }

  /** The detector's answers over a series of readings of one device, in order. */
  function ChangeFlags(lastData: map<string, Fields>, deviceId: string, readings: seq<Fields>): (r: seq<bool>)
    ensures |r| == |readings|
    decreases |readings|
  {
    if readings == [] then []
    else [Changed(lastData, deviceId, readings[0])] + ChangeFlags(AfterObserve(lastData, deviceId, readings[0]), deviceId, readings[1..])
  }

  /**
   * Over a series of readings of one device, the detector reports a change
   * exactly at the readings that differ from the one before them, and at
   * the first one exactly when it differs from the baseline (always when
   * the device is new).
   */
  lemma {:induction false} ChangedExactlyAtTransitions(lastData: map<string, Fields>, deviceId: string, readings: seq<Fields>)
    ensures forall i :: 0 <= i < |readings| ==>
      ChangeFlags(lastData, deviceId, readings)[i]
        == (if i == 0 then Baseline(lastData, deviceId) != Some(readings[0]) else readings[i - 1] != readings[i])
    decreases |readings|
  {
    if readings != [] {
      var next := AfterObserve(lastData, deviceId, readings[0]);
      DiffersIffUnequal(if deviceId in lastData then lastData[deviceId] else readings[0], readings[0]);
      ObserveRecordsReading(lastData, deviceId, readings[0]);
      ChangedExactlyAtTransitions(next, deviceId, readings[1..]);
      assert ChangeFlags(lastData, deviceId, readings)[0] == (Baseline(lastData, deviceId) != Some(readings[0]));
      forall i | 1 <= i < |readings|
        ensures ChangeFlags(lastData, deviceId, readings)[i] == (readings[i - 1] != readings[i])
      {
        assert ChangeFlags(lastData, deviceId, readings)[i] == ChangeFlags(next, deviceId, readings[1..])[i - 1];
        assert readings[1..][i - 1] == readings[i];
        if i > 1 {
          assert readings[1..][i - 2] == readings[i - 1];
        }
      }
    }
  }

  /** What `store_measurement` reports: `True`, `False`, or an exception. */
  datatype StoreOutcome = Stored | Skipped | Raised

  /** The database's answer to the writes of one store: both commit, or one of them raises. */
  datatype Storage = Available | DeviceWriteRaises | MeasurementWriteRaises

  datatype StoreStep = StoreStep(outcome: StoreOutcome, lastData: map<string, Fields>)

  /** Whether the detector lets the reading through to the writes. */
  predicate Writes(lastData: map<string, Fields>, storeAll: bool, deviceId: string, next: Fields)
  {
    storeAll || Changed(lastData, deviceId, next)
  }

  /** The outcome and the new baseline of one `store_measurement` call. */
  function StoreResult(lastData: map<string, Fields>, storeAll: bool, deviceId: string, next: Fields, storage: Storage): StoreStep
  {
    var observed := if storeAll then lastData else AfterObserve(lastData, deviceId, next);
    if !Writes(lastData, storeAll, deviceId, next) then StoreStep(Skipped, observed)
    else if storage != Available then StoreStep(Raised, observed)
    else StoreStep(Stored, observed[deviceId := next])
  }

  /** The tables after one `store_measurement` call: each write that committed. */
  function StoreTables(t: MeasurementStore.Tables, lastData: map<string, Fields>, storeAll: bool,
                       deviceId: string, deviceName: string, next: Fields, now: int, storage: Storage): MeasurementStore.Tables
  {
    if !Writes(lastData, storeAll, deviceId, next) || storage == DeviceWriteRaises then t
    else
      var withDevice := MeasurementStore.WithDevice(t, MeasurementStore.Device(deviceId, deviceName, None, now));
      if storage == MeasurementWriteRaises then withDevice
      else MeasurementStore.WithMeasurement(withDevice, deviceId, now, next.depth, next.velocity, next.flow, now)
  }

  /**
   * A stored reading is in the measurement table under its device and
   * time, with its device registered; a skipped one, or one whose device
   * write raised, leaves the tables as they were; when only the measurement
   * write raised, the device row stays committed without the measurement.
   */
  lemma StoreTablesSpec(t: MeasurementStore.Tables, lastData: map<string, Fields>, storeAll: bool,
                        deviceId: string, deviceName: string, next: Fields, now: int, storage: Storage)
    ensures var r := StoreTables(t, lastData, storeAll, deviceId, deviceName, next, now, storage);
      var outcome := StoreResult(lastData, storeAll, deviceId, next, storage).outcome;
      && (outcome == Stored ==>
            && MeasurementStore.HasDevice(r.devices, deviceId)
            && MeasurementStore.HasKey(r.measurements, deviceId, now)
            && (forall i :: 0 <= i < |t.measurements| ==> r.measurements[i] == t.measurements[i])
            && |r.measurements| <= |t.measurements| + 1)
      && (outcome == Skipped || storage == DeviceWriteRaises ==> r == t)
      && (outcome == Raised ==> r.measurements == t.measurements && r.nextId == t.nextId)
      && (outcome == Raised && storage == MeasurementWriteRaises ==>
            MeasurementStore.HasDevice(r.devices, deviceId) && r.devices == MeasurementStore.InsertDevice(t.devices,
              MeasurementStore.Device(deviceId, deviceName, None, now)))
  {
    var d := MeasurementStore.Device(deviceId, deviceName, None, now);
    MeasurementStore.InsertDeviceSpec(t.devices, d);
    var m := MeasurementStore.Measurement(t.nextId, deviceId, now, next.depth, next.velocity, next.flow, now);
    if !MeasurementStore.HasKey(t.measurements, deviceId, now) {
      var ms := t.measurements + [m];
      assert ms[|t.measurements|] == m;
    }
  }

  /**
   * With change detection, an unchanged reading is skipped; anything else
   * reaches the database, and a stored reading becomes the baseline in both
   * modes.
   */
  lemma StoreResultSpec(lastData: map<string, Fields>, storeAll: bool, deviceId: string, next: Fields, storage: Storage)
    ensures StoreResult(lastData, storeAll, deviceId, next, storage).outcome == Skipped
      <==> !storeAll && !Changed(lastData, deviceId, next)
    ensures StoreResult(lastData, storeAll, deviceId, next, storage).outcome == Stored
      <==> (storeAll || Changed(lastData, deviceId, next)) && storage == Available
    ensures StoreResult(lastData, storeAll, deviceId, next, storage).outcome == Stored ==>
      StoreResult(lastData, storeAll, deviceId, next, storage).lastData == lastData[deviceId := next]
    ensures StoreResult(lastData, storeAll, deviceId, next, storage).outcome == Skipped ==>
      StoreResult(lastData, storeAll, deviceId, next, storage).lastData == lastData
  {
  }

  /**
   * With change detection, a reading whose write raised is already the
   * baseline, so storing it again is skipped: the reading is never written.
   */
  lemma FailedStoreIsNotRetried(lastData: map<string, Fields>, deviceId: string, next: Fields, storage: Storage)
    requires Changed(lastData, deviceId, next) && storage != Available
    ensures StoreResult(lastData, false, deviceId, next, storage).outcome == Raised
    ensures StoreResult(StoreResult(lastData, false, deviceId, next, storage).lastData, false, deviceId, next, Available).outcome == Skipped
  {
    ObserveRecordsReading(lastData, deviceId, next);
  }

  /** In store-all mode every reading is written while the database is up. */
  lemma StoreAllAlwaysStores(lastData: map<string, Fields>, deviceId: string, next: Fields)
    ensures StoreResult(lastData, true, deviceId, next, Available).outcome == Stored
    ensures StoreResult(StoreResult(lastData, true, deviceId, next, Available).lastData, true, deviceId, next, Available).outcome == Stored
  {
  }

  /** `value.lower() in ("1", "true", "yes")` (no other character lower-cases into these words). */
  predicate EnvFlag(value: string)
  {
    var lower := seq(|value|, i requires 0 <= i < |value| => if 'A' <= value[i] <= 'Z' then (value[i] as int + 32) as char else value[i]);
    lower == "1" || lower == "true" || lower == "yes"
  }

  class DataScraper {
    var lastData: map<string, Fields>
    const forceRequests: bool
    const storeAllReadings: bool
    const db: MeasurementStore.FlowDatabase

    ghost predicate Valid()
      reads this, db
    {
      db.Valid()
    }

    /**
     * `DataScraper(db)`: an empty baseline; `force_requests` from the
     * `SCRAPER_FORCE_REQUESTS` value; the `STORE_ALL_READINGS` setting.
     */
    constructor (db: MeasurementStore.FlowDatabase, forceRequestsEnv: string, storeAllReadings: bool)
      requires db.Valid()
      ensures Valid()
      ensures this.db == db && lastData == map[]
      ensures forceRequests == EnvFlag(forceRequestsEnv) && this.storeAllReadings == storeAllReadings
    {
      this.db := db;
      lastData := map[];
      forceRequests := EnvFlag(forceRequestsEnv);
      this.storeAllReadings := storeAllReadings;
    }

    /** `_has_data_changed`: report a change and move the baseline only then. */
    method HasDataChanged(deviceId: string, next: Fields) returns (changed: bool)
      modifies this
      ensures changed == Changed(old(lastData), deviceId, next)
      ensures lastData == AfterObserve(old(lastData), deviceId, next)
    {
      if deviceId !in lastData {
        lastData := lastData[deviceId := next];
        return true;
      }
      var last := lastData[deviceId];
      var depthChanged := last.depth != next.depth;
      var velocityChanged := last.velocity != next.velocity;
      var flowChanged := last.flow != next.flow;
      changed := depthChanged || velocityChanged || flowChanged;
      if changed {
        lastData := lastData[deviceId := next];
      }
    }

    /**
     * `store_measurement`: gated by the detector unless every reading is
     * stored; then `add_device`, `add_measurement` at `now`, and the reading
     * becomes the baseline. Each write that committed before an exception
     * stays committed.
     */
    method StoreMeasurement(deviceId: string, deviceName: string,
                            depth: Option<real>, velocity: Option<real>, flow: Option<real>,
                            now: int, storage: Storage)
      returns (outcome: StoreOutcome)
      requires Valid()
      modifies this, db
      ensures Valid()
      ensures StoreStep(outcome, lastData)
        == StoreResult(old(lastData), storeAllReadings, deviceId, Fields(depth, velocity, flow), storage)
      ensures db.State() == StoreTables(old(db.State()), old(lastData), storeAllReadings, deviceId, deviceName,
        Fields(depth, velocity, flow), now, storage)
      ensures outcome == Stored ==>
        && db.devices == MeasurementStore.InsertDevice(old(db.devices), MeasurementStore.Device(deviceId, deviceName, None, now))
        && db.measurements == MeasurementStore.InsertMeasurement(old(db.measurements),
             MeasurementStore.Measurement(old(db.nextId), deviceId, now, depth, velocity, flow, now))
    {
      var next := Fields(depth, velocity, flow);
      if !storeAllReadings {
        var changed := HasDataChanged(deviceId, next);
        if !changed {
          return Skipped;
        }
      }
      if storage == DeviceWriteRaises {
        return Raised;
      }
      db.AddDevice(deviceId, deviceName, None, now);
      if storage == MeasurementWriteRaises {
        return Raised;
      }
      db.AddMeasurement(deviceId, now, depth, velocity, flow, now);
      lastData := lastData[deviceId := next];
      return Stored;
    }
  }
}
