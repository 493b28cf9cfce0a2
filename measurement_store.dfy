/**
 * `FlowDatabase` (database.py): the `devices` and `measurements` tables with
 * their insert-if-absent writes, the newest-first joined query, the name-
 * ordered device list, the counts and the wipe.
 *
 * Tables are sequences of rows in insertion order. Timestamps are integer
 * seconds; `created_at` defaults are the `now` of the writing call. Only
 * the SQLite branch is modelled; the SQL driver and connection handling
 * are not. The Postgres branch differs: it enforces the measurement's
 * foreign key to `devices` and rejects a negative `LIMIT`.
 */
module MeasurementStore {
  import opened Wrappers
  import opened Text
  import opened Sorting

  datatype Device = Device(deviceId: string, deviceName: string, location: Option<string>, createdAt: int)

  datatype Measurement = Measurement(
    id: nat, deviceId: string, timestamp: int,
    depth: Option<real>, velocity: Option<real>, flow: Option<real>,
    createdAt: int)

  /** A row of `SELECT m.*, d.device_name FROM measurements m JOIN devices d ...`. */
  datatype JoinedRow = JoinedRow(m: Measurement, deviceName: string)

  // ---------------------------------------------------------------------
  // Table invariants

  predicate HasDevice(devices: seq<Device>, deviceId: string)
  {
    exists i :: 0 <= i < |devices| && devices[i].deviceId == deviceId
  }

  /** `device_id TEXT PRIMARY KEY`. */
  predicate UniqueDeviceIds(devices: seq<Device>)
  {
    forall i, j :: 0 <= i < j < |devices| ==> devices[i].deviceId != devices[j].deviceId
  }

  predicate HasKey(ms: seq<Measurement>, deviceId: string, timestamp: int)
  {
    exists i :: 0 <= i < |ms| && ms[i].deviceId == deviceId && ms[i].timestamp == timestamp
  }

  /** `UNIQUE(device_id, timestamp)`. */
  predicate UniqueKeys(ms: seq<Measurement>)
  {
    forall i, j :: 0 <= i < j < |ms| ==> !(ms[i].deviceId == ms[j].deviceId && ms[i].timestamp == ms[j].timestamp)
  }

  /** `id INTEGER PRIMARY KEY AUTOINCREMENT`: distinct ids, all below the next one. */
  predicate IdsBelow(ms: seq<Measurement>, nextId: nat)
  {
    && (forall i :: 0 <= i < |ms| ==> ms[i].id < nextId)
    && (forall i, j :: 0 <= i < j < |ms| ==> ms[i].id != ms[j].id)
  }

  function FindDevice(devices: seq<Device>, deviceId: string): (r: Option<Device>)
    ensures r.Some? <==> HasDevice(devices, deviceId)
    ensures r.Some? ==> r.value in devices && r.value.deviceId == deviceId
  {
    if devices == [] then None
    else if devices[0].deviceId == deviceId then Some(devices[0])
    else
      var r := FindDevice(devices[1..], deviceId);
      assert forall i :: 0 <= i < |devices| - 1 ==> devices[1..][i] == devices[i + 1];
      r
  }

  // ---------------------------------------------------------------------
  // Writes

  /** `INSERT OR IGNORE INTO devices` / `ON CONFLICT (device_id) DO NOTHING`. */
  function InsertDevice(devices: seq<Device>, d: Device): (r: seq<Device>)
  {
    if HasDevice(devices, d.deviceId) then devices else devices + [d]
  }

  /**
   * After the insert the device is present; an existing row, its name and
   * location included, is never overwritten; at most one row is added; and
   * the primary key stays unique.
   */
  lemma InsertDeviceSpec(devices: seq<Device>, d: Device)
    ensures HasDevice(InsertDevice(devices, d), d.deviceId)
    ensures forall i :: 0 <= i < |devices| ==> InsertDevice(devices, d)[i] == devices[i]
    ensures |InsertDevice(devices, d)| == |devices| + (if HasDevice(devices, d.deviceId) then 0 else 1)
    ensures UniqueDeviceIds(devices) ==> UniqueDeviceIds(InsertDevice(devices, d))
  {
    if !HasDevice(devices, d.deviceId) {
      var r := devices + [d];
      assert r[|devices|].deviceId == d.deviceId;
    }
  }

  /** Inserting the same device twice changes nothing the second time. */
  lemma InsertDeviceIdempotent(devices: seq<Device>, d: Device, e: Device)
    requires e.deviceId == d.deviceId
    ensures InsertDevice(InsertDevice(devices, d), e) == InsertDevice(devices, d)
  {
    InsertDeviceSpec(devices, d);
  }

  /**
   * `INSERT OR IGNORE INTO measurements` keyed on `(device_id, timestamp)`:
   * a new row takes the next id; an existing key leaves the table as it is.
   */
  function InsertMeasurement(ms: seq<Measurement>, m: Measurement): (r: seq<Measurement>)
  {
    if HasKey(ms, m.deviceId, m.timestamp) then ms else ms + [m]
  }

  /** The insert keeps the table's key and id invariants and adds at most the one row. */
  lemma InsertMeasurementSpec(ms: seq<Measurement>, m: Measurement, nextId: nat)
    requires UniqueKeys(ms) && IdsBelow(ms, nextId) && m.id == nextId
    ensures HasKey(InsertMeasurement(ms, m), m.deviceId, m.timestamp)
    ensures UniqueKeys(InsertMeasurement(ms, m))
    ensures IdsBelow(InsertMeasurement(ms, m), if HasKey(ms, m.deviceId, m.timestamp) then nextId else nextId + 1)
    ensures HasKey(ms, m.deviceId, m.timestamp) ==> InsertMeasurement(ms, m) == ms
    ensures !HasKey(ms, m.deviceId, m.timestamp) ==> InsertMeasurement(ms, m) == ms + [m]
  {
    if !HasKey(ms, m.deviceId, m.timestamp) {
      var r := ms + [m];
      assert r[|ms|] == m;
    }
  }

  // ---------------------------------------------------------------------
  // Queries

  /** `if device_id:` — the filter applies only to a non-empty id. */
  predicate Selects(filter: Option<string>, deviceId: string)
  {
    filter.Some? && filter.value != "" ==> deviceId == filter.value
  }

  /**
   * The inner join with the optional device filter, before ordering: every
   * selected measurement whose device exists, with that device's name.
   */
  function Joined(devices: seq<Device>, ms: seq<Measurement>, filter: Option<string>): (r: seq<JoinedRow>)
    ensures forall i :: 0 <= i < |r| ==>
      && r[i].m in ms
      && Selects(filter, r[i].m.deviceId)
      && HasDevice(devices, r[i].m.deviceId)
      && r[i].deviceName == FindDevice(devices, r[i].m.deviceId).value.deviceName
    ensures forall m :: m in ms && Selects(filter, m.deviceId) && HasDevice(devices, m.deviceId) ==>
      JoinedRow(m, FindDevice(devices, m.deviceId).value.deviceName) in r
    ensures |r| <= |ms|
  {
    if ms == [] then []
    else
      var rest := Joined(devices, ms[1..], filter);
      assert forall m :: m in ms[1..] ==> m in ms;
      assert forall m :: m in ms ==> m == ms[0] || m in ms[1..];
      var m := ms[0];
      match FindDevice(devices, m.deviceId)
      case Some(d) =>
        if Selects(filter, m.deviceId) then [JoinedRow(m, d.deviceName)] + rest else rest
      case None => rest
  }

  /** `ORDER BY m.timestamp DESC`. */
  predicate NewerOrSame(a: JoinedRow, b: JoinedRow)
  {
    a.m.timestamp >= b.m.timestamp
  }

  lemma NewerOrSamePreorder()
    ensures TotalPreorder(NewerOrSame)
  {
  }

  /**
   * `get_measurements(device_id, limit)`: the selected joined rows, newest
   * first, cut to `limit` (SQLite reads a negative `LIMIT` as no limit).
   * The result holds `limit` rows when that many qualify, and no row left
   * out is newer than a row returned.
   */
  function Query(devices: seq<Device>, ms: seq<Measurement>, filter: Option<string>, limit: int): (r: seq<JoinedRow>)
    ensures limit >= 0 ==> |r| == if limit < |Joined(devices, ms, filter)| then limit else |Joined(devices, ms, filter)|
    ensures limit < 0 ==> |r| == |Joined(devices, ms, filter)|
    ensures forall i, j :: 0 <= i < j < |r| ==> r[i].m.timestamp >= r[j].m.timestamp
    ensures multiset(r) <= multiset(Joined(devices, ms, filter))
    ensures limit < 0 ==> multiset(r) == multiset(Joined(devices, ms, filter))
    ensures forall row :: row in r ==> row in Joined(devices, ms, filter)
    ensures forall x, y :: x in Joined(devices, ms, filter) && x !in r && y in r ==> x.m.timestamp <= y.m.timestamp
  {
    var joined := Joined(devices, ms, filter);
    NewerOrSamePreorder();
    var sorted := SortBy(joined, NewerOrSame);
    var r := Limit(sorted, limit);
    LimitOfSorted(joined, sorted, r);
    r
  }

  /** A prefix of a newest-first permutation keeps the newest rows. */
  lemma LimitOfSorted(joined: seq<JoinedRow>, sorted: seq<JoinedRow>, r: seq<JoinedRow>)
    requires SortedBy(sorted, NewerOrSame) && multiset(sorted) == multiset(joined) && r <= sorted
    ensures forall i, j :: 0 <= i < j < |r| ==> r[i].m.timestamp >= r[j].m.timestamp
    ensures multiset(r) <= multiset(joined)
    ensures forall row :: row in r ==> row in joined
    ensures forall x, y :: x in joined && x !in r && y in r ==> x.m.timestamp <= y.m.timestamp
  {
    assert sorted == r + sorted[|r|..];
    assert multiset(sorted) == multiset(r) + multiset(sorted[|r|..]);
    forall row | row in r ensures row in joined {
      assert row in multiset(r);
      assert row in multiset(sorted);
      assert row in multiset(joined);
    }
    forall x, y | x in joined && x !in r && y in r ensures x.m.timestamp <= y.m.timestamp {
      assert x in multiset(sorted);
      var k :| 0 <= k < |sorted| && sorted[k] == x;
      var j :| 0 <= j < |r| && r[j] == y;
      assert sorted[j] == y;
      assert NewerOrSame(sorted[j], sorted[k]);
    }
  }

  /** `ORDER BY device_name`, by code point. */
  predicate NameOrder(a: Device, b: Device)
  {
    LexLe(a.deviceName, b.deviceName)
  }

  lemma NameOrderPreorder()
    ensures TotalPreorder(NameOrder)
  {
    forall a: Device, b: Device ensures NameOrder(a, b) || NameOrder(b, a) {
      LexLeTotal(a.deviceName, b.deviceName);
    }
    forall a: Device, b: Device, c: Device | NameOrder(a, b) && NameOrder(b, c) ensures NameOrder(a, c) {
      LexLeTransitive(a.deviceName, b.deviceName, c.deviceName);
    }
  }

  /** `get_devices()`: every device once, ordered by name. */
  function DevicesByName(devices: seq<Device>): (r: seq<Device>)
    ensures multiset(r) == multiset(devices)
    ensures forall i, j :: 0 <= i < j < |r| ==> LexLe(r[i].deviceName, r[j].deviceName)
  {
    NameOrderPreorder();
    SortBy(devices, NameOrder)
  }

  /** Both tables and the id counter, as one value. */
  datatype Tables = Tables(devices: seq<Device>, measurements: seq<Measurement>, nextId: nat)

  /** The tables after `add_device`. */
  function WithDevice(t: Tables, d: Device): Tables
  {
    t.(devices := InsertDevice(t.devices, d))
  }

  /** The tables after `add_measurement`: a new key takes the next id. */
  function WithMeasurement(t: Tables, deviceId: string, timestamp: int,
                           depth: Option<real>, velocity: Option<real>, flow: Option<real>, now: int): Tables
  {
    var m := Measurement(t.nextId, deviceId, timestamp, depth, velocity, flow, now);
    t.(measurements := InsertMeasurement(t.measurements, m),
       nextId := if HasKey(t.measurements, deviceId, timestamp) then t.nextId else t.nextId + 1)
  }

  // ---------------------------------------------------------------------
  // The database object

  class FlowDatabase {
    var devices: seq<Device>
    var measurements: seq<Measurement>
    var nextId: nat

    ghost predicate Valid()
      reads this
    {
      UniqueDeviceIds(devices) && UniqueKeys(measurements) && IdsBelow(measurements, nextId)
    }

    ghost function State(): Tables
      reads this
    {
      Tables(devices, measurements, nextId)
    }

    /** A fresh database: both tables empty, ids counting from 1. */
    constructor ()
      ensures Valid()
      ensures devices == [] && measurements == [] && nextId == 1
    {
      devices := [];
      measurements := [];
      nextId := 1;
    }

    /** `add_device`: insert if absent, never overwriting. */
    method AddDevice(deviceId: string, deviceName: string, location: Option<string>, now: int)
      requires Valid()
      modifies this
      ensures Valid()
      ensures devices == InsertDevice(old(devices), Device(deviceId, deviceName, location, now))
      ensures measurements == old(measurements) && nextId == old(nextId)
    {
      InsertDeviceSpec(devices, Device(deviceId, deviceName, location, now));
      if FindDevice(devices, deviceId).None? {
        devices := devices + [Device(deviceId, deviceName, location, now)];
      }
    }

    /** `add_measurement`: insert if the `(device_id, timestamp)` key is new. */
    method AddMeasurement(deviceId: string, timestamp: int,
                          depth: Option<real>, velocity: Option<real>, flow: Option<real>, now: int)
      requires Valid()
      modifies this
      ensures Valid()
      ensures measurements == InsertMeasurement(old(measurements),
        Measurement(old(nextId), deviceId, timestamp, depth, velocity, flow, now))
      ensures nextId == if HasKey(old(measurements), deviceId, timestamp) then old(nextId) else old(nextId) + 1
      ensures devices == old(devices)
    {
      var m := Measurement(nextId, deviceId, timestamp, depth, velocity, flow, now);
      InsertMeasurementSpec(measurements, m, nextId);
      if !HasKey(measurements, deviceId, timestamp) {
        measurements := measurements + [m];
        nextId := nextId + 1;
      }
    }

    function GetMeasurements(deviceId: Option<string>, limit: int): (r: seq<JoinedRow>)
      reads this
      ensures r == Query(devices, measurements, deviceId, limit)
    {
      Query(devices, measurements, deviceId, limit)
    }

    function GetDevices(): (r: seq<Device>)
      reads this
      ensures r == DevicesByName(devices)
    {
      DevicesByName(devices)
    }

    /** `SELECT COUNT(*) FROM devices`. */
    function GetDeviceCount(): (n: nat)
      reads this
      ensures n == |devices|
    {
      |devices|
    }

    /** `SELECT COUNT(*) FROM measurements`. */
    function GetMeasurementCount(): (n: nat)
      reads this
      ensures n == |measurements|
    {
      |measurements|
    }

    /**
     * `delete_all_data`: both tables emptied. `AUTOINCREMENT` does not reuse
     * ids, so the id counter is kept.
     */
    method DeleteAllData()
      requires Valid()
      modifies this
      ensures Valid()
      ensures devices == [] && measurements == [] && nextId == old(nextId)
    {
      measurements := [];
      devices := [];
    }
  }

  // ---------------------------------------------------------------------
  // Properties of the queries

  /** With a truthy device id, every row returned belongs to that device. */
  lemma QueryFiltersDevice(devices: seq<Device>, ms: seq<Measurement>, deviceId: string, limit: int)
    requires deviceId != ""
    ensures forall row :: row in Query(devices, ms, Some(deviceId), limit) ==> row.m.deviceId == deviceId
  {
    var joined := Joined(devices, ms, Some(deviceId));
    forall row | row in joined ensures row.m.deviceId == deviceId {
      var i :| 0 <= i < |joined| && joined[i] == row;
    }
  }

  /**
   * Only measurements of registered devices are returned (the inner join),
   * each with its device's name.
   */
  lemma QueryJoinsDevices(devices: seq<Device>, ms: seq<Measurement>, filter: Option<string>, limit: int)
    ensures forall row :: row in Query(devices, ms, filter, limit) ==>
      row.m in ms && HasDevice(devices, row.m.deviceId)
      && row.deviceName == FindDevice(devices, row.m.deviceId).value.deviceName
  {
    var joined := Joined(devices, ms, filter);
    forall row | row in joined
      ensures row.m in ms && HasDevice(devices, row.m.deviceId)
      ensures row.deviceName == FindDevice(devices, row.m.deviceId).value.deviceName
    {
      var i :| 0 <= i < |joined| && joined[i] == row;
    }
  }

  /** With no limit and a falsy device id, every registered device's measurements are returned. */
  lemma QueryUnlimitedIsComplete(devices: seq<Device>, ms: seq<Measurement>, filter: Option<string>, limit: int)
    requires limit < 0 && (filter == None || filter == Some(""))
    ensures forall m :: m in ms && HasDevice(devices, m.deviceId) ==>
      JoinedRow(m, FindDevice(devices, m.deviceId).value.deviceName) in Query(devices, ms, filter, limit)
  {
    var r := Query(devices, ms, filter, limit);
    var joined := Joined(devices, ms, filter);
    forall x | x in joined ensures x in r {
      assert x in multiset(joined);
    }
  }

  /** A new device makes the device count grow by one; a known one leaves it. */
  lemma DeviceCountAfterInsert(devices: seq<Device>, d: Device)
    ensures |InsertDevice(devices, d)| == |devices| + (if HasDevice(devices, d.deviceId) then 0 else 1)
  {
    InsertDeviceSpec(devices, d);
  }
}
