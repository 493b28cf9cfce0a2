/**
 * The poll-cycle bookkeeping of `ContinuousMonitor` (monitor.py): one
 * `check_for_updates` per attempt, the bounded retry cycle around it, the
 * periodic health summary and the restart loop of `main`.
 *
 * Each attempt's network answers, database availability and clock reading
 * are an `Attempt` value; `asyncio.sleep` is counted, not performed.
 */
module Monitor {
  import opened Wrappers
  import FetchChain
  import Scraper
  import MeasurementStore

  const MaxConsecutiveErrors: nat := 10
  const MaxRetryAttempts: nat := 3
  const RetryDelay: nat := 5
  const HealthCheckInterval: nat := 300
  /** Seconds without a success after which a health check warns. */
  const StaleAfter: nat := 600
  const MaxRestarts: nat := 5
  const RestartDelay: nat := 60

  /** The one configured device, `DEVICES["FIT100"]`. */
  const DeviceId: string := "FIT100"
  const DeviceName: string := "FIT100 Main Inflow Lismore STP"
  const DeviceSelectors: map<string, string> :=
    map["depth_mm" := "#div_varvalue_10", "velocity_mps" := "#div_varvalue_6", "flow_lps" := "#div_varvalue_42"]

  // ---------------------------------------------------------------------
  // One check

  /** `check_for_updates` returns `None`, `False` or `True`. */
  datatype CheckOutcome = ReturnedNone | ReturnedFalse | ReturnedTrue
  {
    predicate Truthy()
    {
      this == ReturnedTrue
    }
  }

  /** What the outside world answers during one attempt. */
  datatype Attempt = Attempt(env: FetchChain.FetchEnv, storage: Scraper.Storage, now: int)

  /**
   * A field of `page_data`: the canonical key when present, else its alias
   * (a numeric alias value is taken as it is).
   */
  function PickField(page: map<string, real>, canonical: string, alias: string): (r: Option<real>)
    ensures canonical in page ==> r == Some(page[canonical])
    ensures canonical !in page ==> (r.Some? <==> alias in page)
    ensures canonical !in page && alias in page ==> r == Some(page[alias])
  {
    if canonical in page then Some(page[canonical])
    else if alias in page then Some(page[alias])
    else None
  }

  /** The three readings taken from the fetched data. */
  function Readings(page: map<string, real>): Scraper.Fields
  {
    Scraper.Fields(PickField(page, "depth_mm", "depth"), PickField(page, "velocity_mps", "velocity"),
                   PickField(page, "flow_lps", "flow"))
  }

  predicate AnyValue(f: Scraper.Fields)
  {
    f.depth.Some? || f.velocity.Some? || f.flow.Some?
  }

  /**
   * The answer of one check, the scraper's new baseline, the database's
   * new tables and which counter moves.
   */
  datatype CheckStep = CheckStep(result: CheckOutcome, lastData: map<string, Scraper.Fields>,
                                 tables: MeasurementStore.Tables, updated: bool, errored: bool)

  /**
   * One `check_for_updates` given what the fetch chain returned (`map[]`
   * when it returned `None`): no data is an error; no value is a plain
   * failure; otherwise the reading goes to `store_measurement` at `now`,
   * whose exception is an error and whose `True` is an update.
   */
  function Check(data: map<string, real>, lastData: map<string, Scraper.Fields>, tables: MeasurementStore.Tables,
                 storeAll: bool, storage: Scraper.Storage, now: int): CheckStep
  {
    if data == map[] then CheckStep(ReturnedNone, lastData, tables, false, true)
    else if !AnyValue(Readings(data)) then CheckStep(ReturnedFalse, lastData, tables, false, false)
    else
      var s := Scraper.StoreResult(lastData, storeAll, DeviceId, Readings(data), storage);
      var t := Scraper.StoreTables(tables, lastData, storeAll, DeviceId, DeviceName, Readings(data), now, storage);
      match s.outcome
      case Raised => CheckStep(ReturnedFalse, s.lastData, t, false, true)
      case Stored => CheckStep(ReturnedTrue, s.lastData, t, true, false)
      case Skipped => CheckStep(ReturnedTrue, s.lastData, t, false, false)
  }

  /**
   * The error counter moves exactly on a failed fetch or a raising store,
   * never on the "no values" path; the update counter moves exactly when
   * the store returned `True`; never both. A check succeeds exactly when a
   * value was found and the store did not raise, an unchanged reading
   * included.
   */
  lemma CheckCounters(data: map<string, real>, lastData: map<string, Scraper.Fields>, tables: MeasurementStore.Tables,
                      storeAll: bool, storage: Scraper.Storage, now: int)
    ensures var c := Check(data, lastData, tables, storeAll, storage, now);
      var stored := Scraper.StoreResult(lastData, storeAll, DeviceId, Readings(data), storage).outcome;
      && !(c.updated && c.errored)
      && (c.errored <==> (data == map[] || (AnyValue(Readings(data)) && stored == Scraper.Raised)))
      && (c.updated <==> (data != map[] && AnyValue(Readings(data)) && stored == Scraper.Stored))
      && (c.result.Truthy() <==> (data != map[] && AnyValue(Readings(data)) && stored != Scraper.Raised))
  {
  }

  /** Without any value no store is attempted: the baseline and the tables are untouched. */
  lemma NoValueNoStore(data: map<string, real>, lastData: map<string, Scraper.Fields>, tables: MeasurementStore.Tables,
                       storeAll: bool, storage: Scraper.Storage, now: int)
    requires !AnyValue(Readings(data))
    ensures Check(data, lastData, tables, storeAll, storage, now).lastData == lastData
    ensures Check(data, lastData, tables, storeAll, storage, now).tables == tables
    ensures !Check(data, lastData, tables, storeAll, storage, now).updated
  {
  }

  /**
   * An update puts the reading into the measurement table under the
   * configured device at the check's time, with the device registered,
   * and keeps every earlier row.
   */
  lemma UpdateStoresReading(data: map<string, real>, lastData: map<string, Scraper.Fields>, tables: MeasurementStore.Tables,
                            storeAll: bool, storage: Scraper.Storage, now: int)
    requires Check(data, lastData, tables, storeAll, storage, now).updated
    ensures var t := Check(data, lastData, tables, storeAll, storage, now).tables;
      && MeasurementStore.HasDevice(t.devices, DeviceId)
      && MeasurementStore.HasKey(t.measurements, DeviceId, now)
      && forall i :: 0 <= i < |tables.measurements| ==> t.measurements[i] == tables.measurements[i]
  {
    Scraper.StoreTablesSpec(tables, lastData, storeAll, DeviceId, DeviceName, Readings(data), now, storage);
  }

  /** Fetched data with the canonical keys yields those values, aliases ignored. */
  lemma CanonicalPreferred(data: map<string, real>)
    requires "depth_mm" in data && "velocity_mps" in data && "flow_lps" in data
    ensures Readings(data) == Scraper.Fields(Some(data["depth_mm"]), Some(data["velocity_mps"]), Some(data["flow_lps"]))
    ensures AnyValue(Readings(data))
  {
  }

  /** The data the fetch chain yields for the configured device in attempt `a`. */
  function FetchedData(forceRequests: bool, a: Attempt): map<string, real>
  {
    FetchChain.ChainData(DeviceSelectors != map[] && !forceRequests, DeviceSelectors != map[],
                         FetchChain.YieldsOf(DeviceSelectors, a.env))
  }

  // ---------------------------------------------------------------------
  // The retry cycle

  /**
   * What one retry cycle did: the answers of the checks made, the final
   * baseline and tables, and how much each counter moved.
   */
  datatype Cycle = Cycle(results: seq<CheckOutcome>, lastData: map<string, Scraper.Fields>,
                         tables: MeasurementStore.Tables, updates: nat, errors: nat)

  /** A cycle succeeds when its last check was truthy. */
  predicate Succeeded(c: Cycle)
  {
    |c.results| > 0 && c.results[|c.results| - 1].Truthy()
  }

  /** The cycle after one more check. */
  function Extend(p: Cycle, c: CheckStep): Cycle
  {
    Cycle(p.results + [c.result], c.lastData, c.tables,
          p.updates + (if c.updated then 1 else 0), p.errors + (if c.errored then 1 else 0))
  }

  /** What the check of one attempt works on: the fetched data, the database's answer and the clock. */
  datatype Observation = Observation(data: map<string, real>, storage: Scraper.Storage, now: int)

  /** The observation of each attempt, in order. */
  function Observed(forceRequests: bool, attempts: seq<Attempt>): (r: seq<Observation>)
    ensures |r| == |attempts|
    ensures forall i :: 0 <= i < |attempts| ==>
      r[i] == Observation(FetchedData(forceRequests, attempts[i]), attempts[i].storage, attempts[i].now)
  {
    seq(|attempts|, i requires 0 <= i < |attempts| =>
      Observation(FetchedData(forceRequests, attempts[i]), attempts[i].storage, attempts[i].now))
  }

  /**
   * One attempt of `check_for_updates_with_retry`: unless a check was
   * already truthy, it makes one check on the baseline and tables the
   * previous check left.
   */
  function Next(storeAll: bool, p: Cycle, o: Observation): Cycle
  {
    if Succeeded(p) then p
    else Extend(p, Check(o.data, p.lastData, p.tables, storeAll, o.storage, o.now))
  }

  /** The retry loop over a sequence of observations, one `Next` per observation in order. */
  function CycleOver(storeAll: bool, lastData: map<string, Scraper.Fields>, tables: MeasurementStore.Tables,
                     obs: seq<Observation>): Cycle
    decreases |obs|
  {
    if obs == [] then Cycle([], lastData, tables, 0, 0)
    else Next(storeAll, CycleOver(storeAll, lastData, tables, obs[..|obs| - 1]), obs[|obs| - 1])
  }

  /** The whole of `check_for_updates_with_retry` over the attempts it is given. */
  function RetryCycle(forceRequests: bool, storeAll: bool, lastData: map<string, Scraper.Fields>,
                      tables: MeasurementStore.Tables, attempts: seq<Attempt>): Cycle
  {
    CycleOver(storeAll, lastData, tables, Observed(forceRequests, attempts))
  }

  /** After a prefix without a truthy check, the next observation makes exactly one check. */
  lemma PrefixStep(storeAll: bool, lastData: map<string, Scraper.Fields>, tables: MeasurementStore.Tables,
                   obs: seq<Observation>, n: nat, p: Cycle, c: CheckStep)
    requires n < |obs|
    requires p == CycleOver(storeAll, lastData, tables, obs[..n]) && !Succeeded(p)
    requires c == Check(obs[n].data, p.lastData, p.tables, storeAll, obs[n].storage, obs[n].now)
    ensures CycleOver(storeAll, lastData, tables, obs[..n + 1])
      == Cycle(p.results + [c.result], c.lastData, c.tables,
               p.updates + (if c.updated then 1 else 0), p.errors + (if c.errored then 1 else 0))
  {
    assert obs[..n + 1][..n] == obs[..n];
  }

  /** Once a check was truthy, the later observations change nothing. */
  lemma {:induction false} SuccessEndsCycle(storeAll: bool, lastData: map<string, Scraper.Fields>,
                                            tables: MeasurementStore.Tables, obs: seq<Observation>, k: nat)
    requires k <= |obs|
    requires k == |obs| || Succeeded(CycleOver(storeAll, lastData, tables, obs[..k]))
    ensures CycleOver(storeAll, lastData, tables, obs) == CycleOver(storeAll, lastData, tables, obs[..k])
    decreases |obs|
  {
    if k < |obs| {
      var front := obs[..|obs| - 1];
      assert front[..k] == obs[..k];
      SuccessEndsCycle(storeAll, lastData, tables, front, k);
    } else {
      assert obs[..k] == obs;
    }
  }

  /**
   * A cycle makes at least one check and at most one per observation,
   * stops at the first truthy one, uses every observation when none is,
   * and moves each counter at most once per check, never both on the same
   * check.
   */
  lemma {:induction false} CycleShape(storeAll: bool, lastData: map<string, Scraper.Fields>,
                                      tables: MeasurementStore.Tables, obs: seq<Observation>)
    ensures var c := CycleOver(storeAll, lastData, tables, obs);
      && |c.results| <= |obs| && (|obs| > 0 ==> |c.results| >= 1)
      && (forall i :: 0 <= i < |c.results| - 1 ==> !c.results[i].Truthy())
      && (!Succeeded(c) ==> |c.results| == |obs|)
      && c.updates + c.errors <= |c.results|
    decreases |obs|
  {
    if obs != [] {
      var front := obs[..|obs| - 1];
      CycleShape(storeAll, lastData, tables, front);
      var p := CycleOver(storeAll, lastData, tables, front);
      if !Succeeded(p) {
        var o := obs[|obs| - 1];
        CheckCounters(o.data, p.lastData, p.tables, storeAll, o.storage, o.now);
      }
    }
  }

  // ---------------------------------------------------------------------
  // The health flag over retry cycles

  datatype Health = Health(consecutiveErrors: nat, healthy: bool)

  /** The effect of one retry cycle: a success resets the count, an exhausted cycle adds one. */
  function AfterCycle(h: Health, success: bool): Health
  {
    if success then Health(0, h.healthy)
    else
      var n := h.consecutiveErrors + 1;
      Health(n, h.healthy && n < MaxConsecutiveErrors)
  }

  /** The flag after a series of cycles, oldest first. */
  function AfterCycles(h: Health, successes: seq<bool>): Health
    decreases |successes|
  {
    if successes == [] then h else AfterCycle(AfterCycles(h, successes[..|successes| - 1]), successes[|successes| - 1])
  }

  /** The error count a health flag may coexist with. */
  predicate Consistent(h: Health)
  {
    h.consecutiveErrors >= MaxConsecutiveErrors ==> !h.healthy
  }

  /** An unhealthy monitor stays unhealthy, whatever the cycles do. */
  lemma {:induction false} UnhealthyIsFinal(h: Health, successes: seq<bool>)
    requires !h.healthy
    ensures !AfterCycles(h, successes).healthy
    decreases |successes|
  {
    if successes != [] {
      UnhealthyIsFinal(h, successes[..|successes| - 1]);
    }
  }

  /**
   * The flag is still up exactly when it started up and the consecutive
   * error count stayed below the limit after every cycle.
   */
  lemma {:induction false} HealthyIffBelowLimit(h: Health, successes: seq<bool>)
    requires Consistent(h)
    ensures Consistent(AfterCycles(h, successes))
    ensures AfterCycles(h, successes).healthy
      <==> h.healthy && forall k :: 0 < k <= |successes| ==> AfterCycles(h, successes[..k]).consecutiveErrors < MaxConsecutiveErrors
    decreases |successes|
  {
    if successes != [] {
      var n := |successes|;
      var init := successes[..n - 1];
      HealthyIffBelowLimit(h, init);
      assert successes[..n] == successes;
      forall k | 0 < k <= n - 1
        ensures AfterCycles(h, successes[..k]) == AfterCycles(h, init[..k])
      {
        assert successes[..k] == init[..k];
      }
    }
  }

  /**
   * The consecutive count is the number of exhausted cycles since the last
   * success (plus the starting count when there was none).
   */
  lemma {:induction false} ConsecutiveCountsTrailingFailures(h: Health, successes: seq<bool>, k: nat)
    requires k <= |successes|
    requires forall i :: |successes| - k <= i < |successes| ==> !successes[i]
    requires k < |successes| ==> successes[|successes| - k - 1]
    ensures AfterCycles(h, successes).consecutiveErrors == if k == |successes| then h.consecutiveErrors + k else k
    decreases k
  {
    if k > 0 {
      var init := successes[..|successes| - 1];
      assert forall i :: |init| - (k - 1) <= i < |init| ==> init[i] == successes[i];
      ConsecutiveCountsTrailingFailures(h, init, k - 1);
    }
  }

  /** Summary figures logged by a health check. */
  datatype HealthSummary = HealthSummary(
    healthy: bool, checks: nat, updates: nat, errors: nat, consecutiveErrors: nat,
    secondsSinceSuccess: int, rateDenominator: nat)

  /** `max(1, check_count)`: never zero, the check count whenever there was a check. */
  function RateDenominator(checks: nat): (d: nat)
    ensures d >= 1 && d >= checks
    ensures checks >= 1 ==> d == checks
  {
    if checks >= 1 then checks else 1
  }

  /** The times at which repeated health checks log a summary, given the last one. */
  function SummaryTimes(last: int, calls: seq<int>): seq<int>
    decreases |calls|
  {
    if calls == [] then []
    else if calls[0] - last >= HealthCheckInterval as int then [calls[0]] + SummaryTimes(calls[0], calls[1..])
    else SummaryTimes(last, calls[1..])
  }

  /** Logged summaries are at least the interval apart, and none comes early. */
  lemma {:induction false} SummariesSpaced(last: int, calls: seq<int>)
    ensures var t := SummaryTimes(last, calls);
      && (t != [] ==> t[0] - last >= HealthCheckInterval as int)
      && (forall i :: 0 < i < |t| ==> t[i] - t[i - 1] >= HealthCheckInterval as int)
      && |t| <= |calls|
    decreases |calls|
  {
    if calls != [] {
      if calls[0] - last >= HealthCheckInterval as int {
        SummariesSpaced(calls[0], calls[1..]);
      } else {
        SummariesSpaced(last, calls[1..]);
      }
    }
  }

  // ---------------------------------------------------------------------
  // The restart loop of main

  /** How one `ContinuousMonitor().start_monitoring()` run ends. */
  datatype RunEnd = CleanExit | Interrupted | Crashed

  /**
   * `main`: build a monitor and run it until one run ends without a crash;
   * after a crash wait and restart, and after the fifth crash exit with
   * status 1 (0 is a normal return). `runs` are the ends of the runs that
   * would be made.
   */
  method RunWithRestarts(runs: seq<RunEnd>) returns (monitors: nat, sleeps: nat, exitStatus: int)
    requires |runs| == MaxRestarts
    ensures 1 <= monitors <= MaxRestarts
    ensures sleeps == monitors - 1
    ensures forall i :: 0 <= i < monitors - 1 ==> runs[i] == Crashed
    ensures exitStatus == 1 <==> monitors == MaxRestarts && runs[MaxRestarts - 1] == Crashed
    ensures exitStatus == 0 <==> runs[monitors - 1] != Crashed
    ensures exitStatus == 0 || exitStatus == 1
  {
    var restartCount: nat := 0;
    monitors, sleeps := 0, 0;
    while restartCount < MaxRestarts
      invariant restartCount < MaxRestarts
      invariant monitors == restartCount && sleeps == restartCount
      invariant forall i :: 0 <= i < restartCount ==> runs[i] == Crashed
      decreases MaxRestarts - restartCount
    {
      monitors := monitors + 1;
      if runs[restartCount] != Crashed {
        break;
      }
      restartCount := restartCount + 1;
      if restartCount < MaxRestarts {
        sleeps := sleeps + 1;
      } else {
        return monitors, sleeps, 1;
      }
    }
    exitStatus := 0;
  }

  // ---------------------------------------------------------------------
  // The monitor object

  class ContinuousMonitor {
    const db: MeasurementStore.FlowDatabase
    const scraper: Scraper.DataScraper
    var checkCount: nat
    var updateCount: nat
    var errorCount: nat
    var consecutiveErrors: nat
    var lastSuccessTime: int
    var lastHealthCheck: int
    var isHealthy: bool

    ghost predicate Valid()
      reads this, scraper, db
    {
      && scraper.db == db && scraper.Valid()
      && updateCount + errorCount <= checkCount
      && Consistent(Health(consecutiveErrors, isHealthy))
    }

    /** `ContinuousMonitor()`: zero counters, healthy, both clocks at `now`. */
    constructor (db: MeasurementStore.FlowDatabase, forceRequestsEnv: string, storeAllReadings: bool, now: int)
      requires db.Valid()
      ensures Valid() && fresh(scraper)
      ensures this.db == db && scraper.lastData == map[]
      ensures scraper.forceRequests == Scraper.EnvFlag(forceRequestsEnv) && scraper.storeAllReadings == storeAllReadings
      ensures checkCount == 0 && updateCount == 0 && errorCount == 0 && consecutiveErrors == 0
      ensures lastSuccessTime == now && lastHealthCheck == now && isHealthy
    {
      this.db := db;
      scraper := new Scraper.DataScraper(db, forceRequestsEnv, storeAllReadings);
      checkCount, updateCount, errorCount, consecutiveErrors := 0, 0, 0, 0;
      lastSuccessTime, lastHealthCheck := now, now;
      isHealthy := true;
    }

    /** `check_for_updates`: count the check, fetch, pick the fields, store. */
    method CheckForUpdates(a: Attempt) returns (r: CheckOutcome)
      requires Valid()
      modifies this, scraper, db
      ensures Valid()
      ensures checkCount == old(checkCount) + 1
      ensures var c := Check(FetchedData(scraper.forceRequests, a), old(scraper.lastData), old(db.State()), scraper.storeAllReadings, a.storage, a.now);
        && r == c.result && scraper.lastData == c.lastData && db.State() == c.tables
        && updateCount == old(updateCount) + (if c.updated then 1 else 0)
        && errorCount == old(errorCount) + (if c.errored then 1 else 0)
      ensures consecutiveErrors == old(consecutiveErrors) && isHealthy == old(isHealthy)
      ensures lastSuccessTime == old(lastSuccessTime) && lastHealthCheck == old(lastHealthCheck)
    {
      checkCount := checkCount + 1;
      var fetched := FetchReadings(a);
      if fetched.None? {
        errorCount := errorCount + 1;
        return ReturnedNone;
      }
      var f := Readings(fetched.value.data);
      if !AnyValue(f) {
        return ReturnedFalse;
      }
      var outcome := StoreReading(f, a.now, a.storage);
      if outcome == Scraper.Raised {
        errorCount := errorCount + 1;
        return ReturnedFalse;
      }
      if outcome == Scraper.Stored {
        updateCount := updateCount + 1;
      }
      return ReturnedTrue;
    }

    /** The `fetch_monitor_data` call of a check, for the configured device. */
    method FetchReadings(a: Attempt) returns (fetched: Option<FetchChain.FetchResult>)
      ensures fetched.Some? <==> FetchedData(scraper.forceRequests, a) != map[]
      ensures fetched.Some? ==> fetched.value.data == FetchedData(scraper.forceRequests, a)
    {
      var attempted;
      fetched, attempted := FetchChain.FetchMonitorData(scraper.forceRequests, DeviceSelectors, a.env, a.now);
    }

    /** The `store_measurement` call of a check, for the configured device. */
    method StoreReading(f: Scraper.Fields, now: int, storage: Scraper.Storage) returns (outcome: Scraper.StoreOutcome)
      requires Valid()
      modifies scraper, db
      ensures Valid()
      ensures Scraper.StoreStep(outcome, scraper.lastData)
        == Scraper.StoreResult(old(scraper.lastData), scraper.storeAllReadings, DeviceId, f, storage)
      ensures db.State() == Scraper.StoreTables(old(db.State()), old(scraper.lastData), scraper.storeAllReadings,
        DeviceId, DeviceName, f, now, storage)
      ensures outcome == Scraper.Stored ==>
        && db.devices == MeasurementStore.InsertDevice(old(db.devices), MeasurementStore.Device(DeviceId, DeviceName, None, now))
        && db.measurements == MeasurementStore.InsertMeasurement(old(db.measurements),
             MeasurementStore.Measurement(old(db.nextId), DeviceId, now, f.depth, f.velocity, f.flow, now))
    {
      outcome := scraper.StoreMeasurement(DeviceId, DeviceName, f.depth, f.velocity, f.flow, now, storage);
    }

    /**
     * One pass of the retry loop's body: the check of attempt `n` extends
     * the cycle of the attempts before it by that check's step.
     */
    method RetryStep(a: Attempt, ghost obs: seq<Observation>, ghost n: nat, ghost lastData0: map<string, Scraper.Fields>,
                     ghost tables0: MeasurementStore.Tables, ghost updates0: nat, ghost errors0: nat,
                     ghost results: seq<CheckOutcome>)
      returns (r: CheckOutcome)
      requires Valid() && n < |obs|
      requires obs[n] == Observation(FetchedData(scraper.forceRequests, a), a.storage, a.now)
      requires updates0 <= updateCount && errors0 <= errorCount
      requires CycleOver(scraper.storeAllReadings, lastData0, tables0, obs[..n])
        == Cycle(results, scraper.lastData, db.State(), updateCount - updates0, errorCount - errors0)
      requires !Succeeded(Cycle(results, scraper.lastData, db.State(), 0, 0))
      modifies this, scraper, db
      ensures Valid() && updates0 <= updateCount && errors0 <= errorCount
      ensures CycleOver(scraper.storeAllReadings, lastData0, tables0, obs[..n + 1])
        == Cycle(results + [r], scraper.lastData, db.State(), updateCount - updates0, errorCount - errors0)
      ensures checkCount == old(checkCount) + 1
      ensures consecutiveErrors == old(consecutiveErrors) && isHealthy == old(isHealthy)
      ensures lastSuccessTime == old(lastSuccessTime) && lastHealthCheck == old(lastHealthCheck)
    {
      PrefixStep(scraper.storeAllReadings, lastData0, tables0, obs, n,
                 Cycle(results, scraper.lastData, db.State(), updateCount - updates0, errorCount - errors0),
                 Check(FetchedData(scraper.forceRequests, a), scraper.lastData, db.State(), scraper.storeAllReadings, a.storage, a.now));
      r := CheckForUpdates(a);
    }

    /**
     * The `for attempt in ...` loop of `check_for_updates_with_retry`: the
     * checks it makes and the sleeps between them are those of the cycle
     * over the attempts' observations.
     */
    method RetryAttempts(attempts: seq<Attempt>, ghost obs: seq<Observation>)
      returns (success: bool, results: seq<CheckOutcome>, sleeps: nat)
      requires Valid() && |attempts| == MaxRetryAttempts && |obs| == |attempts|
      requires forall i {:trigger attempts[i]} :: 0 <= i < |attempts| ==>
        obs[i] == Observation(FetchedData(scraper.forceRequests, attempts[i]), attempts[i].storage, attempts[i].now)
      modifies this, scraper, db
      ensures Valid()
      ensures old(updateCount) <= updateCount && old(errorCount) <= errorCount
      ensures CycleOver(scraper.storeAllReadings, old(scraper.lastData), old(db.State()), obs)
        == Cycle(results, scraper.lastData, db.State(), updateCount - old(updateCount), errorCount - old(errorCount))
      ensures success == Succeeded(Cycle(results, scraper.lastData, db.State(), 0, 0))
      ensures 1 <= |results| && sleeps == |results| - 1
      ensures checkCount == old(checkCount) + |results|
      ensures consecutiveErrors == old(consecutiveErrors) && isHealthy == old(isHealthy)
      ensures lastSuccessTime == old(lastSuccessTime) && lastHealthCheck == old(lastHealthCheck)
    {
      results, sleeps, success := [], 0, false;
      ghost var lastData0, tables0, updates0, errors0 := scraper.lastData, db.State(), updateCount, errorCount;
      ghost var checks0, health0 := checkCount, Health(consecutiveErrors, isHealthy);
      ghost var clocks0 := (lastSuccessTime, lastHealthCheck);
      var attempt: nat := 1;
      while attempt <= MaxRetryAttempts && !success
        invariant 1 <= attempt <= MaxRetryAttempts + 1 && |results| == attempt - 1
        invariant sleeps == |results| - (if success || attempt > MaxRetryAttempts then 1 else 0)
        invariant Valid()
        invariant checkCount == checks0 + |results|
        invariant Health(consecutiveErrors, isHealthy) == health0 && (lastSuccessTime, lastHealthCheck) == clocks0
        invariant updates0 <= updateCount && errors0 <= errorCount
        invariant CycleOver(scraper.storeAllReadings, lastData0, tables0, obs[..attempt - 1])
          == Cycle(results, scraper.lastData, db.State(), updateCount - updates0, errorCount - errors0)
        invariant success == Succeeded(Cycle(results, scraper.lastData, db.State(), 0, 0))
        decreases MaxRetryAttempts + 1 - attempt
      {
        var r := RetryStep(attempts[attempt - 1], obs, attempt - 1, lastData0, tables0, updates0, errors0, results);
        results := results + [r];
        success := r.Truthy();
        if !success && attempt < MaxRetryAttempts {
          sleeps := sleeps + 1;
        }
        attempt := attempt + 1;
      }
      SuccessEndsCycle(scraper.storeAllReadings, lastData0, tables0, obs, attempt - 1);
    }

    /**
     * `check_for_updates_with_retry`: up to three checks, stopping at the
     * first truthy one and sleeping only between checks. A success resets
     * the consecutive count and records its time; an exhausted cycle adds
     * one and drops the flag at the limit.
     */
    method CheckForUpdatesWithRetry(attempts: seq<Attempt>)
      returns (success: bool, results: seq<CheckOutcome>, sleeps: nat)
      requires Valid() && |attempts| == MaxRetryAttempts
      modifies this, scraper, db
      ensures Valid()
      ensures var c := RetryCycle(scraper.forceRequests, scraper.storeAllReadings, old(scraper.lastData), old(db.State()), attempts);
        && results == c.results && success == Succeeded(c)
        && scraper.lastData == c.lastData && db.State() == c.tables
        && updateCount == old(updateCount) + c.updates && errorCount == old(errorCount) + c.errors
      ensures 1 <= |results| <= MaxRetryAttempts && sleeps == |results| - 1
      ensures forall i :: 0 <= i < |results| - 1 ==> !results[i].Truthy()
      ensures success <==> results[|results| - 1].Truthy()
      ensures !success ==> |results| == MaxRetryAttempts
      ensures checkCount == old(checkCount) + |results|
      ensures Health(consecutiveErrors, isHealthy) == AfterCycle(old(Health(consecutiveErrors, isHealthy)), success)
      ensures lastSuccessTime == (if success then attempts[|results| - 1].now else old(lastSuccessTime))
      ensures lastHealthCheck == old(lastHealthCheck)
    {
      CycleShape(scraper.storeAllReadings, scraper.lastData, db.State(), Observed(scraper.forceRequests, attempts));
      success, results, sleeps := RetryAttempts(attempts, Observed(scraper.forceRequests, attempts));
      if success {
        consecutiveErrors := 0;
        lastSuccessTime := attempts[|results| - 1].now;
      } else {
        consecutiveErrors := consecutiveErrors + 1;
        if consecutiveErrors >= MaxConsecutiveErrors {
          isHealthy := false;
        }
      }
    }

    /**
     * `perform_health_check`: a summary (and a new `last_health_check`)
     * exactly when the interval has elapsed; a warning exactly when the last
     * success is more than ten minutes old.
     */
    method PerformHealthCheck(now: int) returns (summary: Option<HealthSummary>, warned: bool)
      modifies this
      ensures summary.Some? <==> now - old(lastHealthCheck) >= HealthCheckInterval as int
      ensures lastHealthCheck == (if summary.Some? then now else old(lastHealthCheck))
      ensures summary.Some? ==> summary.value == HealthSummary(isHealthy, checkCount, updateCount, errorCount,
        consecutiveErrors, now - lastSuccessTime, RateDenominator(checkCount))
      ensures warned <==> now - lastSuccessTime > StaleAfter as int
      ensures checkCount == old(checkCount) && updateCount == old(updateCount) && errorCount == old(errorCount)
      ensures consecutiveErrors == old(consecutiveErrors) && isHealthy == old(isHealthy)
      ensures lastSuccessTime == old(lastSuccessTime)
    {
      var sinceSuccess := now - lastSuccessTime;
      summary := None;
      if now - lastHealthCheck >= HealthCheckInterval as int {
        summary := Some(HealthSummary(isHealthy, checkCount, updateCount, errorCount, consecutiveErrors,
                                      sinceSuccess, RateDenominator(checkCount)));
        lastHealthCheck := now;
      }
      warned := sinceSuccess > StaleAfter as int;
    }

    /**
     * `run_check`: one retry cycle, then a health check at `healthNow` that
     * reports the counters as the cycle left them.
     */
    method RunCheck(attempts: seq<Attempt>, healthNow: int)
      returns (success: bool, summary: Option<HealthSummary>, warned: bool)
      requires Valid() && |attempts| == MaxRetryAttempts
      modifies this, scraper, db
      ensures Valid()
      ensures var c := RetryCycle(scraper.forceRequests, scraper.storeAllReadings, old(scraper.lastData), old(db.State()), attempts);
        && success == Succeeded(c) && checkCount == old(checkCount) + |c.results|
        && scraper.lastData == c.lastData && db.State() == c.tables
        && updateCount == old(updateCount) + c.updates && errorCount == old(errorCount) + c.errors
        && (success ==> 1 <= |c.results| <= MaxRetryAttempts && lastSuccessTime == attempts[|c.results| - 1].now)
        && (!success ==> lastSuccessTime == old(lastSuccessTime))
      ensures Health(consecutiveErrors, isHealthy) == AfterCycle(old(Health(consecutiveErrors, isHealthy)), success)
      ensures summary.Some? <==> healthNow - old(lastHealthCheck) >= HealthCheckInterval as int
      ensures lastHealthCheck == (if summary.Some? then healthNow else old(lastHealthCheck))
      ensures summary.Some? ==> summary.value == HealthSummary(isHealthy, checkCount, updateCount, errorCount,
        consecutiveErrors, healthNow - lastSuccessTime, RateDenominator(checkCount))
      ensures warned <==> healthNow - lastSuccessTime > StaleAfter as int
    {
      var results, sleeps;
      success, results, sleeps := CheckForUpdatesWithRetry(attempts);
      summary, warned := PerformHealthCheck(healthNow);
    }
  }
}
