/**
 * The M2M downloader page (m2m-downloader/streamlit_app.py): which rows of
 * the provider's device table become records, how the numeric columns are
 * cleaned, and how each capture is merged into the history kept in the
 * Streamlit session.
 *
 * The browser is an input: each table row comes with the texts of its
 * cells, whether it has a realtime link, and what reading its detail page
 * gave. The clock reading taken for each record is an input too.
 */
module History {
  import opened Wrappers
  import Text
  import Sorting

  // ---------------------------------------------------------------------
  // sanitize_numeric: the text cleaning before `pd.to_numeric`

  /** The characters `[0-9.+-]` that survive the cleaning. */
  predicate NumericChar(c: char)
  {
    Text.IsDigit(c) || c == '.' || c == '+' || c == '-'
  }

  /** `re.sub(r"[^0-9.+-]", "", s)`. */
  function Clean(s: string): (r: string)
    ensures forall i :: 0 <= i < |r| ==> NumericChar(r[i])
    ensures forall c :: NumericChar(c) ==> multiset(r)[c] == multiset(s)[c]
    ensures forall c :: !NumericChar(c) ==> multiset(r)[c] == 0
  {
    if s == [] then []
    else
      assert s == [s[0]] + s[1..];
      if NumericChar(s[0]) then [s[0]] + Clean(s[1..]) else Clean(s[1..])
  }

  /** Cleaning keeps a string that has nothing to remove. */
  lemma {:induction false} CleanKeepsNumeric(s: string)
    requires forall i :: 0 <= i < |s| ==> NumericChar(s[i])
    ensures Clean(s) == s
  {
    if s != [] {
      CleanKeepsNumeric(s[1..]);
    }
  }

  /** Cleaning a concatenation cleans each part. */
  lemma {:induction false} CleanConcat(a: string, b: string)
    ensures Clean(a + b) == Clean(a) + Clean(b)
  {
    if a != [] {
      assert (a + b)[0] == a[0];
      assert (a + b)[1..] == a[1..] + b;
      CleanConcat(a[1..], b);
      if NumericChar(a[0]) {
        assert Clean(a + b) == [a[0]] + (Clean(a[1..]) + Clean(b));
      }
    } else {
      assert a + b == b;
    }
  }

  /** Cleaning twice is cleaning once. */
  lemma CleanIdempotent(s: string)
    ensures Clean(Clean(s)) == Clean(s)
  {
    CleanKeepsNumeric(Clean(s));
  }

  /** `astype(str)`: a missing cell becomes the text `None`. */
  function AsText(v: Option<string>): string
  {
    v.GetOr("None")
  }

  /** The cleaned texts of a column; an empty column stays empty. */
  function SanitizeText(series: seq<Option<string>>): (r: seq<string>)
    ensures |r| == |series|
    ensures forall i :: 0 <= i < |series| ==> r[i] == Clean(AsText(series[i]))
  {
    if series == [] then [] else seq(|series|, i requires 0 <= i < |series| => Clean(AsText(series[i])))
  }

  /** A missing cell cleans to the empty text, which `to_numeric` coerces to NaN. */
  lemma MissingCleansToEmpty()
    ensures Clean(AsText(None)) == ""
  {
    var s := AsText(None);
    assert !NumericChar(s[0]) && !NumericChar(s[1]) && !NumericChar(s[2]) && !NumericChar(s[3]);
    assert s[1..][1..][1..][1..] == [];
  }

  // ---------------------------------------------------------------------
  // fetch_latest_readings: the row-selection loop

  /** How the page got back to the device list after reading a detail table. */
  datatype Back = ClosedNewPage | ReturnedToList | Refreshed | RefreshFailed(message: string)

  /** What the detail page gave: the three cell texts, or the exception raised waiting for it. */
  datatype Detail =
    | Readings(flow: Option<string>, depth: Option<string>, velocity: Option<string>, back: Back)
    | DetailFailed(message: string)

  /**
   * One `datagrid-row-*` row of the device table, or a row whose element
   * handle raised while its cells, group or link were being read (a stale
   * handle after the table was refreshed, say).
   */
  datatype DeviceRow =
    | DeviceRow(cells: seq<string>, hasRealtimeLink: bool, detail: Detail)
    | RowFailed(message: string)

  datatype Record = Record(timestamp: string, deviceId: string, deviceName: string,
                           depth: string, velocity: string, flow: string)

  datatype Warning =
    | NoDeviceRows
    | RealtimeLinkMissing(deviceId: string)
    | ReturnFailed(deviceId: string)
    | ScrapeError(index: nat, message: string)

  datatype RowOutcome = RowOutcome(record: Option<Record>, warnings: seq<Warning>)

  /** A row is read when it has 7 cells, its group matches the filter and it links to a detail page. */
  predicate Qualifies(row: DeviceRow, groupFilter: string)
  {
    && row.DeviceRow?
    && |row.cells| >= 7
    && (groupFilter == [] || Text.IsSubstring(groupFilter, Text.Strip(row.cells[4])))
    && row.hasRealtimeLink
  }

  /** The record a qualifying row with readings gives. */
  function RecordOf(row: DeviceRow, timestamp: string): Record
    requires row.DeviceRow? && |row.cells| >= 7 && row.detail.Readings?
  {
    Record(timestamp, Text.Strip(row.cells[2]), Text.Strip(row.cells[3]),
           Text.Strip(row.detail.depth.GetOr("")), Text.Strip(row.detail.velocity.GetOr("")),
           Text.Strip(row.detail.flow.GetOr("")))
  }

  /** The body of the loop for the row at `index`, read at `timestamp`. */
  function RowStep(row: DeviceRow, index: nat, timestamp: string, groupFilter: string): (r: RowOutcome)
    ensures r.record.Some? <==> Qualifies(row, groupFilter) && row.detail.Readings?
    ensures r.record.Some? ==> r.record.value == RecordOf(row, timestamp)
    ensures row.RowFailed? ==> r == RowOutcome(None, [ScrapeError(index, row.message)])
    ensures NoDeviceRows !in r.warnings
  {
    if row.RowFailed? then RowOutcome(None, [ScrapeError(index, row.message)])
    else if |row.cells| < 7 then RowOutcome(None, [])
    else if groupFilter != [] && !Text.IsSubstring(groupFilter, Text.Strip(row.cells[4])) then RowOutcome(None, [])
    else
      var deviceId := Text.Strip(row.cells[2]);
      if !row.hasRealtimeLink then RowOutcome(None, [RealtimeLinkMissing(deviceId)])
      else match row.detail
        case DetailFailed(m) => RowOutcome(None, [ScrapeError(index, m)])
        case Readings(_, _, _, back) =>
          RowOutcome(Some(RecordOf(row, timestamp)), BackWarnings(back, deviceId, index))
  }

  /** The warnings of going back to the device list after a reading. */
  function BackWarnings(back: Back, deviceId: string, index: nat): (r: seq<Warning>)
    ensures NoDeviceRows !in r
  {
    match back
    case ClosedNewPage => []
    case ReturnedToList => []
    case Refreshed => [ReturnFailed(deviceId)]
    case RefreshFailed(m) => [ReturnFailed(deviceId), ScrapeError(index, m)]
  }

  /** `if max_devices and len(records) >= max_devices: break`. */
  predicate Capped(maxDevices: int, count: nat)
  {
    maxDevices != 0 && count >= maxDevices
  }

  /** What the loop body does with each row, in row order. */
  function Outcomes(rows: seq<DeviceRow>, timestamps: seq<string>, groupFilter: string): (r: seq<RowOutcome>)
    requires |rows| == |timestamps|
    ensures |r| == |rows|
    ensures forall i :: 0 <= i < |rows| ==> r[i] == RowStep(rows[i], i, timestamps[i], groupFilter)
  {
    seq(|rows|, i requires 0 <= i < |rows| => RowStep(rows[i], i, timestamps[i], groupFilter))
  }

  /** Records and warnings after the loop has looked at the first `k` rows. */
  function Scan(outcomes: seq<RowOutcome>, maxDevices: int, k: nat): (seq<Record>, seq<Warning>)
    requires k <= |outcomes|
  {
    if k == 0 then ([], [])
    else
      var prev := Scan(outcomes, maxDevices, k - 1);
      if Capped(maxDevices, |prev.0|) then prev
      else Extend(prev, outcomes[k - 1])
  }

  /** Appending one row's record, if any, and its warnings. */
  function Extend(acc: (seq<Record>, seq<Warning>), o: RowOutcome): (seq<Record>, seq<Warning>)
  {
    (acc.0 + (if o.record.Some? then [o.record.value] else []), acc.1 + o.warnings)
  }

  /** What `fetch_latest_readings` returns once logged in. */
  function Selection(rows: seq<DeviceRow>, timestamps: seq<string>, groupFilter: string, maxDevices: int)
    : (seq<Record>, seq<Warning>)
    requires |rows| == |timestamps|
  {
    if rows == [] then ([], [NoDeviceRows])
    else Scan(Outcomes(rows, timestamps, groupFilter), maxDevices, |rows|)
  }

  /** Once the cap is reached, looking at more rows changes nothing. */
  lemma {:induction false} CappedStays(outcomes: seq<RowOutcome>, maxDevices: int, k: nat, k': nat)
    requires k <= k' <= |outcomes|
    requires Capped(maxDevices, |Scan(outcomes, maxDevices, k).0|)
    ensures Scan(outcomes, maxDevices, k') == Scan(outcomes, maxDevices, k)
    decreases k' - k
  {
    if k < k' {
      CappedStays(outcomes, maxDevices, k, k' - 1);
    }
  }

  /**
   * The loop of `fetch_latest_readings` over the device rows; `timestamps[i]`
   * is the clock reading taken if row `i` gives a record.
   */
  method FetchLatestReadings(rows: seq<DeviceRow>, timestamps: seq<string>, groupFilter: string, maxDevices: int)
    returns (records: seq<Record>, warnings: seq<Warning>)
    requires |rows| == |timestamps|
    ensures (records, warnings) == Selection(rows, timestamps, groupFilter, maxDevices)
  {
    records, warnings := [], [];
    if rows == [] {
      warnings := [NoDeviceRows];
      return;
    }
    ghost var outcomes := Outcomes(rows, timestamps, groupFilter);
    var idx := 0;
    while idx < |rows|
      invariant 0 <= idx <= |rows|
      invariant (records, warnings) == Scan(outcomes, maxDevices, idx)
    {
      if maxDevices != 0 && |records| >= maxDevices {
        CappedStays(outcomes, maxDevices, idx, |rows|);
        break;
      }
      var outcome := RowStep(rows[idx], idx, timestamps[idx], groupFilter);
      ScanStep(outcomes, maxDevices, idx, records, warnings, outcome);
      if outcome.record.Some? {
        records := records + [outcome.record.value];
      }
      warnings := warnings + outcome.warnings;
      idx := idx + 1;
    }
  }

  /** An uncapped loop pass appends the row's record, if any, and its warnings. */
  lemma ScanStep(outcomes: seq<RowOutcome>, maxDevices: int, k: nat, records: seq<Record>, warnings: seq<Warning>,
                 o: RowOutcome)
    requires k < |outcomes| && o == outcomes[k]
    requires (records, warnings) == Scan(outcomes, maxDevices, k) && !Capped(maxDevices, |records|)
    ensures Scan(outcomes, maxDevices, k + 1)
      == ((if o.record.Some? then records + [o.record.value] else records), warnings + o.warnings)
  {
    assert records + [] == records;
  }

  /** A positive cap bounds the records; a negative one stops the loop before the first row. */
  lemma {:induction false} CapBoundsRecords(outcomes: seq<RowOutcome>, maxDevices: int, k: nat)
    requires k <= |outcomes|
    ensures maxDevices > 0 ==> |Scan(outcomes, maxDevices, k).0| <= maxDevices
    ensures maxDevices < 0 ==> Scan(outcomes, maxDevices, k) == ([], [])
  {
    if k > 0 {
      CapBoundsRecords(outcomes, maxDevices, k - 1);
    }
  }

  /** Every record is the record of one of the rows looked at. */
  lemma {:induction false} RecordsFromOutcomes(outcomes: seq<RowOutcome>, maxDevices: int, k: nat)
    requires k <= |outcomes|
    ensures forall rec :: rec in Scan(outcomes, maxDevices, k).0 ==>
      exists i :: 0 <= i < k && outcomes[i].record == Some(rec)
  {
    if k > 0 {
      RecordsFromOutcomes(outcomes, maxDevices, k - 1);
    }
  }

  /** Without a cap, the record of every row looked at is kept. */
  lemma {:induction false} UncappedKeepsAll(outcomes: seq<RowOutcome>, k: nat)
    requires k <= |outcomes|
    ensures forall i :: 0 <= i < k && outcomes[i].record.Some? ==> outcomes[i].record.value in Scan(outcomes, 0, k).0
  {
    if k > 0 {
      UncappedKeepsAll(outcomes, k - 1);
    }
  }

  /** The warning for an empty table is never raised once there are rows. */
  lemma {:induction false} ScanHasNoEmptyTableWarning(outcomes: seq<RowOutcome>, maxDevices: int, k: nat)
    requires k <= |outcomes|
    requires forall i :: 0 <= i < |outcomes| ==> NoDeviceRows !in outcomes[i].warnings
    ensures NoDeviceRows !in Scan(outcomes, maxDevices, k).1
  {
    if k > 0 {
      ScanHasNoEmptyTableWarning(outcomes, maxDevices, k - 1);
    }
  }

  /**
   * The selection as a whole: the no-rows warning exactly for an empty
   * table, the cap, every record from a qualifying row with that row's
   * device id and clock reading, and nothing lost without a cap.
   */
  lemma SelectionSpec(rows: seq<DeviceRow>, timestamps: seq<string>, groupFilter: string, maxDevices: int)
    requires |rows| == |timestamps|
    ensures var sel := Selection(rows, timestamps, groupFilter, maxDevices);
      && (rows == [] <==> NoDeviceRows in sel.1)
      && (maxDevices > 0 ==> |sel.0| <= maxDevices)
      && (maxDevices < 0 ==> sel.0 == [])
      && (forall rec :: rec in sel.0 ==>
            exists i :: 0 <= i < |rows| && Qualifies(rows[i], groupFilter) && rows[i].detail.Readings?
              && rec == RecordOf(rows[i], timestamps[i]))
      && (maxDevices == 0 ==> forall i :: 0 <= i < |rows| && Qualifies(rows[i], groupFilter) && rows[i].detail.Readings? ==>
            RecordOf(rows[i], timestamps[i]) in sel.0)
  {
    if rows != [] {
      var outcomes := Outcomes(rows, timestamps, groupFilter);
      var sel := Scan(outcomes, maxDevices, |rows|);
      CapBoundsRecords(outcomes, maxDevices, |rows|);
      RecordsFromOutcomes(outcomes, maxDevices, |rows|);
      UncappedKeepsAll(outcomes, |rows|);
      forall i | 0 <= i < |outcomes| ensures NoDeviceRows !in outcomes[i].warnings {
        assert outcomes[i] == RowStep(rows[i], i, timestamps[i], groupFilter);
      }
      ScanHasNoEmptyTableWarning(outcomes, maxDevices, |rows|);
      forall rec | rec in sel.0
        ensures exists i :: 0 <= i < |rows| && Qualifies(rows[i], groupFilter) && rows[i].detail.Readings? && rec == RecordOf(rows[i], timestamps[i])
      {
        var i :| 0 <= i < |rows| && outcomes[i].record == Some(rec);
        assert outcomes[i] == RowStep(rows[i], i, timestamps[i], groupFilter);
      }
    }
  }

  // ---------------------------------------------------------------------
  // update_history: merging a capture into the session history

  /** A row of the processed frame; `timestamp` is `None` for `NaT`. */
  datatype HistoryRow = HistoryRow(timestamp: Option<int>, deviceId: string, deviceName: string,
                                   depth: Option<real>, velocity: Option<real>, flow: Option<real>)

  /** The `drop_duplicates` subset; pandas counts two `NaT` as equal. */
  function Key(r: HistoryRow): (Option<int>, string)
  {
    (r.timestamp, r.deviceId)
  }

  function Keys(rows: seq<HistoryRow>): set<(Option<int>, string)>
  {
    set r | r in rows :: Key(r)
  }

  /** No later row of `rows` has the key of row `i`. */
  predicate LastOfKey(rows: seq<HistoryRow>, i: int)
    requires 0 <= i < |rows|
  {
    forall j :: i < j < |rows| ==> Key(rows[j]) != Key(rows[i])
  }

  predicate UniqueKeys(rows: seq<HistoryRow>)
  {
    forall i, j :: 0 <= i < j < |rows| ==> Key(rows[i]) != Key(rows[j])
  }

  /** `x` is row `i` of `rows` for some `i` that no later row shares a key with. */
  ghost predicate SurvivesIn(rows: seq<HistoryRow>, x: HistoryRow)
  {
    exists i :: 0 <= i < |rows| && rows[i] == x && LastOfKey(rows, i)
  }

  /** `drop_duplicates(subset=[...], keep="last")`: the last row of each key, in order. */
  function KeepLast(rows: seq<HistoryRow>): (r: seq<HistoryRow>)
    ensures UniqueKeys(r)
    ensures Keys(r) == Keys(rows)
    ensures forall x :: x in r <==> SurvivesIn(rows, x)
    decreases |rows|
  {
    if rows == [] then []
    else
      var rest := KeepLast(rows[1..]);
      SurvivesCons(rows);
      KeysCons(rows[0], rows[1..]);
      assert rows == [rows[0]] + rows[1..];
      if Key(rows[0]) in Keys(rows[1..]) then
        rest
      else
        UniqueCons(rows[0], rest);
        KeysCons(rows[0], rest);
        [rows[0]] + rest
  }

  lemma KeysCons(h: HistoryRow, t: seq<HistoryRow>)
    ensures Keys([h] + t) == {Key(h)} + Keys(t)
  {
    assert forall r :: r in [h] + t <==> r == h || r in t;
  }

  lemma KeysAppend(a: seq<HistoryRow>, b: seq<HistoryRow>)
    ensures Keys(a + b) == Keys(a) + Keys(b)
  {
    assert forall r :: r in a + b <==> r in a || r in b;
  }

  /** The survivors of `rows` are its head, if its key does not recur, and the survivors of its tail. */
  lemma SurvivesCons(rows: seq<HistoryRow>)
    requires rows != []
    ensures forall x :: SurvivesIn(rows, x) <==>
      (x == rows[0] && Key(rows[0]) !in Keys(rows[1..])) || SurvivesIn(rows[1..], x)
  {
    var t := rows[1..];
    assert forall j :: 0 <= j < |t| ==> t[j] == rows[j + 1];
    assert LastOfKey(rows, 0) <==> Key(rows[0]) !in Keys(t) by {
      if Key(rows[0]) in Keys(t) {
        var r :| r in t && Key(r) == Key(rows[0]);
        var j :| 0 <= j < |t| && t[j] == r;
        assert Key(rows[j + 1]) == Key(rows[0]);
      } else {
        forall j | 0 < j < |rows| ensures Key(rows[j]) != Key(rows[0]) {
          assert rows[j] in t;
        }
      }
    }
    forall x ensures SurvivesIn(rows, x) <==> (x == rows[0] && Key(rows[0]) !in Keys(t)) || SurvivesIn(t, x) {
      if SurvivesIn(rows, x) {
        var i :| 0 <= i < |rows| && rows[i] == x && LastOfKey(rows, i);
        if i > 0 {
          assert t[i - 1] == x && LastOfKey(t, i - 1);
        }
      }
      if SurvivesIn(t, x) {
        var i :| 0 <= i < |t| && t[i] == x && LastOfKey(t, i);
        assert rows[i + 1] == x && LastOfKey(rows, i + 1);
      }
    }
  }

  /** A row whose key is new can go in front of rows with unique keys. */
  lemma UniqueCons(h: HistoryRow, rest: seq<HistoryRow>)
    requires UniqueKeys(rest) && Key(h) !in Keys(rest)
    ensures UniqueKeys([h] + rest)
  {
    var r := [h] + rest;
    forall i, j | 0 <= i < j < |r| ensures Key(r[i]) != Key(r[j]) {
      if i == 0 {
        assert r[j] in rest;
      } else {
        assert r[i] == rest[i - 1] && r[j] == rest[j - 1];
      }
    }
  }

  /** `sort_values("Timestamp")`: ascending, `NaT` last. */
  predicate TimestampLe(a: HistoryRow, b: HistoryRow)
  {
    b.timestamp.None? || (a.timestamp.Some? && a.timestamp.value <= b.timestamp.value)
  }

  lemma TimestampLeIsPreorder()
    ensures Sorting.TotalPreorder(TimestampLe)
  {
  }

  /**
   * What the session holds after `update_history`: the capture itself when
   * there was no or an empty history; otherwise the last row of each key of
   * history followed by capture, sorted by time in some order among equal
   * times (pandas' default sort is not stable).
   */
  ghost predicate MergedHistory(prior: Option<seq<HistoryRow>>, current: seq<HistoryRow>, merged: seq<HistoryRow>)
  {
    if prior.None? || prior.value == [] then merged == current
    else
      && Sorting.SortedBy(merged, TimestampLe)
      && multiset(merged) == multiset(KeepLast(prior.value + current))
  }

  /** The entries of `st.session_state` that hold frames of history rows. */
  class SessionFrames {
    var frames: map<string, seq<HistoryRow>>

    constructor ()
      ensures frames == map[]
    {
      frames := map[];
    }

    /** `update_history(state_key, current_df)`. */
    method UpdateHistory(stateKey: string, current: seq<HistoryRow>) returns (history: seq<HistoryRow>)
      modifies this
      ensures MergedHistory(if stateKey in old(frames) then Some(old(frames)[stateKey]) else None, current, history)
      ensures frames == old(frames)[stateKey := history]
    {
      if stateKey !in frames || frames[stateKey] == [] {
        history := current;
      } else {
        var concatenated := frames[stateKey] + current;
        var deduplicated := KeepLast(concatenated);
        TimestampLeIsPreorder();
        history := Sorting.SortBy(deduplicated, TimestampLe);
      }
      frames := frames[stateKey := history];
    }
  }

  /**
   * After a merge no two rows share a (time, device) key, every key seen
   * before or in the capture is still there, and each row is the newest
   * one with its key: a capture row overrides an older history row.
   */
  lemma MergedHistorySpec(prior: seq<HistoryRow>, current: seq<HistoryRow>, merged: seq<HistoryRow>)
    requires prior != [] && MergedHistory(Some(prior), current, merged)
    ensures UniqueKeys(merged)
    ensures Keys(merged) == Keys(prior) + Keys(current)
    ensures forall i :: 0 <= i < |current| && LastOfKey(current, i) ==> current[i] in merged
    ensures forall x :: x in merged ==> x in current || (x in prior && Key(x) !in Keys(current))
  {
    var d := KeepLast(prior + current);
    SameMembers(d, merged);
    KeysAppend(prior, current);
    UniqueAfterPermutation(d, merged);
    forall i | 0 <= i < |current| && LastOfKey(current, i) ensures current[i] in merged {
      CaptureRowSurvives(prior, current, i);
    }
    forall x | x in merged ensures x in current || (x in prior && Key(x) !in Keys(current)) {
      SurvivorOrigin(prior, current, x);
    }
  }

  /** Reordered rows have the same members and keys. */
  lemma SameMembers(s: seq<HistoryRow>, t: seq<HistoryRow>)
    requires multiset(t) == multiset(s)
    ensures forall x :: x in t <==> x in s
    ensures Keys(t) == Keys(s)
  {
    forall x ensures x in t <==> x in s {
      assert x in t <==> x in multiset(t);
      assert x in s <==> x in multiset(s);
    }
  }

  /** The last row of a key in the capture is the last of that key after the history too. */
  lemma CaptureRowSurvives(prior: seq<HistoryRow>, current: seq<HistoryRow>, i: nat)
    requires i < |current| && LastOfKey(current, i)
    ensures SurvivesIn(prior + current, current[i])
  {
    var all := prior + current;
    var k := |prior| + i;
    assert all[k] == current[i];
    forall j | k < j < |all| ensures Key(all[j]) != Key(all[k]) {
      assert all[j] == current[j - |prior|];
    }
    assert LastOfKey(all, k);
  }

  /** A survivor of the merge is a capture row, or a history row whose key the capture lacks. */
  lemma SurvivorOrigin(prior: seq<HistoryRow>, current: seq<HistoryRow>, x: HistoryRow)
    requires SurvivesIn(prior + current, x)
    ensures x in current || (x in prior && Key(x) !in Keys(current))
  {
    var all := prior + current;
    var i :| 0 <= i < |all| && all[i] == x && LastOfKey(all, i);
    if i < |prior| {
      assert x == prior[i];
      forall j | 0 <= j < |current| ensures Key(current[j]) != Key(x) {
        assert all[|prior| + j] == current[j];
      }
      assert Key(x) !in Keys(current);
    } else {
      assert x == current[i - |prior|];
    }
  }

  /** Unique keys survive any reordering. */
  lemma UniqueAfterPermutation(s: seq<HistoryRow>, t: seq<HistoryRow>)
    requires UniqueKeys(s) && multiset(t) == multiset(s)
    ensures UniqueKeys(t)
  {
    forall i, j | 0 <= i < j < |t| ensures Key(t[i]) != Key(t[j]) {
      assert t[i] in multiset(s) && t[j] in multiset(s);
      var p :| 0 <= p < |s| && s[p] == t[i];
      var q :| 0 <= q < |s| && s[q] == t[j];
      if p == q {
        assert multiset(t)[t[i]] >= 2 by {
          assert t == t[..i] + [t[i]] + t[i + 1..];
          assert t[j] in t[i + 1..];
        }
        UniqueCount(s, p);
      }
    }
  }

  /** A row of a sequence with unique keys occurs in it once. */
  lemma UniqueCount(s: seq<HistoryRow>, p: nat)
    requires UniqueKeys(s) && p < |s|
    ensures multiset(s)[s[p]] == 1
  {
    assert s == s[..p] + [s[p]] + s[p + 1..];
    assert s[p] !in s[..p] by {
      forall k | 0 <= k < p ensures s[k] != s[p] {
        assert Key(s[k]) != Key(s[p]);
      }
    }
    assert s[p] !in s[p + 1..] by {
      forall k | p + 1 <= k < |s| ensures s[k] != s[p] {
        assert Key(s[p]) != Key(s[k]);
      }
    }
  }

  /** With no earlier history the capture is stored as it is, unsorted and with any duplicates. */
  lemma FirstCaptureUnchanged(current: seq<HistoryRow>, merged: seq<HistoryRow>)
    requires MergedHistory(None, current, merged) || MergedHistory(Some([]), current, merged)
    ensures merged == current
  {
  }
}
