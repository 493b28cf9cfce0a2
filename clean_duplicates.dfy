/**
 * The duplicate cleaner (clean_duplicates.py): `find_duplicates` reports,
 * per device, every row whose rounded readings equal those of the row just
 * before it; `remove_duplicates` deletes every row for which an earlier,
 * earlier-created row of the same device has equal rounded readings.
 *
 * `ROUND(x, k)` is not modelled: a row carries its three rounded readings,
 * `None` standing for SQL `NULL` (a `NULL` reading rounds to `NULL`).
 */
module CleanDuplicates {
  import opened Wrappers

  datatype Row = Row(id: nat, deviceId: string, timestamp: int, createdAt: int,
                     d: Option<real>, v: Option<real>, f: Option<real>)

  /** Python `==` on the rounded triples (`None == None` holds). */
  predicate Same(a: Row, b: Row)
  {
    a.d == b.d && a.v == b.v && a.f == b.f
  }

  /** The `:.1f`/`:.3f` formatting of a reported row raises on a `None` reading. */
  predicate Formattable(r: Row)
  {
    r.d.Some? && r.v.Some? && r.f.Some?
  }

  predicate AllFormattable(rs: seq<Row>)
  {
    forall i :: 0 <= i < |rs| ==> Formattable(rs[i])
  }

  predicate UniqueIds(rs: seq<Row>)
  {
    forall i, j :: 0 <= i < j < |rs| ==> rs[i].id != rs[j].id
  }

  /** The order `ORDER BY device_id, timestamp` gives one device's rows (timestamps are unique per device). */
  predicate InQueryOrder(rows: seq<Row>)
  {
    forall i, j :: 0 <= i < j < |rows| && rows[i].deviceId == rows[j].deviceId ==> rows[i].timestamp < rows[j].timestamp
  }

  // ---------------------------------------------------------------------
  // find_duplicates

  /** `[r for r in rows if r['device_id'] == device_id]`. */
  function DeviceRows(rows: seq<Row>, deviceId: string): (rs: seq<Row>)
    ensures |rs| <= |rows|
    ensures forall x :: x in rs <==> x in rows && x.deviceId == deviceId
    decreases |rows|
  {
    if rows == [] then []
    else if rows[|rows| - 1].deviceId == deviceId then DeviceRows(rows[..|rows| - 1], deviceId) + [rows[|rows| - 1]]
    else DeviceRows(rows[..|rows| - 1], deviceId)
  }

  /** The rows reported for one device: each one equal to the row before it. */
  function Consecutive(rs: seq<Row>): seq<Row>
    decreases |rs|
  {
    if |rs| < 2 then []
    else Consecutive(rs[..|rs| - 1]) + (if Same(rs[|rs| - 2], rs[|rs| - 1]) then [rs[|rs| - 1]] else [])
  }

  function DeviceIds(rows: seq<Row>): set<string>
  {
    set r | r in rows :: r.deviceId
  }

  /** The `defaultdict` contents: a key only for devices with a report. */
  function DuplicatesOver(rows: seq<Row>, devices: set<string>): map<string, seq<Row>>
  {
    map d | d in devices && Consecutive(DeviceRows(rows, d)) != [] :: Consecutive(DeviceRows(rows, d))
  }

  /** `find_duplicates`: `None` when formatting a reported row raises. */
  function Duplicates(rows: seq<Row>): Option<map<string, seq<Row>>>
  {
    if forall d :: d in DeviceIds(rows) ==> AllFormattable(Consecutive(DeviceRows(rows, d)))
    then Some(DuplicatesOver(rows, DeviceIds(rows)))
    else None
  }

  /** The rows reported for one device and whether all of them format. */
  method ScanDevice(rs: seq<Row>) returns (reported: seq<Row>, ok: bool)
    ensures ok == AllFormattable(Consecutive(rs))
    ensures ok ==> reported == Consecutive(rs)
  {
    reported := [];
    if |rs| < 2 {
      return [], true;
    }
    for i := 0 to |rs| - 1
      invariant reported == Consecutive(rs[..i + 1])
      invariant AllFormattable(reported)
    {
      assert rs[..i + 2][..i + 1] == rs[..i + 1];
      if Same(rs[i], rs[i + 1]) {
        if !Formattable(rs[i + 1]) {
          var c := reported + [rs[i + 1]];
          assert Consecutive(rs[..i + 2]) == c;
          assert !Formattable(c[|c| - 1]);
          ConsecutivePrefix(rs, i + 2);
          return reported, false;
        }
        reported := reported + [rs[i + 1]];
      }
    }
    assert rs[..|rs|] == rs;
    ok := true;
  }

  /** A non-formattable report in a prefix stays one in the whole. */
  lemma {:induction false} ConsecutivePrefix(rs: seq<Row>, n: nat)
    requires n <= |rs|
    requires !AllFormattable(Consecutive(rs[..n]))
    ensures !AllFormattable(Consecutive(rs))
    decreases |rs| - n
  {
    if n < |rs| {
      var c := Consecutive(rs[..n + 1]);
      assert rs[..n + 1][..n] == rs[..n];
      var k :| 0 <= k < |Consecutive(rs[..n])| && !Formattable(Consecutive(rs[..n])[k]);
      assert c[k] == Consecutive(rs[..n])[k];
      ConsecutivePrefix(rs, n + 1);
    } else {
      assert rs[..n] == rs;
    }
  }

  lemma DuplicatesStep(rows: seq<Row>, done: set<string>, d: string)
    ensures DuplicatesOver(rows, done + {d})
      == if Consecutive(DeviceRows(rows, d)) != [] then DuplicatesOver(rows, done)[d := Consecutive(DeviceRows(rows, d))]
         else DuplicatesOver(rows, done)
  {
  }

  /** `find_duplicates` over the rows of the query, in query order. */
  method FindDuplicates(rows: seq<Row>) returns (result: Option<map<string, seq<Row>>>)
    ensures result == Duplicates(rows)
  {
    var devices := DeviceIds(rows);
    var todo := devices;
    var found: map<string, seq<Row>> := map[];
    while todo != {}
      invariant todo <= devices
      invariant found == DuplicatesOver(rows, devices - todo)
      invariant forall d :: d in devices - todo ==> AllFormattable(Consecutive(DeviceRows(rows, d)))
      decreases |todo|
    {
      var d :| d in todo;
      var reported, ok := ScanDevice(DeviceRows(rows, d));
      if !ok {
        return None;
      }
      DuplicatesStep(rows, devices - todo, d);
      if reported != [] {
        found := found[d := reported];
      }
      assert devices - (todo - {d}) == (devices - todo) + {d};
      todo := todo - {d};
    }
    assert devices - todo == devices;
    return Some(found);
  }

  /** A report is a row equal to the row just before it, and every such row is reported. */
  lemma {:induction false} ConsecutiveMembers(rs: seq<Row>, x: Row)
    ensures x in Consecutive(rs) <==> exists i :: 1 <= i < |rs| && rs[i] == x && Same(rs[i - 1], rs[i])
    decreases |rs|
  {
    if |rs| >= 2 {
      var init := rs[..|rs| - 1];
      ConsecutiveMembers(init, x);
      if x in Consecutive(rs) && x !in Consecutive(init) {
        assert rs[|rs| - 1] == x && Same(rs[|rs| - 2], rs[|rs| - 1]);
      }
      if exists i :: 1 <= i < |rs| && rs[i] == x && Same(rs[i - 1], rs[i]) {
        var i :| 1 <= i < |rs| && rs[i] == x && Same(rs[i - 1], rs[i]);
        if i < |rs| - 1 {
          assert init[i] == x && Same(init[i - 1], init[i]);
        }
      }
    } else {
      assert Consecutive(rs) == [];
    }
  }

  /**
   * With distinct rows, row `i` is reported exactly when it equals row
   * `i - 1`; the first row never is.
   */
  lemma ReportedIffEqualsPredecessor(rs: seq<Row>, i: nat)
    requires UniqueIds(rs) && i < |rs|
    ensures rs[i] in Consecutive(rs) <==> i >= 1 && Same(rs[i - 1], rs[i])
  {
    ConsecutiveMembers(rs, rs[i]);
  }

  /** At most one report per row after the first, never more than the rows. */
  lemma {:induction false} ConsecutiveLength(rs: seq<Row>)
    ensures |Consecutive(rs)| <= if |rs| == 0 then 0 else |rs| - 1
    decreases |rs|
  {
    if |rs| >= 2 {
      ConsecutiveLength(rs[..|rs| - 1]);
    }
  }

  /** Strictly increasing timestamps. */
  predicate Timed(rs: seq<Row>)
  {
    forall i, j :: 0 <= i < j < |rs| ==> rs[i].timestamp < rs[j].timestamp
  }

  /** The reports keep the rows' timestamp order. */
  lemma {:induction false} ConsecutiveInTimestampOrder(rs: seq<Row>)
    requires Timed(rs)
    ensures Timed(Consecutive(rs))
    decreases |rs|
  {
    if |rs| >= 2 {
      var init := rs[..|rs| - 1];
      ConsecutiveInTimestampOrder(init);
      var c := Consecutive(init);
      forall k | 0 <= k < |c| ensures c[k].timestamp < rs[|rs| - 1].timestamp {
        ConsecutiveMembers(init, c[k]);
      }
    }
  }

  /** One device's rows, taken from the query, are in timestamp order. */
  lemma {:induction false} DeviceRowsInOrder(rows: seq<Row>, deviceId: string)
    requires InQueryOrder(rows)
    ensures Timed(DeviceRows(rows, deviceId))
    decreases |rows|
  {
    if rows != [] {
      var init := rows[..|rows| - 1];
      var last := rows[|rows| - 1];
      assert InQueryOrder(init) by {
        forall i, j | 0 <= i < j < |init| && init[i].deviceId == init[j].deviceId
          ensures init[i].timestamp < init[j].timestamp
        {
          assert init[i] == rows[i] && init[j] == rows[j];
        }
      }
      DeviceRowsInOrder(init, deviceId);
      var rs := DeviceRows(init, deviceId);
      if last.deviceId == deviceId {
        forall k | 0 <= k < |rs| ensures rs[k].timestamp < last.timestamp {
          assert rs[k] in init;
          var i :| 0 <= i < |init| && init[i] == rs[k];
          assert rows[i] == rs[k];
        }
        var all := rs + [last];
        assert DeviceRows(rows, deviceId) == all;
        forall i, j | 0 <= i < j < |all| ensures all[i].timestamp < all[j].timestamp {
          if j == |rs| {
            assert all[i] == rs[i] && all[j] == last;
          } else {
            assert all[i] == rs[i] && all[j] == rs[j];
          }
        }
      } else {
        assert DeviceRows(rows, deviceId) == rs;
      }
    }
  }

  /** Over the query's rows, every device's reports come out in timestamp order. */
  lemma ReportsInTimestampOrder(rows: seq<Row>, deviceId: string)
    requires InQueryOrder(rows)
    ensures Timed(Consecutive(DeviceRows(rows, deviceId)))
  {
    DeviceRowsInOrder(rows, deviceId);
    ConsecutiveInTimestampOrder(DeviceRows(rows, deviceId));
  }

  // ---------------------------------------------------------------------
  // remove_duplicates

  /** SQL `=`: `NULL` equals nothing, not even `NULL`. */
  predicate SqlEq(x: Option<real>, y: Option<real>)
  {
    x.Some? && y.Some? && x.value == y.value
  }

  /** The `WHERE EXISTS` condition on `m1`. */
  predicate IsDuplicate(table: seq<Row>, m1: Row)
  {
    exists m2 :: m2 in table && m1.deviceId == m2.deviceId && m1.timestamp > m2.timestamp
      && SqlEq(m1.d, m2.d) && SqlEq(m1.v, m2.v) && SqlEq(m1.f, m2.f)
      && m1.createdAt > m2.createdAt
  }

  /** The ids the `SELECT` returns. */
  function DuplicateIds(table: seq<Row>): set<nat>
  {
    set m | m in table && IsDuplicate(table, m) :: m.id
  }

  /** `DELETE FROM measurements WHERE id IN (...)`, in table order. */
  function DeleteIds(table: seq<Row>, ids: set<nat>): (r: seq<Row>)
    ensures forall m :: m in r <==> m in table && m.id !in ids
    decreases |table|
  {
    if table == [] then []
    else (if table[0].id in ids then [] else [table[0]]) + DeleteIds(table[1..], ids)
  }

  /** The table after `remove_duplicates` (nothing is deleted when no id was selected). */
  function RemoveDuplicates(table: seq<Row>): seq<Row>
  {
    var ids := DuplicateIds(table);
    if ids == {} then table else DeleteIds(table, ids)
  }

  /** With unique ids the deleted rows are exactly the ones the predicate selects. */
  lemma RemoveDuplicatesSpec(table: seq<Row>)
    requires UniqueIds(table)
    ensures forall m :: m in RemoveDuplicates(table) <==> m in table && !IsDuplicate(table, m)
  {
    forall m | m in table && IsDuplicate(table, m) ensures m.id in DuplicateIds(table) {
    }
    forall m | m in table && m.id in DuplicateIds(table) ensures IsDuplicate(table, m) {
      var m' :| m' in table && IsDuplicate(table, m') && m'.id == m.id;
      var i :| 0 <= i < |table| && table[i] == m;
      var j :| 0 <= j < |table| && table[j] == m';
      assert i == j;
    }
  }

  /** The earliest row of a device is never deleted. */
  lemma EarliestIsKept(table: seq<Row>, m: Row)
    requires UniqueIds(table) && m in table
    requires forall m2 :: m2 in table && m2.deviceId == m.deviceId ==> m.timestamp <= m2.timestamp
    ensures m in RemoveDuplicates(table)
  {
    RemoveDuplicatesSpec(table);
  }

  /** A row with a `NULL` rounded reading never matches, so it is never deleted. */
  lemma NullIsKept(table: seq<Row>, m: Row)
    requires UniqueIds(table) && m in table && !Formattable(m)
    ensures m in RemoveDuplicates(table)
  {
    RemoveDuplicatesSpec(table);
  }

  /**
   * A row `find_duplicates` reports for a device is deleted by
   * `remove_duplicates` when it has no `NULL` reading and was created after
   * its predecessor.
   */
  lemma ReportedIsRemoved(rows: seq<Row>, deviceId: string, i: nat)
    requires InQueryOrder(rows)
    requires var rs := DeviceRows(rows, deviceId);
      1 <= i < |rs| && Same(rs[i - 1], rs[i]) && Formattable(rs[i]) && rs[i - 1].createdAt < rs[i].createdAt
    ensures IsDuplicate(rows, DeviceRows(rows, deviceId)[i])
  {
    var rs := DeviceRows(rows, deviceId);
    DeviceRowsInOrder(rows, deviceId);
    assert rs[i - 1] in rs;
  }
}
