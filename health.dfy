/**
 * The container health probe (health.py): from whether the database file
 * exists, the result of `SELECT MAX(timestamp) FROM measurements`, the
 * current UTC time and the age limit, decide the status it reports and the
 * process exit code.
 *
 * The file system, SQLite and the two date parsers are inputs: the query
 * result (or the message of the exception it raised) and a parse function
 * standing for `fromisoformat` with its `strptime` fallback.
 */
module Health {
  import opened Wrappers
  import Text

  /** `int(os.getenv("HEALTH_MAX_AGE", "900"))` with the variable unset. */
  const DefaultMaxAge: int := 900

  /** What the `MAX(timestamp)` query gave: its single cell, or the exception's message. */
  datatype Query = MaxTimestamp(cell: Option<string>) | QueryFailed(message: string)

  /** A parsed timestamp: seconds on its own clock, and its UTC offset if it names one. */
  datatype Stamp = Stamp(seconds: real, utcOffset: Option<real>)

  /** The parsers: a stamp, or the message of the `ValueError` the fallback raised. */
  datatype Parsed = ParsedAs(stamp: Stamp) | Unparseable(message: string)

  /** Which branch the probe ended in. */
  datatype Reason = DatabaseMissing | NoMeasurements | Ok | Stale(seconds: int) | Error(message: string)

  datatype Status = Status(healthy: bool, reason: Reason, latestTimestamp: Option<string>, exitCode: int)

  /** The `reason` string of the printed status. */
  function ReasonText(r: Reason): string
  {
    match r
    case DatabaseMissing => "database_missing"
    case NoMeasurements => "no_measurements"
    case Ok => "ok"
    case Stale(s) => "stale:" + Text.IntToDecimal(s) + "s"
    case Error(m) => "error:" + m
  }

  /** A naive timestamp is read as UTC; an aware one is shifted by its offset. */
  function UtcSeconds(s: Stamp): (r: real)
    ensures s.utcOffset.None? ==> r == s.seconds
    ensures s.utcOffset.Some? ==> r + s.utcOffset.value == s.seconds
  {
    s.seconds - s.utcOffset.GetOr(0.0)
  }

  /** Python's `int(x)` on a float: truncation toward zero. */
  function Trunc(x: real): (r: int)
    ensures x >= 0.0 ==> r as real <= x < r as real + 1.0
    ensures x < 0.0 ==> r as real - 1.0 < x <= r as real
  {
    if x >= 0.0 then x.Floor else -((-x).Floor)
  }

  /** `main` as a decision over its inputs. */
  function Probe(dbExists: bool, query: Query, parse: string -> Parsed, now: real, maxAge: int): Status
  {
    if !dbExists then Status(false, DatabaseMissing, None, 1)
    else if query.QueryFailed? then Status(false, Error(query.message), None, 1)
    else if query.cell.None? || query.cell.value == [] then Status(false, NoMeasurements, None, 1)
    else
      var latest := query.cell.value;
      match parse(latest)
      case Unparseable(m) => Status(false, Error(m), Some(latest), 1)
      case ParsedAs(stamp) =>
        var age := now - UtcSeconds(stamp);
        if age <= maxAge as real then Status(true, Ok, Some(latest), 0)
        else Status(false, Stale(Trunc(age)), Some(latest), 1)
  }

  /** The age of the latest measurement the probe compares, when it gets that far. */
  function Age(query: Query, parse: string -> Parsed, now: real): Option<real>
  {
    if query.MaxTimestamp? && query.cell.Some? && query.cell.value != [] && parse(query.cell.value).ParsedAs? then
      Some(now - UtcSeconds(parse(query.cell.value).stamp))
    else None
  }

  /**
   * Healthy, reason "ok" and exit code 0 go together, and any other
   * outcome exits with 1; healthy means the database exists and its latest
   * measurement is at most `maxAge` seconds old.
   */
  lemma ProbeSpec(dbExists: bool, query: Query, parse: string -> Parsed, now: real, maxAge: int)
    ensures var st := Probe(dbExists, query, parse, now, maxAge);
      && (st.healthy <==> st.reason == Ok)
      && (st.healthy <==> st.exitCode == 0)
      && (st.exitCode == 0 || st.exitCode == 1)
      && (st.healthy <==> dbExists && Age(query, parse, now).Some? && Age(query, parse, now).value <= maxAge as real)
  {
  }

  /** Each early branch wins over everything after it. */
  lemma ProbeBranches(dbExists: bool, query: Query, parse: string -> Parsed, now: real, maxAge: int)
    ensures var st := Probe(dbExists, query, parse, now, maxAge);
      && (!dbExists ==> st.reason == DatabaseMissing)
      && (dbExists && query.QueryFailed? ==> st.reason == Error(query.message))
      && (dbExists && query.MaxTimestamp? && (query.cell.None? || query.cell.value == []) ==> st.reason == NoMeasurements)
      && (st.reason.Stale? ==>
            (dbExists && Age(query, parse, now).Some? && Age(query, parse, now).value > maxAge as real
             && st.reason.seconds == Trunc(Age(query, parse, now).value)))
      && (st.latestTimestamp.Some? <==> dbExists && query.MaxTimestamp? && query.cell.Some? && query.cell.value != [])
  {
  }

  /** A timestamp without an offset is judged exactly as the same time marked UTC. */
  lemma NaiveIsUtc(dbExists: bool, latest: string, naive: string -> Parsed, utc: string -> Parsed,
                   seconds: real, now: real, maxAge: int)
    requires naive(latest) == ParsedAs(Stamp(seconds, None))
    requires utc(latest) == ParsedAs(Stamp(seconds, Some(0.0)))
    ensures Probe(dbExists, MaxTimestamp(Some(latest)), naive, now, maxAge)
      == Probe(dbExists, MaxTimestamp(Some(latest)), utc, now, maxAge)
  {
  }

  /** Healthy now means healthy at any earlier moment; stale now means stale later. */
  lemma HealthyEarlier(dbExists: bool, query: Query, parse: string -> Parsed, now: real, earlier: real, maxAge: int)
    requires earlier <= now
    ensures Probe(dbExists, query, parse, now, maxAge).healthy ==> Probe(dbExists, query, parse, earlier, maxAge).healthy
    ensures Probe(dbExists, query, parse, earlier, maxAge).reason.Stale? ==> Probe(dbExists, query, parse, now, maxAge).reason.Stale?
  {
  }

  /** The printed reason names the branch: different outcomes never print the same text. */
  lemma {:induction false} ReasonTextInjective(a: Reason, b: Reason)
    requires ReasonText(a) == ReasonText(b)
    ensures a == b
  {
    var t := ReasonText(a);
    FirstLetter(a);
    FirstLetter(b);
    match a
    case Stale(x) =>
      assert b.Stale?;
      assert Text.IntToDecimal(x) == t[6..|t| - 1] == Text.IntToDecimal(b.seconds);
      IntToDecimalInjective(x, b.seconds);
    case Error(m) =>
      assert b.Error?;
      assert m == t[6..] == b.message;
    case _ =>
  }

  /** The first letter of each reason differs from branch to branch. */
  lemma FirstLetter(r: Reason)
    ensures |ReasonText(r)| >= 1
    ensures ReasonText(r)[0] == match r
      case DatabaseMissing => 'd'
      case NoMeasurements => 'n'
      case Ok => 'o'
      case Stale(_) => 's'
      case Error(_) => 'e'
  {
  }

  /** `int(s)` on an optionally signed run of decimal digits. */
  function DecimalValue(s: string): Option<int>
  {
    if |s| >= 1 && s[0] == '-' && Text.AllDigits(s[1..]) then Some(0 - Text.DigitsValue(s[1..]) as int)
    else if Text.AllDigits(s) then Some(Text.DigitsValue(s) as int)
    else None
  }

  /** `int(str(i)) == i`. */
  lemma IntDecimalRoundTrip(i: int)
    ensures DecimalValue(Text.IntToDecimal(i)) == Some(i)
  {
    var s := Text.IntToDecimal(i);
    if i < 0 {
      assert s[1..] == Text.NatToDecimal(-i);
      Text.DecimalRoundTrip(-i);
    } else {
      assert Text.IsDigit(s[0]);
      Text.DecimalRoundTrip(i);
    }
  }

  /** `str(i)` names a single integer. */
  lemma IntToDecimalInjective(x: int, y: int)
    requires Text.IntToDecimal(x) == Text.IntToDecimal(y)
    ensures x == y
  {
    IntDecimalRoundTrip(x);
    IntDecimalRoundTrip(y);
  }

  /** With a non-negative limit, the stale reason carries the age in whole seconds. */
  lemma StaleCarriesAge(dbExists: bool, query: Query, parse: string -> Parsed, now: real, maxAge: int)
    requires maxAge >= 0
    requires Probe(dbExists, query, parse, now, maxAge).reason.Stale?
    ensures var secs := Probe(dbExists, query, parse, now, maxAge).reason.seconds;
      && secs >= maxAge
      && secs as real <= Age(query, parse, now).value < secs as real + 1.0
      && ReasonText(Probe(dbExists, query, parse, now, maxAge).reason) == "stale:" + Text.NatToDecimal(secs) + "s"
  {
  }
}
