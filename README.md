# e-flow: a verified model of the flow-monitoring core

e-flow watches a wastewater flow meter (the FIT100 inflow of a sewage
treatment plant). It reads the meter's published dashboard, keeps a local
history of depth, velocity and flow readings, and serves the history to
signed-in users of a Streamlit dashboard.

This project models the parts of e-flow whose behaviour can be stated
exactly and proves properties about them:

- **Acquisition** (`FetchChain`, `ShareToken`). This is the fixed strategy
  chain of the scraper: a rendered page, then the provider API, then plain
  HTTP. It includes the first-number scan applied to each element's text
  and the decoder of the provider's share-link token.
- **Change detection and storage** (`Scraper`, `MeasurementStore`).
  - The scraper keeps one baseline reading per device and stores a reading
    only when it differs from the baseline.
  - The measurement store has a device table and a measurement table. Both
    insert only when the row is absent. Queries return rows newest first.
- **The monitor loop** (`Monitor`).
  - Each poll runs up to three check attempts.
  - A consecutive-error counter drops the health flag at ten cycles in a
    row with no success.
  - A health summary is logged every five minutes.
  - The entry point restarts a crashed monitor up to five times.
- **Maintenance and health** (`CleanDuplicates`, `Health`). The duplicate
  cleaner has a report half and a delete half. The container health probe
  turns the age of the newest measurement into an exit code.
- **Accounts** (`Auth`, `StreamlitAuth`).
  - Users, device assignments and sessions are stored with salted password
    hashes.
  - The dashboard's session keys, its login and sign-up handlers, and the
    per-user device filter are modelled too.
- **The M2M downloader page** (`History`). This covers:
  - which rows of the provider's device table become records;
  - how the numeric columns are cleaned;
  - how each capture is merged into the history kept in the session.

Shared helpers live in `Wrappers` (an `Option` type) and `Text` (digits,
decimal and hex text, code-point order, `strip`). `Sorting` holds an
insertion sort specified as sorted plus a permutation.

Objects whose fields the code updates are classes:

- `FlowDatabase`, `AuthDatabase`;
- `DataScraper`, `ContinuousMonitor`;
- the dashboard's `SessionState`;
- the downloader's `SessionFrames`.

Their methods state their whole new state in terms of specification
functions. Lemmas then prove the properties the code promises about those
functions. Pure code is modelled as functions and lemmas.

Everything outside the program is a parameter of the operation that uses
it:

- clocks: integer seconds, or real seconds in the health probe;
- random salts and session tokens;
- the PBKDF2 key derivation: an uninterpreted function that returns
  lower-case hex;
- network, browser and database answers;
- the environment variables.

### Behaviour worth noting

- The stale reason of the health probe is `stale:<seconds>s`: the whole
  seconds of the age followed by a trailing `s` (`health.py:70`).
- `Health.Probe` reads a timestamp without an offset as UTC. This follows
  `health.py:56-57` and `health.py:60-61`.
- `max_devices` in the downloader is tested only for truthiness
  (`m2m-downloader/streamlit_app.py:111`). A negative cap therefore stops
  the loop before the first row, and the model keeps that behaviour.

## Model

| member | source | states |
|---|---|---|
| Text.DecimalRoundTrip | health.py:70 | reading back the decimal text of a natural number gives the number |
| Text.DecimalLength | scraper.py:104 | `str(n)` has at most `k` digits exactly when `n < 10**k` |
| Text.ParseHex | scraper.py:102 | `int(text, 16)` succeeds exactly on a non-empty run of hex digits, with a value below `16**len` |
| Text.Hex2RoundTrip | scraper.py:111 | a byte written as two hex digits parses back to the same byte |
| Text.StripLeft | m2m-downloader/streamlit_app.py:119 | the result is the input without its leading white space, and does not start with white space |
| Text.StripRight | m2m-downloader/streamlit_app.py:119 | the result is the input without its trailing white space, and does not end with white space |
| Text.Strip | m2m-downloader/streamlit_app.py:119 | `.strip()`: the slice of the input left after removing the maximal white-space prefix and suffix; it has white space at neither end, and is empty only for an all-white-space input |
| Text.LexLeTotal | database.py:281 | the code-point order on names used by `ORDER BY device_name` is total |
| Text.LexLeTransitive | database.py:281 | the code-point order on names is transitive |
| Sorting.SortBy | m2m-downloader/streamlit_app.py:70 | sorting by a total preorder gives a sorted permutation of the input |
| Sorting.Limit | database.py:246 | `LIMIT n` keeps a prefix of `n` rows, or all rows when `n` is negative or too large |
| ShareToken.OrdDigits | scraper.py:96 | the joined code points of the password are all digits and at least as many as the password's characters |
| ShareToken.Multiplier | scraper.py:97-98 | the five-digit multiplier exists exactly when the digit string's length is not a multiple of five (otherwise `prand[5s]` raises) |
| ShareToken.HalfRoundedEvenIsNearestEven | scraper.py:99 | `round(len(pwd) / 2)` is a nearest integer, and the even one on a tie |
| ShareToken.HalfRoundedEvenUnique | scraper.py:99 | no other integer meets Python's round-half-to-even rule |
| ShareToken.DefaultPasswordIncrement | scraper.py:90-99 | for the default password `usr.cn` the increment is 3 |
| ShareToken.FoldOnceDecreases | scraper.py:106 | each folding round lowers the digit string's value, so the folding loop ends |
| ShareToken.Fold | scraper.py:105-106 | folding ends with a digit string of 1 to 10 digits |
| ShareToken.FoldDigits | scraper.py:105-106 | the `while len(prand) > 10` loop computes the folded string |
| ShareToken.Seed | scraper.py:104-107 | the first keystream state is `(mult * fold(prand + str(salt)) + incr) % (2**31 - 1)`, below the modulus |
| ShareToken.Next | scraper.py:113 | one generator step stays below the modulus |
| ShareToken.KeyByte | scraper.py:111 | the key byte `int(prand / modu * 255)` lies in `[0, 255)` |
| ShareToken.XorInvolution | scraper.py:111 | XOR with the same key byte twice restores the byte |
| ShareToken.XorBitsInvolution | scraper.py:111 | XOR on the low `n` bits is an involution for every value below `2**n` |
| ShareToken.DecryptFrom | scraper.py:110-113 | decrypting gives one character per two-digit chunk (`ceil(len / 2)`), each below 256, or fails on a non-hex chunk |
| ShareToken.DecryptCore | scraper.py:109-113 | the decryption loop computes the reference decryption of the core |
| ShareToken.DecryptShareToken | scraper.py:90-114 | the decoder as written returns the reference plain text, with `None` for an empty parameter, a bad multiplier index or a bad salt |
| ShareToken.PlaintextWith | scraper.py:102-113 | once multiplier and salt are computed, the plain text is the decrypted core under the seeded keystream |
| ShareToken.DecryptFromAt | scraper.py:110-113 | character `i` of the output is chunk `i` XOR the key byte of generator state `i` |
| ShareToken.PlaintextShape | scraper.py:92-113 | a decoded token implies a non-empty parameter, a valid multiplier and a hex salt, and it has the decrypted length and characters |
| ShareToken.DecryptEncryptFrom | scraper.py:110-113 | decrypting what the same keystream encrypted gives the plain text back |
| ShareToken.ShareTokenRoundTrip | scraper.py:90-114 | decoding a share parameter built by the provider (hex cipher text plus an eight-digit hex salt) gives the plain text back |
| FetchChain.FirstDigit | scraper.py:321 | the first digit of the text, with no digit before it |
| FetchChain.DigitRun | scraper.py:321 | the maximal digit run that starts at a position |
| FetchChain.FirstNumber | scraper.py:321-323 | `re.findall(r"\d+\.?\d*", text)[0]` read as a number, when there is one |
| FetchChain.FirstNumberPresent | scraper.py:321-323 | the text has a first number exactly when it contains a digit |
| FetchChain.FirstNumberMatches | scraper.py:321 | the number found is the leftmost greedy match of the pattern |
| FetchChain.RunIsGreedy | scraper.py:321 | the number read from the digit run is a greedy match at its position |
| FetchChain.GreedyMatchUnique | scraper.py:321 | two greedy matches at one position are the same lexeme |
| FetchChain.FirstNumberIsTheFirstMatch | scraper.py:321-323 | any leftmost greedy match of the pattern is the number `FirstNumber` returns |
| FetchChain.ExtractFields | scraper.py:314-330 | the per-selector loop collects exactly the reference extraction |
| FetchChain.ExtractedFields | scraper.py:314-330 | a key is extracted exactly when its selector found an element with a digit, and its value is that text's first number; the same loop runs in the browser at scraper.py:350-361 |
| FetchChain.RunChain | scraper.py:340-388 | strategies are tried in priority order; each is tried only after the earlier ones came back empty; the result is the first non-empty yield, with the title only from the browser, or `None` |
| FetchChain.FetchMonitorData | scraper.py:332-388 | the browser runs only with selectors and without `force_requests`; the API runs whenever the browser gave nothing; plain HTTP runs only with selectors after an empty API answer |
| Scraper.DiffersIffUnequal | scraper.py:283-287 | comparing depth, velocity and flow is comparing whole readings |
| Scraper.ObserveRecordsReading | scraper.py:275-295 | after the change detector the baseline equals the new reading, and other devices' baselines are untouched |
| Scraper.FirstSightingChanges | scraper.py:275-278 | a device seen for the first time is reported as changed |
| Scraper.ObserveIdempotent | scraper.py:280-295 | seeing the same reading again reports no change and changes nothing |
| Scraper.ChangedExactlyAtTransitions | scraper.py:260-295 | over a series of readings of one device, the detector reports a change at position `i > 0` exactly when reading `i` differs from reading `i - 1`, and at position 0 exactly when it differs from the baseline (always for a new device) |
| Scraper.StoreResultSpec | scraper.py:390-428 | with change detection an unchanged reading is skipped; anything else reaches the database; a stored reading becomes the baseline in both modes |
| Scraper.FailedStoreIsNotRetried | scraper.py:406-411 | with change detection, once a reading's write raised, storing the same reading again is skipped |
| Scraper.StoreAllAlwaysStores | scraper.py:406-428 | in store-all mode every reading is written while the database is up |
| Scraper.DataScraper.constructor | scraper.py:82-88 | an empty baseline, and `force_requests` from `SCRAPER_FORCE_REQUESTS` being `1`, `true` or `yes` in any case |
| Scraper.DataScraper.HasDataChanged | scraper.py:260-295 | reports a change as the reference detector does, and moves the baseline as it does |
| Scraper.DataScraper.StoreMeasurement | scraper.py:390-428 | the gate, the device and measurement writes at `now`, the new baseline, and the outcome `True`, `False` or raised; when `add_measurement` raises, the device row committed by `add_device` stays |
| MeasurementStore.FindDevice | database.py:94-99 | the device row with a given primary key, when present |
| MeasurementStore.InsertDeviceSpec | database.py:153-159 | the device is present afterwards; existing rows are never overwritten; at most one row is added; the primary key stays unique |
| MeasurementStore.InsertDeviceIdempotent | database.py:153-159 | inserting the same device id again changes nothing |
| MeasurementStore.InsertMeasurementSpec | database.py:188-195 | the `(device_id, timestamp)` key is present afterwards and stays unique; one row with the next id is added only when the key was new |
| MeasurementStore.Joined | database.py:238-259 | the inner join returns every selected measurement whose device exists, with that device's name, and nothing else |
| MeasurementStore.NewerOrSamePreorder | database.py:245 | `ORDER BY timestamp DESC` is a total preorder |
| MeasurementStore.Query | database.py:235-263 | `get_measurements`: newest first; exactly `limit` rows when that many qualify (all rows for a negative limit); drawn from the joined rows; no row left out is newer than one returned |
| MeasurementStore.LimitOfSorted | database.py:245-246 | a prefix of a newest-first permutation keeps the newest rows |
| MeasurementStore.NameOrderPreorder | database.py:281 | ordering devices by name is a total preorder |
| MeasurementStore.DevicesByName | database.py:281 | `get_devices`: every device once, ordered by name |
| MeasurementStore.QueryFiltersDevice | database.py:238-248 | with a truthy device id every row returned belongs to that device |
| MeasurementStore.QueryJoinsDevices | database.py:241-244 | only measurements of registered devices are returned, each with its device's name |
| MeasurementStore.QueryUnlimitedIsComplete | database.py:250-259 | with no limit and no device filter, every registered device's measurements are returned |
| MeasurementStore.DeviceCountAfterInsert | database.py:286-304 | a new device raises the device count by one; a known one leaves it |
| MeasurementStore.FlowDatabase.constructor | database.py:92-118 | empty tables, ids counting from 1 |
| MeasurementStore.FlowDatabase.AddDevice | database.py:131-162 | `add_device` inserts if absent and changes nothing else |
| MeasurementStore.FlowDatabase.AddMeasurement | database.py:164-198 | `add_measurement` inserts if the key is new, advancing the id counter only then |
| MeasurementStore.FlowDatabase.GetMeasurements | database.py:200-263 | the query over the current tables |
| MeasurementStore.FlowDatabase.GetDevices | database.py:265-284 | the devices ordered by name |
| MeasurementStore.FlowDatabase.GetDeviceCount | database.py:286-304 | the number of device rows |
| MeasurementStore.FlowDatabase.GetMeasurementCount | database.py:306-324 | the number of measurement rows |
| MeasurementStore.FlowDatabase.DeleteAllData | database.py:326-344 | both tables emptied; ids are not reused |
| Monitor.PickField | monitor.py:133-177 | a field takes the canonical key when present, else its alias (a numeric alias as it is), else nothing |
| Monitor.CheckCounters | monitor.py:106-204 | the error counter moves exactly on empty data or a raising store; the update counter moves exactly on `True` from the store; never both; a check succeeds exactly when a value was found and the store did not raise |
| Monitor.NoValueNoStore | monitor.py:181-197 | with no value no store is attempted and the baseline is untouched |
| Monitor.CanonicalPreferred | monitor.py:133-167 | with the canonical keys present, the readings are their values |
| Monitor.UnhealthyIsFinal | monitor.py:96-102 | nothing in the retry cycle raises the health flag again |
| Monitor.HealthyIffBelowLimit | monitor.py:79-104 | the flag stays up exactly while the consecutive error count stays below ten after every cycle |
| Monitor.ConsecutiveCountsTrailingFailures | monitor.py:79-102 | the consecutive count is the number of exhausted cycles since the last success |
| Monitor.RateDenominator | monitor.py:222 | `max(1, check_count)` is at least 1, and is the check count once any check ran |
| Monitor.SummariesSpaced | monitor.py:212-224 | logged summaries are at least the interval apart, and none comes early |
| Monitor.RunWithRestarts | monitor.py:290-319 | `main` builds between one and five monitors, sleeps between restarts only, and exits 1 exactly after the fifth crash |
| Monitor.ContinuousMonitor.constructor | monitor.py:53-64 | zero counters, healthy, both clocks at `now`, a fresh scraper over the database |
| Monitor.UpdateStoresReading | monitor.py:181-191 | a check that counts an update has put the reading into the measurement table under the configured device at the check's time, with the device registered, keeping every earlier row |
| Monitor.CycleShape | monitor.py:79-93 | a retry cycle makes between one check and one per attempt, stops at the first truthy answer, uses every attempt when none is truthy, and moves a counter at most once per check |
| Monitor.SuccessEndsCycle | monitor.py:84-87 | once a check was truthy, the later attempts change nothing |
| Monitor.PrefixStep | monitor.py:79-81 | after attempts with no truthy answer, the next attempt makes exactly one check on the baseline and tables the previous check left |
| Monitor.ContinuousMonitor.CheckForUpdates | monitor.py:106-204 | one check: the check count goes up by one; the answer, the new baseline, the new database tables and the update and error counters are those of the reference check `Check` on the fetched data |
| Monitor.ContinuousMonitor.FetchReadings | monitor.py:114-120 | the fetch for the configured device gives the chain's data, or `None` when it is empty |
| Monitor.ContinuousMonitor.StoreReading | monitor.py:181-194 | the store call for the configured device: outcome and baseline as `store_measurement` gives them; after `True`, the device and measurement tables are the inserts of the configured device and the reading at `now` |
| Monitor.ContinuousMonitor.RetryStep | monitor.py:79-81 | one pass of the retry loop extends the cycle of the earlier attempts by this attempt's check |
| Monitor.ContinuousMonitor.RetryAttempts | monitor.py:79-93 | the `for attempt` loop: its answers, the baseline, the tables and the counter moves are those of the reference cycle over the attempts; one sleep between consecutive checks |
| Monitor.ContinuousMonitor.CheckForUpdatesWithRetry | monitor.py:77-104 | the answers are those of `check_for_updates` on each attempt in turn, one to three of them, stopping at the first truthy one; the baseline, the database tables and the update and error counters end as the reference cycle leaves them; sleeps only between checks; a success resets the count and records its time; exhaustion adds one and drops the flag at the limit |
| Monitor.ContinuousMonitor.PerformHealthCheck | monitor.py:206-228 | a summary exactly when the interval has elapsed; a warning exactly when the last success is over ten minutes old; no counter changes |
| Monitor.ContinuousMonitor.RunCheck | monitor.py:230-236 | one retry cycle with the same effects on baseline, tables and counters, then a health check whose summary reports the counters as the cycle left them |
| CleanDuplicates.DeviceRows | clean_duplicates.py:47-48 | one device's rows, and only those |
| CleanDuplicates.ScanDevice | clean_duplicates.py:51-65 | the loop reports the rows equal to their predecessor, and fails exactly when such a row cannot be formatted |
| CleanDuplicates.FindDuplicates | clean_duplicates.py:26-68 | `find_duplicates` over the query's rows computes the reference report |
| CleanDuplicates.ConsecutiveMembers | clean_duplicates.py:51-60 | a row is reported exactly when it equals the row just before it |
| CleanDuplicates.ReportedIffEqualsPredecessor | clean_duplicates.py:51-60 | with distinct rows, row `i` is reported exactly when it equals row `i - 1`; the first row never is |
| CleanDuplicates.ConsecutiveLength | clean_duplicates.py:51 | at most one report per row after the first |
| CleanDuplicates.ReportsInTimestampOrder | clean_duplicates.py:40-65 | each device's reports come out in timestamp order |
| CleanDuplicates.DeleteIds | clean_duplicates.py:92 | the delete keeps exactly the rows whose id is not listed, in table order |
| CleanDuplicates.RemoveDuplicatesSpec | clean_duplicates.py:71-98 | the rows left are exactly those without an earlier, earlier-created row of the same device with equal rounded readings |
| CleanDuplicates.EarliestIsKept | clean_duplicates.py:76-87 | the earliest row of a device is never deleted |
| CleanDuplicates.NullIsKept | clean_duplicates.py:82-84 | a row with a `NULL` rounded reading is never deleted |
| CleanDuplicates.ReportedIsRemoved | clean_duplicates.py:51-87 | a reported row with no `NULL` reading, created after its predecessor, is deleted |
| Health.UtcSeconds | health.py:55-61 | a timestamp without an offset is read as UTC; an aware one is shifted by its offset |
| Health.Trunc | health.py:70 | `int(age)` truncates toward zero |
| Health.ProbeSpec | health.py:22-77 | healthy, reason `ok` and exit code 0 go together; any other outcome exits 1; healthy means the database exists and its newest measurement is at most the limit old |
| Health.ProbeBranches | health.py:33-77 | each early branch (missing database, failed query, no measurements) wins over the later ones; stale carries the truncated age; the latest timestamp is reported once read |
| Health.NaiveIsUtc | health.py:55-61 | a naive timestamp is judged exactly as the same time marked UTC |
| Health.HealthyEarlier | health.py:63-64 | healthy now means healthy at any earlier moment; stale earlier means stale later |
| Health.ReasonTextInjective | health.py:34-75 | no two different outcomes print the same reason |
| Health.IntDecimalRoundTrip | health.py:70 | the seconds in the stale reason read back as the same integer |
| Health.StaleCarriesAge | health.py:63-72 | with a non-negative limit the stale reason carries the age in whole seconds, at least the limit |
| Auth.BeforeDollar | auth.py:174 | `split('$')[0]`: the longest prefix without a `$` |
| Auth.HashPassword | auth.py:155-168 | the stored form keeps the salt it was given |
| Auth.BeforeDollarOfHash | auth.py:168-174 | the salt is recovered from a stored hash when it has no `$` |
| Auth.HashThenVerify | auth.py:155-178 | a password verifies against its own hash when the salt is ASCII without `$` |
| Auth.DefaultSaltVerifies | auth.py:158-159 | with the default 64-hex-digit salt, a password always verifies against its own hash |
| Auth.VerifyIff | auth.py:170-178 | a stored hash verifies exactly when it is its own salt, a `$` and the digest of the password with that salt, all in ASCII |
| Auth.FindUser | auth.py:264-270 | the row `WHERE username = ?` selects, when there is one |
| Auth.SetLastLogin | auth.py:283-286 | only the named user's `last_login` changes |
| Auth.RemovePair | auth.py:402-405 | the pair is gone and every other assignment is kept |
| Auth.AssignThenUnassign | auth.py:368-407 | assigning a new pair and removing it again restores the table |
| Auth.RemovePairUnique | auth.py:398-407 | removal keeps the `UNIQUE (user_id, device_id)` constraint of auth.py:129 |
| Auth.UserRows | auth.py:429-431 | one user's assignments, ordered by `assigned_at` |
| Auth.UserDevices | auth.py:425-433 | the user's device ids, each once, exactly the assigned ones, oldest assignment first |
| Auth.RowOfAssignment | auth.py:429-431 | in a user's sorted rows, the row carrying a device is that device's assignment |
| Auth.ColumnInAssignmentOrder | auth.py:429-431 | the device column of a user's rows follows `ORDER BY assigned_at` |
| Auth.AuthDatabase.constructor | auth.py:104-153 | empty tables; the first user id is 1 |
| Auth.AuthDatabase.CreateUser | auth.py:180-221 | an unknown role raises before anything else; a taken username or email changes nothing; otherwise the active user is added with the next id |
| Auth.AuthDatabase.AuthenticateUser | auth.py:259-291 | the user's info without the hash exactly when the user exists, the password verifies and the account is active; then `last_login` becomes `now` |
| Auth.AssignPair | auth.py:371-377 | `INSERT OR IGNORE`: afterwards the pair is present, every earlier row is kept in place, and one row is added exactly when the pair was absent |
| Auth.AuthDatabase.AssignDeviceToUser | auth.py:367-381 | `True` exactly when the pair was new; the table becomes `AssignPair` of the old one; the other tables are unchanged |
| Auth.AuthDatabase.UnassignDeviceFromUser | auth.py:398-409 | `True` exactly when a pair was removed |
| Auth.AuthDatabase.GetUserDevices | auth.py:411-435 | the user's device ids, each once, exactly the assigned ones, ordered by the time each was assigned |
| Auth.AuthDatabase.CreateSession | auth.py:476-513 | a new session with the given lifetime, or an integrity error that changes nothing when the token is taken |
| Auth.AuthDatabase.GetUserFromSession | auth.py:536-550 | a user exactly when the session exists, has not expired and its user exists; the row returned is that user's id, username, email, role and active flag |
| Auth.AuthDatabase.DeleteSession | auth.py:554-574 | `True` exactly when the session existed; it is gone afterwards |
| Auth.UserById | auth.py:540-542 | the joined row exists exactly when a user has the id, and it is that user's id, username, email, role and active flag |
| Auth.SessionLifetime | auth.py:476-552 | a new session of an existing user is accepted exactly until `hours` after its creation |
| Auth.DeletedSessionIsGone | auth.py:515-574 | a deleted session yields no user |
| Auth.AuthenticateSpec | auth.py:264-289 | with unique usernames, login succeeds exactly for the active user whose password verifies |
| Auth.SignUpThenLogin | auth.py:180-291 | a user just created with a default salt can log in with the same password |
| Auth.AssignIdempotent | auth.py:371-379 | assigning a pair again, at any later time, leaves the table as the first assignment left it |
| Auth.SqliteSessionOutlivesLifetime | auth.py:498-550 | as written: east of Greenwich a new SQLite session of an existing user is accepted exactly until its lifetime plus the machine's UTC offset, so it is still accepted at the moment its lifetime ends |
| StreamlitAuth.Filled | streamlit_auth.py:13-20 | a missing key gets the default; a present key keeps its value |
| StreamlitAuth.FilledIdempotent | streamlit_auth.py:11-20 | running the initialisation twice is running it once |
| StreamlitAuth.KeepAssigned | streamlit_auth.py:137 | exactly the devices whose `device_id` is among the user's ids |
| StreamlitAuth.KeepAssignedKeepsOrder | streamlit_auth.py:137 | the comprehension keeps the order of the device list |
| StreamlitAuth.SignUpCheckOrder | streamlit_auth.py:61-67 | the checks apply in order; the database is reached exactly when all fields are filled and the passwords match and have at least 8 characters |
| StreamlitAuth.SessionState.constructor | streamlit_auth.py:11-20 | no session key is set before initialisation |
| StreamlitAuth.SessionState.InitAuthState | streamlit_auth.py:11-20 | each missing key is set and each present one left alone |
| StreamlitAuth.SessionState.FilterDevicesForUser | streamlit_auth.py:124-137 | nothing for a visitor, everything for an admin, and for anyone else exactly the assigned devices in list order |
| StreamlitAuth.SessionState.Logout | streamlit_auth.py:79-86 | the stored session is deleted when there is one; the user and session keys are cleared |
| StreamlitAuth.SessionState.Login | streamlit_auth.py:39-51 | both fields are required; once authenticated, the login succeeds exactly when the fresh token is not already in the sessions table (otherwise `create_session` raises), and success stores the user and a 24-hour session and adds exactly that session to the table; an authenticated user's `last_login` becomes `now`; a missing field or a failed authentication leaves the session keys and every table as they were |
| StreamlitAuth.SessionState.SignUp | streamlit_auth.py:60-74 | the page rejects exactly when one of the checks fails, with that check's message; otherwise the account is created exactly when neither the username nor the email is taken (`create_user` with role `user`); only a created account changes the users table and the id counter |
| History.Clean | m2m-downloader/streamlit_app.py:31 | `[^0-9.+-]` removal: every kept character is numeric, and each numeric character is kept as often as it occurs |
| History.CleanKeepsNumeric | m2m-downloader/streamlit_app.py:31 | a string with nothing to remove is kept |
| History.CleanConcat | m2m-downloader/streamlit_app.py:31 | cleaning a concatenation cleans each part |
| History.CleanIdempotent | m2m-downloader/streamlit_app.py:31 | cleaning twice is cleaning once |
| History.SanitizeText | m2m-downloader/streamlit_app.py:28-32 | the column keeps its length; each cell is the cleaned text of the cell |
| History.MissingCleansToEmpty | m2m-downloader/streamlit_app.py:31 | a missing cell cleans to an empty text |
| History.RowStep | m2m-downloader/streamlit_app.py:114-177 | a row gives a record exactly when it qualifies and its detail page gave readings; the record is that row's; a row whose handle raised while being read gives only a scrape error for its index |
| History.BackWarnings | m2m-downloader/streamlit_app.py:165-174 | going back to the list never raises the empty-table warning |
| History.Outcomes | m2m-downloader/streamlit_app.py:110-177 | one loop outcome per row, in row order |
| History.CappedStays | m2m-downloader/streamlit_app.py:111-112 | once the cap is reached, further rows change nothing |
| History.FetchLatestReadings | m2m-downloader/streamlit_app.py:105-181 | the loop over the device rows computes the reference selection |
| History.CapBoundsRecords | m2m-downloader/streamlit_app.py:111-112 | a positive cap bounds the records; a negative one stops the loop before the first row |
| History.RecordsFromOutcomes | m2m-downloader/streamlit_app.py:153-163 | every record is the record of one of the rows looked at |
| History.UncappedKeepsAll | m2m-downloader/streamlit_app.py:110-177 | without a cap the record of every qualifying row is kept |
| History.SelectionSpec | m2m-downloader/streamlit_app.py:105-181 | the no-rows warning exactly for an empty table; the cap; every record from a qualifying row with that row's clock reading; nothing lost without a cap |
| History.KeepLast | m2m-downloader/streamlit_app.py:69 | `drop_duplicates(keep="last")`: unique keys, the same keys, and exactly the rows no later row shares a key with |
| History.TimestampLeIsPreorder | m2m-downloader/streamlit_app.py:70 | time order with `NaT` last is a total preorder |
| History.SessionFrames.constructor | m2m-downloader/streamlit_app.py:64 | no history is stored yet |
| History.SessionFrames.UpdateHistory | m2m-downloader/streamlit_app.py:63-72 | the stored and returned history is the merge of the previous one with the capture; no other key changes |
| History.MergedHistorySpec | m2m-downloader/streamlit_app.py:68-70 | after a merge keys are unique; every key seen before or in the capture remains; the capture's rows override older rows with the same key |
| History.FirstCaptureUnchanged | m2m-downloader/streamlit_app.py:65-66 | with no earlier history the capture is stored as it is |

## Left out

- The network, the browser and the provider API are not modelled. Page loads, selectors and the API client (`_fetch_via_api`, scraper.py:122-258) are inputs: each strategy is given as what it yielded.
- ShareToken.DecryptShareToken: it stops at the joined character list. The `base64.b64decode`, UTF-8 and JSON steps that pull out the token are left out.
- ShareToken.KeyByte: floating-point arithmetic is left out. The key byte is stated as the exact quotient `prand * 255 / modu`, rounded down.
- `Text.ParseHex` accepts plain hex digits only. The `0x` prefix, signs, underscores and surrounding white space that `int(x, 16)` also accepts are left out. Unicode digits are left out too.
- Measurement values are exact reals. Float rounding, `NaN` and `pd.to_numeric`'s coercion to `NaN` are left out. `History.SanitizeText` stops at the cleaned text.
- Only the SQLite branch of `FlowDatabase` and `AuthDatabase` is modelled. The Postgres branches differ in ways the model does not capture: `create_session` computes the expiry with `NOW() + INTERVAL`, the foreign keys are enforced with `ON DELETE CASCADE` (auth.py:72-73), and a `SERIAL` id is consumed by a failed insert. In `FlowDatabase`, the measurement foreign key `fk_device` is enforced (database.py:62), so `add_measurement` for an unregistered device raises there. The inserts use `ON CONFLICT … DO NOTHING` rather than `INSERT OR IGNORE` (database.py:141, 176). A negative `limit` is an error in Postgres (database.py:214, 225), where SQLite treats it as no limit.
- Auth.AuthDatabase.CreateSession: the expiry is stored on the same clock as the check, which is the SQLite branch on a host whose local time is UTC. The offset of other hosts is modelled separately by `Auth.SqliteExpiresAt` (see Findings).
- FetchChain.FirstNumber: `\d` is read as the ASCII digits `0-9`. Python's `re` on `str` and `float()` also accept other Unicode decimal digits; text with such digits gives no value in the model.
- SQL `ROUND(x, k)` is not modelled. A row carries its rounded readings.
- Monitor.PickField: the alias keys' string parsing (stripping unit suffixes, then `float`) is left out. The fetch chain only ever returns numbers.
- The `except` branch of `check_for_updates_with_retry` is left out. The model's check never raises, because every failure is caught inside it.
- `start_monitoring` is left out, with the scheduler, the signal handlers, logging and `asyncio.sleep`. Sleeps are counted; they are not performed.
- The success-rate percentages and the formatted `values` string of a duplicate report are left out. Only the fact that formatting a `None` reading raises is kept.
- PBKDF2, `secrets` and `hmac` internals are left out. The key derivation is an uninterpreted parameter, and random salts and session tokens are parameters.
- `get_user_by_id`, `list_users`, `get_device_users` and `render_auth_header` are left out. They are read-only listings and widgets no modelled property depends on.
- `get_current_user`'s `{}` fallback is represented by `None` in the stored user slot.
- Streamlit widgets, messages and `st.rerun()` are left out. Each handler reports which message it would show.
- StreamlitAuth.SessionState.Login and StreamlitAuth.SessionState.Logout require an initialised session state. The page always calls `init_auth_state` first.
- The login timeout of the downloader (the `RuntimeError` at m2m-downloader/streamlit_app.py:101-103) is left out. The time-zone handling of `prepare_for_analysis` is left out too: timestamps are given already parsed.
- The date parsers of the health probe (`fromisoformat` and its `strptime` fallback) are a parameter of `Health.Probe`.
- FetchChain.FetchMonitorData takes the browser's element texts as one input and does not model how many elements the browser reads before failing.
- The record timestamps of the downloader and the clock readings of the monitor are inputs.

## Findings

| source | as written | input that shows it | evidently intended | confidence | as-written member | corrected member |
|---|---|---|---|---|---|---|
| auth.py:498-550 | The SQLite branch stores `expires_at` as local `datetime.now()` plus the lifetime. The check compares it with `CURRENT_TIMESTAMP`, which is UTC. | On a host at UTC+10, a 24-hour session is accepted for 34 hours. West of Greenwich it expires early. | A session is accepted for exactly `expires_in_hours` hours after its creation. | medium, not executed | Auth.SqliteSessionOutlivesLifetime | Auth.SessionLifetime |
