/**
 * The authentication state of the dashboard (streamlit_auth.py): the
 * `st.session_state` keys `auth_db`, `user` and `session_id`, the login and
 * sign-up button handlers, logout, and who may see which devices.
 *
 * Widgets, messages and `st.rerun()` are not modelled: each handler takes
 * the text typed into its fields and reports which message it would show.
 */
module StreamlitAuth {
  import opened Wrappers
  import Auth

  /** A key of `st.session_state`, which may not be set yet. */
  datatype Slot<T> = Missing | Present(value: T)

  /** `value` for a missing key, the key's own value otherwise. */
  function Filled<T>(slot: Slot<T>, value: T): (r: Slot<T>)
    ensures r.Present?
    ensures slot.Present? ==> r == slot
  {
    if slot.Missing? then Present(value) else slot
  }

  /** Filling twice is filling once, whatever the second default. */
  lemma FilledIdempotent<T>(slot: Slot<T>, value: T, other: T)
    ensures Filled(Filled(slot, value), other) == Filled(slot, value)
  {
  }

  /** A dashboard device record; only its `device_id` matters here. */
  datatype DeviceEntry = DeviceEntry(deviceId: Option<string>, deviceName: string)

  /** `[d for d in all_devices if d.get('device_id') in ids]`. */
  function KeepAssigned(all: seq<DeviceEntry>, ids: seq<string>): (r: seq<DeviceEntry>)
    ensures forall d :: d in r <==> d in all && d.deviceId.Some? && d.deviceId.value in ids
    ensures |r| <= |all|
    decreases |all|
  {
    if all == [] then []
    else
      var rest := KeepAssigned(all[1..], ids);
      if all[0].deviceId.Some? && all[0].deviceId.value in ids then [all[0]] + rest else rest
  }

  /** `s` is `all` with some elements dropped, in the same order. */
  predicate SubsequenceOf<T(==)>(s: seq<T>, all: seq<T>)
    decreases |all|
  {
    if s == [] then true
    else if all == [] then false
    else (s[0] == all[0] && SubsequenceOf(s[1..], all[1..])) || SubsequenceOf(s, all[1..])
  }

  /** The list comprehension keeps the order of `all`. */
  lemma {:induction false} KeepAssignedKeepsOrder(all: seq<DeviceEntry>, ids: seq<string>)
    ensures SubsequenceOf(KeepAssigned(all, ids), all)
    decreases |all|
  {
    if all != [] {
      KeepAssignedKeepsOrder(all[1..], ids);
      var r := KeepAssigned(all, ids);
      if r != [] && all[0].deviceId.Some? && all[0].deviceId.value in ids {
        assert r[1..] == KeepAssigned(all[1..], ids);
      }
    }
  }

  lemma {:induction false} SubsequenceOfSelf(s: seq<DeviceEntry>)
    ensures SubsequenceOf(s, s)
    decreases |s|
  {
    if s != [] {
      SubsequenceOfSelf(s[1..]);
    }
  }

  /** Which message the sign-up handler shows before reaching the database. */
  datatype SignUpError = MissingField | PasswordMismatch | PasswordTooShort

  /** The sign-up checks, in order: all fields, matching passwords, at least 8 characters. */
  function SignUpCheck(username: string, email: string, password: string, confirm: string): Option<SignUpError>
  {
    if username == [] || email == [] || password == [] then Some(MissingField)
    else if password != confirm then Some(PasswordMismatch)
    else if |password| < 8 then Some(PasswordTooShort)
    else None
  }

  /**
   * Each check wins over the later ones; the database is reached exactly
   * when all fields are filled, the passwords match and are long enough.
   */
  lemma SignUpCheckOrder(username: string, email: string, password: string, confirm: string)
    ensures SignUpCheck(username, email, password, confirm) == None
      <==> username != [] && email != [] && |password| >= 8 && password == confirm
    ensures SignUpCheck(username, email, password, confirm) == Some(PasswordMismatch)
      ==> username != [] && email != [] && password != []
    ensures SignUpCheck(username, email, password, confirm) == Some(PasswordTooShort)
      ==> username != [] && email != [] && 1 <= |password| < 8 && password == confirm
  {
  }

  datatype LoginOutcome = MissingCredentials | InvalidCredentials | LoggedIn | SessionRaised

  datatype SignUpOutcome = Rejected(error: SignUpError) | AccountCreated | AlreadyExists

  class SessionState {
    var authDb: Slot<Auth.AuthDatabase>
    var user: Slot<Option<Auth.UserInfo>>
    var sessionId: Slot<Option<string>>

    /** A browser session before `init_auth_state` ran: no key is set. */
    constructor ()
      ensures authDb == Missing && user == Missing && sessionId == Missing
    {
      authDb, user, sessionId := Missing, Missing, Missing;
    }

    ghost predicate Initialized()
      reads this
    {
      authDb.Present? && user.Present? && sessionId.Present?
    }

    ghost predicate Valid()
      reads this, if authDb.Present? then {authDb.value} else {}
    {
      Initialized() && authDb.value.Valid()
    }

    /** `init_auth_state`: set each missing key, leave each present one alone. */
    method InitAuthState(db: Auth.AuthDatabase)
      modifies this
      ensures authDb == Filled(old(authDb), db)
      ensures user == Filled(old(user), None)
      ensures sessionId == Filled(old(sessionId), None)
      ensures Initialized()
    {
      authDb := Filled(authDb, db);
      user := Filled(user, None);
      sessionId := Filled(sessionId, None);
    }

    /** `is_authenticated`: a user is stored. */
    predicate IsAuthenticated()
      reads this
      requires Initialized()
    {
      user.value.Some?
    }

    /** `is_admin`: authenticated with the role `admin`. */
    predicate IsAdmin()
      reads this
      requires Initialized()
    {
      IsAuthenticated() && user.value.value.role == "admin"
    }

    /**
     * `filter_devices_for_user`: nothing for a visitor, everything for an
     * admin, the assigned devices in list order for anyone else.
     */
    function FilterDevicesForUser(all: seq<DeviceEntry>): (r: seq<DeviceEntry>)
      reads this, if authDb.Present? then {authDb.value} else {}
      requires Valid()
      ensures !IsAuthenticated() ==> r == []
      ensures IsAdmin() ==> r == all
      ensures IsAuthenticated() && !IsAdmin() ==>
        forall d :: d in r <==>
          (d in all && d.deviceId.Some? && Auth.HasPair(authDb.value.assignments, user.value.value.userId, d.deviceId.value))
      ensures SubsequenceOf(r, all)
    {
      if !IsAuthenticated() then []
      else if IsAdmin() then
        SubsequenceOfSelf(all);
        all
      else
        var ids := authDb.value.GetUserDevices(user.value.value.userId);
        KeepAssignedKeepsOrder(all, ids);
        KeepAssigned(all, ids)
    }

    /** `logout`: drop the stored session if there is one, then forget the user. */
    method Logout()
      requires Valid()
      modifies this, authDb.value
      ensures Valid() && authDb == old(authDb)
      ensures user == Present(None) && sessionId == Present(None)
      ensures old(sessionId.value).Some? && old(sessionId.value).value != [] ==>
        authDb.value.sessions == old(authDb.value.sessions) - {old(sessionId.value).value}
      ensures !(old(sessionId.value).Some? && old(sessionId.value).value != []) ==>
        authDb.value.sessions == old(authDb.value.sessions)
      ensures authDb.value.users == old(authDb.value.users) && authDb.value.assignments == old(authDb.value.assignments)
      ensures authDb.value.nextUserId == old(authDb.value.nextUserId)
    {
      var db := authDb.value;
      if sessionId.value.Some? && sessionId.value.value != [] {
        var _ := db.DeleteSession(sessionId.value.value);
      }
      user := Present(None);
      sessionId := Present(None);
    }

    /**
     * The login button: both fields are required; on success a 24-hour
     * session is created with the token `token` and the user and session
     * are stored; a failed login leaves the state alone.
     */
    method Login(username: string, password: string, token: string, now: int) returns (outcome: LoginOutcome)
      requires Valid()
      modifies this, authDb.value
      ensures Valid() && authDb == old(authDb)
      ensures outcome == MissingCredentials <==> username == [] || password == []
      ensures outcome != MissingCredentials ==>
        (outcome == InvalidCredentials <==> Auth.Authenticate(authDb.value.kdf, old(authDb.value.users), username, password).None?)
      ensures outcome == LoggedIn ==>
        && user == Present(Auth.Authenticate(authDb.value.kdf, old(authDb.value.users), username, password))
        && sessionId == Present(Some(token))
        && token in authDb.value.sessions
        && authDb.value.sessions[token].userId == user.value.value.userId
        && authDb.value.sessions[token].expiresAt == Auth.ExpiresAt(now, 24)
      ensures outcome != LoggedIn ==> user == old(user) && sessionId == old(sessionId)
      ensures outcome == SessionRaised ==> token in old(authDb.value.sessions)
      ensures outcome == LoggedIn ==> token !in old(authDb.value.sessions)
      ensures authDb.value.users ==
        if outcome == LoggedIn || outcome == SessionRaised then Auth.SetLastLogin(old(authDb.value.users), username, now)
        else old(authDb.value.users)
      ensures authDb.value.sessions ==
        if outcome == LoggedIn then old(authDb.value.sessions)[token := Auth.Session(user.value.value.userId, now, Auth.ExpiresAt(now, 24))]
        else old(authDb.value.sessions)
      ensures authDb.value.assignments == old(authDb.value.assignments) && authDb.value.nextUserId == old(authDb.value.nextUserId)
    {
      if username == [] || password == [] {
        return MissingCredentials;
      }
      var db := authDb.value;
      var info := db.AuthenticateUser(username, password, now);
      if info.None? {
        return InvalidCredentials;
      }
      var created := db.CreateSession(info.value.userId, token, 24, now);
      if !created {
        return SessionRaised;
      }
      user := Present(info);
      sessionId := Present(Some(token));
      return LoggedIn;
    }

    /**
     * The sign-up button: the checks in order, then `create_user` with the
     * role `user`, which fails when the username or email is taken.
     */
    method SignUp(username: string, email: string, password: string, confirm: string, salt: string, now: int)
      returns (outcome: SignUpOutcome)
      requires Valid()
      modifies authDb.value
      ensures Valid()
      ensures SignUpCheck(username, email, password, confirm).Some? ==>
        outcome == Rejected(SignUpCheck(username, email, password, confirm).value)
        && authDb.value.users == old(authDb.value.users)
      ensures outcome.Rejected? <==> SignUpCheck(username, email, password, confirm).Some?
      ensures SignUpCheck(username, email, password, confirm).None? ==>
        (outcome == AlreadyExists <==> Auth.Taken(old(authDb.value.users), username, email))
        && (outcome == AccountCreated <==> !Auth.Taken(old(authDb.value.users), username, email))
      ensures outcome == AccountCreated ==>
        authDb.value.users == old(authDb.value.users) + [Auth.User(old(authDb.value.nextUserId), username, email,
          Auth.HashPassword(authDb.value.kdf, password, salt).0, "user", true, now, None)]
      ensures outcome != AccountCreated ==> authDb.value.users == old(authDb.value.users)
      ensures authDb.value.nextUserId == old(authDb.value.nextUserId) + (if outcome == AccountCreated then 1 else 0)
      ensures authDb.value.sessions == old(authDb.value.sessions) && authDb.value.assignments == old(authDb.value.assignments)
    {
      var check := SignUpCheck(username, email, password, confirm);
      if check.Some? {
        return Rejected(check.value);
      }
      var db := authDb.value;
      var created := db.CreateUser(username, email, password, "user", salt, now);
      outcome := if created == Auth.Created then AccountCreated else AlreadyExists;
    }
  }
}
