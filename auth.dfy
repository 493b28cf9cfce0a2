/**
 * User accounts, device assignments and sessions (`AuthDatabase`,
 * auth.py), over in-memory tables.
 *
 * PBKDF2-HMAC-SHA256 is the function `kdf` of a password and a salt. It is
 * not interpreted, except that it produces lower-case hex, as `.hex()` does.
 * Random salts and session tokens are parameters, and so is the clock.
 */
module Auth {
  import opened Wrappers
  import Text
  import Sorting

  predicate IsAscii(s: string)
  {
    forall i :: 0 <= i < |s| ==> s[i] < '\U{80}'
  }

  predicate IsLowerHex(s: string)
  {
    forall i :: 0 <= i < |s| ==> Text.IsDigit(s[i]) || 'a' <= s[i] <= 'f'
  }

  /** A hex digest, what `pbkdf2_hmac(...).hex()` returns. */
  type Digest = s: string | IsLowerHex(s) witness ""

  /** `hashlib.pbkdf2_hmac('sha256', password, salt, 100000).hex()`. */
  type Kdf = (string, string) -> Digest

  // ---------------------------------------------------------------------
  // Password hashes: "salt$digest"

  /** `s.split('$')[0]`: everything before the first `$`. */
  function BeforeDollar(s: string): (r: string)
    ensures r <= s && '$' !in r
    ensures |r| < |s| ==> s[|r|] == '$'
  {
    if s == [] || s[0] == '$' then [] else [s[0]] + BeforeDollar(s[1..])
  }

  /** `hash_password(password, salt)`: the stored form and the salt. */
  function HashPassword(kdf: Kdf, password: string, salt: string): (r: (string, string))
    ensures r.1 == salt
  {
    (salt + "$" + kdf(password, salt), salt)
  }

  /**
   * `verify_password`: rebuild the hash from the stored salt and compare
   * with `hmac.compare_digest`, which raises (so the answer is `False`) on a
   * string with a non-ASCII character.
   */
  predicate VerifyPassword(kdf: Kdf, password: string, stored: string)
  {
    var rebuilt := HashPassword(kdf, password, BeforeDollar(stored)).0;
    IsAscii(rebuilt) && IsAscii(stored) && rebuilt == stored
  }

  lemma {:induction false} BeforeDollarOfHash(salt: string, rest: string)
    requires '$' !in salt
    ensures BeforeDollar(salt + "$" + rest) == salt
    decreases |salt|
  {
    if salt != [] {
      assert (salt + "$" + rest)[1..] == salt[1..] + "$" + rest;
      BeforeDollarOfHash(salt[1..], rest);
    } else {
      assert (salt + "$" + rest)[0] == '$';
    }
  }

  lemma AsciiConcat(a: string, b: string)
    requires IsAscii(a) && IsAscii(b)
    ensures IsAscii(a + b)
  {
    forall i | 0 <= i < |a + b| ensures (a + b)[i] < '\U{80}' {
      if i < |a| { assert (a + b)[i] == a[i]; } else { assert (a + b)[i] == b[i - |a|]; }
    }
  }

  /** A password verifies against its own hash whenever the salt is ASCII without `$`. */
  lemma HashThenVerify(kdf: Kdf, password: string, salt: string)
    requires '$' !in salt && IsAscii(salt)
    ensures VerifyPassword(kdf, password, HashPassword(kdf, password, salt).0)
  {
    var d := kdf(password, salt);
    BeforeDollarOfHash(salt, d);
    AsciiConcat(salt, "$");
    AsciiConcat(salt + "$", d);
  }

  /** `secrets.token_hex(32)` salts (64 hex digits) always verify. */
  lemma DefaultSaltVerifies(kdf: Kdf, password: string, salt: string)
    requires |salt| == 64 && IsLowerHex(salt)
    ensures VerifyPassword(kdf, password, HashPassword(kdf, password, salt).0)
  {
    assert '$' !in salt by {
      forall i | 0 <= i < |salt| ensures salt[i] != '$' {
      }
    }
    HashThenVerify(kdf, password, salt);
  }

  /**
   * A stored hash verifies exactly when it is its own salt, a `$` and the
   * digest of the password with that salt, in ASCII.
   */
  lemma VerifyIff(kdf: Kdf, password: string, stored: string)
    ensures VerifyPassword(kdf, password, stored)
      <==> IsAscii(stored) && stored == BeforeDollar(stored) + "$" + kdf(password, BeforeDollar(stored))
  {
  }

  // ---------------------------------------------------------------------
  // Tables

  datatype User = User(userId: nat, username: string, email: string, passwordHash: string,
                       role: string, active: bool, createdAt: int, lastLogin: Option<int>)

  /** The user columns the queries return (never the password hash). */
  datatype UserInfo = UserInfo(userId: nat, username: string, email: string, role: string, active: bool)

  datatype Assignment = Assignment(userId: nat, deviceId: string, assignedAt: int)

  datatype Session = Session(userId: nat, createdAt: int, expiresAt: int)

  /** `create_user`: `True`, `False` on an integrity error, or `ValueError`. */
  datatype CreateOutcome = Created | Conflict | RoleRejected

  function Info(u: User): UserInfo
  {
    UserInfo(u.userId, u.username, u.email, u.role, u.active)
  }

  predicate UniqueUsers(users: seq<User>)
  {
    forall i, j :: 0 <= i < j < |users| ==>
      users[i].userId != users[j].userId && users[i].username != users[j].username && users[i].email != users[j].email
  }

  predicate IdsBelow(users: seq<User>, next: nat)
  {
    forall i :: 0 <= i < |users| ==> users[i].userId < next
  }

  predicate UniquePairs(assignments: seq<Assignment>)
  {
    forall i, j :: 0 <= i < j < |assignments| ==>
      (assignments[i].userId, assignments[i].deviceId) != (assignments[j].userId, assignments[j].deviceId)
  }

  predicate Taken(users: seq<User>, username: string, email: string)
  {
    exists i :: 0 <= i < |users| && (users[i].username == username || users[i].email == email)
  }

  /** The row `WHERE username = ?` selects (usernames are unique, so at most one). */
  function FindUser(users: seq<User>, username: string): (r: Option<nat>)
    ensures r.Some? ==> r.value < |users| && users[r.value].username == username
    ensures r.None? ==> forall i :: 0 <= i < |users| ==> users[i].username != username
  {
    if users == [] then None
    else if users[0].username == username then Some(0)
    else match FindUser(users[1..], username)
      case None => None
      case Some(i) => Some(i + 1)
  }

  /** `authenticate_user`'s answer: an existing, active user whose password verifies. */
  function Authenticate(kdf: Kdf, users: seq<User>, username: string, password: string): Option<UserInfo>
  {
    match FindUser(users, username)
    case None => None
    case Some(i) =>
      if VerifyPassword(kdf, password, users[i].passwordHash) && users[i].active then Some(Info(users[i])) else None
  }

  /** `UPDATE users SET last_login = ? WHERE username = ?`. */
  function SetLastLogin(users: seq<User>, username: string, now: int): (r: seq<User>)
    ensures |r| == |users|
    ensures forall i :: 0 <= i < |users| ==>
      r[i] == if users[i].username == username then users[i].(lastLogin := Some(now)) else users[i]
  {
    seq(|users|, i requires 0 <= i < |users| =>
      if users[i].username == username then users[i].(lastLogin := Some(now)) else users[i])
  }

  /** Whether `(user_id, device_id)` is already assigned. */
  predicate HasPair(assignments: seq<Assignment>, userId: nat, deviceId: string)
  {
    exists i :: 0 <= i < |assignments| && assignments[i].userId == userId && assignments[i].deviceId == deviceId
  }

  /** `INSERT OR IGNORE INTO user_devices`: the pair is appended unless it is already there. */
  function AssignPair(assignments: seq<Assignment>, userId: nat, deviceId: string, now: int): (r: seq<Assignment>)
    ensures HasPair(r, userId, deviceId)
    ensures |r| == |assignments| + (if HasPair(assignments, userId, deviceId) then 0 else 1)
    ensures forall i :: 0 <= i < |assignments| ==> r[i] == assignments[i]
  {
    if HasPair(assignments, userId, deviceId) then assignments
    else
      var r := assignments + [Assignment(userId, deviceId, now)];
      assert r[|assignments|] == Assignment(userId, deviceId, now);
      r
  }

  /** `DELETE FROM user_devices WHERE user_id = ? AND device_id = ?`. */
  function RemovePair(assignments: seq<Assignment>, userId: nat, deviceId: string): (r: seq<Assignment>)
    ensures !HasPair(r, userId, deviceId)
    ensures forall a :: a in r <==> a in assignments && (a.userId, a.deviceId) != (userId, deviceId)
    ensures |r| <= |assignments|
    decreases |assignments|
  {
    if assignments == [] then []
    else
      var rest := RemovePair(assignments[1..], userId, deviceId);
      var a := assignments[0];
      if a.userId == userId && a.deviceId == deviceId then rest else [a] + rest
  }

  /** Assigning a new pair and removing it again leaves the table as it was. */
  lemma {:induction false} AssignThenUnassign(assignments: seq<Assignment>, a: Assignment)
    requires !HasPair(assignments, a.userId, a.deviceId)
    ensures RemovePair(assignments + [a], a.userId, a.deviceId) == assignments
    decreases |assignments|
  {
    if assignments == [] {
      assert RemovePair([a], a.userId, a.deviceId) == [] + RemovePair([], a.userId, a.deviceId);
    } else {
      assert (assignments + [a])[1..] == assignments[1..] + [a];
      assert !HasPair(assignments[1..], a.userId, a.deviceId) by {
        forall i | 0 <= i < |assignments[1..]|
          ensures !(assignments[1..][i].userId == a.userId && assignments[1..][i].deviceId == a.deviceId)
        {
          assert assignments[1..][i] == assignments[i + 1];
        }
      }
      AssignThenUnassign(assignments[1..], a);
      assert !(assignments[0].userId == a.userId && assignments[0].deviceId == a.deviceId);
    }
  }

  /** Removing keeps the pairs unique. */
  lemma {:induction false} RemovePairUnique(assignments: seq<Assignment>, userId: nat, deviceId: string)
    requires UniquePairs(assignments)
    ensures UniquePairs(RemovePair(assignments, userId, deviceId))
    decreases |assignments|
  {
    if assignments != [] {
      var tail := assignments[1..];
      UniqueTail(assignments);
      RemovePairUnique(tail, userId, deviceId);
      var a := assignments[0];
      if !(a.userId == userId && a.deviceId == deviceId) {
        var rest := RemovePair(tail, userId, deviceId);
        forall b | b in rest ensures (b.userId, b.deviceId) != (a.userId, a.deviceId) {
          var k :| 0 <= k < |tail| && tail[k] == b;
          assert assignments[k + 1] == b;
        }
        UniqueConsPair(a, rest);
      }
    }
  }

  lemma UniqueTail(assignments: seq<Assignment>)
    requires UniquePairs(assignments) && assignments != []
    ensures UniquePairs(assignments[1..])
  {
    var tail := assignments[1..];
    forall i, j | 0 <= i < j < |tail|
      ensures (tail[i].userId, tail[i].deviceId) != (tail[j].userId, tail[j].deviceId)
    {
      assert tail[i] == assignments[i + 1] && tail[j] == assignments[j + 1];
    }
  }

  /** A pair that none of `rest` has can go in front of it. */
  lemma UniqueConsPair(a: Assignment, rest: seq<Assignment>)
    requires UniquePairs(rest)
    requires forall b :: b in rest ==> (b.userId, b.deviceId) != (a.userId, a.deviceId)
    ensures UniquePairs([a] + rest)
  {
    var r := [a] + rest;
    forall i, j | 0 <= i < j < |r| ensures (r[i].userId, r[i].deviceId) != (r[j].userId, r[j].deviceId) {
      if i == 0 {
        assert r[j] == rest[j - 1] && r[j] in rest;
      } else {
        assert r[i] == rest[i - 1] && r[j] == rest[j - 1];
      }
    }
  }

  predicate AssignedOrder(a: Assignment, b: Assignment)
  {
    a.assignedAt <= b.assignedAt
  }

  /** One user's assignments, `ORDER BY assigned_at` (ties in either order). */
  function UserRows(assignments: seq<Assignment>, userId: nat): (r: seq<Assignment>)
    ensures forall a :: a in r <==> a in assignments && a.userId == userId
    ensures forall i, j :: 0 <= i < j < |r| ==> r[i].assignedAt <= r[j].assignedAt
  {
    var own := Filter(assignments, userId);
    assert Sorting.TotalPreorder(AssignedOrder);
    var sorted := Sorting.SortBy(own, AssignedOrder);
    assert forall a :: a in sorted <==> a in multiset(sorted);
    sorted
  }

  function Filter(assignments: seq<Assignment>, userId: nat): (r: seq<Assignment>)
    ensures forall a :: a in r <==> a in assignments && a.userId == userId
    ensures UniquePairs(assignments) ==> UniquePairs(r)
    decreases |assignments|
  {
    if assignments == [] then []
    else
      var rest := Filter(assignments[..|assignments| - 1], userId);
      var a := assignments[|assignments| - 1];
      assert UniquePairs(assignments) ==> UniquePairs(assignments[..|assignments| - 1]);
      if a.userId == userId then rest + [a] else rest
  }

  /** Session lifetime: `now + timedelta(hours=expires_in_hours)`. */
  function ExpiresAt(now: int, hours: int): int
  {
    now + hours * 3600
  }

  // ---------------------------------------------------------------------
  // The database object

  class AuthDatabase {
    const kdf: Kdf
    var users: seq<User>
    var nextUserId: nat
    var assignments: seq<Assignment>
    var sessions: map<string, Session>

    ghost predicate Valid()
      reads this
    {
      UniqueUsers(users) && IdsBelow(users, nextUserId) && UniquePairs(assignments)
    }

    /** A fresh database: empty tables, the first user id is 1. */
    constructor (kdf: Kdf)
      ensures Valid() && this.kdf == kdf
      ensures users == [] && nextUserId == 1 && assignments == [] && sessions == map[]
    {
      this.kdf := kdf;
      users, nextUserId, assignments, sessions := [], 1, [], map[];
    }

    /**
     * `create_user`: an unknown role raises before anything else; a taken
     * username or email is an integrity error that changes nothing;
     * otherwise the user is added, active, with the next id.
     */
    method CreateUser(username: string, email: string, password: string, role: string, salt: string, now: int)
      returns (outcome: CreateOutcome)
      requires Valid()
      modifies this
      ensures Valid()
      ensures outcome == RoleRejected <==> role != "admin" && role != "user"
      ensures outcome == Conflict <==> (role == "admin" || role == "user") && Taken(old(users), username, email)
      ensures outcome != Created ==> users == old(users) && nextUserId == old(nextUserId)
      ensures outcome == Created ==>
        && users == old(users) + [User(old(nextUserId), username, email, HashPassword(kdf, password, salt).0, role, true, now, None)]
        && nextUserId == old(nextUserId) + 1
      ensures assignments == old(assignments) && sessions == old(sessions)
    {
      if role != "admin" && role != "user" {
        return RoleRejected;
      }
      var hash := HashPassword(kdf, password, salt).0;
      var i := 0;
      while i < |users|
        invariant 0 <= i <= |users|
        invariant forall k :: 0 <= k < i ==> users[k].username != username && users[k].email != email
      {
        if users[i].username == username || users[i].email == email {
          return Conflict;
        }
        i := i + 1;
      }
      users := users + [User(nextUserId, username, email, hash, role, true, now, None)];
      nextUserId := nextUserId + 1;
      return Created;
    }

    /**
     * `authenticate_user`: the user's info without the password hash when
     * the user exists, the password verifies and the account is active; then
     * `last_login` becomes `now`.
     */
    method AuthenticateUser(username: string, password: string, now: int) returns (info: Option<UserInfo>)
      requires Valid()
      modifies this
      ensures Valid()
      ensures info == Authenticate(kdf, old(users), username, password)
      ensures users == if info.Some? then SetLastLogin(old(users), username, now) else old(users)
      ensures nextUserId == old(nextUserId) && assignments == old(assignments) && sessions == old(sessions)
    {
      var found := FindUser(users, username);
      if found.None? {
        return None;
      }
      var u := users[found.value];
      if !VerifyPassword(kdf, password, u.passwordHash) {
        return None;
      }
      if !u.active {
        return None;
      }
      SetLastLoginKeepsValid(users, nextUserId, username, now);
      users := SetLastLogin(users, username, now);
      return Some(Info(u));
    }

    /** `assign_device_to_user`: `True` exactly when the pair was new (`INSERT OR IGNORE`). */
    method AssignDeviceToUser(userId: nat, deviceId: string, now: int) returns (inserted: bool)
      requires Valid()
      modifies this
      ensures Valid()
      ensures inserted <==> !HasPair(old(assignments), userId, deviceId)
      ensures assignments == AssignPair(old(assignments), userId, deviceId, now)
      ensures users == old(users) && nextUserId == old(nextUserId) && sessions == old(sessions)
    {
      if HasPair(assignments, userId, deviceId) {
        return false;
      }
      assignments := assignments + [Assignment(userId, deviceId, now)];
      return true;
    }

    /** `unassign_device_from_user`: `True` exactly when a pair was removed. */
    method UnassignDeviceFromUser(userId: nat, deviceId: string) returns (removed: bool)
      requires Valid()
      modifies this
      ensures Valid()
      ensures removed <==> HasPair(old(assignments), userId, deviceId)
      ensures assignments == RemovePair(old(assignments), userId, deviceId)
      ensures users == old(users) && nextUserId == old(nextUserId) && sessions == old(sessions)
    {
      removed := HasPair(assignments, userId, deviceId);
      RemovePairUnique(assignments, userId, deviceId);
      assignments := RemovePair(assignments, userId, deviceId);
    }

    /** `get_user_devices`: the user's device ids, oldest assignment first, each once. */
    function GetUserDevices(userId: nat): (r: seq<string>)
      requires Valid()
      reads this
      ensures forall d :: d in r <==> HasPair(assignments, userId, d)
      ensures forall i, j :: 0 <= i < j < |r| ==> r[i] != r[j]
      ensures forall i, j, ti, tj ::
        (0 <= i < j < |r| && AssignedAt(assignments, userId, r[i], ti) && AssignedAt(assignments, userId, r[j], tj)) ==> ti <= tj
    {
      UserDevices(assignments, userId)
    }

    /** `create_session`: a new session, or an integrity error when the token is taken. */
    method CreateSession(userId: nat, sessionId: string, hours: int, now: int) returns (created: bool)
      modifies this
      ensures created <==> sessionId !in old(sessions)
      ensures sessions == if created then old(sessions)[sessionId := Session(userId, now, ExpiresAt(now, hours))] else old(sessions)
      ensures users == old(users) && nextUserId == old(nextUserId) && assignments == old(assignments)
    {
      if sessionId in sessions {
        return false;
      }
      sessions := sessions[sessionId := Session(userId, now, ExpiresAt(now, hours))];
      return true;
    }

    /** `get_user_from_session`: the session's user while the session has not expired. */
    function GetUserFromSession(sessionId: string, now: int): (r: Option<UserInfo>)
      reads this
      ensures r.Some? <==>
        sessionId in sessions && sessions[sessionId].expiresAt > now
        && exists i :: 0 <= i < |users| && users[i].userId == sessions[sessionId].userId
      ensures r.Some? ==> r.value.userId == sessions[sessionId].userId
      ensures r.Some? ==>
        exists i :: 0 <= i < |users| && users[i].userId == sessions[sessionId].userId && r.value == Info(users[i])
    {
      SessionUser(users, sessions, sessionId, now)
    }

    /** `delete_session`: `True` exactly when the session existed. */
    method DeleteSession(sessionId: string) returns (deleted: bool)
      modifies this
      ensures deleted <==> sessionId in old(sessions)
      ensures sessions == old(sessions) - {sessionId}
      ensures users == old(users) && nextUserId == old(nextUserId) && assignments == old(assignments)
    {
      deleted := sessionId in sessions;
      sessions := sessions - {sessionId};
    }
  }

  /** The `device_id` column of some rows. */
  function DeviceColumn(rows: seq<Assignment>): (r: seq<string>)
    ensures |r| == |rows|
    ensures forall i :: 0 <= i < |rows| ==> r[i] == rows[i].deviceId
    decreases |rows|
  {
    if rows == [] then [] else [rows[0].deviceId] + DeviceColumn(rows[1..])
  }

  /** The device ids of one user's assignments, in `assigned_at` order. */
  function UserDevices(assignments: seq<Assignment>, userId: nat): (r: seq<string>)
    requires UniquePairs(assignments)
    ensures forall d :: d in r <==> HasPair(assignments, userId, d)
    ensures forall i, j :: 0 <= i < j < |r| ==> r[i] != r[j]
    ensures forall i, j, ti, tj ::
      (0 <= i < j < |r| && AssignedAt(assignments, userId, r[i], ti) && AssignedAt(assignments, userId, r[j], tj)) ==> ti <= tj
  {
    var rows := UserRows(assignments, userId);
    UserRowsDistinct(assignments, userId);
    ColumnMembers(assignments, userId);
    ColumnInAssignmentOrder(assignments, userId);
    DeviceColumn(rows)
  }

  /** The device column of a user's rows holds exactly the user's assigned devices. */
  lemma ColumnMembers(assignments: seq<Assignment>, userId: nat)
    ensures var r := DeviceColumn(UserRows(assignments, userId));
      forall d :: d in r <==> HasPair(assignments, userId, d)
  {
    var rows := UserRows(assignments, userId);
    var r := DeviceColumn(rows);
    forall d ensures d in r <==> HasPair(assignments, userId, d) {
      if d in r {
        var k :| 0 <= k < |r| && r[k] == d;
        assert rows[k] in rows;
        var i :| 0 <= i < |assignments| && assignments[i] == rows[k];
      }
      if HasPair(assignments, userId, d) {
        var i :| 0 <= i < |assignments| && assignments[i].userId == userId && assignments[i].deviceId == d;
        assert assignments[i] in assignments;
        var k :| 0 <= k < |rows| && rows[k] == assignments[i];
        assert r[k] == d;
      }
    }
  }

  /** The device `d` was assigned to the user at time `t`. */
  predicate AssignedAt(assignments: seq<Assignment>, userId: nat, d: string, t: int)
  {
    Assignment(userId, d, t) in assignments
  }

  /** The row of a user's sorted assignments that carries a device is that device's assignment. */
  lemma RowOfAssignment(assignments: seq<Assignment>, userId: nat, rows: seq<Assignment>, i: nat, t: int)
    requires UniquePairs(assignments) && rows == UserRows(assignments, userId) && i < |rows|
    requires AssignedAt(assignments, userId, rows[i].deviceId, t)
    ensures rows[i].assignedAt == t
  {
    UserRowsDistinct(assignments, userId);
    var a := Assignment(userId, rows[i].deviceId, t);
    assert a in rows;
    var k :| 0 <= k < |rows| && rows[k] == a;
    assert k == i;
  }

  /** The device column of a user's sorted assignments follows the assignment times. */
  lemma ColumnInAssignmentOrder(assignments: seq<Assignment>, userId: nat)
    requires UniquePairs(assignments)
    ensures var r := DeviceColumn(UserRows(assignments, userId));
      forall i, j, ti, tj ::
        (0 <= i < j < |r| && AssignedAt(assignments, userId, r[i], ti) && AssignedAt(assignments, userId, r[j], tj)) ==> ti <= tj
  {
    var rows := UserRows(assignments, userId);
    var r := DeviceColumn(rows);
    forall i, j, ti, tj | 0 <= i < j < |r| && AssignedAt(assignments, userId, r[i], ti) && AssignedAt(assignments, userId, r[j], tj)
      ensures ti <= tj
    {
      RowOfAssignment(assignments, userId, rows, i, ti);
      RowOfAssignment(assignments, userId, rows, j, tj);
    }
  }

  /** The user of a live session (the `JOIN ... WHERE s.session_id = ? AND s.expires_at > now`). */
  function SessionUser(users: seq<User>, sessions: map<string, Session>, sessionId: string, now: int): Option<UserInfo>
  {
    if sessionId in sessions && sessions[sessionId].expiresAt > now then
      UserById(users, sessions[sessionId].userId)
    else None
  }

  /**
   * A new session of an existing user is accepted exactly until `hours`
   * hours after its creation.
   */
  lemma SessionLifetime(users: seq<User>, sessions: map<string, Session>, sessionId: string,
                        userId: nat, hours: int, created: int, now: int)
    requires exists i :: 0 <= i < |users| && users[i].userId == userId
    ensures var s := sessions[sessionId := Session(userId, created, ExpiresAt(created, hours))];
      (SessionUser(users, s, sessionId, now).Some? <==> now < created + hours * 3600)
      && (SessionUser(users, s, sessionId, now).Some? ==> SessionUser(users, s, sessionId, now).value.userId == userId)
  {
  }

  /** A deleted session no longer yields a user. */
  lemma DeletedSessionIsGone(users: seq<User>, sessions: map<string, Session>, sessionId: string, now: int)
    ensures SessionUser(users, sessions - {sessionId}, sessionId, now) == None
  {
  }

  /** With unique usernames, login succeeds exactly for the active user whose password verifies. */
  lemma AuthenticateSpec(kdf: Kdf, users: seq<User>, username: string, password: string)
    requires UniqueUsers(users)
    ensures Authenticate(kdf, users, username, password).Some?
      <==> exists i :: 0 <= i < |users| && users[i].username == username
             && VerifyPassword(kdf, password, users[i].passwordHash) && users[i].active
    ensures forall i :: 0 <= i < |users| && users[i].username == username ==>
      Authenticate(kdf, users, username, password) == if VerifyPassword(kdf, password, users[i].passwordHash) && users[i].active
        then Some(Info(users[i])) else None
  {
  }

  /** A user just created with a default salt can log in with the same password. */
  lemma SignUpThenLogin(kdf: Kdf, users: seq<User>, next: nat, username: string, email: string,
                        password: string, role: string, salt: string, now: int)
    requires UniqueUsers(users) && IdsBelow(users, next) && !Taken(users, username, email)
    requires |salt| == 64 && IsLowerHex(salt)
    ensures var u := User(next, username, email, HashPassword(kdf, password, salt).0, role, true, now, None);
      Authenticate(kdf, users + [u], username, password) == Some(Info(u))
  {
    var u := User(next, username, email, HashPassword(kdf, password, salt).0, role, true, now, None);
    var all := users + [u];
    DefaultSaltVerifies(kdf, password, salt);
    assert UniqueUsers(all);
    assert all[|users|] == u;
    AuthenticateSpec(kdf, all, username, password);
  }

  /** Assigning a pair twice: the second call inserts nothing, whatever its time. */
  lemma AssignIdempotent(assignments: seq<Assignment>, userId: nat, deviceId: string, now: int, later: int)
    ensures var once := AssignPair(assignments, userId, deviceId, now);
      AssignPair(once, userId, deviceId, later) == once
  {
  }

  // ---------------------------------------------------------------------
  // Session expiry on the SQLite branch, as written

  /**
   * On the SQLite branch `expires_at` is `datetime.now()` (local time) plus
   * the lifetime, while the check compares it with `CURRENT_TIMESTAMP`
   * (UTC). Measured in UTC seconds, the stored expiry is the UTC creation
   * time plus the machine's UTC offset plus the lifetime.
   */
  function SqliteExpiresAt(createdUtc: int, utcOffset: int, hours: int): int
  {
    createdUtc + utcOffset + hours * 3600
  }

  /**
   * East of Greenwich a SQLite session of an existing user is accepted until
   * its lifetime plus the machine's UTC offset, so it is still accepted when
   * its lifetime has run out.
   */
  lemma SqliteSessionOutlivesLifetime(users: seq<User>, sessions: map<string, Session>, sessionId: string,
                                      userId: nat, hours: int, createdUtc: int, utcOffset: int, now: int)
    requires exists i :: 0 <= i < |users| && users[i].userId == userId
    requires utcOffset > 0
    ensures var s := sessions[sessionId := Session(userId, createdUtc, SqliteExpiresAt(createdUtc, utcOffset, hours))];
      (SessionUser(users, s, sessionId, now).Some? <==> now < createdUtc + utcOffset + hours * 3600)
      && SessionUser(users, s, sessionId, createdUtc + hours * 3600).Some?
  {
  }

  /** The `JOIN users u ON u.user_id = s.user_id` row. */
  function UserById(users: seq<User>, userId: nat): (r: Option<UserInfo>)
    ensures r.Some? <==> exists i :: 0 <= i < |users| && users[i].userId == userId
    ensures r.Some? ==> r.value.userId == userId
    ensures r.Some? ==> exists i :: 0 <= i < |users| && users[i].userId == userId && r.value == Info(users[i])
  {
    if users == [] then None
    else if users[0].userId == userId then Some(Info(users[0]))
    else UserById(users[1..], userId)
  }

  lemma SetLastLoginKeepsValid(users: seq<User>, next: nat, username: string, now: int)
    requires UniqueUsers(users) && IdsBelow(users, next)
    ensures UniqueUsers(SetLastLogin(users, username, now)) && IdsBelow(SetLastLogin(users, username, now), next)
  {
  }

  lemma UserRowsDistinct(assignments: seq<Assignment>, userId: nat)
    requires UniquePairs(assignments)
    ensures var rows := UserRows(assignments, userId);
      forall i, j :: 0 <= i < j < |rows| ==> rows[i].deviceId != rows[j].deviceId
  {
    var own := Filter(assignments, userId);
    var rows := UserRows(assignments, userId);
    PermutationKeepsUniquePairs(own, rows);
    forall i, j | 0 <= i < j < |rows| ensures rows[i].deviceId != rows[j].deviceId {
      assert rows[i] in rows && rows[j] in rows;
    }
  }

  /** An element at two positions occurs at least twice. */
  lemma TwiceInMultiset<T>(t: seq<T>, i: nat, j: nat)
    requires 0 <= i < j < |t| && t[i] == t[j]
    ensures multiset(t)[t[i]] >= 2
  {
    assert t == t[..j] + t[j..];
    assert t[i] in t[..j];
    assert t[j] in t[j..];
  }

  /** An element occurring at least twice sits at two positions. */
  lemma TwoPositions<T>(s: seq<T>, x: T) returns (p: nat, q: nat)
    requires multiset(s)[x] >= 2
    ensures p < |s| && q < |s| && p != q && s[p] == x && s[q] == x
  {
    assert x in s;
    p :| 0 <= p < |s| && s[p] == x;
    var rest := s[..p] + s[p + 1..];
    assert s == s[..p] + [s[p]] + s[p + 1..];
    assert multiset(rest)[x] >= 1;
    assert x in rest;
    var k :| 0 <= k < |rest| && rest[k] == x;
    if k < p {
      q := k;
      assert rest[k] == s[k];
    } else {
      q := k + 1;
      assert rest[k] == s[k + 1];
    }
  }

  /** Reordering keeps the pairs unique. */
  lemma PermutationKeepsUniquePairs(s: seq<Assignment>, t: seq<Assignment>)
    requires UniquePairs(s) && multiset(t) == multiset(s)
    ensures UniquePairs(t)
  {
    forall i, j | 0 <= i < j < |t| ensures (t[i].userId, t[i].deviceId) != (t[j].userId, t[j].deviceId) {
      if t[i] == t[j] {
        TwiceInMultiset(t, i, j);
        var p, q := TwoPositions(s, t[i]);
        if p < q { assert s[p] == s[q]; } else { assert s[q] == s[p]; }
      } else {
        assert t[i] in multiset(s) && t[j] in multiset(s);
        var p :| 0 <= p < |s| && s[p] == t[i];
        var q :| 0 <= q < |s| && s[q] == t[j];
        assert p != q;
        if p < q { assert s[p] != s[q]; } else { assert s[q] != s[p]; }
      }
    }
  }
}
