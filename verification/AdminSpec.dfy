/**
 Admin login, lock and sessions: src/admin/admin.go over the admin tables of src/server/store/sqlite.go.

 Times read by the handlers are nanoseconds, times stored in the tables are whole Unix seconds. Password
 verification is a parameter.
 */
module AdminSpec {
  import opened Common

  type Verifier = (string, string) -> bool

  datatype AdminRow = AdminRow(id: nat, password: string, failedAttempts: int, lockedUntil: Option<int>, lastLogin: int)

  datatype Session = Session(adminID: nat, expiresAt: int, lastActive: int)

  datatype Db = Db(admins: map<string, AdminRow>, sessions: map<string, Session>)

  datatype Response = SetupPage | LoginForm | InvalidCredentials | AccountLocked | LockedNow | SessionFailed | LoggedIn

  const MAX_ATTEMPTS := 5
  const LOCK_TIME := 15 * 60 * SECOND
  const SESSION_TIME := 30 * 24 * 3600 * SECOND

  /** A stored lock that is NULL or not positive is read as the zero time. */
  predicate Locked(row: AdminRow, now: int) {
    row.lockedUntil.Some? && row.lockedUntil.value > 0 && now < row.lockedUntil.value * SECOND
  }

  predicate Valid(s: Session, now: int) {
    s.expiresAt > UnixSecond(now)
  }

  /** The row after a wrong password checked at a moment when the account is not locked. */
  function Failed(row: AdminRow, stamp: int): AdminRow {
    var attempts := row.failedAttempts + 1;
    var counted := row.(failedAttempts := attempts);
    if attempts >= MAX_ATTEMPTS then counted.(lockedUntil := Some(UnixSecond(stamp + LOCK_TIME))) else counted
  }

  function Accepted(row: AdminRow, stamp: int): AdminRow {
    row.(lastLogin := UnixSecond(stamp), failedAttempts := 0, lockedUntil := None)
  }

  /** A POST of the login form: `check` is the clock at the lock test, `stamp` the later clock readings. */
  function Login(v: Verifier, db: Db, user: string, password: string, check: int, stamp: int, id: string)
    : (Db, Response)
  {
    if user !in db.admins then (db, InvalidCredentials)
    else
      var row := db.admins[user];
      if Locked(row, check) then (db, AccountLocked)
      else if !v(password, row.password) then
        var failed := Failed(row, stamp);
        (db.(admins := db.admins[user := failed]),
         if failed.failedAttempts >= MAX_ATTEMPTS then LockedNow else InvalidCredentials)
      else
        var db' := db.(admins := db.admins[user := Accepted(row, stamp)]);
        if id in db.sessions then (db', SessionFailed)
        else
          (db'.(sessions := db.sessions[id := Session(row.id, UnixSecond(stamp + SESSION_TIME), UnixSecond(stamp))]),
           LoggedIn)
  }

  function Logout(db: Db, id: string): Db {
    db.(sessions := db.sessions - {id})
  }

  /** RequireAuth with cookie `id`: the request is admitted or redirected, an admitted one refreshes last_active. */
  function RequireAuth(db: Db, id: string, now: int): (Db, bool) {
    if id in db.sessions && Valid(db.sessions[id], now)
    then (db.(sessions := db.sessions[id := db.sessions[id].(lastActive := UnixSecond(now))]), true)
    else (db, false)
  }

  function Cleanup(db: Db, now: int): Db {
    db.(sessions := map id | id in db.sessions && db.sessions[id].expiresAt >= UnixSecond(now) :: db.sessions[id])
  }
}
