/**
 The objects behind the admin panel: the store's admin tables (src/server/store/sqlite.go) and the handler
 (src/admin/admin.go). Each method is proved to carry out the corresponding function of AdminSpec.
 */
module Admin {
  import opened Common
  import Spec = AdminSpec
  import opened AdminSpec

  class Store {
    var admins: map<string, AdminRow>
    var sessions: map<string, Session>

    function View(): Db
      reads this
    {
      Db(admins, sessions)
    }

    /** id is the primary key of the admins table. */
    ghost predicate KeysAreUnique()
      reads this
    {
      forall a, b | a in admins && b in admins && admins[a].id == admins[b].id :: a == b
    }

    constructor ()
      ensures KeysAreUnique() && View() == Db(map[], map[])
    {
      admins, sessions := map[], map[];
    }

    method GetAdminByUsername(username: string) returns (row: Option<AdminRow>)
      ensures row == if username in admins then Some(admins[username]) else None
    {
      if username in admins { return Some(admins[username]); }
      return None;
    }

    /** Records a successful login: stamps the account's last login, forgets its failed attempts and lifts its lock. */
    method UpdateAdminLastLogin(ghost user: string, adminID: nat, now: int)
      requires KeysAreUnique() && user in admins && admins[user].id == adminID
      modifies this`admins
      ensures KeysAreUnique()
      ensures admins == old(admins)[user := Accepted(old(admins)[user], now)]
    {
      admins := map u | u in admins :: if admins[u].id == adminID then Accepted(admins[u], now) else admins[u];
    }

    method UpdateAdminFailedAttempts(ghost user: string, adminID: nat, attempts: int)
      requires KeysAreUnique() && user in admins && admins[user].id == adminID
      modifies this`admins
      ensures KeysAreUnique()
      ensures admins == old(admins)[user := old(admins)[user].(failedAttempts := attempts)]
    {
      admins := map u | u in admins ::
        if admins[u].id == adminID then admins[u].(failedAttempts := attempts) else admins[u];
    }

    method LockAdmin(ghost user: string, adminID: nat, until: int)
      requires KeysAreUnique() && user in admins && admins[user].id == adminID
      modifies this`admins
      ensures KeysAreUnique()
      ensures admins == old(admins)[user := old(admins)[user].(lockedUntil := Some(UnixSecond(until)))]
    {
      admins := map u | u in admins ::
        if admins[u].id == adminID then admins[u].(lockedUntil := Some(UnixSecond(until))) else admins[u];
    }

    /** Fails on a duplicate primary key. */
    method CreateAdminSession(id: string, adminID: nat, expiresAt: int, now: int) returns (ok: bool)
      modifies this`sessions
      ensures ok <==> id !in old(sessions)
      ensures sessions == if ok then old(sessions)[id := Session(adminID, UnixSecond(expiresAt), UnixSecond(now))]
                          else old(sessions)
    {
      if id in sessions { return false; }
      sessions := sessions[id := Session(adminID, UnixSecond(expiresAt), UnixSecond(now))];
      return true;
    }

    method GetAdminSession(id: string, now: int) returns (s: Option<Session>)
      ensures s == if id in sessions && Valid(sessions[id], now) then Some(sessions[id]) else None
    {
      if id in sessions && sessions[id].expiresAt > UnixSecond(now) { return Some(sessions[id]); }
      return None;
    }

    method UpdateAdminSessionActivity(id: string, now: int)
      requires id in sessions
      modifies this`sessions
      ensures sessions == old(sessions)[id := old(sessions)[id].(lastActive := UnixSecond(now))]
    {
      sessions := sessions[id := sessions[id].(lastActive := UnixSecond(now))];
    }

    method DeleteAdminSession(id: string)
      modifies this`sessions
      ensures View() == Spec.Logout(old(View()), id)
    {
      sessions := sessions - {id};
    }

    method DeleteExpiredAdminSessions(now: int)
      modifies this`sessions
      ensures View() == Cleanup(old(View()), now)
    {
      sessions := map id | id in sessions && !(sessions[id].expiresAt < UnixSecond(now)) :: sessions[id];
    }
  }

  class Handler {
    const store: Store
    const verify: Verifier

    constructor (store: Store, verify: Verifier)
      ensures this.store == store && this.verify == verify
    {
      this.store, this.verify := store, verify;
    }

    /** `setupComplete` is IsSetupComplete(), `get` whether the request is a GET, `id` the random session id. */
    method Login(setupComplete: bool, get: bool, username: string, password: string,
                 check: int, stamp: int, id: string) returns (r: Response)
      requires store.KeysAreUnique()
      modifies store
      ensures store.KeysAreUnique()
      ensures !setupComplete ==> r == SetupPage && store.View() == old(store.View())
      ensures setupComplete && get ==> r == LoginForm && store.View() == old(store.View())
      ensures setupComplete && !get ==>
        (store.View(), r) == Spec.Login(verify, old(store.View()), username, password, check, stamp, id)
    {
      if !setupComplete { return SetupPage; }
      if get { return LoginForm; }

      var found := store.GetAdminByUsername(username);
      if found.None? { return InvalidCredentials; }
      var admin := found.value;

      if admin.lockedUntil.Some? && admin.lockedUntil.value > 0 && check < admin.lockedUntil.value * SECOND {
        return AccountLocked;
      }

      if !verify(password, admin.password) {
        var attempts := admin.failedAttempts + 1;
        store.UpdateAdminFailedAttempts(username, admin.id, attempts);
        if attempts >= MAX_ATTEMPTS {
          store.LockAdmin(username, admin.id, stamp + LOCK_TIME);
          assert store.admins == old(store.admins)[username := Failed(admin, stamp)];
          return LockedNow;
        }
        return InvalidCredentials;
      }

      store.UpdateAdminLastLogin(username, admin.id, stamp);
      var ok := store.CreateAdminSession(id, admin.id, stamp + SESSION_TIME, stamp);
      if !ok { return SessionFailed; }
      return LoggedIn;
    }

    method Logout(cookie: Option<string>)
      modifies store
      ensures store.View() == if cookie.Some? then Spec.Logout(old(store.View()), cookie.value) else old(store.View())
    {
      if cookie.Some? { store.DeleteAdminSession(cookie.value); }
    }

    /** Tells whether the wrapped handler is called. */
    method RequireAuth(cookie: Option<string>, now: int) returns (admitted: bool)
      modifies store
      ensures (store.View(), admitted) ==
        if cookie.Some? then Spec.RequireAuth(old(store.View()), cookie.value, now) else (old(store.View()), false)
    {
      if cookie.None? { return false; }
      var session := store.GetAdminSession(cookie.value, now);
      if session.None? { return false; }
      store.UpdateAdminSessionActivity(cookie.value, now);
      return true;
    }
  }
}
