/**
 Run-level theorems about admin authentication: the rate at which passwords can fail, the lock, and which
 session identifiers are admitted.
 */
module AdminProofs {
  import opened Common
  import opened AdminSpec

  datatype Event =
    | ELogin(user: string, password: string, check: int, stamp: int, id: string)
    | ELogout(id: string)
    | EAccess(id: string, at: int)
    | ECleanup(at: int)

  /** `now` is the last clock reading. */
  datatype State = State(db: Db, now: int)

  predicate Possible(s: State, e: Event) {
    match e
    case ELogin(_, _, check, stamp, _) => s.now <= check <= stamp
    case ELogout(_) => true
    case EAccess(_, at) => s.now <= at
    case ECleanup(at) => s.now <= at
  }

  /** Events whose clock readings run backwards leave the state alone. */
  function Step(v: Verifier, s: State, e: Event): State {
    if !Possible(s, e) then s else
      match e
      case ELogin(user, password, check, stamp, id) => State(Login(v, s.db, user, password, check, stamp, id).0, stamp)
      case ELogout(id) => s.(db := Logout(s.db, id))
      case EAccess(id, at) => State(RequireAuth(s.db, id, at).0, at)
      case ECleanup(at) => State(Cleanup(s.db, at), at)
  }

  function Run(v: Verifier, s: State, es: seq<Event>): State {
    if es == [] then s else Step(v, Run(v, s, es[..|es| - 1]), es[|es| - 1])
  }

  /* ---------- failed passwords ---------- */

  /** A login of this user whose password is looked at, because the account exists and is not locked. */
  predicate Tries(s: State, e: Event, user: string) {
    e.ELogin? && e.user == user && Possible(s, e) && user in s.db.admins && !Locked(s.db.admins[user], e.check)
  }

  predicate Fails(v: Verifier, s: State, e: Event, user: string) {
    Tries(s, e, user) && !v(e.password, s.db.admins[user].password)
  }

  predicate Succeeds(v: Verifier, s: State, e: Event, user: string) {
    Tries(s, e, user) && v(e.password, s.db.admins[user].password)
  }

  datatype Failure = Failure(check: int, stamp: int)

  /** The wrong passwords of this user since the last right one. */
  function Failures(v: Verifier, s: State, es: seq<Event>, user: string): seq<Failure> {
    if es == [] then [] else
      var before, e := es[..|es| - 1], es[|es| - 1];
      var m, fs := Run(v, s, before), Failures(v, s, before, user);
      if Succeeds(v, m, e, user) then []
      else if Fails(v, m, e, user) then fs + [Failure(e.check, e.stamp)]
      else fs
  }

  /** An account as a successful login leaves it. */
  ghost predicate Clean(s: State, user: string) {
    && s.now >= 0
    && user in s.db.admins
    && s.db.admins[user].failedAttempts == 0
    && s.db.admins[user].lockedUntil == None
  }

  const SPACING := 899 * SECOND

  /** Failures come in clock order, and from the fifth on each waits for the lock of the one before. */
  ghost predicate Throttled(fs: seq<Failure>) {
    && (forall i | 0 <= i < |fs| :: 0 <= fs[i].check <= fs[i].stamp)
    && (forall i | 0 < i < |fs| :: fs[i - 1].stamp <= fs[i].check)
    && (forall i | 5 <= i < |fs| :: fs[i].check - fs[i - 1].stamp > SPACING)
  }

  ghost predicate LockInv(row: AdminRow, fs: seq<Failure>, now: int) {
    && Throttled(fs)
    && row.failedAttempts == |fs|
    && (fs != [] ==> fs[|fs| - 1].stamp <= now)
    && row.lockedUntil == if |fs| < 5 then None else Some(UnixSecond(fs[|fs| - 1].stamp + LOCK_TIME))
  }

  lemma FailureKeepsLockInv(row: AdminRow, fs: seq<Failure>, now: int, check: int, stamp: int)
    requires LockInv(row, fs, now) && 0 <= now <= check <= stamp && !Locked(row, check)
    ensures LockInv(Failed(row, stamp), fs + [Failure(check, stamp)], stamp)
  {
  }

  /** Main result: whatever else happens, an account that starts clean stays throttled. */
  lemma {:induction false} FailuresAreThrottled(v: Verifier, s: State, es: seq<Event>, user: string)
    requires Clean(s, user)
    ensures var t := Run(v, s, es);
      t.now >= s.now && user in t.db.admins && LockInv(t.db.admins[user], Failures(v, s, es, user), t.now)
    decreases |es|
  {
    if es != [] {
      var before, e := es[..|es| - 1], es[|es| - 1];
      FailuresAreThrottled(v, s, before, user);
      var m := Run(v, s, before);
      TryEffect(v, m, e, user);
      if Fails(v, m, e, user) {
        FailureKeepsLockInv(m.db.admins[user], Failures(v, s, before, user), m.now, e.check, e.stamp);
      }
    }
  }

  /** Only a try of this user touches the user's row. */
  lemma TryEffect(v: Verifier, s: State, e: Event, user: string)
    requires user in s.db.admins
    ensures Step(v, s, e).now >= s.now && user in Step(v, s, e).db.admins
    ensures var row, row' := s.db.admins[user], Step(v, s, e).db.admins[user];
      row' == if Succeeds(v, s, e, user) then Accepted(row, e.stamp)
              else if Fails(v, s, e, user) then Failed(row, e.stamp) else row
    ensures Tries(s, e, user) ==> Step(v, s, e).now == e.stamp
  {
  }

  /** The second of this user's last right password. */
  function LastSuccess(v: Verifier, s: State, es: seq<Event>, user: string): int
    requires user in s.db.admins
  {
    if es == [] then s.db.admins[user].lastLogin else
      var before, e := es[..|es| - 1], es[|es| - 1];
      if Succeeds(v, Run(v, s, before), e, user) then UnixSecond(e.stamp) else LastSuccess(v, s, before, user)
  }

  /** The account with these failures since the last right password, and locked from the fifth on. */
  function Account(row: AdminRow, fs: seq<Failure>, lastLogin: int): AdminRow {
    row.(failedAttempts := |fs|, lastLogin := lastLogin,
         lockedUntil := if |fs| < 5 then None else Some(UnixSecond(fs[|fs| - 1].stamp + 900 * SECOND)))
  }

  /** Main result: after any run an account is what its right and wrong passwords make of it, and nothing else. */
  lemma {:induction false} AccountIsItsHistory(v: Verifier, s: State, es: seq<Event>, user: string)
    requires Clean(s, user)
    ensures var t := Run(v, s, es);
      && user in t.db.admins
      && t.db.admins[user]
           == Account(s.db.admins[user], Failures(v, s, es, user), LastSuccess(v, s, es, user))
    decreases |es|
  {
    if es != [] {
      var before, e := es[..|es| - 1], es[|es| - 1];
      AccountIsItsHistory(v, s, before, user);
      TryEffect(v, Run(v, s, before), e, user);
    }
  }

  /**
   Main result: which answer a login gets after any run. The lock stands from the fifth wrong password on, for fifteen
   minutes in whole seconds; within it passwords are not looked at.
   */
  lemma LoginOutcome(v: Verifier, s: State, es: seq<Event>, e: Event)
    requires e.ELogin? && Clean(s, e.user) && Possible(Run(v, s, es), e)
    ensures var m, fs := Run(v, s, es), Failures(v, s, es, e.user);
      var r := Login(v, m.db, e.user, e.password, e.check, e.stamp, e.id).1;
      var locked := |fs| >= 5 && e.check < UnixSecond(fs[|fs| - 1].stamp + 900 * SECOND) * SECOND;
      var right := v(e.password, s.db.admins[e.user].password);
      && (r == AccountLocked <==> locked)
      && (r == InvalidCredentials <==> !locked && !right && |fs| < 4)
      && (r == LockedNow <==> !locked && !right && |fs| >= 4)
      && (r == SessionFailed <==> !locked && right && e.id in m.db.sessions)
      && (r == LoggedIn <==> !locked && right && e.id !in m.db.sessions)
  {
    AccountIsItsHistory(v, s, es, e.user);
    FailuresAreThrottled(v, s, es, e.user);
  }

  /** Without an account the answer is that of a wrong password, and nothing is written. */
  lemma UnknownUsersAreInvalid(v: Verifier, db: Db, user: string, password: string, check: int, stamp: int, id: string)
    requires user !in db.admins
    ensures Login(v, db, user, password, check, stamp, id) == (db, InvalidCredentials)
  {
  }

  lemma {:induction false} ThrottleAddsUp(fs: seq<Failure>, n: nat)
    requires Throttled(fs) && 5 < n <= |fs|
    ensures fs[n - 1].stamp - fs[4].stamp > (n - 5) * SPACING
    decreases n
  {
    assert fs[n - 1].check - fs[n - 2].stamp > SPACING;
    if n > 6 { ThrottleAddsUp(fs, n - 1); }
  }

  /** n wrong passwords in a row, n > 5, take more than (n - 5) * 899 seconds. */
  lemma GuessingIsSlow(v: Verifier, s: State, es: seq<Event>, user: string)
    requires Clean(s, user)
    ensures var fs := Failures(v, s, es, user);
      |fs| > 5 ==> fs[|fs| - 1].stamp - fs[0].check > (|fs| - 5) * SPACING
  {
    FailuresAreThrottled(v, s, es, user);
    var fs := Failures(v, s, es, user);
    if |fs| > 5 {
      ThrottleAddsUp(fs, |fs|);
      assert fs[0].stamp <= fs[1].check && fs[1].stamp <= fs[2].check
          && fs[2].stamp <= fs[3].check && fs[3].stamp <= fs[4].check;
    }
  }

  /** After five or more wrong passwords, no session is created within 899 seconds of the last one. */
  lemma {:induction false} NoSessionDuringLock(v: Verifier, s: State, es: seq<Event>, e: Event)
    requires e.ELogin? && Clean(s, e.user) && Possible(Run(v, s, es), e)
    requires |Failures(v, s, es, e.user)| >= 5
    ensures var m, fs := Run(v, s, es), Failures(v, s, es, e.user);
      && (Step(v, m, e).db.sessions != m.db.sessions ==> e.check - fs[|fs| - 1].stamp > SPACING)
      && (e.check - fs[|fs| - 1].stamp >= LOCK_TIME ==> Tries(m, e, e.user))
  {
    FailuresAreThrottled(v, s, es, e.user);
  }

  /** A right password given at such a moment clears attempts and lock, so the account is clean again. */
  lemma SuccessCleans(v: Verifier, s: State, e: Event, user: string)
    requires s.now >= 0 && Succeeds(v, s, e, user)
    ensures Clean(Step(v, s, e), user)
  {
  }

  /* ---------- sessions ---------- */

  /** Does this event create the session `id`? */
  predicate Creates(v: Verifier, s: State, e: Event, id: string) {
    e.ELogin? && e.id == id && Possible(s, e) &&
    Login(v, s.db, e.user, e.password, e.check, e.stamp, e.id).1.LoggedIn?
  }

  /** A login creates its session exactly when the password is right, the account unlocked and the identifier unused. */
  lemma CreatesIff(v: Verifier, s: State, e: Event)
    requires e.ELogin?
    ensures Creates(v, s, e, e.id) <==> Succeeds(v, s, e, e.user) && e.id !in s.db.sessions
    ensures Creates(v, s, e, e.id) ==>
      e.id in Step(v, s, e).db.sessions && Step(v, s, e).db.sessions[e.id].adminID == s.db.admins[e.user].id
  {
  }

  /**
   The session that the last login under `id` was granted, if no logout followed: it belongs to the account of that
   login, runs for thirty days, and is as recent as the last request it admitted. Cleanups do not count.
   */
  function Granted(v: Verifier, s: State, es: seq<Event>, id: string): Option<Session> {
    if es == [] then (if id in s.db.sessions then Some(s.db.sessions[id]) else None) else
      var before, e := es[..|es| - 1], es[|es| - 1];
      var m, g := Run(v, s, before), Granted(v, s, before, id);
      if e.ELogin? && e.id == id && Succeeds(v, m, e, e.user) && id !in m.db.sessions then
        Some(Session(m.db.admins[e.user].id, UnixSecond(e.stamp + 2_592_000 * SECOND), UnixSecond(e.stamp)))
      else if e == ELogout(id) then None
      else if e.EAccess? && e.id == id && Possible(m, e) && g.Some? && UnixSecond(e.at) < g.value.expiresAt then
        Some(g.value.(lastActive := UnixSecond(e.at)))
      else g
  }

  ghost predicate SessionInv(s: State, id: string, granted: Option<Session>) {
    && (id in s.db.sessions ==> granted == Some(s.db.sessions[id]))
    && (id !in s.db.sessions && granted.Some? ==> granted.value.expiresAt < UnixSecond(s.now))
  }

  lemma UnixSecondMonotone(a: int, b: int)
    requires a <= b
    ensures UnixSecond(a) <= UnixSecond(b)
  {
  }

  lemma {:induction false} RunKeepsSessionInv(v: Verifier, s: State, es: seq<Event>, id: string)
    ensures Run(v, s, es).now >= s.now
    ensures SessionInv(Run(v, s, es), id, Granted(v, s, es, id))
    decreases |es|
  {
    if es != [] {
      var before, e := es[..|es| - 1], es[|es| - 1];
      RunKeepsSessionInv(v, s, before, id);
      var m := Run(v, s, before);
      UnixSecondMonotone(m.now, Step(v, m, e).now);
    }
  }

  /**
   Main result: a cookie is admitted exactly when a login was granted it, nobody logged it out, and it is unexpired;
   what the store then holds under it is that session, refreshed.
   */
  lemma {:induction false} AdmittedIffGranted(v: Verifier, s: State, es: seq<Event>, id: string, now: int)
    requires now >= Run(v, s, es).now
    ensures var g := Granted(v, s, es, id);
      var (db, admitted) := RequireAuth(Run(v, s, es).db, id, now);
      && (admitted <==> g.Some? && g.value.expiresAt > UnixSecond(now))
      && (admitted ==> id in db.sessions && db.sessions[id] == g.value.(lastActive := UnixSecond(now)))
  {
    RunKeepsSessionInv(v, s, es, id);
    UnixSecondMonotone(Run(v, s, es).now, now);
  }

  /** This event neither logs `id` out nor draws it again. */
  predicate LeavesAlone(e: Event, id: string) {
    e != ELogout(id) && !(e.ELogin? && e.id == id)
  }

  /** A new session is admitted for exactly thirty days, whatever else happens, if it is not logged out. */
  lemma {:induction false} SessionLastsThirtyDays(v: Verifier, s: State, e: Event, es: seq<Event>, now: int)
    requires e.ELogin? && Creates(v, s, e, e.id)
    requires forall i | 0 <= i < |es| :: LeavesAlone(es[i], e.id)
    requires now >= Run(v, Step(v, s, e), es).now
    ensures RequireAuth(Run(v, Step(v, s, e), es).db, e.id, now).1 <==>
      UnixSecond(now) < UnixSecond(e.stamp + 2_592_000 * SECOND)
  {
    AdmittedIffGranted(v, Step(v, s, e), es, e.id, now);
    GrantStays(v, Step(v, s, e), es, e.id);
  }

  lemma {:induction false} GrantStays(v: Verifier, s: State, es: seq<Event>, id: string)
    requires forall i | 0 <= i < |es| :: LeavesAlone(es[i], id)
    ensures var g, g0 := Granted(v, s, es, id), Granted(v, s, [], id);
      (g.Some? <==> g0.Some?) && (g.Some? ==> g.value.expiresAt == g0.value.expiresAt)
    decreases |es|
  {
    if es != [] {
      var before := es[..|es| - 1];
      assert forall i | 0 <= i < |before| :: before[i] == es[i];
      GrantStays(v, s, before, id);
      assert LeavesAlone(es[|es| - 1], id);
    }
  }

  /* ---------- cleanup is invisible ---------- */

  function WithoutCleanups(es: seq<Event>): seq<Event> {
    if es == [] then [] else
      WithoutCleanups(es[..|es| - 1]) + if es[|es| - 1].ECleanup? then [] else [es[|es| - 1]]
  }

  /** The identifiers drawn by the logins of a run. */
  function Drawn(es: seq<Event>): set<string> {
    set i | 0 <= i < |es| && es[i].ELogin? :: es[i].id
  }

  /** Random identifiers: no login draws one that was drawn before or is in the table already. */
  ghost predicate FreshIds(s: State, es: seq<Event>) {
    forall i | 0 <= i < |es| && es[i].ELogin? :: es[i].id !in s.db.sessions && es[i].id !in Drawn(es[..i])
  }

  /** t is s with some expired sessions removed, at a clock that may be ahead. */
  ghost predicate Cleaned(t: State, s: State) {
    && t.db.admins == s.db.admins
    && s.now <= t.now
    && (forall id | id in t.db.sessions :: id in s.db.sessions && t.db.sessions[id] == s.db.sessions[id])
    && (forall id | id in s.db.sessions && id !in t.db.sessions :: s.db.sessions[id].expiresAt < UnixSecond(t.now))
  }

  lemma StepKeepsCleaned(v: Verifier, t: State, s: State, e: Event)
    requires Cleaned(t, s) && !e.ECleanup? && Possible(t, e)
    requires e.ELogin? ==> e.id !in s.db.sessions
    ensures Cleaned(Step(v, t, e), Step(v, s, e))
  {
    UnixSecondMonotone(t.now, Step(v, t, e).now);
  }

  lemma {:induction false} SessionsAreDrawn(v: Verifier, s: State, es: seq<Event>)
    ensures Run(v, s, es).db.sessions.Keys <= s.db.sessions.Keys + Drawn(es)
    decreases |es|
  {
    if es != [] {
      var before, e := es[..|es| - 1], es[|es| - 1];
      SessionsAreDrawn(v, s, before);
      assert Drawn(before) <= Drawn(es) by {
        forall x | x in Drawn(before) ensures x in Drawn(es) {
          var i :| 0 <= i < |before| && before[i].ELogin? && before[i].id == x;
          assert es[i] == before[i];
        }
      }
      if e.ELogin? { assert es[|es| - 1].id in Drawn(es); }
    }
  }

  lemma {:induction false} DrawnWithoutCleanups(es: seq<Event>)
    ensures Drawn(WithoutCleanups(es)) <= Drawn(es)
    decreases |es|
  {
    if es != [] {
      var before, e, w := es[..|es| - 1], es[|es| - 1], WithoutCleanups(es);
      DrawnWithoutCleanups(before);
      forall x | x in Drawn(w) ensures x in Drawn(es) {
        var i :| 0 <= i < |w| && w[i].ELogin? && w[i].id == x;
        if i < |WithoutCleanups(before)| {
          assert x in Drawn(WithoutCleanups(before));
          var j :| 0 <= j < |before| && before[j].ELogin? && before[j].id == x;
          assert es[j] == before[j];
        } else {
          assert es[|es| - 1] == w[i];
        }
      }
    }
  }

  /** All clock readings are in order, so every event of the run takes place. */
  ghost predicate AllPossible(v: Verifier, s: State, es: seq<Event>) {
    forall i | 0 <= i < |es| :: Possible(Run(v, s, es[..i]), es[i])
  }

  /** Leaving out every cleanup of a run only leaves expired sessions behind. */
  lemma {:induction false} CleanupOnlyRemovesExpired(v: Verifier, s: State, es: seq<Event>)
    requires AllPossible(v, s, es) && FreshIds(s, es)
    ensures Cleaned(Run(v, s, es), Run(v, s, WithoutCleanups(es)))
    decreases |es|
  {
    if es != [] {
      var n := |es| - 1;
      var before, e := es[..n], es[n];
      assert AllPossible(v, s, before) by {
        forall i | 0 <= i < n ensures Possible(Run(v, s, before[..i]), before[i]) {
          assert before[..i] == es[..i] && before[i] == es[i];
        }
      }
      assert FreshIds(s, before) by {
        forall i | 0 <= i < n && before[i].ELogin?
          ensures before[i].id !in s.db.sessions && before[i].id !in Drawn(before[..i]) {
          assert before[..i] == es[..i] && before[i] == es[i];
        }
      }
      CleanupOnlyRemovesExpired(v, s, before);
      var t, u := Run(v, s, before), Run(v, s, WithoutCleanups(before));
      assert Possible(t, es[n]);
      if e.ECleanup? {
        assert WithoutCleanups(es) == WithoutCleanups(before);
        UnixSecondMonotone(t.now, e.at);
      } else {
        assert WithoutCleanups(es)[..|WithoutCleanups(es)| - 1] == WithoutCleanups(before);
        if e.ELogin? {
          SessionsAreDrawn(v, s, WithoutCleanups(before));
          DrawnWithoutCleanups(before);
          assert es[n].id !in Drawn(es[..n]);
        }
        StepKeepsCleaned(v, t, u, e);
      }
    }
  }

  /** Main result: with fresh identifiers no cleanup ever changes the outcome of a present or later lookup. */
  lemma {:induction false} CleanupIsInvisible(v: Verifier, s: State, es: seq<Event>, id: string, now: int)
    requires AllPossible(v, s, es) && FreshIds(s, es)
    requires now >= Run(v, s, es).now
    ensures RequireAuth(Run(v, s, es).db, id, now).1 == RequireAuth(Run(v, s, WithoutCleanups(es)).db, id, now).1
  {
    CleanupOnlyRemovesExpired(v, s, es);
    UnixSecondMonotone(Run(v, s, es).now, now);
  }

  /** A right password for an unlocked account, and an identifier of a session that a cleanup removes. */
  predicate RedrawsExpired(v: Verifier, db: Db, user: string, password: string, check: int, id: string, at: int) {
    && user in db.admins && !Locked(db.admins[user], check) && v(password, db.admins[user].password)
    && id in db.sessions && db.sessions[id].expiresAt < UnixSecond(at)
  }

  /**
   Main result, for any database: a cleanup before a login changes its response exactly when the login redraws an
   expired identifier, and then exactly the lookups of that identifier, while the new session lasts.
   */
  lemma CleanupMattersIff(v: Verifier, db: Db, user: string, password: string, check: int, stamp: int, id: string,
                          at: int, cookie: string, now: int)
    requires at <= check <= stamp <= now
    ensures var (cleaned, r) := Login(v, Cleanup(db, at), user, password, check, stamp, id);
      var (plain, r') := Login(v, db, user, password, check, stamp, id);
      var redrawn := RedrawsExpired(v, db, user, password, check, id, at);
      && (r != r' <==> redrawn)
      && (redrawn ==> r == LoggedIn && r' == SessionFailed)
      && (RequireAuth(cleaned, cookie, now).1 != RequireAuth(plain, cookie, now).1 <==>
            redrawn && cookie == id && UnixSecond(now) < UnixSecond(stamp + SESSION_TIME))
  {
    UnixSecondMonotone(at, now);
  }

  /** Without freshness it is visible: an expired identifier drawn again can be inserted only after a cleanup. */
  lemma FreshnessMatters(v: Verifier, db: Db, user: string, password: string, id: string, t: int)
    requires user in db.admins && !Locked(db.admins[user], t) && v(password, db.admins[user].password)
    requires id in db.sessions && db.sessions[id].expiresAt < UnixSecond(t)
    ensures var cleanup, login := ECleanup(t), ELogin(user, password, t, t, id);
      && RequireAuth(Run(v, State(db, t), [cleanup, login]).db, id, t).1
      && !RequireAuth(Run(v, State(db, t), [login]).db, id, t).1
  {
    var s, cleanup, login := State(db, t), ECleanup(t), ELogin(user, password, t, t, id);
    RunOne(v, s, cleanup);
    RunOne(v, s, login);
    RunTwo(v, s, cleanup, login);
  }

  lemma RunOne(v: Verifier, s: State, e: Event)
    ensures Run(v, s, [e]) == Step(v, s, e)
  {
    assert [e][..0] == [];
  }

  lemma RunTwo(v: Verifier, s: State, d: Event, e: Event)
    ensures Run(v, s, [d, e]) == Step(v, Step(v, s, d), e)
  {
    assert [d, e][..1] == [d];
    RunOne(v, s, d);
  }
}
