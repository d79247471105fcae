/**
 First-run setup as a transition system: the in-memory flag and token of src/admin/setup.go, the completion
 handler of src/admin/setup_handler.go, the persistent flag and admin rows of src/server/store/sqlite.go, and
 process restarts (src/server/server.go, src/main.go). Any store write may fail. Strings stand for byte strings,
 since Go's len counts bytes.
 */
module SetupSpec {
  import opened Common

  datatype Data = Data(username: string, password: string, appName: string, mode: string, timezone: string)

  /** `flag` is the stored value of setup_complete, `admins` the user names in the admins table. */
  datatype State = State(token: string, completed: bool, flag: Option<string>, admins: set<string>, running: bool)

  datatype Response = AlreadyCompleted | Invalid | PreparationFailed | CreateFailed | SaveFailed | Completed

  /** The answers to a submitted token. */
  datatype TokenResponse = ToAdmin | TokenPage | ToWizard

  /** What fails in one attempt: random numbers or hashing, the insert of the admin, the write of the flag. */
  datatype Faults = Faults(prepare: bool, create: bool, save: bool)

  predicate FlagSet(s: State) {
    s.flag == Some("true") || s.flag == Some("1")
  }

  predicate Acceptable(d: Data) {
    && 3 <= |d.username| <= 30
    && 8 <= |d.password|
    && d.mode in {"", "production", "development"}
  }

  predicate Validates(s: State, token: string) {
    !s.completed && token == s.token
  }

  function Complete(s: State, d: Data, f: Faults): (State, Response) {
    if s.completed then (s, AlreadyCompleted)
    else if !Acceptable(d) then (s, Invalid)
    else if f.prepare then (s, PreparationFailed)
    else if f.create || d.username in s.admins then (s, CreateFailed)
    else
      var s' := s.(admins := s.admins + {d.username}, completed := true, token := "");
      if f.save then (s', SaveFailed) else (s'.(flag := Some("true")), Completed)
  }

  /** The token of a fresh process: 32 hexadecimal digits. */
  predicate IsToken(t: string) {
    |t| == 32 && forall i | 0 <= i < 32 :: '0' <= t[i] <= '9' || 'a' <= t[i] <= 'f'
  }

  /** A new process: it loads the flag, draws a token when setup is open, and exits if either fails. */
  function Restart(s: State, readable: bool, drawn: Option<string>): State {
    var blank := s.(token := "", completed := false, running := false);
    if !readable then blank
    else
      var loaded := blank.(completed := FlagSet(s));
      if loaded.completed then loaded.(running := true)
      else match drawn
        case None => loaded
        case Some(t) => loaded.(token := t, running := true)
  }

  /* ---------- runs ---------- */

  datatype Event =
    | EComplete(data: Data, faults: Faults)
    | EGenerate(token: string)
    | ERestart(readable: bool, drawn: Option<string>)
    | EStop

  predicate Possible(s: State, e: Event) {
    match e
    case EComplete(_, _) => s.running
    case EGenerate(token) => s.running && IsToken(token)
    case ERestart(_, drawn) => drawn.Some? ==> IsToken(drawn.value)
    case EStop => true
  }

  /** Events that are not possible leave the state alone. */
  function Step(s: State, e: Event): State {
    if !Possible(s, e) then s else
      match e
      case EComplete(data, faults) => Complete(s, data, faults).0
      case EGenerate(token) => s.(token := token)
      case ERestart(readable, drawn) => Restart(s, readable, drawn)
      case EStop => s.(running := false)
  }

  function Run(s: State, es: seq<Event>): State {
    if es == [] then s else Step(Run(s, es[..|es| - 1]), es[|es| - 1])
  }

  /** A database and a process that never saw a setup. */
  const VIRGIN := State("", false, None, {}, false)

  ghost predicate Inv(s: State) {
    && (s.completed || FlagSet(s) ==> s.admins != {})
    && (s.running && FlagSet(s) ==> s.completed)
    && (s.running && !s.completed ==> IsToken(s.token))
  }

  lemma {:induction false} RunKeepsInv(s: State, es: seq<Event>)
    requires Inv(s)
    ensures Inv(Run(s, es))
    decreases |es|
  {
    if es != [] { RunKeepsInv(s, es[..|es| - 1]); }
  }

  /** Main result: a completed flag, in memory or stored, implies that an admin account exists. */
  lemma {:induction false} CompletedImpliesAdmin(es: seq<Event>)
    ensures var s := Run(VIRGIN, es);
      s.completed || FlagSet(s) ==> s.admins != {}
  {
    RunKeepsInv(VIRGIN, es);
  }

  /** Once stored, the flag stays stored, every process that comes up later knows it, and none accepts a token. */
  lemma {:induction false} StoredFlagNeverReverts(s: State, es: seq<Event>)
    requires Inv(s) && FlagSet(s)
    ensures var t := Run(s, es);
      && FlagSet(t) && t.admins == s.admins
      && (t.running ==> t.completed && forall token :: !Validates(t, token))
    decreases |es|
  {
    if es != [] {
      StoredFlagNeverReverts(s, es[..|es| - 1]);
      RunKeepsInv(s, es[..|es| - 1]);
    }
  }

  /**
   While setup is complete in memory no token validates, not even one generated afterwards, until the process is
   replaced.
   */
  lemma {:induction false} NoTokenAfterCompletion(s: State, es: seq<Event>, token: string)
    requires s.completed
    requires forall i | 0 <= i < |es| :: !es[i].ERestart?
    ensures Run(s, es).completed && !Validates(Run(s, es), token)
    decreases |es|
  {
    if es != [] {
      var before := es[..|es| - 1];
      assert forall i | 0 <= i < |before| :: before[i] == es[i];
      assert !es[|es| - 1].ERestart?;
      NoTokenAfterCompletion(s, before, token);
    }
  }

  /** Two events in a row. */
  lemma RunOfTwo(s: State, e: Event, f: Event)
    ensures Run(s, [e, f]) == Step(Step(s, e), f)
  {
    assert [e, f][..1] == [e] && [e][..0] == [];
    assert Run(s, [e]) == Step(s, e);
  }

  /** After these events a process is serving and accepts the token. */
  predicate AcceptsAfter(s: State, es: seq<Event>, token: string) {
    Run(s, es).running && Validates(Run(s, es), token)
  }

  /** Main result: with restarts allowed, some later process accepts some token exactly when no flag is stored. */
  lemma TokenValidatesLaterIff(before: seq<Event>)
    ensures var s := Run(VIRGIN, before);
      (exists es, token :: AcceptsAfter(s, es, token)) <==> !FlagSet(s)
  {
    RunKeepsInv(VIRGIN, before);
    var s := Run(VIRGIN, before);
    if FlagSet(s) {
      forall es, token ensures !AcceptsAfter(s, es, token) {
        StoredFlagNeverReverts(s, es);
      }
    } else {
      var token := seq(32, _ => '0');
      var restart := ERestart(true, Some(token));
      assert [restart][..0] == [];
      assert Run(s, [restart]) == Step(s, restart);
      assert AcceptsAfter(s, [restart], token);
    }
  }

  /** In a serving process a validated token is always a drawn one, never the empty string. */
  lemma {:induction false} ValidTokensAreDrawn(es: seq<Event>, token: string)
    requires Run(VIRGIN, es).running && Validates(Run(VIRGIN, es), token)
    ensures IsToken(token)
  {
    RunKeepsInv(VIRGIN, es);
  }

  /**
   Main result: in every reachable serving state, which answer an attempt gets, and that it changes the database
   exactly when it creates its account.
   */
  lemma AttemptOutcome(es: seq<Event>, d: Data, f: Faults)
    requires Run(VIRGIN, es).running
    ensures var s := Run(VIRGIN, es);
      var (t, r) := Complete(s, d, f);
      var filled := 3 <= |d.username| <= 30 && |d.password| >= 8 && d.mode in {"", "production", "development"};
      var creates := !s.completed && filled && !f.prepare && !f.create && d.username !in s.admins;
      && (r == AlreadyCompleted <==> s.completed)
      && (r == Invalid <==> !s.completed && !filled)
      && (r == PreparationFailed <==> !s.completed && filled && f.prepare)
      && (r == CreateFailed <==> !s.completed && filled && !f.prepare && (f.create || d.username in s.admins))
      && (r == SaveFailed <==> creates && f.save)
      && (r == Completed <==> creates && !f.save)
      && (creates ==> t == s.(admins := s.admins + {d.username}, completed := true, token := "", flag := t.flag))
      && (creates ==> t.flag == if f.save then s.flag else Some("true"))
      && (!creates ==> t == s)
  {
  }

  /** The effect of a success stays whatever follows. */
  lemma SetupSucceedsIff(s: State, d: Data, f: Faults, es: seq<Event>)
    requires Inv(s) && s.running
    ensures Complete(s, d, f).1 == Completed <==>
      && !s.completed && d.username !in s.admins && f == Faults(false, false, false)
      && 3 <= |d.username| <= 30 && |d.password| >= 8 && d.mode in {"", "production", "development"}
    ensures Complete(s, d, f).1 == Completed ==>
      var t := Run(Complete(s, d, f).0, es);
      FlagSet(t) && d.username in t.admins && (t.running ==> t.completed)
  {
    if Complete(s, d, f).1 == Completed { StoredFlagNeverReverts(Complete(s, d, f).0, es); }
  }

  /* ---------- the database is its history ---------- */

  /** The k-th event is an attempt that creates its account, in a serving process with setup open. */
  ghost predicate CreatesAt(es: seq<Event>, k: nat) {
    && k < |es| && es[k].EComplete?
    && var s, d, f := Run(VIRGIN, es[..k]), es[k].data, es[k].faults;
       && s.running && !s.completed && d.username !in s.admins
       && 3 <= |d.username| <= 30 && |d.password| >= 8 && d.mode in {"", "production", "development"}
       && !f.prepare && !f.create
  }

  lemma EarlierCreation(es: seq<Event>, k: nat)
    requires k + 1 < |es|
    ensures CreatesAt(es, k) <==> CreatesAt(es[..|es| - 1], k)
  {
    var before := es[..|es| - 1];
    assert before[..k] == es[..k] && before[k] == es[k];
  }

  /** What the last event does to accounts and flag. */
  lemma LastEventWrites(es: seq<Event>)
    requires es != []
    ensures var s, t, n := Run(VIRGIN, es[..|es| - 1]), Run(VIRGIN, es), |es| - 1;
      && t.admins == (if CreatesAt(es, n) then s.admins + {es[n].data.username} else s.admins)
      && t.flag == if CreatesAt(es, n) && !es[n].faults.save then Some("true") else s.flag
  {
  }

  /**
   Main result: over every run with restarts and failing writes, the accounts are exactly the names of the acceptable
   forms whose attempts met a serving process with setup open, a free name, and no failure before the account is
   written. In particular no account ever comes from a shorter password.
   */
  lemma {:induction false} AccountsComeFromForms(es: seq<Event>, name: string)
    ensures name in Run(VIRGIN, es).admins <==> exists k: nat :: CreatesAt(es, k) && es[k].data.username == name
    decreases |es|
  {
    if es != [] {
      var before, n := es[..|es| - 1], |es| - 1;
      AccountsComeFromForms(before, name);
      LastEventWrites(es);
      forall k: nat | k < n ensures CreatesAt(es, k) <==> CreatesAt(before, k) { EarlierCreation(es, k); }
      if name in Run(VIRGIN, before).admins {
        var k: nat :| CreatesAt(before, k) && before[k].data.username == name;
        assert CreatesAt(es, k) && es[k].data.username == name;
      }
      if k: nat :| CreatesAt(es, k) && es[k].data.username == name {
        assert k < n ==> CreatesAt(before, k) && before[k].data.username == name;
      }
    }
  }

  /** The flag is stored exactly when such an attempt could also write it, and then it says `true`. */
  lemma {:induction false} FlagIsStoredIff(es: seq<Event>)
    ensures Run(VIRGIN, es).flag ==
      if exists k: nat :: CreatesAt(es, k) && !es[k].faults.save then Some("true") else None
    decreases |es|
  {
    if es != [] {
      var before, n := es[..|es| - 1], |es| - 1;
      FlagIsStoredIff(before);
      LastEventWrites(es);
      forall k: nat | k < n ensures CreatesAt(es, k) <==> CreatesAt(before, k) { EarlierCreation(es, k); }
      if k: nat :| CreatesAt(before, k) && !before[k].faults.save {
        assert CreatesAt(es, k) && !es[k].faults.save;
      }
      if k: nat :| CreatesAt(es, k) && !es[k].faults.save {
        assert k < n ==> CreatesAt(before, k) && !before[k].faults.save;
      }
    }
  }

  /* ---------- the process is its history ---------- */

  /** A process serves exactly when the flag could be read and is set, or else a token could be drawn. */
  lemma ProcessServesIff(s: State, readable: bool, drawn: Option<string>)
    ensures var t := Restart(s, readable, drawn);
      var stored := s.flag in {Some("true"), Some("1")};
      && (t.running <==> readable && (stored || drawn.Some?))
      && (t.completed <==> readable && stored)
      && t.admins == s.admins && t.flag == s.flag
  {
  }

  /** The token drawn last, by a starting process or by a later request for one. */
  function LastDrawn(es: seq<Event>): Option<string> {
    if es == [] then None else
      match es[|es| - 1]
      case ERestart(_, drawn) =>
        if Possible(Run(VIRGIN, es[..|es| - 1]), es[|es| - 1]) then drawn else LastDrawn(es[..|es| - 1])
      case EGenerate(token) =>
        if Possible(Run(VIRGIN, es[..|es| - 1]), es[|es| - 1]) then Some(token) else LastDrawn(es[..|es| - 1])
      case _ => LastDrawn(es[..|es| - 1])
  }

  /** Main result: a serving process with setup open accepts exactly the token that was drawn last. */
  lemma {:induction false} TokenIsTheLastDrawn(es: seq<Event>, token: string)
    requires Run(VIRGIN, es).running
    ensures Validates(Run(VIRGIN, es), token) <==> !Run(VIRGIN, es).completed && LastDrawn(es) == Some(token)
  {
    OpenProcessHoldsLastDrawn(es);
  }

  lemma {:induction false} OpenProcessHoldsLastDrawn(es: seq<Event>)
    ensures var s := Run(VIRGIN, es); s.running && !s.completed ==> LastDrawn(es) == Some(s.token)
    decreases |es|
  {
    if es != [] { OpenProcessHoldsLastDrawn(es[..|es| - 1]); }
  }

  /** From here on the events of one process: it knows that setup is complete from its start or from an attempt. */
  lemma {:induction false} ProcessKnowsCompletion(before: seq<Event>, drawn: Option<string>, more: seq<Event>)
    requires drawn.Some? ==> IsToken(drawn.value)
    requires forall i | 0 <= i < |more| :: !more[i].ERestart?
    ensures var es := before + [ERestart(true, drawn)] + more;
      Run(VIRGIN, es).completed <==>
        FlagSet(Run(VIRGIN, before)) || exists k: nat :: k > |before| && CreatesAt(es, k)
    decreases |more|
  {
    var start := before + [ERestart(true, drawn)];
    var es := start + more;
    if more == [] {
      assert es == start && start[..|start| - 1] == before;
    } else {
      var front, n := more[..|more| - 1], |es| - 1;
      assert forall i | 0 <= i < |front| :: front[i] == more[i];
      ProcessKnowsCompletion(before, drawn, front);
      assert es[..n] == start + front;
      forall k: nat | k < n ensures CreatesAt(es, k) <==> CreatesAt(es[..n], k) { EarlierCreation(es, k); }
      assert !more[|more| - 1].ERestart? && es[n] == more[|more| - 1];
      LastEventCompletes(es);
    }
  }

  lemma LastEventCompletes(es: seq<Event>)
    requires es != [] && !es[|es| - 1].ERestart?
    ensures Run(VIRGIN, es).completed <==> Run(VIRGIN, es[..|es| - 1]).completed || CreatesAt(es, |es| - 1)
  {
  }

  /** States that differ in nothing but the token. */
  predicate Alike(s: State, t: State) {
    t == s.(token := t.token)
  }

  /** Events that differ in nothing but drawn tokens. */
  predicate AlikeEvents(e: Event, f: Event) {
    match e
    case EGenerate(token) => f.EGenerate? && IsToken(token) && IsToken(f.token)
    case ERestart(readable, drawn) =>
      && f.ERestart? && f.readable == readable && (f.drawn.Some? <==> drawn.Some?)
      && (drawn.Some? ==> IsToken(drawn.value) && IsToken(f.drawn.value))
    case _ => e == f
  }

  /** Completing the setup asks for no token: the outcome of a whole run does not depend on any token in it. */
  lemma {:induction false} TokensPlayNoPart(s: State, t: State, es: seq<Event>, fs: seq<Event>, d: Data, f: Faults)
    requires Alike(s, t) && |es| == |fs| && forall i | 0 <= i < |es| :: AlikeEvents(es[i], fs[i])
    ensures Alike(Run(s, es), Run(t, fs))
    ensures Complete(Run(s, es), d, f).1 == Complete(Run(t, fs), d, f).1
    decreases |es|
  {
    if es != [] {
      TokensPlayNoPart(s, t, es[..|es| - 1], fs[..|fs| - 1], d, f);
      assert AlikeEvents(es[|es| - 1], fs[|fs| - 1]);
    }
  }

  /** If no write of the flag fails, setup creates at most one account in the life of the database. */
  lemma {:induction false} SetupCreatesOneAdmin(es: seq<Event>)
    requires forall i | 0 <= i < |es| && es[i].EComplete? :: !es[i].faults.save
    ensures var s := Run(VIRGIN, es);
      && |s.admins| <= 1
      && (s.admins != {} ==> FlagSet(s))
    decreases |es|
  {
    if es != [] {
      var before := es[..|es| - 1];
      assert forall i | 0 <= i < |before| :: before[i] == es[i];
      SetupCreatesOneAdmin(before);
      RunKeepsInv(VIRGIN, before);
      var m := Run(VIRGIN, before);
      if m.admins == {} {
        assert forall u: string :: |{u}| == 1 && m.admins + {u} == {u};
      }
      assert es[|es| - 1].EComplete? ==> !es[|es| - 1].faults.save;
    }
  }

  lemma {:induction false} NamesAreAcceptable(s: State, es: seq<Event>, name: string)
    requires name !in s.admins && name in Run(s, es).admins
    ensures 3 <= |name| <= 30
    decreases |es|
  {
    if es != [] && name in Run(s, es[..|es| - 1]).admins { NamesAreAcceptable(s, es[..|es| - 1], name); }
  }

  /**
   Main result, over every reachable state and all that can follow: a further name can become an administrator
   exactly when no flag is stored and the form accepts the name. Restarts and failing writes are among the events.
   */
  lemma AccountCanBeAddedIff(before: seq<Event>, name: string)
    requires name !in Run(VIRGIN, before).admins
    ensures var s := Run(VIRGIN, before);
      (exists es :: name in Run(s, es).admins) <==> !FlagSet(s) && 3 <= |name| <= 30
  {
    RunKeepsInv(VIRGIN, before);
    var s := Run(VIRGIN, before);
    forall es | name in Run(s, es).admins ensures !FlagSet(s) && 3 <= |name| <= 30 {
      if FlagSet(s) { StoredFlagNeverReverts(s, es); }
      NamesAreAcceptable(s, es, name);
    }
    if !FlagSet(s) && 3 <= |name| <= 30 {
      var restart := ERestart(true, Some(seq(32, _ => '0')));
      var attempt := EComplete(Data(name, seq(8, _ => 'x'), "", "", ""), Faults(false, false, false));
      RunOfTwo(s, restart, attempt);
      assert name in Run(s, [restart, attempt]).admins;
    }
  }

  /**
   An attempt that created its account leaves a stored flag exactly when the write of the flag did not fail; then,
   and only then, the next process comes up complete and nobody can add another account.
   */
  lemma SavedFlagDecides(before: seq<Event>, d: Data, f: Faults, drawn: string, name: string)
    requires var s := Run(VIRGIN, before); s.running && !FlagSet(s) && Complete(s, d, f).1 in {SaveFailed, Completed}
    requires IsToken(drawn) && 3 <= |name| <= 30 && name !in Run(VIRGIN, before).admins && name != d.username
    ensures var t := Complete(Run(VIRGIN, before), d, f).0;
      && (Restart(t, true, Some(drawn)).completed <==> !f.save)
      && ((exists es :: name in Run(t, es).admins) <==> f.save)
  {
    var e := EComplete(d, f);
    assert (before + [e])[..|before + [e]| - 1] == before;
    assert Run(VIRGIN, before + [e]) == Complete(Run(VIRGIN, before), d, f).0;
    AccountCanBeAddedIff(before + [e], name);
  }

  /** A failed write of the flag followed by a restart opens setup again: a second account can be created. */
  lemma FailedSaveReopensSetup(a: Data, b: Data, token: string)
    requires Acceptable(a) && Acceptable(b) && a.username != b.username && IsToken(token)
    ensures var es := [ERestart(true, Some(token)), EComplete(a, Faults(false, false, true)),
                       ERestart(true, Some(token)), EComplete(b, Faults(false, false, false))];
      |Run(VIRGIN, es).admins| == 2 && FlagSet(Run(VIRGIN, es))
  {
    var r := ERestart(true, Some(token));
    var x, y := EComplete(a, Faults(false, false, true)), EComplete(b, Faults(false, false, false));
    var es := [r, x, r, y];
    assert es[..3] == [r, x, r] && [r, x, r][..2] == [r, x] && [r, x][..1] == [r] && [r][..0] == [];
    assert Run(VIRGIN, [r]) == Step(VIRGIN, r);
    assert Run(VIRGIN, [r, x]) == Step(Step(VIRGIN, r), x);
    assert Run(VIRGIN, [r, x, r]) == Step(Step(Step(VIRGIN, r), x), r);
    assert Run(VIRGIN, es).admins == {a.username, b.username};
  }
}
