/**
 The limiter of src/server/server.go (ipRateLimit and rateLimitMiddleware), for requests that are guarded by
 it: admission under a mutex, release when the handler returns. The key it calls an address is r.RemoteAddr: what
 the RealIP middleware put there from a proxy's headers, and otherwise address and port of the connection, so
 every new connection of a direct client is a new key.
 */
module RateLimit {
  import opened Common

  datatype Config = Config(maxConcurrent: int, minInterval: int) {
    function Gap(): int { minInterval * SECOND }

    /** A positive concurrency limit, and an interval that fits a time.Duration. */
    predicate AdmitsNewKeys() { maxConcurrent > 0 && Gap() <= LONGEST }
  }

  /** `last` is None for the zero time.Time of a new entry. */
  datatype Entry = Entry(active: int, last: Option<int>)

  type Table = map<string, Entry>

  datatype Decision = Admitted | TooManyTests(retryAfter: int) | TooSoon(retryAfter: int)

  const FRESH := Entry(0, None)

  /** The longest time.Duration: differences beyond it, as from the zero time, saturate. */
  const LONGEST := 0x7FFF_FFFF_FFFF_FFFF

  /** time.Since(last) in nanoseconds. */
  function Since(last: Option<int>, now: int): (d: int)
    ensures d <= LONGEST
  {
    match last
    case None => LONGEST
    case Some(t) => if now - t > LONGEST then LONGEST else now - t
  }

  function EntryOf(t: Table, ip: string): Entry {
    if ip in t then t[ip] else FRESH
  }

  /** The locked section: `check` is the clock read for the interval, `stamp` the one stored on admission. */
  function Arrive(c: Config, t: Table, ip: string, check: int, stamp: int): (Table, Decision) {
    var e := EntryOf(t, ip);
    var t' := t[ip := e];
    if e.active >= c.maxConcurrent then (t', TooManyTests(60))
    else if Since(e.last, check) < c.Gap() then (t', TooSoon((c.Gap() - Since(e.last, check)) / SECOND))
    else (t[ip := Entry(e.active + 1, Some(stamp))], Admitted)
  }

  /** The deferred release. */
  function Release(t: Table, ip: string): Table {
    if ip in t then t[ip := t[ip].(active := t[ip].active - 1)] else t
  }

  /* ---------- the object ---------- */

  class IpRateLimit {
    var activeTests: int
    var lastTest: Option<int>

    constructor ()
      ensures Value() == FRESH
    {
      activeTests, lastTest := 0, None;
    }

    ghost function Value(): Entry
      reads this
    {
      Entry(activeTests, lastTest)
    }
  }

  class Limiter {
    const config: Config
    var ipTestCount: map<string, IpRateLimit>

    ghost function View(): Table
      reads this, ipTestCount.Values
    {
      map ip | ip in ipTestCount :: ipTestCount[ip].Value()
    }

    /** No two addresses share an entry. */
    ghost predicate Valid()
      reads this
    {
      forall a, b | a in ipTestCount && b in ipTestCount && ipTestCount[a] == ipTestCount[b] :: a == b
    }

    constructor (config: Config)
      ensures Valid() && View() == map[] && this.config == config
    {
      this.config := config;
      ipTestCount := map[];
    }

    method Admit(clientIP: string, check: int, stamp: int) returns (d: Decision)
      requires Valid()
      modifies this, ipTestCount.Values
      ensures Valid() && fresh(ipTestCount.Values - old(ipTestCount.Values))
      ensures (View(), d) == Arrive(config, old(View()), clientIP, check, stamp)
    {
      var limit: IpRateLimit;
      if clientIP in ipTestCount {
        limit := ipTestCount[clientIP];
      } else {
        limit := new IpRateLimit();
        ipTestCount := ipTestCount[clientIP := limit];
      }
      assert ipTestCount[clientIP] == limit;
      assert View() == old(View())[clientIP := EntryOf(old(View()), clientIP)];
      if limit.activeTests >= config.maxConcurrent {
        return TooManyTests(60);
      }
      var since := Since(limit.lastTest, check);
      if since < config.Gap() {
        return TooSoon((config.Gap() - since) / SECOND);
      }
      limit.activeTests := limit.activeTests + 1;
      limit.lastTest := Some(stamp);
      assert View() == old(View())[clientIP := limit.Value()];
      return Admitted;
    }

    method Leave(clientIP: string)
      requires Valid()
      modifies ipTestCount.Values
      ensures Valid()
      ensures View() == Release(old(View()), clientIP)
    {
      if clientIP in ipTestCount {
        var l := ipTestCount[clientIP];
        l.activeTests := l.activeTests - 1;
        assert View() == old(View())[clientIP := l.Value()];
      }
    }
  }

  /* ---------- schedules ---------- */

  /** `inflight` are the admitted requests whose handler has not returned; `now` is the last clock reading. */
  datatype State = State(table: Table, inflight: multiset<string>, now: int)

  /** An arrival with its two clock readings, or the return of an admitted request. */
  datatype Event = EArrive(ip: string, check: int, stamp: int) | ELeave(ip: string)

  predicate Possible(s: State, e: Event) {
    match e
    case EArrive(_, check, stamp) => s.now <= check <= stamp
    case ELeave(ip) => s.inflight[ip] > 0
  }

  /** Events that are not possible leave the state alone, so every sequence of events is an interleaving. */
  function Step(c: Config, s: State, e: Event): State {
    if !Possible(s, e) then s else
      match e
      case EArrive(ip, check, stamp) =>
        var (t, d) := Arrive(c, s.table, ip, check, stamp);
        State(t, if d.Admitted? then s.inflight[ip := s.inflight[ip] + 1] else s.inflight, stamp)
      case ELeave(ip) => s.(table := Release(s.table, ip), inflight := s.inflight[ip := s.inflight[ip] - 1])
  }

  function Run(c: Config, start: int, es: seq<Event>): State {
    if es == [] then State(map[], multiset{}, start)
    else Step(c, Run(c, start, es[..|es| - 1]), es[|es| - 1])
  }

  /** Main result: in every reachable state activeTests counts the requests in flight, within the limit. */
  lemma {:induction false} ActiveTestsAreInFlight(c: Config, start: int, es: seq<Event>, ip: string)
    ensures var s := Run(c, start, es);
      && EntryOf(s.table, ip).active == s.inflight[ip]
      && 0 <= s.inflight[ip] <= Max(0, c.maxConcurrent)
      && (s.inflight[ip] > 0 ==> ip in s.table)
    decreases |es|
  {
    if es != [] {
      ActiveTestsAreInFlight(c, start, es[..|es| - 1], ip);
    }
  }

  /** A step of one address leaves every other address' entry alone. */
  lemma StepsOfOthersDoNotMatter(c: Config, s: State, e: Event, ip: string)
    requires e.ip != ip
    ensures EntryOf(Step(c, s, e).table, ip) == EntryOf(s.table, ip)
    ensures Step(c, s, e).inflight[ip] == s.inflight[ip]
  {
  }

  /** The step admits a request of this address. */
  predicate Admits(c: Config, s: State, e: Event, ip: string) {
    e.EArrive? && e.ip == ip && Possible(s, e) && Arrive(c, s.table, ip, e.check, e.stamp).1.Admitted?
  }

  lemma {:induction false} UnseenKeyIsFresh(c: Config, start: int, es: seq<Event>, ip: string)
    requires forall i | 0 <= i < |es| :: es[i].ip != ip
    ensures EntryOf(Run(c, start, es).table, ip) == FRESH
    decreases |es|
  {
    if es != [] {
      var before := es[..|es| - 1];
      UnseenKeyIsFresh(c, start, before, ip);
      StepsOfOthersDoNotMatter(c, Run(c, start, before), es[|es| - 1], ip);
    }
  }

  /** The k-th event is a request of this address that takes place. */
  predicate ArrivesAt(c: Config, start: int, es: seq<Event>, ip: string, k: nat) {
    k < |es| && es[k].EArrive? && es[k].ip == ip && Possible(Run(c, start, es[..k]), es[k])
  }

  /** An address has an entry from its first request on, admitted or not, and keeps it for good. */
  lemma {:induction false} EntriesAreNeverRemoved(c: Config, start: int, es: seq<Event>, ip: string)
    ensures ip in Run(c, start, es).table <==> exists k: nat :: ArrivesAt(c, start, es, ip, k)
    decreases |es|
  {
    if es != [] {
      var before, n := es[..|es| - 1], |es| - 1;
      EntriesAreNeverRemoved(c, start, before, ip);
      forall k: nat | k < n ensures ArrivesAt(c, start, es, ip, k) <==> ArrivesAt(c, start, before, ip, k) {
        assert before[..k] == es[..k] && before[k] == es[k];
      }
      StepAddsEntry(c, Run(c, start, before), es[n], ip);
      assert ArrivesAt(c, start, es, ip, n) <==>
        es[n].EArrive? && es[n].ip == ip && Possible(Run(c, start, before), es[n]);
      if ip in Run(c, start, before).table {
        var k: nat :| ArrivesAt(c, start, before, ip, k);
        assert ArrivesAt(c, start, es, ip, k);
      }
    }
  }

  lemma StepAddsEntry(c: Config, s: State, e: Event, ip: string)
    ensures ip in Step(c, s, e).table <==> ip in s.table || (e.EArrive? && e.ip == ip && Possible(s, e))
  {
  }

  /** Whatever happened under other keys, only the configuration can refuse the first request of a key. */
  lemma FirstRequestIsAdmittedIff(c: Config, start: int, es: seq<Event>, e: Event)
    requires forall i | 0 <= i < |es| :: es[i].ip != e.ip
    requires e.EArrive? && Possible(Run(c, start, es), e)
    ensures Admits(c, Run(c, start, es), e, e.ip) <==> c.AdmitsNewKeys()
  {
    UnseenKeyIsFresh(c, start, es, e.ip);
  }

  /** Requests under these keys, all at one moment. */
  function Arrivals(ips: seq<string>, now: int): (es: seq<Event>)
    ensures |es| == |ips|
  {
    seq(|ips|, i requires 0 <= i < |ips| => EArrive(ips[i], now, now))
  }

  /** So connections under different keys are in flight together, however many: neither limit joins them. */
  lemma {:induction false} DistinctKeysAreNotLimited(c: Config, start: int, ips: seq<string>)
    requires forall i, j | 0 <= i < j < |ips| :: ips[i] != ips[j]
    ensures var s := Run(c, start, Arrivals(ips, start));
      s.now == start && s.inflight == if c.AdmitsNewKeys() then multiset(ips) else multiset{}
    decreases |ips|
  {
    if ips != [] {
      var front, ip := ips[..|ips| - 1], ips[|ips| - 1];
      LastArrival(c, start, ips);
      DistinctKeysAreNotLimited(c, start, front);
      var before := Run(c, start, Arrivals(front, start));
      var after := Run(c, start, Arrivals(ips, start));
      FreshArrival(c, before, after, ip, start);
      assert ips == front + [ip];
    }
  }

  lemma LastArrival(c: Config, start: int, ips: seq<string>)
    requires ips != [] && forall i, j | 0 <= i < j < |ips| :: ips[i] != ips[j]
    ensures var front, ip := ips[..|ips| - 1], ips[|ips| - 1];
      var s := Run(c, start, Arrivals(front, start));
      && Run(c, start, Arrivals(ips, start)) == Step(c, s, EArrive(ip, start, start))
      && EntryOf(s.table, ip) == FRESH
  {
    var es, front := Arrivals(ips, start), ips[..|ips| - 1];
    assert es[..|es| - 1] == Arrivals(front, start);
    UnseenKeyIsFresh(c, start, Arrivals(front, start), ips[|ips| - 1]);
  }

  lemma FreshArrival(c: Config, s: State, s': State, ip: string, now: int)
    requires EntryOf(s.table, ip) == FRESH && s.now == now && s' == Step(c, s, EArrive(ip, now, now))
    ensures s'.now == now && s'.inflight == s.inflight + if c.AdmitsNewKeys() then multiset{ip} else multiset{}
  {
  }

  /** Exactly the admissions of an address move its last time, each by at least the interval. */
  lemma LastMovesOnAdmission(c: Config, s: State, e: Event, ip: string)
    ensures var last, s' := EntryOf(s.table, ip).last, Step(c, s, e);
      && EntryOf(s'.table, ip).last == (if Admits(c, s, e, ip) then Some(e.stamp) else last)
      && s.now <= s'.now
      && (Admits(c, s, e, ip) ==> e.stamp <= s'.now && (last.Some? ==> e.stamp - last.value >= c.Gap()))
  {
  }

  /** The stamps of the admissions of one address, in order. */
  function Admissions(c: Config, start: int, es: seq<Event>, ip: string): seq<int> {
    if es == [] then [] else
      var before, e := es[..|es| - 1], es[|es| - 1];
      var s := Run(c, start, before);
      Admissions(c, start, before, ip) + if Admits(c, s, e, ip) then [e.stamp] else []
  }

  ghost predicate Spaced(ts: seq<int>, gap: int) {
    forall j, k | 0 <= j < k < |ts| :: ts[k] - ts[j] >= (k - j) * gap
  }

  lemma SpacedAppend(ts: seq<int>, t: int, gap: int)
    requires Spaced(ts, gap) && (ts != [] ==> t - ts[|ts| - 1] >= gap)
    ensures Spaced(ts + [t], gap)
  {
    var n := |ts|;
    forall j, k | 0 <= j < k < n + 1 ensures (ts + [t])[k] - (ts + [t])[j] >= (k - j) * gap {
      if k == n {
        Steps(n - 1 - j, gap);
        if j < n - 1 { assert ts[n - 1] - ts[j] >= (n - 1 - j) * gap; }
      }
    }
  }

  lemma Steps(n: int, gap: int)
    ensures (n + 1) * gap == n * gap + gap
  {
  }

  /** Main result: the k-th later admission of an address comes at least k intervals later. */
  lemma {:induction false} AdmissionsAreSpaced(c: Config, start: int, es: seq<Event>, ip: string)
    ensures var ts := Admissions(c, start, es, ip);
      && Spaced(ts, c.Gap())
      && (ts != [] ==> ts[|ts| - 1] <= Run(c, start, es).now)
      && EntryOf(Run(c, start, es).table, ip).last == if ts == [] then None else Some(ts[|ts| - 1])
    decreases |es|
  {
    if es != [] {
      var before, e := es[..|es| - 1], es[|es| - 1];
      AdmissionsAreSpaced(c, start, before, ip);
      var s, ts := Run(c, start, before), Admissions(c, start, before, ip);
      LastMovesOnAdmission(c, s, e, ip);
      if Admits(c, s, e, ip) {
        SpacedAppend(ts, e.stamp, c.Gap());
      } else {
        assert ts + [] == ts;
      }
    }
  }

  /**
   Main result: in any reachable state a request is admitted exactly when fewer than MaxConcurrent requests of
   its address are in flight and its last admission, if any, lies at least MinInterval back.
   */
  lemma AdmittedIff(c: Config, start: int, es: seq<Event>, ip: string, check: int, stamp: int)
    requires Possible(Run(c, start, es), EArrive(ip, check, stamp))
    ensures var s, ts := Run(c, start, es), Admissions(c, start, es, ip);
      var d := Arrive(c, s.table, ip, check, stamp).1;
      && (d.TooManyTests? <==> s.inflight[ip] >= c.maxConcurrent)
      && (d.Admitted? <==> s.inflight[ip] < c.maxConcurrent && c.Gap() <= LONGEST
                           && (ts == [] || check - ts[|ts| - 1] >= c.Gap()))
      && (d.Admitted? ==> Step(c, s, EArrive(ip, check, stamp)).inflight[ip] == s.inflight[ip] + 1)
  {
    ActiveTestsAreInFlight(c, start, es, ip);
    AdmissionsAreSpaced(c, start, es, ip);
  }

  /** How many of the times lie in the closed window from `lo` of length `w`. */
  function InWindow(ts: seq<int>, lo: int, w: nat): nat {
    if ts == [] then 0 else
      InWindow(ts[..|ts| - 1], lo, w) + if lo <= ts[|ts| - 1] <= lo + w then 1 else 0
  }

  lemma SpacedFront(ts: seq<int>, gap: int)
    requires ts != [] && Spaced(ts, gap)
    ensures Spaced(ts[..|ts| - 1], gap)
  {
    var front := ts[..|ts| - 1];
    forall j, k | 0 <= j < k < |front| ensures front[k] - front[j] >= (k - j) * gap {
      assert ts[k] - ts[j] >= (k - j) * gap;
    }
  }

  lemma {:induction false} WindowSpan(ts: seq<int>, gap: int, lo: int, w: nat)
    requires gap > 0 && Spaced(ts, gap) && InWindow(ts, lo, w) > 0
    ensures exists k :: 0 <= k < |ts| && lo <= ts[k] <= lo + w && (InWindow(ts, lo, w) - 1) * gap <= ts[k] - lo
    decreases |ts|
  {
    var n := |ts| - 1;
    var front, c := ts[..n], InWindow(ts[..n], lo, w);
    if c > 0 {
      SpacedFront(ts, gap);
      WindowSpan(front, gap, lo, w);
      var k :| 0 <= k < n && lo <= front[k] <= lo + w && (c - 1) * gap <= front[k] - lo;
      assert ts[k] == front[k];
      if lo <= ts[n] <= lo + w {
        assert ts[n] - ts[k] >= (n - k) * gap;
        OneMoreSpan(c, gap, lo, ts[k], ts[n], n - k);
        assert InWindow(ts, lo, w) == c + 1;
      }
    } else {
      assert lo <= ts[n] <= lo + w && (InWindow(ts, lo, w) - 1) * gap <= ts[n] - lo;
    }
  }

  lemma OneMoreSpan(c: int, gap: int, lo: int, tk: int, tn: int, d: int)
    requires gap > 0 && d >= 1 && (c - 1) * gap <= tk - lo && tn - tk >= d * gap
    ensures c * gap <= tn - lo
  {
    AtLeastOnce(d, gap);
    Steps(c - 1, gap);
  }

  lemma AtLeastOnce(n: int, gap: int)
    requires n >= 1 && gap > 0
    ensures n * gap >= gap
  {
  }

  lemma WindowCount(ts: seq<int>, gap: int, lo: int, w: nat)
    requires gap > 0 && Spaced(ts, gap)
    ensures InWindow(ts, lo, w) <= w / gap + 1
  {
    var n := InWindow(ts, lo, w);
    if n > 0 {
      WindowSpan(ts, gap, lo, w);
      FloorDivision(n - 1, gap, w);
    } else {
      FloorDivision(0, gap, w);
    }
  }

  /** Main result: a window of length w holds at most floor(w / MinInterval) + 1 admissions of one address. */
  lemma WindowLimit(c: Config, start: int, es: seq<Event>, ip: string, lo: int, w: nat)
    requires c.minInterval > 0
    ensures InWindow(Admissions(c, start, es, ip), lo, w) <= w / c.Gap() + 1
  {
    AdmissionsAreSpaced(c, start, es, ip);
    WindowCount(Admissions(c, start, es, ip), c.Gap(), lo, w);
  }

  lemma FloorDivision(n: nat, gap: int, w: nat)
    requires gap > 0 && n * gap <= w
    ensures n <= w / gap
  {
    assert w < (w / gap + 1) * gap;
    ProductMonotone(w / gap + 1, n, gap);
  }

  lemma ProductMonotone(a: int, b: int, gap: int)
    requires gap > 0
    ensures a <= b ==> a * gap <= b * gap
  {
  }

  /* ---------- Retry-After ---------- */

  /** The interval check alone. */
  predicate PassesInterval(c: Config, e: Entry, check: int) {
    Since(e.last, check) >= c.Gap()
  }

  /** An interval rejection announces between 0 and MinInterval seconds. */
  lemma RetryAfterIsInRange(c: Config, start: int, es: seq<Event>, ip: string, check: int, stamp: int)
    requires Possible(Run(c, start, es), EArrive(ip, check, stamp))
    requires Arrive(c, Run(c, start, es).table, ip, check, stamp).1.TooSoon?
    ensures 0 <= Arrive(c, Run(c, start, es).table, ip, check, stamp).1.retryAfter <= c.minInterval
  {
    AdmissionsAreSpaced(c, start, es, ip);
  }

  /**
   One second more than the announced time is enough, if nothing was admitted meanwhile, exactly when the
   interval is representable as a time.Duration; a longer interval is never passed by anybody.
   */
  lemma RetryAfterSuffices(c: Config, t: Table, ip: string, check: int, stamp: int, later: int)
    requires Arrive(c, t, ip, check, stamp).1.TooSoon?
    requires later >= check + (Arrive(c, t, ip, check, stamp).1.retryAfter + 1) * SECOND
    ensures PassesInterval(c, EntryOf(t, ip), later) <==> c.Gap() <= LONGEST
  {
    var e := EntryOf(t, ip);
    var d := c.Gap() - Since(e.last, check);
    assert d < (d / SECOND + 1) * SECOND;
  }

  /** The wait that an address has behind it, since its last admission, as far as a time.Duration can tell. */
  function Waited(ts: seq<int>, check: int): int {
    if ts == [] || check - ts[|ts| - 1] > LONGEST then LONGEST else check - ts[|ts| - 1]
  }

  /**
   Main result: after any run, what a refusal announces is tight. Too many tests are told to wait 60 seconds; a test
   that comes too soon is told the whole seconds that are left of the interval since its last admission.
   */
  lemma RetryAfterIsTight(c: Config, start: int, es: seq<Event>, ip: string, check: int, stamp: int)
    requires Possible(Run(c, start, es), EArrive(ip, check, stamp))
    ensures var d, ts := Arrive(c, Run(c, start, es).table, ip, check, stamp).1, Admissions(c, start, es, ip);
      && (d.TooManyTests? ==> d.retryAfter == 60)
      && (d.TooSoon? ==>
            d.retryAfter * SECOND <= c.Gap() - Waited(ts, check) < (d.retryAfter + 1) * SECOND)
      && (d.TooSoon? && c.Gap() <= LONGEST ==>
            ts != [] && d.retryAfter * SECOND <= ts[|ts| - 1] + c.Gap() - check < (d.retryAfter + 1) * SECOND)
  {
    AdmissionsAreSpaced(c, start, es, ip);
    var since := Since(EntryOf(Run(c, start, es).table, ip).last, check);
    assert since == Waited(Admissions(c, start, es, ip), check);
    WholeSeconds(c.Gap() - since);
  }

  lemma WholeSeconds(d: int)
    ensures d / SECOND * SECOND <= d < (d / SECOND + 1) * SECOND
  {
  }

  /** A retry before the announced time is refused by the interval check, if nothing was admitted meanwhile. */
  lemma EarlyRetriesAreRefused(c: Config, start: int, es: seq<Event>, ip: string, check: int, stamp: int, later: int)
    requires Possible(Run(c, start, es), EArrive(ip, check, stamp))
    requires Arrive(c, Run(c, start, es).table, ip, check, stamp).1.TooSoon?
    requires check <= later < check + Arrive(c, Run(c, start, es).table, ip, check, stamp).1.retryAfter * SECOND
    ensures !PassesInterval(c, EntryOf(Run(c, start, es).table, ip), later)
  {
    WholeSeconds(c.Gap() - Since(EntryOf(Run(c, start, es).table, ip).last, check));
  }
}
