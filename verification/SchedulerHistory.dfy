/**
 The scheduler read as its history: every field of a task, every registration and every move of a goroutine is what
 the events before it say, without reference to the counters and flags that the code keeps.
 */
module SchedulerHistory {
  import opened Common
  import opened SchedulerSpec
  import opened SchedulerProofs

  /* ---------- a task is its history ---------- */

  /** The last setting of the enabled flag of h: EnableTask or DisableTask for the identifier it is registered under. */
  ghost function LastSetting<H>(s: State<H>, es: seq<Event<H>>, h: H): bool
    requires s.WellFormed() && h in s.heap
  {
    if es == [] then s.heap[h].enabled else
      var before, e := es[..|es| - 1], es[|es| - 1];
      var m := After(s, before);
      if e.ESetEnabled? && e.id in m.tasks && m.tasks[e.id] == h then e.on else LastSetting(s, before, h)
  }

  /** The clock reading at which h was last entered: a run was begun while the task was enabled. */
  ghost function LastEntry<H>(s: State<H>, es: seq<Event<H>>, h: H): int
    requires s.WellFormed() && h in s.heap
  {
    if es == [] then s.heap[h].lastRun else
      var before, e := es[..|es| - 1], es[|es| - 1];
      var m := After(s, before);
      if e.EBegin? && Possible(m, e) && m.live[e.i].task == h && LastSetting(s, before, h) then e.now
      else LastEntry(s, before, h)
  }

  /** What the history makes of a task that was untouched at first. */
  ghost function Remembered<H>(s: State<H>, es: seq<Event<H>>, h: H): Task
    requires s.WellFormed() && h in s.heap
  {
    var os := Outcomes(s, es, h);
    s.heap[h].(enabled := LastSetting(s, es, h), lastRun := LastEntry(s, es, h),
               runCount := Successes(os), failCount := FailureStreak(os),
               lastStatus := StatusAfter(os).0, lastError := StatusAfter(os).1)
  }

  /** What one event does to one task, told without the operations. */
  ghost predicate Changes<H>(s: State<H>, e: Event<H>, h: H, t: Task)
    requires s.WellFormed() && h in s.heap
  {
    var was := s.heap[h];
    if e.ESetEnabled? && e.id in s.tasks && s.tasks[e.id] == h then t == was.(enabled := e.on)
    else if e.EBegin? && Possible(s, e) && s.live[e.i].task == h && was.enabled then t == was.(lastRun := e.now)
    else if Completes(s, e, h) then t == Completed(was, e.err)
    else t == was
  }

  lemma StepChanges<H>(s: State<H>, e: Event<H>, h: H)
    requires s.WellFormed() && h in s.heap
    ensures h in Step(s, e).heap && Changes(s, e, h, Step(s, e).heap[h])
  {
    StepWrites(s, e);
    if e.EAdd? && Possible(s, e) { AddWrites(s, e.h, e.v, e.job); }
  }

  /**
   Main result: after any run every field of a task is what the history says. Its flag is the last setting, LastRun
   the last entry, RunCount the successes, FailCount the failures since the last success, status and error those of
   the last completion, and nothing else about it ever changes.
   */
  lemma {:induction false} TaskIsItsHistory<H>(s: State<H>, es: seq<Event<H>>, h: H)
    requires s.WellFormed() && h in s.heap && Untouched(s.heap[h])
    ensures h in After(s, es).heap && After(s, es).heap[h] == Remembered(s, es, h)
    decreases |es|
  {
    if es != [] {
      var before, e := es[..|es| - 1], es[|es| - 1];
      TaskIsItsHistory(s, before, h);
      StepChanges(After(s, before), e, h);
      CountersAreExact(s, es, h);
    }
  }

  /* ---------- what a goroutine's step does ---------- */

  /** Nothing but goroutine i and the task h changes. */
  ghost predicate OnlyMoves<H>(s: State<H>, s': State<H>, h: H) {
    && SameRegistrations(s, s')
    && s'.heap.Keys == s.heap.Keys
    && forall k | k in s.heap && k != h :: s'.heap[k] == s.heap[k]
  }

  lemma WorkMoves<H>(s: State<H>, e: Event<H>)
    requires s.WellFormed() && Working(e) && Possible(s, e)
    ensures OnlyMoves(s, Step(s, e), s.live[e.i].task)
    ensures e.EWake? ==> Step(s, e).heap == s.heap
  {
    WorkKeepsRegistrations(s, e);
    WorkingWrites(s, e);
    WritesItsTask(s, e);
  }

  lemma WorkKeepsRegistrations<H>(s: State<H>, e: Event<H>)
    requires s.WellFormed() && Working(e) && Possible(s, e)
    ensures SameRegistrations(s, Step(s, e))
  {
    match e
    case EBegin(i, now) => BeginKeepsRegistrations(s, i, now);
    case EFinish(i, err) => FinishKeepsRegistrations(s, i, err);
    case EWake(i) => WakeKeepsRegistrations(s, i);
  }

  predicate SameRegistrations<H(==)>(s: State<H>, s': State<H>) {
    s'.tasks == s.tasks && s'.jobIDs == s.jobIDs && s'.cron == s.cron
  }

  lemma BeginKeepsRegistrations<H>(s: State<H>, i: nat, now: int)
    requires s.WellFormed() && Possible(s, EBegin(i, now))
    ensures SameRegistrations(s, Begin(s, i, now))
  {
  }

  lemma FinishKeepsRegistrations<H>(s: State<H>, i: nat, err: Option<string>)
    requires s.WellFormed() && Possible(s, EFinish(i, err))
    ensures SameRegistrations(s, Finish(s, i, err))
  {
  }

  lemma WakeKeepsRegistrations<H>(s: State<H>, i: nat)
    requires s.WellFormed() && Possible(s, EWake(i))
    ensures SameRegistrations(s, Wake(s, i))
  {
  }

  lemma WritesItsTask<H>(s: State<H>, e: Event<H>)
    requires s.WellFormed() && Working(e) && Possible(s, e)
    ensures var w := Writes(s, e); w.Some? ==> w.value.0 == s.live[e.i].task && !e.EWake?
  {
  }

  lemma OneMoreEvent<H>(s: State<H>, es: seq<Event<H>>, e: Event<H>)
    requires s.WellFormed()
    ensures After(s, es + [e]) == Step(After(s, es), e)
  {
    assert (es + [e])[..|es + [e]| - 1] == es;
  }

  /** The retry of h that sleeps as goroutine i has slept long enough. */
  ghost predicate Wakes<H>(s: State<H>, e: Event<H>, h: H) {
    e.EWake? && Possible(s, e) && s.live[e.i].task == h
  }

  /**
   Main result: after any run, a retry of h whose sleep is over runs the task again exactly when the failures since
   the last success are fewer than its retry limit; otherwise its goroutine ends. All else stays as it is.
   */
  lemma RetryRunsExactlyWhen<H>(s: State<H>, es: seq<Event<H>>, h: H, e: Event<H>)
    requires s.WellFormed() && h in s.heap && Untouched(s.heap[h]) && Wakes(After(s, es), e, h)
    ensures var m, m' := After(s, es), After(s, es + [e]);
      && OnlyMoves(m, m', h) && m'.heap == m.heap
      && m'.live == if FailureStreak(Outcomes(s, es, h)) < s.heap[h].maxRetries
                    then m.live[e.i := Activity(h, Started)] else m.live[..e.i] + m.live[e.i + 1..]
  {
    TaskIsItsHistory(s, es, h);
    OneMoreEvent(s, es, e);
    WorkMoves(After(s, es), e);
    assert After(s, es).heap[h].failCount == FailureStreak(Outcomes(s, es, h));
  }

  /** A run of h is begun by goroutine i. */
  ghost predicate Begins<H>(s: State<H>, e: Event<H>, h: H) {
    e.EBegin? && Possible(s, e) && s.live[e.i].task == h
  }

  /**
   Main result: after any run, a goroutine that is about to run h enters the handler, with LastRun set to this moment,
   exactly when the last setting of the task's flag is on; otherwise it ends and the task is not touched.
   */
  lemma HandlerIsEnteredExactlyWhen<H>(s: State<H>, es: seq<Event<H>>, h: H, e: Event<H>)
    requires s.WellFormed() && h in s.heap && Untouched(s.heap[h]) && Begins(After(s, es), e, h)
    ensures var m, m' := After(s, es), After(s, es + [e]);
      && OnlyMoves(m, m', h) && h in m.heap && h in m'.heap
      && (if LastSetting(s, es, h)
          then m'.live == m.live[e.i := Activity(h, InHandler)] && m'.heap[h] == m.heap[h].(lastRun := e.now)
          else m'.live == m.live[..e.i] + m.live[e.i + 1..] && m'.heap[h] == m.heap[h])
  {
    TaskIsItsHistory(s, es, h);
    OneMoreEvent(s, es, e);
    WorkMoves(After(s, es), e);
    assert After(s, es).heap[h].enabled == LastSetting(s, es, h);
  }

  /** No goroutine up to position i takes a step. */
  ghost predicate Undisturbed<H>(es: seq<Event<H>>, i: nat) {
    forall k | 0 <= k < |es| && Working(es[k]) :: es[k].i > i
  }

  lemma OthersStayBefore<H>(s: State<H>, e: Event<H>, i: nat)
    requires s.WellFormed() && i < |s.live| && (Working(e) ==> e.i > i)
    ensures i < |Step(s, e).live| && Step(s, e).live[i] == s.live[i]
  {
    if Working(e) && Possible(s, e) { StepMovesOne(s, e); } else { IdleStepLive(s, e); }
  }

  /** Whatever else happens, a goroutine stays where it is until it takes a step itself. */
  lemma {:induction false} GoroutinesWait<H>(s: State<H>, es: seq<Event<H>>, i: nat)
    requires s.WellFormed() && i < |s.live| && Undisturbed(es, i)
    ensures i < |After(s, es).live| && After(s, es).live[i] == s.live[i]
    decreases |es|
  {
    if es != [] {
      var before, e := es[..|es| - 1], es[|es| - 1];
      assert forall k | 0 <= k < |before| :: before[k] == es[k];
      assert Working(es[|es| - 1]) ==> e.i > i;
      GoroutinesWait(s, before, i);
      OthersStayBefore(After(s, before), e, i);
    }
  }

  lemma {:induction false} AfterThenAfter<H>(s: State<H>, es: seq<Event<H>>, more: seq<Event<H>>)
    requires s.WellFormed()
    ensures After(s, es + more) == After(After(s, es), more)
    decreases |more|
  {
    if more == [] {
      assert es + more == es;
    } else {
      AfterThenAfter(s, es, more[..|more| - 1]);
      assert (es + more)[..|es + more| - 1] == es + more[..|more| - 1];
    }
  }

  /** A run of h fails and is due for a retry at position i; the retry wakes up, later the run is begun. */
  ghost predicate FailsAndRetries<H>(s: State<H>, es: seq<Event<H>>, h: H, fail: Event<H>, nap: seq<Event<H>>,
                                     wake: Event<H>, pause: seq<Event<H>>, begin: Event<H>)
    requires s.WellFormed() && h in s.heap
  {
    && Completes(After(s, es), fail, h) && RetryDue(s.heap[h], Outcomes(s, es + [fail], h))
    && wake.EWake? && begin.EBegin? && fail.i == wake.i == begin.i
    && Undisturbed(nap, fail.i) && Undisturbed(pause, fail.i)
  }

  /**
   Main result, the whole way of a retry: whatever happens meanwhile, a failed run that is due for a retry is in the
   handler again, with LastRun set to that moment, once its retry has woken up with the failures still below the
   limit and has begun while the task was enabled.
   */
  lemma DueRetryRunsAgain<H>(s: State<H>, es: seq<Event<H>>, h: H, fail: Event<H>, nap: seq<Event<H>>,
                             wake: Event<H>, pause: seq<Event<H>>, begin: Event<H>)
    requires s.WellFormed() && h in s.heap && Untouched(s.heap[h])
    requires FailsAndRetries(s, es, h, fail, nap, wake, pause, begin)
    requires FailureStreak(Outcomes(s, es + [fail] + nap, h)) < s.heap[h].maxRetries
    requires LastSetting(s, es + [fail] + nap + [wake] + pause, h)
    ensures var m := After(s, es + [fail] + nap + [wake] + pause + [begin]);
      && At(m, fail.i, h, InHandler)
      && h in m.heap && m.heap[h].lastRun == begin.now
  {
    var asleep := es + [fail] + nap;
    FallsAsleep(s, es, h, fail, nap);
    WakesUp(s, asleep, h, wake, pause);
    HandlerIsEnteredExactlyWhen(s, asleep + [wake] + pause, h, begin);
  }

  /** Goroutine i is in this phase of a run of h. */
  ghost predicate At<H>(s: State<H>, i: nat, h: H, phase: Phase) {
    i < |s.live| && s.live[i] == Activity(h, phase)
  }

  lemma WaitsAt<H>(s: State<H>, es: seq<Event<H>>, more: seq<Event<H>>, i: nat, h: H, phase: Phase)
    requires s.WellFormed() && At(After(s, es), i, h, phase) && Undisturbed(more, i)
    ensures At(After(s, es + more), i, h, phase)
  {
    AfterThenAfter(s, es, more);
    GoroutinesWait(After(s, es), more, i);
  }

  lemma FallsAsleep<H>(s: State<H>, es: seq<Event<H>>, h: H, fail: Event<H>, nap: seq<Event<H>>)
    requires s.WellFormed() && h in s.heap && Untouched(s.heap[h])
    requires Completes(After(s, es), fail, h) && RetryDue(s.heap[h], Outcomes(s, es + [fail], h))
    requires Undisturbed(nap, fail.i)
    ensures At(After(s, es + [fail] + nap), fail.i, h, Pending)
  {
    RetryFollowsExactlyWhen(s, es, h, fail);
    WaitsAt(s, es + [fail], nap, fail.i, h, Pending);
  }

  lemma WakesUp<H>(s: State<H>, asleep: seq<Event<H>>, h: H, wake: Event<H>, pause: seq<Event<H>>)
    requires s.WellFormed() && h in s.heap && Untouched(s.heap[h])
    requires wake.EWake? && At(After(s, asleep), wake.i, h, Pending) && Undisturbed(pause, wake.i)
    requires FailureStreak(Outcomes(s, asleep, h)) < s.heap[h].maxRetries
    ensures At(After(s, asleep + [wake] + pause), wake.i, h, Started)
  {
    RetryRunsExactlyWhen(s, asleep, h, wake);
    WaitsAt(s, asleep + [wake], pause, wake.i, h, Started);
  }

  /* ---------- registrations are their history ---------- */

  /** AddTask registers h under this identifier: gocron accepts the schedule if the task is enabled. */
  ghost predicate Registers<H>(s: State<H>, e: Event<H>, id: string, h: H) {
    && e.EAdd? && e.h == h && e.v.id == id && Possible(s, e)
    && id !in s.tasks && (e.v.enabled ==> e.job.Some?)
  }

  /** The k-th event registers h under the identifier, and nothing after it removes that. */
  ghost predicate RegisteredAt<H>(s: State<H>, es: seq<Event<H>>, id: string, h: H, k: nat)
    requires s.WellFormed()
  {
    && k < |es| && Registers(After(s, es[..k]), es[k], id, h)
    && forall j | k < j < |es| :: es[j] != ERemove(id)
  }

  /** Under this identifier h is registered. */
  predicate Holds<H(==)>(s: State<H>, id: string, h: H) {
    id in s.tasks && s.tasks[id] == h
  }

  /** Under this identifier gocron's job j is remembered. */
  predicate HasJob<H>(s: State<H>, id: string, j: nat) {
    id in s.jobIDs && s.jobIDs[id] == j
  }

  /** AddTask schedules job j under this identifier. */
  ghost predicate Schedules<H>(s: State<H>, e: Event<H>, id: string, j: nat) {
    e.EAdd? && Registers(s, e, id, e.h) && e.v.enabled && e.job == Some(j)
  }

  lemma AddRegisters<H>(s: State<H>, e: Event<H>, id: string, h: H)
    requires s.WellFormed() && e.EAdd? && Possible(s, e)
    ensures Holds(AddTask(s, e.h, e.v, e.job).0, id, h) <==> Registers(s, e, id, h) || Holds(s, id, h)
  {
  }

  lemma AddSchedules<H>(s: State<H>, e: Event<H>, id: string, j: nat)
    requires s.WellFormed() && e.EAdd? && Possible(s, e)
    ensures HasJob(AddTask(s, e.h, e.v, e.job).0, id, j) <==> Schedules(s, e, id, j) || HasJob(s, id, j)
  {
  }

  lemma OthersKeepRegistrations<H>(s: State<H>, e: Event<H>)
    requires s.WellFormed() && !e.EAdd? && !e.ERemove?
    ensures SameRegistrations(s, Step(s, e))
  {
    if Working(e) && Possible(s, e) { WorkKeepsRegistrations(s, e); }
  }

  /** What one event does to the registration of one identifier. */
  lemma StepRegisters<H>(s: State<H>, e: Event<H>, id: string, h: H)
    requires s.WellFormed()
    ensures Holds(Step(s, e), id, h) <==> Registers(s, e, id, h) || (Holds(s, id, h) && e != ERemove(id))
  {
    if e.EAdd? {
      if Possible(s, e) { AddRegisters(s, e, id, h); }
    } else if !e.ERemove? {
      OthersKeepRegistrations(s, e);
    }
  }

  /** What one event does to its job. */
  lemma StepSchedules<H>(s: State<H>, e: Event<H>, id: string, j: nat)
    requires s.WellFormed()
    ensures HasJob(Step(s, e), id, j) <==> Schedules(s, e, id, j) || (HasJob(s, id, j) && e != ERemove(id))
  {
    if e.EAdd? {
      if Possible(s, e) { AddSchedules(s, e, id, j); }
    } else if !e.ERemove? {
      OthersKeepRegistrations(s, e);
    }
  }

  lemma EarlierRegistration<H>(s: State<H>, es: seq<Event<H>>, id: string, h: H, k: nat)
    requires s.WellFormed() && k + 1 < |es|
    ensures RegisteredAt(s, es, id, h, k) <==>
      RegisteredAt(s, es[..|es| - 1], id, h, k) && es[|es| - 1] != ERemove(id)
  {
    var n := |es| - 1;
    var before := es[..n];
    assert before[..k] == es[..k] && before[k] == es[k];
    assert forall j | k < j < n :: before[j] == es[j];
  }

  lemma LastRegistration<H>(s: State<H>, es: seq<Event<H>>, id: string, h: H)
    requires s.WellFormed() && es != []
    ensures RegisteredAt(s, es, id, h, |es| - 1) <==> Registers(After(s, es[..|es| - 1]), es[|es| - 1], id, h)
  {
  }

  /**
   Main result: an identifier is registered for a task exactly when some accepted AddTask of that task under it was
   followed by no RemoveTask of it.
   */
  lemma {:induction false} RegisteredIff<H>(es: seq<Event<H>>, id: string, h: H)
    ensures Holds(After(Empty<H>(), es), id, h) <==> exists k: nat :: RegisteredAt(Empty<H>(), es, id, h, k)
    decreases |es|
  {
    if es != [] {
      var s, before, e := Empty<H>(), es[..|es| - 1], es[|es| - 1];
      RegisteredIff(before, id, h);
      StepRegisters(After(s, before), e, id, h);
      LastRegistration(s, es, id, h);
      forall k: nat | k + 1 < |es|
        ensures RegisteredAt(s, es, id, h, k) <==> RegisteredAt(s, before, id, h, k) && e != ERemove(id)
      {
        EarlierRegistration(s, es, id, h, k);
      }
      if Holds(After(s, before), id, h) { var k: nat :| RegisteredAt(s, before, id, h, k); }
    }
  }

  /** The k-th event schedules job j for the identifier, and nothing after it removes that. */
  ghost predicate ScheduledAt<H>(s: State<H>, es: seq<Event<H>>, id: string, j: nat, k: nat)
    requires s.WellFormed()
  {
    && k < |es| && Schedules(After(s, es[..k]), es[k], id, j)
    && forall i | k < i < |es| :: es[i] != ERemove(id)
  }

  lemma EarlierSchedule<H>(s: State<H>, es: seq<Event<H>>, id: string, j: nat, k: nat)
    requires s.WellFormed() && k + 1 < |es|
    ensures ScheduledAt(s, es, id, j, k) <==>
      ScheduledAt(s, es[..|es| - 1], id, j, k) && es[|es| - 1] != ERemove(id)
  {
    var n := |es| - 1;
    var before := es[..n];
    assert before[..k] == es[..k] && before[k] == es[k];
    assert forall i | k < i < n :: before[i] == es[i];
  }

  lemma LastSchedule<H>(s: State<H>, es: seq<Event<H>>, id: string, j: nat)
    requires s.WellFormed() && es != []
    ensures ScheduledAt(s, es, id, j, |es| - 1) <==> Schedules(After(s, es[..|es| - 1]), es[|es| - 1], id, j)
  {
  }

  /**
   Main result: gocron holds a job for an identifier exactly when an accepted AddTask of an enabled task received it
   and no RemoveTask followed; enabling or disabling the task later plays no part.
   */
  lemma {:induction false} ScheduledIff<H>(es: seq<Event<H>>, id: string, j: nat)
    ensures HasJob(After(Empty<H>(), es), id, j) <==> exists k: nat :: ScheduledAt(Empty<H>(), es, id, j, k)
    decreases |es|
  {
    if es != [] {
      var s, before, e := Empty<H>(), es[..|es| - 1], es[|es| - 1];
      ScheduledIff(before, id, j);
      StepSchedules(After(s, before), e, id, j);
      LastSchedule(s, es, id, j);
      forall k: nat | k + 1 < |es|
        ensures ScheduledAt(s, es, id, j, k) <==> ScheduledAt(s, before, id, j, k) && e != ERemove(id)
      {
        EarlierSchedule(s, es, id, j, k);
      }
      if HasJob(After(s, before), id, j) { var k: nat :| ScheduledAt(s, before, id, j, k); }
    }
  }

  /** A trigger starts one run of the task its identifier is registered for; all else stays, also if there is none. */
  lemma TriggersStartOneRun<H>(s: State<H>, id: string)
    requires s.WellFormed()
    ensures Step(s, ERunNow(id)) ==
      if id in s.tasks then s.(live := s.live + [Activity(s.tasks[id], Started)]) else s
    ensures id in s.jobIDs ==> Step(s, EFire(s.jobIDs[id])) == Step(s, ERunNow(id))
    ensures forall j | j !in s.jobIDs.Values :: Step(s, EFire(j)) == s
  {
    forall j | j in s.cron ensures j in s.jobIDs.Values {
      assert s.jobIDs[s.heap[s.cron[j]].id] == j;
    }
  }

  /** RemoveTask, EnableTask, DisableTask and RunTaskNow fail, without effect, exactly for unknown identifiers. */
  lemma UnknownIdentifiersAreRefused<H>(s: State<H>, id: string, on: bool)
    requires s.WellFormed()
    ensures RemoveTask(s, id).1 <==> id in s.tasks
    ensures SetEnabled(s, id, on).1 <==> id in s.tasks
    ensures RunTaskNow(s, id).1 <==> id in s.tasks
    ensures id !in s.tasks ==> RemoveTask(s, id).0 == SetEnabled(s, id, on).0 == RunTaskNow(s, id).0 == s
  {
  }
}
