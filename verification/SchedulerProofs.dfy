/**
 Run-level theorems about the scheduler: bounded work and quiescence once triggers stop, exact counters,
 the retry limit, and the link between registered tasks and cron jobs.
 */
module SchedulerProofs {
  import opened Common
  import opened SchedulerSpec

  /* ---------- a sum over a finite map ---------- */

  ghost function Sum<H>(m: map<H, nat>): nat {
    if m == map[] then 0 else
      var k :| k in m;
      m[k] + Sum(m - {k})
  }

  lemma {:induction false} SumWithout<H>(m: map<H, nat>, k: H)
    requires k in m
    ensures Sum(m) == m[k] + Sum(m - {k})
    decreases |m|
  {
    var k0 :| k0 in m && Sum(m) == m[k0] + Sum(m - {k0});
    if k0 != k {
      SumWithout(m - {k0}, k);
      SumWithout(m - {k}, k0);
      assert m - {k0} - {k} == m - {k} - {k0};
    }
  }

  lemma SumUpdate<H>(m: map<H, nat>, k: H, v: nat)
    requires k in m
    ensures Sum(m[k := v]) == Sum(m) - m[k] + v
  {
    SumWithout(m, k);
    SumWithout(m[k := v], k);
    assert m[k := v] - {k} == m - {k};
  }

  lemma {:induction false} SumMonotone<H>(m: map<H, nat>, n: map<H, nat>)
    requires m.Keys == n.Keys && forall k | k in m :: m[k] <= n[k]
    ensures Sum(m) <= Sum(n)
    decreases |m|
  {
    if m != map[] {
      var k :| k in m;
      SumWithout(m, k);
      SumWithout(n, k);
      SumMonotone(m - {k}, n - {k});
    } else {
      assert n == map[];
    }
  }

  /* ---------- the measure ---------- */

  /** Failures a task may still have before its retry limit, and the most it can ever have left. */
  function Remaining(t: Task): nat { Max(0, t.maxRetries - t.failCount) }
  function Ceiling(t: Task): nat { Max(0, t.maxRetries) }

  function Remainders<H>(heap: map<H, Task>): map<H, nat> { map h | h in heap :: Remaining(heap[h]) }
  function Ceilings<H>(heap: map<H, Task>): map<H, nat> { map h | h in heap :: Ceiling(heap[h]) }

  ghost function Budget<H>(s: State<H>): nat { Sum(Remainders(s.heap)) }
  ghost function Cap<H>(s: State<H>): nat { Sum(Ceilings(s.heap)) }

  function Stage(p: Phase): nat {
    match p case Pending => 2 case Started => 1 case InHandler => 0
  }

  function Stages<H>(live: seq<Activity<H>>): nat {
    if live == [] then 0 else Stages(live[..|live| - 1]) + Stage(live[|live| - 1].phase)
  }

  /** An upper bound on the goroutine steps left when no trigger arrives any more. */
  ghost function Rank<H>(s: State<H>): nat {
    |s.live| * (3 * Cap(s) + 1) + 3 * Budget(s) + Stages(s.live)
  }

  /** FailCount never becomes negative when it starts at zero or more. */
  ghost predicate Counting<H>(s: State<H>) {
    forall h | h in s.heap :: s.heap[h].failCount >= 0
  }

  lemma {:induction false} StagesConcat<H>(a: seq<Activity<H>>, b: seq<Activity<H>>)
    ensures Stages(a + b) == Stages(a) + Stages(b)
    decreases |b|
  {
    if b == [] {
      assert a + b == a;
    } else {
      StagesConcat(a, b[..|b| - 1]);
      assert (a + b)[..|a + b| - 1] == a + b[..|b| - 1];
    }
  }

  lemma StagesAround<H>(live: seq<Activity<H>>, i: nat)
    requires i < |live|
    ensures Stages(live) == Stages(live[..i]) + Stage(live[i].phase) + Stages(live[i + 1..])
  {
    var before, a, behind := live[..i], live[i], live[i + 1..];
    assert live == before + [a] + behind;
    StagesConcat(before + [a], behind);
    StagesConcat(before, [a]);
    StagesOfOne(a);
  }

  lemma StagesOfOne<H>(a: Activity<H>)
    ensures Stages([a]) == Stage(a.phase)
  {
    assert [a][..0] == [];
  }

  lemma StagesRemoved<H>(live: seq<Activity<H>>, i: nat)
    requires i < |live|
    ensures Stages(live[..i] + live[i + 1..]) == Stages(live) - Stage(live[i].phase)
  {
    StagesAround(live, i);
    StagesConcat(live[..i], live[i + 1..]);
  }

  lemma StagesReplaced<H>(live: seq<Activity<H>>, i: nat, a: Activity<H>)
    requires i < |live|
    ensures Stages(live[i := a]) == Stages(live) - Stage(live[i].phase) + Stage(a.phase)
  {
    StagesAround(live, i);
    var l := live[i := a];
    StagesAround(l, i);
    assert l[..i] == live[..i] && l[i + 1..] == live[i + 1..];
  }

  /** Replacing one task moves the budget by that task's own change; the cap stays when maxRetries does. */
  lemma BudgetUpdate<H>(s: State<H>, s': State<H>, h: H, t: Task)
    requires h in s.heap && s'.heap == s.heap[h := t] && t.maxRetries == s.heap[h].maxRetries
    ensures Budget(s') == Budget(s) - Remaining(s.heap[h]) + Remaining(t)
    ensures Cap(s') == Cap(s)
    ensures Counting(s) && t.failCount >= 0 ==> Counting(s')
  {
    assert Remainders(s'.heap) == Remainders(s.heap)[h := Remaining(t)];
    SumUpdate(Remainders(s.heap), h, Remaining(t));
    assert Ceilings(s'.heap) == Ceilings(s.heap);
  }

  lemma BudgetWithinCap<H>(s: State<H>)
    requires Counting(s)
    ensures Budget(s) <= Cap(s)
  {
    SumMonotone(Remainders(s.heap), Ceilings(s.heap));
  }

  /** The goroutine ends, or moves on while its own weight and its task's remaining retries together drop. */
  ghost predicate Drops<H>(s: State<H>, s': State<H>, i: nat)
    requires i < |s.live|
  {
    var h := s.live[i].task;
    && h in s.heap && h in s'.heap
    && s'.heap == s.heap[h := s'.heap[h]]
    && s'.heap[h].maxRetries == s.heap[h].maxRetries
    && s'.heap[h].failCount >= 0
    && (s'.live == s.live[..i] + s.live[i + 1..]
        || (&& |s'.live| == |s.live|
            && s'.live == s.live[i := s'.live[i]]
            && 3 * Remaining(s'.heap[h]) + Stage(s'.live[i].phase)
               < 3 * Remaining(s.heap[h]) + Stage(s.live[i].phase)))
  }

  lemma BeginDrops<H>(s: State<H>, i: nat, now: int)
    requires s.WellFormed() && Counting(s) && Possible(s, EBegin(i, now))
    ensures Drops(s, Begin(s, i, now), i)
  {
    assert s.heap == s.heap[s.live[i].task := s.heap[s.live[i].task]];
  }

  lemma FinishDrops<H>(s: State<H>, i: nat, err: Option<string>)
    requires s.WellFormed() && Counting(s) && Possible(s, EFinish(i, err))
    ensures Drops(s, Finish(s, i, err), i)
  {
  }

  lemma WakeDrops<H>(s: State<H>, i: nat)
    requires s.WellFormed() && Counting(s) && Possible(s, EWake(i))
    ensures Drops(s, Wake(s, i), i)
  {
    assert s.heap == s.heap[s.live[i].task := s.heap[s.live[i].task]];
  }

  /** The other weights when the goroutine ends. */
  lemma EndedWeight<H>(s: State<H>, s': State<H>, i: nat)
    requires Counting(s) && i < |s.live| && Drops(s, s', i)
    requires s'.live == s.live[..i] + s.live[i + 1..]
    ensures Cap(s') == Cap(s)
    ensures 3 * Budget(s') + Stages(s'.live) <= 3 * Budget(s) + Stages(s.live) + 3 * Cap(s)
  {
    var h := s.live[i].task;
    BudgetUpdate(s, s', h, s'.heap[h]);
    StagesRemoved(s.live, i);
    StepCounts(s, s', i);
    BudgetWithinCap(s');
  }

  /** The other weights when it moves on. */
  lemma MovedWeight<H>(s: State<H>, s': State<H>, i: nat)
    requires Counting(s) && i < |s.live| && Drops(s, s', i) && |s'.live| == |s.live|
    ensures Cap(s') == Cap(s)
    ensures 3 * Budget(s') + Stages(s'.live) < 3 * Budget(s) + Stages(s.live)
  {
    var h := s.live[i].task;
    BudgetUpdate(s, s', h, s'.heap[h]);
    StagesReplaced(s.live, i, s'.live[i]);
  }

  lemma StepCounts<H>(s: State<H>, s': State<H>, i: nat)
    requires Counting(s) && i < |s.live| && Drops(s, s', i)
    ensures Counting(s')
  {
  }

  lemma RankDrop<H>(s: State<H>, s': State<H>, i: nat)
    requires Counting(s) && i < |s.live| && Drops(s, s', i)
    ensures Rank(s') < Rank(s)
    ensures Counting(s')
  {
    StepCounts(s, s', i);
    if |s'.live| == |s.live| { MovedWeight(s, s', i); } else { EndedWeight(s, s', i); }
    WeightDrop(|s.live|, |s'.live|, Cap(s), 3 * Budget(s) + Stages(s.live), 3 * Budget(s') + Stages(s'.live));
  }

  /** Every goroutine step strictly lowers the rank, whatever the handlers return. */
  lemma WorkingStepLowersRank<H>(s: State<H>, e: Event<H>)
    requires s.WellFormed() && Counting(s)
    requires Working(e) && Possible(s, e)
    ensures Rank(Step(s, e)) < Rank(s)
    ensures Counting(Step(s, e))
  {
    match e
    case EBegin(i, now) => BeginDrops(s, i, now); RankDrop(s, Begin(s, i, now), i);
    case EFinish(i, err) => FinishDrops(s, i, err); RankDrop(s, Finish(s, i, err), i);
    case EWake(i) => WakeDrops(s, i); RankDrop(s, Wake(s, i), i);
  }

  /** Fewer goroutines, or as many with less other weight, make the whole weight smaller. */
  lemma WeightDrop(n: nat, n': nat, c: nat, w: nat, w': nat)
    requires (n' == n && w' < w) || (n' + 1 == n && w' <= w + 3 * c)
    ensures n' * (3 * c + 1) + w' < n * (3 * c + 1) + w
  {
    if n' != n { LiveTerm(n, c); }
  }

  lemma LiveTerm(n: nat, c: nat)
    requires n > 0
    ensures (n - 1) * (3 * c + 1) == n * (3 * c + 1) - (3 * c + 1)
  {
  }

  /** Enabling, disabling and removing tasks leave the rank alone. */
  lemma AdministrationKeepsRank<H>(s: State<H>, e: Event<H>)
    requires s.WellFormed() && Counting(s)
    requires !Working(e) && !Trigger(e)
    ensures Rank(Step(s, e)) == Rank(s)
    ensures Counting(Step(s, e))
  {
    if e.ESetEnabled? && e.id in s.tasks {
      var h := s.tasks[e.id];
      BudgetUpdate(s, Step(s, e), h, s.heap[h].(enabled := e.on));
    }
  }

  /** The number of goroutine steps actually taken by a schedule. */
  ghost function WorkDone<H>(s: State<H>, es: seq<Event<H>>): nat
    requires s.WellFormed()
  {
    if es == [] then 0 else
      var e := es[|es| - 1];
      var before := es[..|es| - 1];
      WorkDone(s, before) + if Working(e) && Possible(After(s, before), e) then 1 else 0
  }

  ghost predicate TriggerFree<H>(es: seq<Event<H>>) {
    forall i | 0 <= i < |es| :: !Trigger(es[i])
  }

  /** Main result: after the last trigger, every interleaving does at most Rank(s) goroutine steps. */
  lemma {:induction false} TriggerFreeWorkIsBounded<H>(s: State<H>, es: seq<Event<H>>)
    requires s.WellFormed() && Counting(s)
    requires TriggerFree(es)
    ensures Counting(After(s, es))
    ensures WorkDone(s, es) + Rank(After(s, es)) <= Rank(s)
    decreases |es|
  {
    if es != [] {
      var before, e := es[..|es| - 1], es[|es| - 1];
      assert !Trigger(es[|es| - 1]);
      assert forall i | 0 <= i < |before| :: before[i] == es[i];
      TriggerFreeWorkIsBounded(s, before);
      var m := After(s, before);
      if Working(e) {
        if Possible(m, e) { WorkingStepLowersRank(m, e); }
      } else {
        AdministrationKeepsRank(m, e);
      }
    }
  }

  /** A state is quiescent exactly when no goroutine step is possible in it: nothing is ever stuck. */
  lemma QuiescentIffNothingCanRun<H>(s: State<H>)
    ensures s.live == [] <==> forall e: Event<H> | Working(e) :: !Possible(s, e)
  {
    if s.live != [] {
      var a := s.live[0];
      var e: Event<H> := match a.phase
        case Pending => EWake(0)
        case Started => EBegin(0, 0)
        case InHandler => EFinish(0, None);
      assert Working(e) && Possible(s, e);
    }
  }

  /**
   Main result on interleavings: a trigger-free schedule after which no goroutine step is possible, whatever was
   enabled, disabled or removed on the way, has done at most Rank(s) of them and left no goroutine alive.
   */
  lemma MaximalRunIsQuiescent<H>(s: State<H>, es: seq<Event<H>>)
    requires s.WellFormed() && Counting(s) && TriggerFree(es)
    requires forall e: Event<H> | Working(e) :: !Possible(After(s, es), e)
    ensures After(s, es).live == [] && WorkDone(s, es) <= Rank(s)
  {
    TriggerFreeWorkIsBounded(s, es);
    QuiescentIffNothingCanRun(After(s, es));
  }

  /** The first n events that a strategy chooses, each by what happened before. */
  function Play<H>(strategy: seq<Event<H>> -> Event<H>, n: nat): (es: seq<Event<H>>)
    ensures |es| == n
  {
    if n == 0 then [] else Play(strategy, n - 1) + [strategy(Play(strategy, n - 1))]
  }

  /** The strategy's next event after n of them is a goroutine step that can be taken. */
  ghost predicate Moves<H>(s: State<H>, strategy: seq<Event<H>> -> Event<H>, n: nat)
    requires s.WellFormed()
  {
    var es := Play(strategy, n);
    Working(strategy(es)) && Possible(After(s, es), strategy(es))
  }

  /** As long as a goroutine is alive, the strategy takes a possible step of one. */
  ghost predicate KeepsMoving<H>(s: State<H>, strategy: seq<Event<H>> -> Event<H>)
    requires s.WellFormed()
  {
    forall k: nat :: After(s, Play(strategy, k)).live != [] ==> Moves(s, strategy, k)
  }

  lemma OneMoreMove<H>(s: State<H>, strategy: seq<Event<H>> -> Event<H>, n: nat)
    requires s.WellFormed() && Moves(s, strategy, n)
    requires TriggerFree(Play(strategy, n)) && WorkDone(s, Play(strategy, n)) == n
    ensures TriggerFree(Play(strategy, n + 1)) && WorkDone(s, Play(strategy, n + 1)) == n + 1
  {
    var before, es := Play(strategy, n), Play(strategy, n + 1);
    assert es[..|es| - 1] == before;
  }

  /**
   Main result: however the running goroutines are interleaved, and whatever their handlers return, after at most
   Rank(s) steps none is left. The strategy chooses every step, and every outcome, by all that happened before.
   */
  lemma EveryStrategyQuiesces<H>(s: State<H>, strategy: seq<Event<H>> -> Event<H>) returns (n: nat)
    requires s.WellFormed() && Counting(s) && KeepsMoving(s, strategy)
    ensures n <= Rank(s) && After(s, Play(strategy, n)).live == []
    ensures TriggerFree(Play(strategy, n)) && WorkDone(s, Play(strategy, n)) == n
  {
    n := 0;
    while After(s, Play(strategy, n)).live != []
      invariant n <= Rank(s) && TriggerFree(Play(strategy, n)) && WorkDone(s, Play(strategy, n)) == n
      decreases Rank(s) - n
    {
      OneMoreMove(s, strategy, n);
      n := n + 1;
      TriggerFreeWorkIsBounded(s, Play(strategy, n));
    }
  }

  /** The next step of the first goroutine; its handler returns `err` if it is in one. */
  function FirstMove<H>(live: seq<Activity<H>>, err: Option<string>): Event<H> {
    if live == [] then EWake(0)
    else match live[0].phase
      case Pending => EWake(0)
      case Started => EBegin(0, 0)
      case InHandler => EFinish(0, err)
  }

  /** Such a strategy exists from every state and for all outcomes: always the first goroutine. */
  lemma FirstComeFirstServed<H>(s: State<H>, outcome: nat -> Option<string>)
    returns (strategy: seq<Event<H>> -> Event<H>)
    requires s.WellFormed()
    ensures KeepsMoving(s, strategy)
    ensures forall es: seq<Event<H>> :: strategy(es).EFinish? ==> strategy(es).err == outcome(|es|)
  {
    strategy := es => FirstMove(After(s, es).live, outcome(|es|));
    forall k: nat | After(s, Play(strategy, k)).live != [] ensures Moves(s, strategy, k) {
      FirstMoveIsPossible(After(s, Play(strategy, k)), outcome(k));
    }
  }

  /** A schedule of goroutine steps in which the k-th step, if it completes a handler, completes it with outcome(k). */
  ghost predicate HasOutcomes<H>(es: seq<Event<H>>, outcome: nat -> Option<string>) {
    forall k: nat | k < |es| && es[k].EFinish? :: es[k].err == outcome(k)
  }

  /** For any handler outcomes, at most Rank(s) goroutine steps end with no goroutine left. */
  lemma {:induction false} AnyOutcomesDrain<H>(s: State<H>, done: seq<Event<H>>, outcome: nat -> Option<string>)
    returns (es: seq<Event<H>>)
    requires s.WellFormed() && Counting(s)
    requires TriggerFree(done) && WorkDone(s, done) == |done| && HasOutcomes(done, outcome)
    ensures done <= es && |es| <= Rank(s) && TriggerFree(es) && WorkDone(s, es) == |es| && HasOutcomes(es, outcome)
    ensures After(s, es).live == []
    decreases Rank(s) - |done|
  {
    TriggerFreeWorkIsBounded(s, done);
    if After(s, done).live == [] {
      es := done;
    } else {
      var e := FirstMove(After(s, done).live, outcome(|done|));
      FirstMoveIsPossible(After(s, done), outcome(|done|));
      LongerSchedule(s, done, e, outcome);
      TriggerFreeWorkIsBounded(s, done + [e]);
      es := AnyOutcomesDrain(s, done + [e], outcome);
    }
  }

  lemma FirstMoveIsPossible<H>(s: State<H>, err: Option<string>)
    requires s.live != []
    ensures var e := FirstMove(s.live, err); Working(e) && Possible(s, e) && (e.EFinish? ==> e.err == err)
  {
  }

  lemma LongerSchedule<H>(s: State<H>, done: seq<Event<H>>, e: Event<H>, outcome: nat -> Option<string>)
    requires s.WellFormed() && Working(e) && Possible(After(s, done), e)
    requires TriggerFree(done) && WorkDone(s, done) == |done| && HasOutcomes(done, outcome)
    requires e.EFinish? ==> e.err == outcome(|done|)
    ensures var es := done + [e]; TriggerFree(es) && WorkDone(s, es) == |es| && HasOutcomes(es, outcome)
  {
    assert (done + [e])[..|done + [e]| - 1] == done;
  }

  /** The one task a step writes to, with its new value. */
  function Writes<H>(s: State<H>, e: Event<H>): Option<(H, Task)>
    requires s.WellFormed()
  {
    if !Possible(s, e) then None
    else match e
      case EAdd(h, v, job) => if AddTask(s, h, v, job).1 then Some((h, v)) else None
      case ESetEnabled(id, on) =>
        if id in s.tasks then Some((s.tasks[id], s.heap[s.tasks[id]].(enabled := on))) else None
      case EBegin(i, now) =>
        var t := s.heap[s.live[i].task];
        if t.enabled then Some((s.live[i].task, t.(lastRun := now))) else None
      case EFinish(i, err) => Some((s.live[i].task, Completed(s.heap[s.live[i].task], err)))
      case _ => None
  }

  function Updated<H>(heap: map<H, Task>, write: Option<(H, Task)>): map<H, Task> {
    if write.Some? then heap[write.value.0 := write.value.1] else heap
  }

  lemma StepWrites<H>(s: State<H>, e: Event<H>)
    requires s.WellFormed()
    ensures Step(s, e).heap == Updated(s.heap, Writes(s, e))
  {
    if e.EAdd? && Possible(s, e) {
      AddWrites(s, e.h, e.v, e.job);
    } else if Working(e) {
      WorkingWrites(s, e);
    }
  }

  lemma WorkingWrites<H>(s: State<H>, e: Event<H>)
    requires s.WellFormed() && Working(e)
    ensures Step(s, e).heap == Updated(s.heap, Writes(s, e))
  {
  }

  lemma AddWrites<H>(s: State<H>, h: H, v: Task, job: Option<nat>)
    requires s.WellFormed() && Possible(s, EAdd(h, v, job))
    ensures var (s', ok) := AddTask(s, h, v, job);
      s'.heap == if ok then s.heap[h := v] else s.heap
  {
  }

  /** A scheduler to which nothing was ever added. */
  function Empty<H>(): State<H> {
    State(map[], map[], map[], map[], [])
  }

  /** Tasks are added with a FailCount of zero or more, as every caller does. */
  ghost predicate AddsFreshTasks<H>(es: seq<Event<H>>) {
    forall i | 0 <= i < |es| && es[i].EAdd? :: es[i].v.failCount >= 0
  }

  lemma StepKeepsCounting<H>(s: State<H>, e: Event<H>)
    requires s.WellFormed() && Counting(s) && (e.EAdd? ==> e.v.failCount >= 0)
    ensures Counting(Step(s, e))
  {
    StepWrites(s, e);
    assert Writes(s, e).Some? ==> Writes(s, e).value.1.failCount >= 0;
  }

  lemma {:induction false} RunsKeepCounting<H>(s: State<H>, es: seq<Event<H>>)
    requires s.WellFormed() && Counting(s) && AddsFreshTasks(es)
    ensures Counting(After(s, es))
    decreases |es|
  {
    if es != [] {
      var before, e := es[..|es| - 1], es[|es| - 1];
      assert AddsFreshTasks(before) by { assert forall i | 0 <= i < |before| :: before[i] == es[i]; }
      assert e.EAdd? ==> es[|es| - 1].v.failCount >= 0;
      RunsKeepCounting(s, before);
      StepKeepsCounting(After(s, before), e);
    }
  }

  /**
   Main result, from the start of the program: after any history of triggers, runs and administration, every
   trigger-free continuation does at most Rank steps, and nothing more can run exactly when no goroutine is left.
   */
  lemma EveryHistoryQuiesces<H>(history: seq<Event<H>>, more: seq<Event<H>>)
    requires AddsFreshTasks(history) && TriggerFree(more)
    ensures var s := After(Empty<H>(), history);
      && WorkDone(s, more) <= Rank(s)
      && ((forall e: Event<H> | Working(e) :: !Possible(After(s, more), e)) <==> After(s, more).live == [])
  {
    RunsKeepCounting(Empty<H>(), history);
    var s := After(Empty<H>(), history);
    TriggerFreeWorkIsBounded(s, more);
    QuiescentIffNothingCanRun(After(s, more));
  }

  /** Main result: after any history, every way to go on with what is alive ends, within Rank steps, at rest. */
  lemma EveryHistoryDrains<H>(history: seq<Event<H>>, strategy: seq<Event<H>> -> Event<H>)
    requires AddsFreshTasks(history) && KeepsMoving(After(Empty<H>(), history), strategy)
    ensures var s := After(Empty<H>(), history);
      exists n: nat :: n <= Rank(s) && After(s, Play(strategy, n)).live == [] && WorkDone(s, Play(strategy, n)) == n
  {
    RunsKeepCounting(Empty<H>(), history);
    var n := EveryStrategyQuiesces(After(Empty<H>(), history), strategy);
  }

  /* ---------- exact accounting ---------- */

  /** Is this step a completion of task h? */
  predicate Completes<H(==)>(s: State<H>, e: Event<H>, h: H) {
    e.EFinish? && Possible(s, e) && s.live[e.i].task == h
  }

  /** The outcomes with which the handler of task h completed, in lock order. */
  ghost function Outcomes<H>(s: State<H>, es: seq<Event<H>>, h: H): seq<Option<string>>
    requires s.WellFormed()
  {
    if es == [] then [] else
      var e := es[|es| - 1];
      var before := es[..|es| - 1];
      var m := After(s, before);
      Outcomes(s, before, h) + if Completes(m, e, h) then [e.err] else []
  }

  function Successes(os: seq<Option<string>>): nat {
    if os == [] then 0 else Successes(os[..|os| - 1]) + if os[|os| - 1].None? then 1 else 0
  }

  /** The length of the run of failures at the end of the list. */
  function FailureStreak(os: seq<Option<string>>): nat {
    if os == [] || os[|os| - 1].None? then 0 else FailureStreak(os[..|os| - 1]) + 1
  }

  /** The streak is the failures after the last success, and all of those are failures. */
  lemma {:induction false} StreakIsTheFailuresSinceLastSuccess(os: seq<Option<string>>)
    ensures FailureStreak(os) <= |os|
    ensures forall k | |os| - FailureStreak(os) <= k < |os| :: os[k].Some?
    ensures FailureStreak(os) < |os| ==> os[|os| - FailureStreak(os) - 1].None?
    decreases |os|
  {
    if os != [] && os[|os| - 1].Some? {
      StreakIsTheFailuresSinceLastSuccess(os[..|os| - 1]);
    }
  }

  function StatusAfter(os: seq<Option<string>>): (string, string) {
    if os == [] then ("", "") else
      match os[|os| - 1]
      case None => ("success", "")
      case Some(e) => ("failed", e)
  }

  /** A task whose counters were never touched. */
  ghost predicate Untouched(t: Task) {
    t.runCount == 0 && t.failCount == 0 && t.lastStatus == "" && t.lastError == ""
  }

  /** The counters of t say exactly what the completions `os` say. */
  ghost predicate Agrees(t: Task, os: seq<Option<string>>) {
    && t.runCount == Successes(os)
    && t.failCount == FailureStreak(os)
    && (t.lastStatus, t.lastError) == StatusAfter(os)
  }

  lemma CompletionEffect<H>(s: State<H>, e: Event<H>, h: H)
    requires s.WellFormed() && h in s.heap && Completes(s, e, h)
    ensures h in Step(s, e).heap && Step(s, e).heap[h] == Completed(s.heap[h], e.err)
  {
  }

  /** Only its own completion touches a task's counters; every other step leaves all but two fields alone. */
  lemma OtherEffect<H>(s: State<H>, e: Event<H>, h: H)
    requires s.WellFormed() && h in s.heap && !Completes(s, e, h)
    ensures h in Step(s, e).heap
    ensures var t, t' := s.heap[h], Step(s, e).heap[h]; t'.(enabled := t.enabled, lastRun := t.lastRun) == t
  {
    StepWrites(s, e);
  }

  lemma CompletionKeepsAgreement(t: Task, os: seq<Option<string>>, err: Option<string>)
    requires Agrees(t, os)
    ensures Agrees(Completed(t, err), os + [err])
  {
    assert (os + [err])[..|os + [err]| - 1] == os;
  }

  /** Main result: over any schedule, with triggers, retries and administration, the counters are exact. */
  lemma {:induction false} CountersAreExact<H>(s: State<H>, es: seq<Event<H>>, h: H)
    requires s.WellFormed() && h in s.heap && Untouched(s.heap[h])
    ensures h in After(s, es).heap
    ensures Agrees(After(s, es).heap[h], Outcomes(s, es, h))
    decreases |es|
  {
    if es != [] {
      var before, e := es[..|es| - 1], es[|es| - 1];
      CountersAreExact(s, before, h);
      var m := After(s, before);
      var os := Outcomes(s, before, h);
      if Completes(m, e, h) {
        CompletionEffect(m, e, h);
        CompletionKeepsAgreement(m.heap[h], os, e.err);
      } else {
        OtherEffect(m, e, h);
        assert os + [] == os;
      }
    }
  }

  /** Nothing changes a task's retry settings. */
  lemma {:induction false} RetrySettingsAreFixed<H>(s: State<H>, es: seq<Event<H>>, h: H)
    requires s.WellFormed() && h in s.heap
    ensures h in After(s, es).heap
    ensures After(s, es).heap[h].retryOnFail == s.heap[h].retryOnFail
    ensures After(s, es).heap[h].maxRetries == s.heap[h].maxRetries
    decreases |es|
  {
    if es != [] {
      var before, e := es[..|es| - 1], es[|es| - 1];
      RetrySettingsAreFixed(s, before, h);
      var m := After(s, before);
      if Completes(m, e, h) { CompletionEffect(m, e, h); } else { OtherEffect(m, e, h); }
    }
  }

  /** A task with these settings and outcomes has failed since its last success, but not too often for a retry. */
  predicate RetryDue(t: Task, os: seq<Option<string>>) {
    t.retryOnFail && 0 < FailureStreak(os) < t.maxRetries
  }

  /** The goroutines after a completion of task h. */
  lemma CompletionLive<H>(s: State<H>, e: Event<H>, h: H)
    requires s.WellFormed() && h in s.heap && Completes(s, e, h)
    ensures Retries(s.heap[h], e.err) ==> Step(s, e).live == s.live[e.i := Activity(h, Pending)]
    ensures !Retries(s.heap[h], e.err) ==> Step(s, e).live == s.live[..e.i] + s.live[e.i + 1..]
  {
  }

  lemma OneMoreCompletion<H>(s: State<H>, es: seq<Event<H>>, h: H, e: Event<H>)
    requires s.WellFormed() && Completes(After(s, es), e, h)
    ensures After(s, es + [e]) == Step(After(s, es), e)
    ensures Outcomes(s, es + [e], h) == Outcomes(s, es, h) + [e.err]
  {
    assert (es + [e])[..|es + [e]| - 1] == es;
  }

  lemma OneMoreOutcome(os: seq<Option<string>>, err: Option<string>)
    ensures FailureStreak(os + [err]) == if err.None? then 0 else FailureStreak(os) + 1
  {
    assert (os + [err])[..|os + [err]| - 1] == os;
  }

  /**
   After any schedule, a completing run of h turns into a sleeping retry if and only if it failed, h retries on
   failure, and the failures since its last success, this one included, are fewer than its retry limit; if not,
   its goroutine ends. All other goroutines stay as they are.
   */
  lemma RetryFollowsExactlyWhen<H>(s: State<H>, es: seq<Event<H>>, h: H, e: Event<H>)
    requires s.WellFormed() && h in s.heap && Untouched(s.heap[h])
    requires Completes(After(s, es), e, h)
    ensures RetryDue(s.heap[h], Outcomes(s, es + [e], h)) ==>
              After(s, es + [e]).live == After(s, es).live[e.i := Activity(h, Pending)]
    ensures !RetryDue(s.heap[h], Outcomes(s, es + [e], h)) ==>
              After(s, es + [e]).live == After(s, es).live[..e.i] + After(s, es).live[e.i + 1..]
  {
    var m := After(s, es);
    CountersAreExact(s, es, h);
    RetrySettingsAreFixed(s, es, h);
    OneMoreCompletion(s, es, h, e);
    OneMoreOutcome(Outcomes(s, es, h), e.err);
    assert RetryDue(s.heap[h], Outcomes(s, es + [e], h)) == Retries(m.heap[h], e.err);
    CompletionLive(m, e, h);
  }

  /** Retries launched for h since its last success. */
  ghost function RetriesSinceSuccess<H>(s: State<H>, es: seq<Event<H>>, h: H): nat
    requires s.WellFormed()
  {
    if es == [] then 0 else
      var e := es[|es| - 1];
      var before := es[..|es| - 1];
      var m := After(s, before);
      var n := RetriesSinceSuccess(s, before, h);
      if !Completes(m, e, h) then n
      else if e.err.None? then 0
      else if Step(m, e).live == m.live[e.i := Activity(h, Pending)] then n + 1
      else n
  }

  /** Between two successes a task launches at most MaxRetries - 1 retries, and none beyond its failures. */
  lemma {:induction false} RetryLimit<H>(s: State<H>, es: seq<Event<H>>, h: H)
    requires s.WellFormed() && h in s.heap && s.heap[h].failCount >= 0
    ensures h in After(s, es).heap && After(s, es).heap[h].maxRetries == s.heap[h].maxRetries
    ensures RetriesSinceSuccess(s, es, h) <= Max(0, s.heap[h].maxRetries - 1)
    ensures RetriesSinceSuccess(s, es, h) <= After(s, es).heap[h].failCount
    decreases |es|
  {
    if es != [] {
      var before, e := es[..|es| - 1], es[|es| - 1];
      RetryLimit(s, before, h);
      var m := After(s, before);
      if Completes(m, e, h) {
        CompletionEffect(m, e, h);
        if !Retries(m.heap[h], e.err) { assert |Step(m, e).live| == |m.live| - 1; }
      } else {
        OtherEffect(m, e, h);
      }
    }
  }

  /** How many goroutines of h are in one of the phases. */
  function Goroutines<H(==)>(live: seq<Activity<H>>, h: H, phases: set<Phase>): nat {
    if live == [] then 0 else
      var last := live[|live| - 1];
      Goroutines(live[..|live| - 1], h, phases) + if last.task == h && last.phase in phases then 1 else 0
  }

  lemma {:induction false} GoroutinesConcat<H>(a: seq<Activity<H>>, b: seq<Activity<H>>, h: H, phases: set<Phase>)
    ensures Goroutines(a + b, h, phases) == Goroutines(a, h, phases) + Goroutines(b, h, phases)
    decreases |b|
  {
    if b == [] {
      assert a + b == a;
    } else {
      GoroutinesConcat(a, b[..|b| - 1], h, phases);
      assert (a + b)[..|a + b| - 1] == a + b[..|b| - 1];
    }
  }

  lemma GoroutinesAround<H>(a: seq<Activity<H>>, with: seq<Activity<H>>, b: seq<Activity<H>>, h: H, phases: set<Phase>)
    ensures Goroutines(a + with + b, h, phases) ==
            Goroutines(a, h, phases) + Goroutines(with, h, phases) + Goroutines(b, h, phases)
  {
    GoroutinesConcat(a + with, b, h, phases);
    GoroutinesConcat(a, with, h, phases);
  }

  lemma GoroutinesSwapped<H>(live: seq<Activity<H>>, i: nat, with: seq<Activity<H>>, h: H, phases: set<Phase>)
    requires i < |live| && |with| <= 1
    requires with != [] && with[0].task == h && with[0].phase in phases ==> live[i].task == h && live[i].phase in phases
    ensures Goroutines(live[..i] + with + live[i + 1..], h, phases) <= Goroutines(live, h, phases)
  {
    assert live == live[..i] + [live[i]] + live[i + 1..];
    GoroutinesAround(live[..i], with, live[i + 1..], h, phases);
    GoroutinesAround(live[..i], [live[i]], live[i + 1..], h, phases);
    assert with != [] ==> with[..0] == [];
    assert [live[i]][..0] == [];
  }

  /** The goroutine that moves, after the step: gone, or still there for the same task. */
  function Moved<H>(s: State<H>, e: Event<H>): seq<Activity<H>>
    requires s.WellFormed() && Working(e) && Possible(s, e)
  {
    var live := Step(s, e).live;
    if |live| == |s.live| then [live[e.i]] else []
  }

  lemma WorkingStepLive<H>(s: State<H>, e: Event<H>)
    requires s.WellFormed() && Working(e) && Possible(s, e)
    ensures Step(s, e).live == s.live[..e.i] + Moved(s, e) + s.live[e.i + 1..]
    ensures Moved(s, e) != [] ==> Moved(s, e)[0].task == s.live[e.i].task
  {
    StepMovesOne(s, e);
    Spliced(s.live, Step(s, e).live, e.i);
  }

  lemma StepMovesOne<H>(s: State<H>, e: Event<H>)
    requires s.WellFormed() && Working(e) && Possible(s, e)
    ensures var live := Step(s, e).live;
      || live == s.live[..e.i] + s.live[e.i + 1..]
      || (|live| == |s.live| && live == s.live[e.i := live[e.i]] && live[e.i].task == s.live[e.i].task)
  {
  }

  lemma Spliced<T>(a: seq<T>, b: seq<T>, i: nat)
    requires i < |a|
    requires b == a[..i] + a[i + 1..] || (|b| == |a| && b == a[i := b[i]])
    ensures b == a[..i] + (if |b| == |a| then [b[i]] else []) + a[i + 1..]
  {
    assert a[..i] + [] == a[..i];
  }

  /** A goroutine step that does not bring its goroutine into the phases leaves no more goroutines of h there. */
  lemma WorkingStepGoroutines<H>(s: State<H>, e: Event<H>, h: H, phases: set<Phase>)
    requires s.WellFormed() && Working(e) && Possible(s, e)
    requires Moved(s, e) != [] && Moved(s, e)[0].task == h && Moved(s, e)[0].phase in phases ==>
      s.live[e.i].phase in phases
    ensures Goroutines(Step(s, e).live, h, phases) <= Goroutines(s.live, h, phases)
  {
    WorkingStepLive(s, e);
    GoroutinesSwapped(s.live, e.i, Moved(s, e), h, phases);
  }

  /** Events that are no goroutine's step start at most one goroutine, and only triggers start one. */
  lemma IdleStepLive<H>(s: State<H>, e: Event<H>)
    requires s.WellFormed() && !(Working(e) && Possible(s, e))
    ensures var live := Step(s, e).live;
      live == s.live || (Trigger(e) && |live| == |s.live| + 1
        && live == s.live + [live[|s.live|]] && live[|s.live|].phase == Started)
  {
  }

  /** EnableTask for this identifier. */
  predicate Enables<H>(e: Event<H>, id: string) {
    e.ESetEnabled? && e.on && e.id == id
  }

  /** A disabled task that nobody enables is never entered again: cron firings, RunTaskNow and old retries all stop. */
  lemma {:induction false} DisabledTaskStaysIdle<H>(s: State<H>, es: seq<Event<H>>, h: H)
    requires s.WellFormed() && h in s.heap && !s.heap[h].enabled
    requires forall i | 0 <= i < |es| :: !Enables(es[i], s.heap[h].id)
    ensures h in After(s, es).heap && !After(s, es).heap[h].enabled && After(s, es).heap[h].id == s.heap[h].id
    ensures After(s, es).heap[h].lastRun == s.heap[h].lastRun
    ensures Goroutines(After(s, es).live, h, {InHandler}) <= Goroutines(s.live, h, {InHandler})
    decreases |es|
  {
    if es != [] {
      var before, e := es[..|es| - 1], es[|es| - 1];
      assert forall i | 0 <= i < |before| :: before[i] == es[i];
      DisabledTaskStaysIdle(s, before, h);
      DisabledStep(After(s, before), e, h);
    }
  }

  lemma DisabledStep<H>(s: State<H>, e: Event<H>, h: H)
    requires s.WellFormed() && h in s.heap && !s.heap[h].enabled
    requires !Enables(e, s.heap[h].id)
    ensures h in Step(s, e).heap && !Step(s, e).heap[h].enabled && Step(s, e).heap[h].id == s.heap[h].id
    ensures Step(s, e).heap[h].lastRun == s.heap[h].lastRun
    ensures Goroutines(Step(s, e).live, h, {InHandler}) <= Goroutines(s.live, h, {InHandler})
  {
    DisabledStepHeap(s, e, h);
    if Working(e) && Possible(s, e) {
      WorkingStepGoroutines(s, e, h, {InHandler});
    } else {
      var live := Step(s, e).live;
      var more := if |live| > |s.live| then [live[|s.live|]] else [];
      IdleStepLive(s, e);
      GoroutinesConcat(s.live, more, h, {InHandler});
      assert more != [] ==> more[..0] == [];
    }
  }

  lemma DisabledStepHeap<H>(s: State<H>, e: Event<H>, h: H)
    requires s.WellFormed() && h in s.heap && !s.heap[h].enabled
    requires !Enables(e, s.heap[h].id)
    ensures h in Step(s, e).heap && !Step(s, e).heap[h].enabled && Step(s, e).heap[h].id == s.heap[h].id
    ensures Step(s, e).heap[h].lastRun == s.heap[h].lastRun
  {
    StepWrites(s, e);
  }

  /**
   A task at its retry limit comes to rest: without triggers and without a success of its own, sleeping retries
   end instead of running, so the number of its runs under way never grows and it launches no new retry.
   */
  lemma {:induction false} ExhaustedTaskComesToRest<H>(s: State<H>, es: seq<Event<H>>, h: H)
    requires s.WellFormed() && h in s.heap && s.heap[h].failCount >= s.heap[h].maxRetries
    requires TriggerFree(es) && None !in Outcomes(s, es, h)
    ensures h in After(s, es).heap && After(s, es).heap[h].failCount >= After(s, es).heap[h].maxRetries
    ensures Goroutines(After(s, es).live, h, {Started, InHandler}) <= Goroutines(s.live, h, {Started, InHandler})
    ensures Goroutines(After(s, es).live, h, {Pending}) <= Goroutines(s.live, h, {Pending})
    decreases |es|
  {
    if es != [] {
      var before, e := es[..|es| - 1], es[|es| - 1];
      assert !Trigger(es[|es| - 1]);
      assert forall i | 0 <= i < |before| :: before[i] == es[i];
      assert forall o | o in Outcomes(s, before, h) :: o in Outcomes(s, es, h);
      ExhaustedTaskComesToRest(s, before, h);
      var m := After(s, before);
      if Completes(m, e, h) {
        assert Outcomes(s, es, h)[|Outcomes(s, before, h)|] == e.err;
      }
      ExhaustedStep(m, e, h);
    }
  }

  lemma ExhaustedStep<H>(s: State<H>, e: Event<H>, h: H)
    requires s.WellFormed() && h in s.heap && s.heap[h].failCount >= s.heap[h].maxRetries
    requires !Trigger(e) && (Completes(s, e, h) ==> e.err.Some?)
    ensures h in Step(s, e).heap && Step(s, e).heap[h].failCount >= Step(s, e).heap[h].maxRetries
    ensures Goroutines(Step(s, e).live, h, {Started, InHandler}) <= Goroutines(s.live, h, {Started, InHandler})
    ensures Goroutines(Step(s, e).live, h, {Pending}) <= Goroutines(s.live, h, {Pending})
  {
    if Completes(s, e, h) { CompletionEffect(s, e, h); } else { OtherEffect(s, e, h); }
    if Working(e) && Possible(s, e) {
      if s.live[e.i].task == h { ExhaustedPhases(s, e, h); }
      WorkingStepGoroutines(s, e, h, {Started, InHandler});
      WorkingStepGoroutines(s, e, h, {Pending});
    } else {
      IdleStepLive(s, e);
    }
  }

  lemma ExhaustedPhases<H>(s: State<H>, e: Event<H>, h: H)
    requires s.WellFormed() && h in s.heap && s.heap[h].failCount >= s.heap[h].maxRetries
    requires Working(e) && Possible(s, e) && s.live[e.i].task == h
    ensures |Step(s, e).live| == |s.live| ==> s.live[e.i].phase == Started && Step(s, e).live[e.i].phase == InHandler
  {
  }

  /* ---------- tasks and cron jobs ---------- */

  /** In every reachable state the jobs gocron holds are exactly the remembered ones, one for each of their tasks. */
  lemma {:induction false} JobsMatchTasks<H>(s: State<H>, es: seq<Event<H>>)
    requires s.WellFormed()
    ensures var t := After(s, es);
      && t.jobIDs.Keys <= t.tasks.Keys
      && t.cron.Keys == t.jobIDs.Values
      && |t.cron| == |t.jobIDs|
      && forall id | id in t.jobIDs :: t.cron[t.jobIDs[id]] == t.tasks[id]
  {
    var t := After(s, es);
    forall j | j in t.cron ensures j in t.jobIDs.Values {
      assert t.jobIDs[t.heap[t.cron[j]].id] == j;
    }
    InjectiveMapsKeepSize(t.jobIDs);
    assert |t.cron.Keys| == |t.cron| && |t.jobIDs.Keys| == |t.jobIDs|;
  }

  lemma {:induction false} InjectiveMapsKeepSize(m: map<string, nat>)
    requires forall a, b | a in m && b in m && m[a] == m[b] :: a == b
    ensures |m.Values| == |m.Keys|
    decreases |m.Keys|
  {
    if m.Keys != {} {
      var k :| k in m;
      InjectiveMapsKeepSize(m - {k});
      forall v | v in m.Values ensures v in (m - {k}).Values + {m[k]} {
        var a :| a in m && m[a] == v;
        if a != k { assert (m - {k})[a] == v; }
      }
      assert m.Values == (m - {k}).Values + {m[k]};
      assert m[k] !in (m - {k}).Values;
      assert m.Keys == (m - {k}).Keys + {k};
    } else {
      assert m.Values == {};
    }
  }

  /** AddTask accepts exactly a new identifier whose schedule, if the task is enabled, gocron accepts. */
  lemma AddTaskOutcome<H>(s: State<H>, h: H, v: Task, job: Option<nat>)
    requires s.WellFormed() && Possible(s, EAdd(h, v, job))
    ensures var (t, ok) := AddTask(s, h, v, job);
      && (ok <==> v.id !in s.tasks && (v.enabled ==> job.Some?))
      && (!ok ==> t == s)
      && (ok ==> h in t.heap && t.heap[h] == v)
      && (ok ==> v.id in t.tasks && t.tasks[v.id] == h && (v.enabled <==> h in t.cron.Values && v.id in t.jobIDs))
  {
    var (t, ok) := AddTask(s, h, v, job);
    if ok && v.enabled { assert t.cron[job.value] == h; }
  }

  /** A firing job and a manual trigger start exactly one run, of the task registered under that identifier. */
  lemma TriggersRunTheRegisteredTask<H>(s: State<H>, id: string)
    requires s.WellFormed() && id in s.tasks
    ensures RunTaskNow(s, id).0.live == s.live + [Activity(s.tasks[id], Started)]
    ensures id in s.jobIDs ==> Fire(s, s.jobIDs[id]) == RunTaskNow(s, id).0
  {
  }

  /** Removing a task takes its cron job away: the task can no longer be fired. */
  lemma RemovedTaskCannotFire<H>(s: State<H>, id: string)
    requires s.WellFormed() && id in s.tasks
    ensures id !in RemoveTask(s, id).0.tasks
    ensures forall j | j in RemoveTask(s, id).0.cron :: RemoveTask(s, id).0.cron[j] != s.tasks[id]
  {
  }

  lemma NonAddStepKeepsJobs<H>(s: State<H>, e: Event<H>)
    requires s.WellFormed() && !e.EAdd?
    ensures Step(s, e).cron.Keys <= s.cron.Keys
    ensures forall j | j in Step(s, e).cron :: Step(s, e).cron[j] == s.cron[j]
  {
  }

  /** No sequence of EnableTask calls, runs and retries ever registers a cron job: only AddTask does. */
  lemma {:induction false} OnlyAddRegistersJobs<H>(s: State<H>, es: seq<Event<H>>)
    requires s.WellFormed() && forall i | 0 <= i < |es| :: !es[i].EAdd?
    ensures After(s, es).cron.Keys <= s.cron.Keys
    ensures forall j | j in After(s, es).cron :: After(s, es).cron[j] == s.cron[j]
    decreases |es|
  {
    if es != [] {
      var before := es[..|es| - 1];
      assert forall i | 0 <= i < |before| :: before[i] == es[i];
      assert !es[|es| - 1].EAdd?;
      OnlyAddRegistersJobs(s, before);
      NonAddStepKeepsJobs(After(s, before), es[|es| - 1]);
    }
  }
}
