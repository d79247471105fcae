/**
 The task scheduler of src/scheduler/scheduler.go as a transition system.

 Goroutines are the entries of `live`. A goroutine is either sleeping before a retry (Pending), about to
 enter runTask (Started), or inside the task's handler (InHandler). H is the type of task pointers.
 An event that is not possible in a state leaves the state alone, so every sequence of events is a schedule.
 */
module SchedulerSpec {
  import opened Common

  datatype Task = Task(
    id: string, enabled: bool, lastRun: int, lastStatus: string, lastError: string,
    runCount: int, failCount: int, retryOnFail: bool, maxRetries: int)

  datatype Phase = Pending | Started | InHandler

  datatype Activity<H> = Activity(task: H, phase: Phase)

  datatype State<H(==)> = State(
    heap: map<H, Task>,
    tasks: map<string, H>,
    jobIDs: map<string, nat>,
    cron: map<nat, H>,
    live: seq<Activity<H>>)
  {
    /** Registered cron jobs are exactly the jobs the scheduler remembers, one per registered task. */
    ghost predicate WellFormed() {
      && (forall id | id in tasks :: tasks[id] in heap && heap[tasks[id]].id == id)
      && (forall i | 0 <= i < |live| :: live[i].task in heap)
      && jobIDs.Keys <= tasks.Keys
      && (forall id | id in jobIDs :: jobIDs[id] in cron && cron[jobIDs[id]] == tasks[id])
      && (forall j | j in cron ::
            && cron[j] in heap && heap[cron[j]].id in jobIDs
            && jobIDs[heap[cron[j]].id] == j)
    }

    /** The state in which goroutine i has ended. */
    function Ended(i: nat): State<H>
      requires i < |live|
    {
      this.(live := live[..i] + live[i + 1..])
    }
  }

  /* ---------- the operations, as functions of the state ---------- */

  /** The state with a task registered, and scheduled if it is enabled. */
  function Added<H>(s: State<H>, h: H, v: Task, job: Option<nat>): (r: State<H>)
    requires v.enabled ==> job.Some? && job.value !in s.cron
    requires h in s.heap ==> s.heap[h] == v
    requires s.WellFormed() && v.id !in s.tasks
    ensures r.WellFormed()
  {
    var r := s.(heap := s.heap[h := v], tasks := s.tasks[v.id := h]);
    if v.enabled then r.(jobIDs := s.jobIDs[v.id := job.value], cron := s.cron[job.value := h]) else r
  }

  /** AddTask; `job` is the identifier gocron hands out, None when it refuses the schedule. */
  function AddTask<H>(s: State<H>, h: H, v: Task, job: Option<nat>): (r: (State<H>, bool))
    requires job.Some? ==> job.value !in s.cron
    requires h in s.heap ==> s.heap[h] == v
    requires s.WellFormed()
    ensures r.0.WellFormed()
    ensures r.0.live == s.live
  {
    if v.id in s.tasks || (v.enabled && job.None?) then (s, false)
    else (Added(s, h, v, job), true)
  }

  /** RemoveTask. */
  function RemoveTask<H>(s: State<H>, id: string): (r: (State<H>, bool))
    requires s.WellFormed()
    ensures r.0.WellFormed()
    ensures r.0.live == s.live && r.0.heap == s.heap
  {
    if id !in s.tasks then (s, false)
    else if id in s.jobIDs then
      var j := s.jobIDs[id];
      (s.(tasks := s.tasks - {id}, jobIDs := s.jobIDs - {id}, cron := s.cron - {j}), true)
    else (s.(tasks := s.tasks - {id}), true)
  }

  /** EnableTask (on) and DisableTask (off): only the flag changes, no cron job is added or removed. */
  function SetEnabled<H>(s: State<H>, id: string, on: bool): (r: (State<H>, bool))
    requires s.WellFormed()
    ensures r.0.WellFormed()
    ensures r.0.live == s.live && r.0.heap.Keys == s.heap.Keys
  {
    if id !in s.tasks then (s, false)
    else
      var h := s.tasks[id];
      (s.(heap := s.heap[h := s.heap[h].(enabled := on)]), true)
  }

  /** RunTaskNow. */
  function RunTaskNow<H>(s: State<H>, id: string): (r: (State<H>, bool))
    requires s.WellFormed()
    ensures r.0.WellFormed()
  {
    if id !in s.tasks then (s, false)
    else (s.(live := s.live + [Activity(s.tasks[id], Started)]), true)
  }

  /** gocron fires a registered job. */
  function Fire<H>(s: State<H>, job: nat): (r: State<H>)
    requires s.WellFormed() && job in s.cron
    ensures r.WellFormed()
  {
    s.(live := s.live + [Activity(s.cron[job], Started)])
  }

  /** The head of runTask, up to the call of the handler. */
  function Begin<H>(s: State<H>, i: nat, now: int): (r: State<H>)
    requires s.WellFormed() && i < |s.live| && s.live[i].phase == Started
    ensures r.WellFormed()
  {
    var h := s.live[i].task;
    var t := s.heap[h];
    if !t.enabled then s.Ended(i)
    else s.(heap := s.heap[h := t.(lastRun := now)], live := s.live[i := Activity(h, InHandler)])
  }

  /** Does the completion with this outcome start a retry? */
  predicate Retries(t: Task, err: Option<string>) {
    err.Some? && t.retryOnFail && t.failCount + 1 < t.maxRetries
  }

  /** What the locked tail of runTask writes into the task. */
  function Completed(t: Task, err: Option<string>): Task {
    match err
    case Some(e) => t.(lastStatus := "failed", lastError := e, failCount := t.failCount + 1)
    case None => t.(lastStatus := "success", lastError := "", runCount := t.runCount + 1, failCount := 0)
  }

  /** The locked tail of runTask, after the handler returned `err`. */
  function Finish<H>(s: State<H>, i: nat, err: Option<string>): (r: State<H>)
    requires s.WellFormed() && i < |s.live| && s.live[i].phase == InHandler
    ensures r.WellFormed()
  {
    var h := s.live[i].task;
    var t := s.heap[h];
    var s' := s.(heap := s.heap[h := Completed(t, err)]);
    if Retries(t, err) then s'.(live := s.live[i := Activity(h, Pending)]) else s'.Ended(i)
  }

  /** retryTask after its sleep. */
  function Wake<H>(s: State<H>, i: nat): (r: State<H>)
    requires s.WellFormed() && i < |s.live| && s.live[i].phase == Pending
    ensures r.WellFormed()
  {
    var h := s.live[i].task;
    if s.heap[h].failCount < s.heap[h].maxRetries then s.(live := s.live[i := Activity(h, Started)]) else s.Ended(i)
  }

  /* ---------- schedules ---------- */

  datatype Event<H> =
    | EAdd(h: H, v: Task, job: Option<nat>)
    | ERemove(id: string)
    | ESetEnabled(id: string, on: bool)
    | ERunNow(id: string)
    | EFire(firing: nat)
    | EBegin(i: nat, now: int)
    | EFinish(i: nat, err: Option<string>)
    | EWake(i: nat)

  predicate Trigger<H>(e: Event<H>) {
    e.EAdd? || e.ERunNow? || e.EFire?
  }

  /** Steps of the goroutines themselves. */
  predicate Working<H>(e: Event<H>) {
    e.EBegin? || e.EFinish? || e.EWake?
  }

  predicate Possible<H(==)>(s: State<H>, e: Event<H>) {
    match e
    case EAdd(h, v, job) => (job.Some? ==> job.value !in s.cron) && (h in s.heap ==> s.heap[h] == v)
    case EFire(job) => job in s.cron
    case EBegin(i, _) => i < |s.live| && s.live[i].phase == Started
    case EFinish(i, _) => i < |s.live| && s.live[i].phase == InHandler
    case EWake(i) => i < |s.live| && s.live[i].phase == Pending
    case _ => true
  }

  function Step<H>(s: State<H>, e: Event<H>): (r: State<H>)
    requires s.WellFormed()
    ensures r.WellFormed()
  {
    if !Possible(s, e) then s else
      match e
      case EAdd(h, v, job) => AddTask(s, h, v, job).0
      case ERemove(id) => RemoveTask(s, id).0
      case ESetEnabled(id, on) => SetEnabled(s, id, on).0
      case ERunNow(id) => RunTaskNow(s, id).0
      case EFire(job) => Fire(s, job)
      case EBegin(i, now) => Begin(s, i, now)
      case EFinish(i, err) => Finish(s, i, err)
      case EWake(i) => Wake(s, i)
  }

  function After<H>(s: State<H>, es: seq<Event<H>>): (r: State<H>)
    requires s.WellFormed()
    ensures r.WellFormed()
  {
    if es == [] then s else Step(After(s, es[..|es| - 1]), es[|es| - 1])
  }
}
