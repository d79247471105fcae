/**
 The Scheduler object of src/scheduler/scheduler.go: its methods update the task objects and the two maps
 in place, and every one of them is proved to carry out the corresponding function of SchedulerSpec.
 */
module Scheduler {
  import opened Common
  import Spec = SchedulerSpec

  class Task {
    const ID: string
    const RetryOnFail: bool
    const MaxRetries: int
    var Enabled: bool
    var LastRun: int
    var LastStatus: string
    var LastError: string
    var RunCount: int
    var FailCount: int

    constructor (id: string, enabled: bool, retryOnFail: bool, maxRetries: int)
      ensures Value() == Spec.Task(id, enabled, 0, "", "", 0, 0, retryOnFail, maxRetries)
    {
      ID, Enabled, RetryOnFail, MaxRetries := id, enabled, retryOnFail, maxRetries;
      LastRun, LastStatus, LastError, RunCount, FailCount := 0, "", "", 0, 0;
    }

    ghost function Value(): Spec.Task
      reads this
    {
      Spec.Task(ID, Enabled, LastRun, LastStatus, LastError, RunCount, FailCount, RetryOnFail, MaxRetries)
    }

    /** The bookkeeping of a finished run; tells whether a retry has to be started. */
    method Record(err: Option<string>) returns (retry: bool)
      modifies this
      ensures Value() == Spec.Completed(old(Value()), err)
      ensures retry == Spec.Retries(old(Value()), err)
    {
      retry := false;
      match err {
        case Some(message) =>
          LastStatus := "failed";
          LastError := message;
          FailCount := FailCount + 1;
          retry := RetryOnFail && FailCount < MaxRetries;
        case None =>
          LastStatus := "success";
          LastError := "";
          RunCount := RunCount + 1;
          FailCount := 0;
      }
    }
  }

  class Scheduler {
    var tasks: map<string, Task>
    var jobIDs: map<string, nat>
    /** The jobs registered with gocron and the task each of them runs. */
    var cron: map<nat, Task>
    /** The goroutines that are alive. */
    var live: seq<Spec.Activity<Task>>
    /** Every task object the scheduler or one of its goroutines may hold a pointer to. */
    ghost var known: set<Task>

    ghost function View(): Spec.State<Task>
      reads this, known
    {
      Spec.State(map t | t in known :: t.Value(), tasks, jobIDs, cron, live)
    }

    ghost predicate Valid()
      reads this, known
    {
      View().WellFormed()
    }

    constructor ()
      ensures Valid() && View() == Spec.State(map[], map[], map[], map[], [])
    {
      tasks, jobIDs, cron, live, known := map[], map[], map[], [], {};
    }

    /** `job` is what gocron answers: a fresh job identifier, or None for a schedule it refuses. */
    method AddTask(task: Task, job: Option<nat>) returns (ok: bool)
      requires Valid() && (job.Some? ==> job.value !in cron)
      modifies this
      ensures Valid()
      ensures (View(), ok) == Spec.AddTask(old(View()), task, old(task.Value()), job)
    {
      if task.ID in tasks {
        return false;
      }
      if task.Enabled {
        if job.None? {
          return false;
        }
        cron := cron[job.value := task];
        jobIDs := jobIDs[task.ID := job.value];
      }
      tasks := tasks[task.ID := task];
      known := known + {task};
      assert View().heap == old(View()).heap[task := task.Value()];
      assert View() == Spec.Added(old(View()), task, old(task.Value()), job);
      return true;
    }

    method RemoveTask(taskID: string) returns (ok: bool)
      requires Valid()
      modifies this
      ensures Valid()
      ensures (View(), ok) == Spec.RemoveTask(old(View()), taskID)
    {
      if taskID !in tasks {
        return false;
      }
      if taskID in jobIDs {
        cron := cron - {jobIDs[taskID]};
        jobIDs := jobIDs - {taskID};
      }
      tasks := tasks - {taskID};
      assert View().heap == old(View()).heap;
      assert View() == Spec.RemoveTask(old(View()), taskID).0;
      return true;
    }

    method RunTaskNow(taskID: string) returns (ok: bool)
      requires Valid()
      modifies this
      ensures Valid()
      ensures (View(), ok) == Spec.RunTaskNow(old(View()), taskID)
    {
      if taskID !in tasks {
        return false;
      }
      live := live + [Spec.Activity(tasks[taskID], Spec.Started)];
      assert View().heap == old(View()).heap;
      return true;
    }

    /** gocron runs the closure registered under `job`. */
    method Fire(job: nat)
      requires Valid() && job in cron
      modifies this
      ensures Valid()
      ensures View() == Spec.Fire(old(View()), job)
    {
      live := live + [Spec.Activity(cron[job], Spec.Started)];
      assert View().heap == old(View()).heap;
    }

    /** runTask up to the call of the handler, executed by goroutine i. */
    method BeginRun(i: nat, now: int)
      requires Valid() && i < |live| && live[i].phase == Spec.Started
      modifies this, known
      ensures Valid()
      ensures View() == Spec.Begin(old(View()), i, now)
    {
      var task := live[i].task;
      assert task in View().heap;
      if !task.Enabled {
        live := live[..i] + live[i + 1..];
        assert View().heap == old(View()).heap;
        return;
      }
      task.LastRun := now;
      live := live[i := Spec.Activity(task, Spec.InHandler)];
      assert View().heap == old(View()).heap[task := task.Value()];
      assert View() == Spec.Begin(old(View()), i, now);
    }

    /** The locked tail of runTask, executed by goroutine i when its handler has returned `err`. */
    method FinishRun(i: nat, err: Option<string>)
      requires Valid() && i < |live| && live[i].phase == Spec.InHandler
      modifies this, known
      ensures Valid()
      ensures View() == Spec.Finish(old(View()), i, err)
    {
      var task := live[i].task;
      assert task in View().heap;
      var retry := task.Record(err);
      if retry {
        live := live[i := Spec.Activity(task, Spec.Pending)];
      } else {
        live := live[..i] + live[i + 1..];
      }
      assert View().heap == old(View()).heap[task := task.Value()];
      assert View() == Spec.Finish(old(View()), i, err);
    }

    /** retryTask once its sleep is over, executed by goroutine i. */
    method WakeRetry(i: nat)
      requires Valid() && i < |live| && live[i].phase == Spec.Pending
      modifies this
      ensures Valid()
      ensures View() == Spec.Wake(old(View()), i)
    {
      var task := live[i].task;
      assert task in View().heap;
      if task.FailCount < task.MaxRetries {
        live := live[i := Spec.Activity(task, Spec.Started)];
      } else {
        live := live[..i] + live[i + 1..];
      }
      assert View().heap == old(View()).heap;
      assert View() == Spec.Wake(old(View()), i);
    }

    method EnableTask(taskID: string) returns (ok: bool)
      requires Valid()
      modifies known
      ensures Valid()
      ensures (View(), ok) == Spec.SetEnabled(old(View()), taskID, true)
    {
      ok := SetEnabled(taskID, true);
    }

    method DisableTask(taskID: string) returns (ok: bool)
      requires Valid()
      modifies known
      ensures Valid()
      ensures (View(), ok) == Spec.SetEnabled(old(View()), taskID, false)
    {
      ok := SetEnabled(taskID, false);
    }

    method SetEnabled(taskID: string, on: bool) returns (ok: bool)
      requires Valid()
      modifies known
      ensures Valid()
      ensures (View(), ok) == Spec.SetEnabled(old(View()), taskID, on)
    {
      if taskID !in tasks {
        return false;
      }
      var task := tasks[taskID];
      assert task in View().heap;
      task.Enabled := on;
      assert View().heap == old(View()).heap[task := task.Value()];
      return true;
    }
  }
}
