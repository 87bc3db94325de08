# Batch job manager: a Dafny model

This project models the batch-job core of the master node, `src/master/jobmgr.py`.

A user submits a *batch job*: a dictionary of tasks. Each task declares a comma-separated
list of the tasks it depends on. The master keeps one `BatchJob` per submission. Each
`BatchJob` holds:

- every task's status (`pending`, `scheduling`, `running`, `error(tried N times)`,
  `finished`) and its remaining dependency list;
- the reverse index `dependency_out`;
- the six counters of `tasks_cnt`;
- a job-level status.

`JobMgr` keeps the registry: the job queue in submission order and the map from job id to
job. It also runs the scheduler that hands ready tasks to the task manager.

## How the model is organised

- **`Common`** (`common.dfy`): `Option`, `Result` (the outcome of a call that raises in
  the source) and distinct sequences.
- **`DependencyLists`** (`dependency_lists.dfy`): dependency lists as Python lists.
  `list.remove` removes the first occurrence. Counting and filtering lemmas support it.
- **`DependencyParsing`** (`dependency_parsing.dfy`): the parse of a raw `dependency`
  field: `strip()`, `replace(' ', '')`, `split(',')`, and a lone empty field meaning "no
  dependencies".
- **`TaskGraph`** (`task_graph.dfy`): task statuses and counter categories, and the
  counters' agreement with the statuses. Also `_update_job_status`, the ready-task scan
  and the reverse index.
- **`JobState`** (`job_state.dfy`): the state a job changes, as a value `Table(status,
  deps, cnt)`.
  - Its transitions are `SetStatus`, `Schedule` (the scan with `update_status=True`),
    `Release`/`Propagate` (the loop of `finish_task`) and `Finish`.
  - The job invariant `Inv` says the following:
    - `dependency_out` inverts the declared lists.
    - Every current list is the declared list less the tasks whose completion has been
      propagated.
    - Only tasks without dependencies are ever scheduling.
  - Each transition is proved to keep `Inv`. The behaviour of `finish_task` is proved
    exactly.
- **`BatchJobs`** (`batch_job.dfy`): class `BatchJob`. Its fields are those of the source.
  The per-task dictionaries that change sit in the field `tasks: Table`. Each method
  performs its loop with invariants and is proved to produce the `JobState` transition of
  its line range. The factory `NewBatchJob` returns `Failure` where `__init__` raises.
- **`JobManager`** (`job_mgr.dfy`): class `JobMgr`, with `jobQueue: seq<string>`,
  `jobMap: map<string, BatchJob>` and the record `dispatched` of calls to
  `taskmgr.add_task`.

`BatchJob.Valid` is the job invariant of a live object. It says that the table fits the
job's task keys and that `JobState.Inv` holds of the job's table, its `dependency_out`,
and the ghost set `released` of tasks whose completion has been propagated. The
constructor establishes it (`JobState.InitialInv`). Each method keeps it through the
`*KeepsInv` lemmas of `JobState`, and `FinishTask` adds the task to `released` when its
loop runs to the end. `JobMgr.Valid` says that the queue and the map agree and that each
mapped job is valid and carries its own id. So every job held in the registry satisfies
`Inv` (`JobMgr.RegisteredCounters`, `BatchJob.FinishReturnsHere`). The facts that
`dependency_out` and the declared lists were built from the submission are part of the
job's initial state (`BatchJob.Initial`); `Inv` characterises `dependency_out` as their
inverse for the job's whole life.

The source uses a few things the model replaces:

- **Randomness.** `gen_jobid` draws from `random.sample`. The model takes the draws as
  the parameter `draws`, in which some draw is fresh.
- **The clock.** `create_time` is the parameter `createTime`.
- **The task manager.** `taskmgr.add_task` is appended to `dispatched`.
- **Locks.** Each `@data_lock` method is one atomic step.

## Model

| member | source | states |
|---|---|---|
| DependencyLists.RemoveFirst | src/master/jobmgr.py:108 | `list.remove(x)` on a list holding `x` removes exactly one copy of `x` and keeps every other element's count |
| DependencyLists.DropAllIsWithout | src/master/jobmgr.py:107-108 | calling `remove(t)` once per copy of `t` leaves the list with every `t` gone and the rest in order |
| DependencyLists.WithoutRemoveFirst | src/master/jobmgr.py:108 | a single `remove(x)` cannot be seen once every `x` is filtered out |
| DependencyParsing.JoinSplit | src/master/jobmgr.py:33 | `split(',')` loses nothing: joining its fields with commas gives back the input |
| DependencyParsing.SplitJoin | src/master/jobmgr.py:33 | splitting comma-free fields joined with commas gives back those fields |
| DependencyParsing.SplitFields | src/master/jobmgr.py:33 | no field of `split(',')` contains a comma, and each field's characters come from the input |
| DependencyParsing.StripEmptyIff | src/master/jobmgr.py:33 | `strip()` returns the empty string exactly when the input is all whitespace |
| DependencyParsing.RemoveSpacesChars | src/master/jobmgr.py:33 | `replace(' ', '')` keeps exactly the characters that are not spaces |
| DependencyParsing.DependenciesFields | src/master/jobmgr.py:33-35 | each parsed dependency is free of commas and spaces; when there is at least one, joining them with commas gives back the stripped, space-free field |
| DependencyParsing.NoDependenciesIff | src/master/jobmgr.py:33-35 | a task declares no dependency exactly when its raw field is empty or all whitespace |
| TaskGraph.CategoryOf | src/master/jobmgr.py:87-88 | `status.split('(')[0]` names one of the five status counters and never 'failed' |
| TaskGraph.Move | src/master/jobmgr.py:88-90 | moving one counter unit keeps the total and never lowers 'failed' unless 'failed' is the source |
| TaskGraph.CountsSumToTaskCount | src/master/jobmgr.py:21-26 | when the counters agree with the statuses, they sum to the number of tasks |
| TaskGraph.InitialCountsAgree | src/master/jobmgr.py:21-31 | the counters construction writes (every task under 'pending') agree with the all-pending statuses |
| TaskGraph.SetStatusAgrees | src/master/jobmgr.py:87-90 | changing one task's status and moving one unit from its old counter keeps the counters in agreement with the statuses |
| TaskGraph.ScheduleAgrees | src/master/jobmgr.py:64-67 | scheduling distinct pending tasks, one unit each from 'pending' to 'scheduling', keeps that agreement |
| TaskGraph.CountInPartition | src/master/jobmgr.py:21 | every task is filed under exactly one counter, and no task status is filed under 'failed' |
| TaskGraph.JobDoneIff | src/master/jobmgr.py:73-82 | the job status is 'done' exactly when no terminal error was reported and every task is finished |
| TaskGraph.JobRunningIff | src/master/jobmgr.py:73-82 | the job status is 'running' exactly when no terminal error was reported and some task is running |
| TaskGraph.JobPendingIff | src/master/jobmgr.py:73-82 | the job status is 'pending' exactly when no terminal error was reported, no task is running and some task is unfinished |
| TaskGraph.ScheduleKeepsJobStatus | src/master/jobmgr.py:64-66 | moving tasks from 'pending' to 'scheduling' never changes the job status |
| TaskGraph.ReadyIdsMembers | src/master/jobmgr.py:61-63 | a task is picked exactly when it is a task of the job, pending, and its dependency list is empty |
| TaskGraph.ReadyIdsDistinct | src/master/jobmgr.py:61 | no task is picked twice |
| TaskGraph.ReverseIndexIsInverse | src/master/jobmgr.py:36-42 | `u` is listed under `dependency_out[d]` exactly when `d` is among `u`'s declared dependencies, as many times as it is declared |
| TaskGraph.ReverseIndexNonEmpty | src/master/jobmgr.py:40-42 | every entry construction creates in `dependency_out` is non-empty |
| JobState.InitialInv | src/master/jobmgr.py:19-42 | construction establishes the job invariant with no completion propagated yet |
| JobState.SetStatusKeepsInv | src/master/jobmgr.py:86-91 | a status change keeps the invariant, given a scheduling task has no dependencies and a finished task was released |
| JobState.ScheduleKeepsInv | src/master/jobmgr.py:59-70 | the scan with `update_status=True` keeps the invariant |
| JobState.ScheduleNeedsNoDeps | src/master/jobmgr.py:62-67 | the scan moves no task with a non-empty dependency list to 'scheduling' |
| JobState.ScheduleNothing | src/master/jobmgr.py:59-70 | when no task is ready the scan changes nothing |
| JobState.PropagateCounts | src/master/jobmgr.py:107-115 | the loop moves one unit from 'pending' to 'scheduling' per task it returns, even when it stops early |
| JobState.PropagateDeps | src/master/jobmgr.py:107-113 | when every dependent still holds `t` as often as it is listed, the loop runs to the end and removes exactly those copies |
| JobState.PropagateReady | src/master/jobmgr.py:107-115 | under that condition the loop returns, once each, exactly the dependents that were pending and are left without dependencies, marks them scheduling, and changes no other status |
| JobState.FinishBounded | src/master/jobmgr.py:104-108 | under the invariant, each dependent of an unreleased task holds it exactly as often as `dependency_out` lists the dependent |
| JobState.FinishFailsIff | src/master/jobmgr.py:95-116 | `finish_task` raises exactly when the task's completion was already propagated and the task has dependents; it then only marks the task finished, moving its counter unit (lines 99-103 run before the raise), and makes no dependent ready |
| JobState.FinishDeps | src/master/jobmgr.py:104-113 | after a successful `finish_task`, every dependency list has lost every copy of the task and equals the declared list less the released tasks |
| JobState.FinishReady | src/master/jobmgr.py:95-116 | a successful `finish_task` returns exactly the dependents left pending without dependencies, marks them and only them scheduling, marks the task finished, and moves the counters accordingly |
| JobState.FinishKeepsInv | src/master/jobmgr.py:95-116 | `finish_task` keeps the invariant, with the task released when its loop runs to the end |
| JobState.FinishNeedsNoDeps | src/master/jobmgr.py:104-115 | a task `finish_task` moves to scheduling is left with an empty list and had no dependency but the finished task |
| JobState.FinishKeepsJobStatus | src/master/jobmgr.py:103-115 | the job status computed at line 103 is still the status of the counters the loop leaves |
| BatchJobs.ReadyTasksAt | src/master/jobmgr.py:68-69 | the `k`-th returned pair is `[user_jobid_task, config]` of the `k`-th picked task |
| BatchJobs.ScanIsSchedule | src/master/jobmgr.py:61-69 | the scan loop returns the picked tasks, and with `update_status` it performs `Schedule`; without it the table is unchanged |
| BatchJobs.ScanTasks | src/master/jobmgr.py:61-69 | the loop, with its invariants, computes what the scan function defines |
| BatchJobs.ReleaseOne | src/master/jobmgr.py:108-113 | one pass of the loop of `finish_task`: the task leaves the dependent's list, and the dependent fires exactly when it was pending with only that copy left |
| BatchJobs.SpreadIsPropagate | src/master/jobmgr.py:107-115 | the loop of `finish_task` returns the named dependents `Propagate` makes ready and leaves its table |
| BatchJobs.SpreadStuck | src/master/jobmgr.py:108 | once `list.remove` has raised, no later step changes anything |
| BatchJobs.SpreadTasks | src/master/jobmgr.py:107-115 | the loop, with its invariants, computes what the propagation function defines |
| BatchJobs.FinishOutcome | src/master/jobmgr.py:95-116 | `finish_task` on a known task keeps a fitting table fitting |
| BatchJobs.FinishOn | src/master/jobmgr.py:99-116 | the body of `finish_task` yields the reply, table and job status of `FinishOutcome` |
| BatchJobs.FinishReadyKnown | src/master/jobmgr.py:107-115 | every task `finish_task` returns is a task of the job, and 'failed' never decreases |
| BatchJobs.FirstUndefinedIn | src/master/jobmgr.py:36-38 | the search finds nothing exactly when every dependency is a task; otherwise it finds an offending one |
| BatchJobs.FirstUndefinedMeaning | src/master/jobmgr.py:27-38 | construction's search finds nothing exactly when every declared dependency of every task is a task; otherwise it names a declaring task and its undefined dependency |
| BatchJobs.LinkDependencies | src/master/jobmgr.py:36-42 | the inner loop raises at the first undefined dependency; otherwise it keeps the parsed list and adds the task's reverse edges |
| BatchJobs.ParseAndLink | src/master/jobmgr.py:33-42 | one task's turn: the raw field is parsed and then linked |
| BatchJobs.InitialFits | src/master/jobmgr.py:19-42 | a well-formed submission yields a job structure and an initial table that fit each other |
| BatchJobs.BuildTasks | src/master/jobmgr.py:21-42 | construction raises with the message for the first undefined dependency; otherwise it yields the all-pending table and the reverse index of the declared lists |
| BatchJobs.NewBatchJob | src/master/jobmgr.py:10-42 | `BatchJob(user, job_info)` fails exactly when some dependency is undefined, with a message naming it; otherwise it yields a fresh job in its initial state and without an id |
| BatchJobs.BatchJob.constructor | src/master/jobmgr.py:10-42 | the job is valid, in its initial state and without an id |
| BatchJobs.BatchJob.GetTasksNoDependency | src/master/jobmgr.py:59-70 | returns the named pending tasks without dependencies in key order; with `updateStatus` the table becomes `Schedule` of the old table, otherwise it is unchanged |
| BatchJobs.BatchJob.UpdateTaskRunning | src/master/jobmgr.py:86-91 | an unknown task fails with nothing changed; otherwise the task becomes running, one unit moves from its old counter to 'running', and the job status is recomputed |
| BatchJobs.BatchJob.UpdateTaskError | src/master/jobmgr.py:120-128 | the task becomes `error(tried N times)`; its unit moves to 'failed' when `tryOut` holds, else to 'error'; after a terminal error the job is failed |
| BatchJobs.BatchJob.FinishTask | src/master/jobmgr.py:95-116 | an unknown task returns `[]` with nothing changed; otherwise the reply, table and job status are those of `FinishOutcome`, the job stays valid, and a run to the end records the task as released |
| BatchJobs.BatchJob.FinishKnown | src/master/jobmgr.py:99-116 | the same on a task of the job |
| BatchJobs.BatchJob.CountersSum | src/master/jobmgr.py:21-31 | a live job's counters sum to its number of tasks, and each scheduling task has an empty dependency list |
| BatchJobs.BatchJob.FinishReturnsHere | src/master/jobmgr.py:95-116 | on a live job, `finish_task` of a task not yet released, or without dependents, runs to the end and returns exactly the dependents left pending without dependencies, marking them and only them scheduling |
| JobManager.ReplyAsWritten | src/master/jobmgr.py:149-160 | as written, every reply of `add_job` reports success |
| JobManager.FinallyMasksFailure | src/master/jobmgr.py:154-160 | a submission whose construction raised is reported as added |
| JobManager.FirstFresh | src/master/jobmgr.py:196-200 | the position of the first draw not yet queued; every earlier draw was queued |
| JobManager.FirstFreshIs | src/master/jobmgr.py:198-199 | a fresh draw all of whose predecessors are queued is the first fresh draw |
| JobManager.UserJobIdsMembers | src/master/jobmgr.py:166-169 | exactly the user's queued jobs are listed |
| JobManager.UserJobIdsInOrder | src/master/jobmgr.py:166 | the listing is a subsequence of the queue and lists no job twice |
| JobManager.JobMgr.constructor | src/master/jobmgr.py:133-138 | the queue, the map and the hand-over record start empty |
| JobManager.JobMgr.JobExistIff | src/master/jobmgr.py:192-193 | an id is queued exactly when it is mapped to a job |
| JobManager.JobMgr.GenJobId | src/master/jobmgr.py:196-200 | returns the first draw not yet queued: eight distinct alphanumeric characters and no existing id |
| JobManager.JobMgr.AddJob | src/master/jobmgr.py:148-160 | an undefined dependency yields a failure reply with its message and leaves the registry unchanged; otherwise a fresh id is appended to the queue and mapped to the new job, which carries that id and is in its initial state |
| JobManager.JobMgr.ListJobs | src/master/jobmgr.py:164-182 | returns the summary of each of the user's jobs, in queue order |
| JobManager.JobMgr.SummaryCovers | src/master/jobmgr.py:170-180 | the summary `list_jobs` builds for a registered job carries its id, lists each task key once, and its `tasks_instCount` has exactly those keys |
| JobManager.JobMgr.RegisteredCounters | src/master/jobmgr.py:21-31 | every registered job is valid, its six counters sum to its number of tasks, and each of its scheduling tasks has an empty dependency list |
| JobManager.JobMgr.JobProcessor | src/master/jobmgr.py:203-210 | the job's ready tasks are scheduled; the result is true exactly when there was one, and the first is then handed over with the job's priority; otherwise nothing changes; the job status and released set are never touched |
| JobManager.JobMgr.FirstReady | src/master/jobmgr.py:215-218 | the position of the first queued job with a task ready; every job before it had nothing ready |
| JobManager.JobMgr.JobScheduler | src/master/jobmgr.py:213-219 | every job before the one served had nothing ready; the served job, the first with a task ready, is scheduled, marked running and hands over its first ready task; every other job is unchanged; with no job ready nothing is handed over |

## Left out

- **Logging and threads.** `logger` calls and the `data_lock` locking are left out. Each
  locked method is one atomic step. The `JobMgr.run` loop (`job_scheduler` every two
  seconds) is left out as well.
- **`create_time`.** It reads the clock and is the parameter `createTime`.
- **`gen_jobid` randomness.** The `random.sample` draws are the parameter `draws`.
  - `JobManager.JobMgr.GenJobId` requires that some draw is fresh. The source loops
    until one is, which with real randomness terminates with probability one.
- **The task manager.** `taskmgr` is outside this core. Each `add_task` call is recorded
  in `dispatched`.
- **`env.getenv('FS_PREFIX')`.** The setting is never read in this core.
- **`get_job`.** Its body is `pass`.
- **`report`** (src/master/jobmgr.py:224-225). Its body is `pass`.
- **`get_output`** (src/master/jobmgr.py:227-240). It reads a task's output file through a
  shell command, which is I/O outside this core.
- **Conversions.** `int(job_info['jobPriority'])`, `int(tried_times)` and
  `int(...['instCount'])` are taken as already converted integers. The `ValueError`
  these conversions can raise is not modelled, nor are malformed submissions. A missing
  `'dependency'`, `'instCount'`, `'jobName'` or `'jobPriority'` key, on which the source
  raises `KeyError`, cannot occur: the `TaskConfig` and `JobInfo` datatypes always carry
  those fields. `WellFormed` only asks that `taskOrder` lists the keys of `tasks` once each.
- **`BatchJobs.BatchJob.UpdateTaskRunning` and `BatchJobs.BatchJob.UpdateTaskError`.**
  In the source, an unknown task raises `KeyError`. The model returns `Failure(t)` with
  nothing changed.
- **The error counter and `update_task_error`'s string.**
  - A task that tried out is filed under 'failed'. When that task is later run or
    finished, its unit leaves 'error', because `split('(')[0]` gives 'error'. The model
    follows this.
  - The job invariant therefore relates the sum of 'error' and 'failed' to the tasks in
    error, not each counter alone.
  - The status string `error(tried N times)` is the constructor `Errored(N)`.
- **`JobManager.JobMgr.JobProcessor`.** `job.get_task()` does not exist on `BatchJob`.
  The model takes the task from `get_tasks_no_dependency(True)` and hands over its first
  entry. The other ready tasks that call schedules are not handed over.
- **`JobManager.JobMgr.JobScheduler`.**
  - The source calls `job_processor` on each queued job in turn. On a job with nothing
    ready that call changes nothing (`JobProcessor`'s contract), so the model tests each
    job with `HasReady` and runs the processor only on the first ready one.
  - The out-parameter `served` (the position served) is an addition, so that the
    contract can name the job.
- **Object identity.** Two jobs are never the same object, and the `jobMap` values are
  distinct because every job is fresh. Aliasing of jobs between registries is not
  modelled.
- **Line 62 of `get_tasks_no_dependency`.** It is written with `=` where `==` is meant,
  which Python rejects. The model takes the comparison.
- **Line 38 of `__init__`.** The message formats the name `t`, which is bound nowhere in
  the file. Evaluating it raises `NameError` rather than the intended `ValueError`, so
  `add_job`'s `except Exception` branch (src/master/jobmgr.py:157-158) catches it, not the
  `ValueError` branch. Either way construction fails and nothing is registered, which is
  what the model captures. The model's message names the offending dependency `d` and the
  declaring task (`UndefinedMessage`), as the `ValueError` was evidently meant to.

## Findings

| source | as written | input that shows it | evidently intended | confidence | as-written member | corrected member |
|---|---|---|---|---|---|---|
| src/master/jobmgr.py:159-160 | the `return` in `finally` overrides the `except` clauses' returns, so `add_job` always replies `[True, "add batch job success"]` | a submission whose task `a` declares dependency `b` that is not a task: construction raises, nothing is registered, and the reply still reports success | reply `[False, message]` when construction raised | not executed | JobManager.FinallyMasksFailure | JobManager.JobMgr.AddJob |
