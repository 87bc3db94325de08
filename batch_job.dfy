/** One submitted job and its task graph: class BatchJob of
    src/master/jobmgr.py:9-128. Each state-changing method is one critical
    section of the source's per-job lock (`data_lock`) and runs here as one
    atomic step. */
module BatchJobs {
  import opened Common
  import opened DependencyLists
  import opened DependencyParsing
  import opened TaskGraph
  import opened JobState

  /** A task's entry in the submission: the raw `dependency` field, the
      instance count, and the remaining execution fields, which this core
      passes on without reading them. */
  datatype TaskConfig = TaskConfig(dependency: string, instCount: int, fields: map<string, string>)

  /** A submission (`job_info`). `taskOrder` is the key order of its
      `tasks` dictionary. */
  datatype JobInfo = JobInfo(jobName: string, jobPriority: int, taskOrder: seq<TaskId>, tasks: map<TaskId, TaskConfig>)

  /** What a dictionary guarantees: its keys are distinct and are exactly
      the keys it maps. */
  ghost predicate WellFormed(info: JobInfo) {
    Distinct(info.taskOrder) && forall t :: t in info.tasks <==> t in info.taskOrder
  }

  /** A ready task as both scheduling paths return it: `[task_name, config]`. */
  datatype ReadyTask = ReadyTask(name: string, config: TaskConfig)

  /** `user + '_' + job_id + '_' + task_idx` (src/master/jobmgr.py:68, 114). */
  function TaskName(user: string, jobId: string, t: TaskId): string {
    user + "_" + jobId + "_" + t
  }

  /** The `[task_name, config]` pairs of the tasks `ids`, in order. */
  function ReadyTasks(user: string, jobId: string, config: map<TaskId, TaskConfig>, ids: seq<TaskId>): (r: seq<ReadyTask>)
    requires forall u :: u in ids ==> u in config
    ensures |r| == |ids|
  {
    if ids == [] then []
    else ReadyTasks(user, jobId, config, ids[..|ids| - 1])
         + [ReadyTask(TaskName(user, jobId, ids[|ids| - 1]), config[ids[|ids| - 1]])]
  }

  /** The `k`-th entry names the `k`-th task and carries its config. */
  lemma {:induction false} ReadyTasksAt(user: string, jobId: string, config: map<TaskId, TaskConfig>, ids: seq<TaskId>)
    requires forall u :: u in ids ==> u in config
    ensures forall k :: 0 <= k < |ids| ==>
      ReadyTasks(user, jobId, config, ids)[k] == ReadyTask(TaskName(user, jobId, ids[k]), config[ids[k]])
  {
    if ids != [] {
      var init := ids[..|ids| - 1];
      ReadyTasksAt(user, jobId, config, init);
      forall k | 0 <= k < |init| ensures ids[k] == init[k] { }
    }
  }

  /** One more task named. */
  lemma ReadyTasksSnoc(user: string, jobId: string, config: map<TaskId, TaskConfig>, ids: seq<TaskId>, t: TaskId)
    requires (forall u :: u in ids ==> u in config) && t in config
    ensures ReadyTasks(user, jobId, config, ids + [t])
         == ReadyTasks(user, jobId, config, ids) + [ReadyTask(TaskName(user, jobId, t), config[t])]
  {
    assert (ids + [t])[..|ids|] == ids;
  }

  /** The loop of get_tasks_no_dependency (src/master/jobmgr.py:61-69)
      after its first `i` iterations: the list it has returned so far and
      the table it leaves. Each step tests the task's current status, as the
      loop does. */
  function Scan(user: string, jobId: string, config: map<TaskId, TaskConfig>,
                order: seq<TaskId>, tb: Table, update: bool, i: nat): (r: (seq<ReadyTask>, Table))
    requires i <= |order| && Covers(order, config)
    requires Covers(order, tb.status) && Covers(order, tb.deps) && HasAllCategories(tb.cnt)
    ensures r.1.status.Keys == tb.status.Keys && r.1.deps == tb.deps && HasAllCategories(r.1.cnt)
  {
    if i == 0 then ([], tb)
    else ScanOne(user, jobId, config, order[i - 1], Scan(user, jobId, config, order, tb, update, i - 1), update)
  }

  /** One iteration of that loop, on task `t`. */
  function ScanOne(user: string, jobId: string, config: map<TaskId, TaskConfig>, t: TaskId,
                   acc: (seq<ReadyTask>, Table), update: bool): (r: (seq<ReadyTask>, Table))
    requires t in config && t in acc.1.status && t in acc.1.deps && HasAllCategories(acc.1.cnt)
    ensures r.1.status.Keys == acc.1.status.Keys && r.1.deps == acc.1.deps && HasAllCategories(r.1.cnt)
  {
    var (ret, s) := acc;
    if s.status[t] == Pending && s.deps[t] == [] then
      (ret + [ReadyTask(TaskName(user, jobId, t), config[t])],
       if update then Table(s.status[t := Scheduling], s.deps,
                            s.cnt[CatPending := s.cnt[CatPending] - 1][CatScheduling := s.cnt[CatScheduling] + 1])
       else s)
    else (ret, s)
  }

  /** Step by step, the scan returns the ready tasks among the first `i`
      and schedules them when asked to: a task it has scheduled is never
      tested again, because the tasks of `order` are distinct. */
  lemma {:induction false} ScanPrefix(user: string, jobId: string, config: map<TaskId, TaskConfig>,
                                      order: seq<TaskId>, tb: Table, update: bool, i: nat)
    requires i <= |order| && Distinct(order) && Covers(order, config)
    requires Covers(order, tb.status) && Covers(order, tb.deps) && HasAllCategories(tb.cnt)
    ensures var ids := ReadyIds(order[..i], tb.status, tb.deps);
      Scan(user, jobId, config, order, tb, update, i)
        == (ReadyTasks(user, jobId, config, ids), if update then ScheduleAll(tb, ids) else tb)
  {
    if i == 0 {
      assert order[..0] == [];
      ScheduleNothing(tb);
    } else {
      ScanPrefix(user, jobId, config, order, tb, update, i - 1);
      ScanPrefixStep(user, jobId, config, order, tb, update, i - 1);
    }
  }

  /** The inductive step of ScanPrefix. */
  lemma ScanPrefixStep(user: string, jobId: string, config: map<TaskId, TaskConfig>,
                       order: seq<TaskId>, tb: Table, update: bool, i: nat)
    requires i < |order| && Distinct(order) && Covers(order, config)
    requires Covers(order, tb.status) && Covers(order, tb.deps) && HasAllCategories(tb.cnt)
    requires var ids := ReadyIds(order[..i], tb.status, tb.deps);
      Scan(user, jobId, config, order, tb, update, i)
        == (ReadyTasks(user, jobId, config, ids), if update then ScheduleAll(tb, ids) else tb)
    ensures var ids := ReadyIds(order[..i + 1], tb.status, tb.deps);
      Scan(user, jobId, config, order, tb, update, i + 1)
        == (ReadyTasks(user, jobId, config, ids), if update then ScheduleAll(tb, ids) else tb)
  {
    var ids := ReadyIds(order[..i], tb.status, tb.deps);
    var t := order[i];
    assert Scan(user, jobId, config, order, tb, update, i + 1)
        == ScanOne(user, jobId, config, t, Scan(user, jobId, config, order, tb, update, i), update);
    ReadyIdsSnoc(order, tb.status, tb.deps, i);
    ScanOneSchedules(user, jobId, config, tb, ids, t, update);
  }

  /** One iteration on a task not scheduled before adds it to the list and
      schedules it exactly when it is ready. */
  lemma ScanOneSchedules(user: string, jobId: string, config: map<TaskId, TaskConfig>,
                         tb: Table, ids: seq<TaskId>, t: TaskId, update: bool)
    requires HasAllCategories(tb.cnt) && t in config && t in tb.status && t in tb.deps && t !in ids
    requires forall u :: u in ids ==> u in config
    ensures var ids' := if tb.status[t] == Pending && tb.deps[t] == [] then ids + [t] else ids;
      && (forall u :: u in ids' ==> u in config)
      && ScanOne(user, jobId, config, t, (ReadyTasks(user, jobId, config, ids), if update then ScheduleAll(tb, ids) else tb), update)
         == (ReadyTasks(user, jobId, config, ids'), if update then ScheduleAll(tb, ids') else tb)
  {
    ScheduleAllSnoc(tb, ids, t);
    if tb.status[t] == Pending && tb.deps[t] == [] {
      ReadyTasksSnoc(user, jobId, config, ids, t);
    }
  }

  /** The whole scan returns the ready tasks and performs Schedule, or
      leaves the table as it was. */
  lemma ScanIsSchedule(user: string, jobId: string, config: map<TaskId, TaskConfig>,
                       order: seq<TaskId>, tb: Table, update: bool)
    requires Distinct(order) && Covers(order, config)
    requires Covers(order, tb.status) && Covers(order, tb.deps) && HasAllCategories(tb.cnt)
    ensures Scan(user, jobId, config, order, tb, update, |order|)
         == (ReadyTasks(user, jobId, config, ReadyIds(order, tb.status, tb.deps)),
             if update then Schedule(order, tb) else tb)
  {
    ScanPrefix(user, jobId, config, order, tb, update, |order|);
    assert order[..|order|] == order;
  }

  /** The loop of get_tasks_no_dependency (src/master/jobmgr.py:61-69) on
      the job's task table `tb`: the returned list and the statuses and
      counters the loop leaves are those of Scan (ScanIsSchedule says what
      they are). */
  method ScanTasks(user: string, jobId: string, config: map<TaskId, TaskConfig>, order: seq<TaskId>,
                   tb: Table, update: bool) returns (ret: seq<ReadyTask>, st: map<TaskId, TaskStatus>, cnt: Counters)
    requires Covers(order, config)
    requires Covers(order, tb.status) && Covers(order, tb.deps) && HasAllCategories(tb.cnt)
    ensures (ret, Table(st, tb.deps, cnt)) == Scan(user, jobId, config, order, tb, update, |order|)
  {
    st, cnt := tb.status, tb.cnt;
    ret := [];
    var i := 0;
    while i < |order|
      invariant 0 <= i <= |order|
      invariant (ret, Table(st, tb.deps, cnt)) == Scan(user, jobId, config, order, tb, update, i)
    {
      var t := order[i];
      if st[t] == Pending && tb.deps[t] == [] {
        if update {
          cnt := cnt[CatPending := cnt[CatPending] - 1][CatScheduling := cnt[CatScheduling] + 1];
          st := st[t := Scheduling];
        }
        ret := ret + [ReadyTask(TaskName(user, jobId, t), config[t])];
      }
      i := i + 1;
    }
  }

  /** The loop of finish_task over the dependents `outs` of `t`
      (src/master/jobmgr.py:107-115) after its first `i` iterations: the
      list it has built so far and, as a Propagation, the table it leaves,
      the dependents it made ready and whether `list.remove` has raised. */
  function Spread(user: string, jobId: string, config: map<TaskId, TaskConfig>,
                  tb: Table, t: TaskId, outs: seq<TaskId>, i: nat): (r: (seq<ReadyTask>, Propagation))
    requires i <= |outs| && Covers(outs, config) && Tracks(tb, outs) && HasAllCategories(tb.cnt)
    ensures r.1.table.status.Keys == tb.status.Keys && r.1.table.deps.Keys == tb.deps.Keys
    ensures HasAllCategories(r.1.table.cnt) && r.1.table.cnt[CatFailed] == tb.cnt[CatFailed]
  {
    if i == 0 then ([], Propagation(tb, [], true))
    else SpreadOne(user, jobId, config, t, outs[i - 1], Spread(user, jobId, config, tb, t, outs, i - 1))
  }

  /** One iteration of that loop, on dependent `u`; after `list.remove`
      has raised nothing more happens. */
  function SpreadOne(user: string, jobId: string, config: map<TaskId, TaskConfig>, t: TaskId, u: TaskId,
                     acc: (seq<ReadyTask>, Propagation)): (r: (seq<ReadyTask>, Propagation))
    requires u in config && u in acc.1.table.status && u in acc.1.table.deps && HasAllCategories(acc.1.table.cnt)
    ensures r.1.table.status.Keys == acc.1.table.status.Keys && r.1.table.deps.Keys == acc.1.table.deps.Keys
    ensures HasAllCategories(r.1.table.cnt) && r.1.table.cnt[CatFailed] == acc.1.table.cnt[CatFailed]
  {
    var (ret, p) := acc;
    if !p.ok then acc
    else if t !in p.table.deps[u] then (ret, Propagation(p.table, p.ids, false))
    else if Fires(p.table, u, t) then
      (ret + [ReadyTask(TaskName(user, jobId, u), config[u])], Propagation(Release(p.table, u, t), p.ids + [u], true))
    else (ret, Propagation(Release(p.table, u, t), p.ids, true))
  }

  /** Once `list.remove` has raised, further iterations change nothing. */
  lemma {:induction false} SpreadStuck(user: string, jobId: string, config: map<TaskId, TaskConfig>,
                                       tb: Table, t: TaskId, outs: seq<TaskId>, i: nat, j: nat)
    requires i <= j <= |outs| && Covers(outs, config) && Tracks(tb, outs) && HasAllCategories(tb.cnt)
    requires !Spread(user, jobId, config, tb, t, outs, i).1.ok
    ensures Spread(user, jobId, config, tb, t, outs, j) == Spread(user, jobId, config, tb, t, outs, i)
    decreases j
  {
    if j > i {
      SpreadStuck(user, jobId, config, tb, t, outs, i, j - 1);
    }
  }

  /** The loop state after `i` iterations, related to Propagate: the list
      names the dependents made ready so far, and either the loop is still
      running and Propagate on the rest of `outs` finishes the job, or it
      has stopped where Propagate stops. */
  ghost predicate SpreadAt(user: string, jobId: string, config: map<TaskId, TaskConfig>,
                           tb: Table, t: TaskId, outs: seq<TaskId>, i: nat)
    requires i <= |outs| && Covers(outs, config) && Tracks(tb, outs) && HasAllCategories(tb.cnt)
  {
    var (ret, p) := Spread(user, jobId, config, tb, t, outs, i);
    && (forall u :: u in p.ids ==> u in config)
    && ret == ReadyTasks(user, jobId, config, p.ids)
    && (p.ok ==> Tracks(p.table, outs[i..]) && Propagate(p.table, t, outs[i..], p.ids) == Propagate(tb, t, outs, []))
    && (!p.ok ==> p == Propagate(tb, t, outs, []))
  }

  lemma {:induction false} SpreadPrefix(user: string, jobId: string, config: map<TaskId, TaskConfig>,
                                        tb: Table, t: TaskId, outs: seq<TaskId>, i: nat)
    requires i <= |outs| && Covers(outs, config) && Tracks(tb, outs) && HasAllCategories(tb.cnt)
    ensures SpreadAt(user, jobId, config, tb, t, outs, i)
  {
    if i == 0 {
      assert outs[0..] == outs;
    } else {
      SpreadPrefix(user, jobId, config, tb, t, outs, i - 1);
      SpreadPrefixStep(user, jobId, config, tb, t, outs, i - 1);
    }
  }

  /** The inductive step of SpreadPrefix. */
  lemma SpreadPrefixStep(user: string, jobId: string, config: map<TaskId, TaskConfig>,
                         tb: Table, t: TaskId, outs: seq<TaskId>, i: nat)
    requires i < |outs| && Covers(outs, config) && Tracks(tb, outs) && HasAllCategories(tb.cnt)
    requires SpreadAt(user, jobId, config, tb, t, outs, i)
    ensures SpreadAt(user, jobId, config, tb, t, outs, i + 1)
  {
    var (ret, p) := Spread(user, jobId, config, tb, t, outs, i);
    var u := outs[i];
    assert Spread(user, jobId, config, tb, t, outs, i + 1) == SpreadOne(user, jobId, config, t, u, (ret, p));
    if p.ok {
      assert outs[i..][0] == u && outs[i..][1..] == outs[i + 1..];
      if t in p.table.deps[u] && Fires(p.table, u, t) {
        ReadyTasksSnoc(user, jobId, config, p.ids, u);
      }
    }
  }

  /** The whole loop performs Propagate and returns the dependents it made
      ready, named. */
  lemma SpreadIsPropagate(user: string, jobId: string, config: map<TaskId, TaskConfig>,
                          tb: Table, t: TaskId, outs: seq<TaskId>)
    requires Covers(outs, config) && Tracks(tb, outs) && HasAllCategories(tb.cnt)
    ensures var p := Propagate(tb, t, outs, []);
      && (forall u :: u in p.ids ==> u in config)
      && Spread(user, jobId, config, tb, t, outs, |outs|) == (ReadyTasks(user, jobId, config, p.ids), p)
  {
    SpreadPrefix(user, jobId, config, tb, t, outs, |outs|);
    assert outs[|outs|..] == [];
  }

  /** One pass of that loop over dependent `u` (src/master/jobmgr.py:108-113):
      `t` leaves `u`'s list, and if `u` is pending with nothing left it
      becomes scheduling and one counter unit moves from 'pending' to
      'scheduling'; `fired` says whether that happened. */
  method ReleaseOne(st: map<TaskId, TaskStatus>, deps: map<TaskId, seq<TaskId>>, cnt: Counters, u: TaskId, t: TaskId)
    returns (st': map<TaskId, TaskStatus>, deps': map<TaskId, seq<TaskId>>, cnt': Counters, fired: bool)
    requires u in st && u in deps && t in deps[u] && HasAllCategories(cnt)
    ensures fired == Fires(Table(st, deps, cnt), u, t)
    ensures Table(st', deps', cnt') == Release(Table(st, deps, cnt), u, t)
  {
    st', deps', cnt' := st, deps, cnt;
    deps' := deps'[u := RemoveFirst(deps'[u], t)];
    fired := st'[u] == Pending && deps'[u] == [];
    if fired {
      cnt' := cnt'[CatPending := cnt'[CatPending] - 1][CatScheduling := cnt'[CatScheduling] + 1];
      st' := st'[u := Scheduling];
    }
  }

  /** The loop of finish_task (src/master/jobmgr.py:107-115) on the table
      `tb` left by marking `t` finished: the list it returns, the state it
      leaves and whether it ran to the end are those of Spread
      (SpreadIsPropagate says what they are). */
  method SpreadTasks(user: string, jobId: string, config: map<TaskId, TaskConfig>,
                     tb: Table, t: TaskId, outs: seq<TaskId>)
    returns (ok: bool, ret: seq<ReadyTask>, st: map<TaskId, TaskStatus>, deps: map<TaskId, seq<TaskId>>, cnt: Counters)
    requires Covers(outs, config) && Tracks(tb, outs) && HasAllCategories(tb.cnt)
    ensures var (ret', p) := Spread(user, jobId, config, tb, t, outs, |outs|);
      ret == ret' && Table(st, deps, cnt) == p.table && ok == p.ok
  {
    st, deps, cnt := tb.status, tb.deps, tb.cnt;
    ok, ret := true, [];
    ghost var ids: seq<TaskId> := [];
    var i := 0;
    while i < |outs| && ok
      invariant 0 <= i <= |outs|
      invariant (ret, Propagation(Table(st, deps, cnt), ids, ok)) == Spread(user, jobId, config, tb, t, outs, i)
    {
      var u := outs[i];
      assert Spread(user, jobId, config, tb, t, outs, i + 1)
          == SpreadOne(user, jobId, config, t, u, Spread(user, jobId, config, tb, t, outs, i));
      if t in deps[u] {
        var fired;
        st, deps, cnt, fired := ReleaseOne(st, deps, cnt, u, t);
        if fired {
          ret := ret + [ReadyTask(TaskName(user, jobId, u), config[u])];
          ids := ids + [u];
        }
      } else {
        ok := false;
      }
      i := i + 1;
    }
    if !ok {
      SpreadStuck(user, jobId, config, tb, t, outs, i, |outs|);
    }
  }

  /** The per-task dictionaries of a job whose tasks are `config`: a status
      and a dependency list for each task, and every counter present, with
      'failed' never below zero. */
  predicate TableFits(config: map<TaskId, TaskConfig>, tb: Table) {
    && tb.status.Keys == config.Keys && tb.deps.Keys == config.Keys
    && HasAllCategories(tb.cnt) && tb.cnt[CatFailed] >= 0
  }

  /** A job's fixed structure: the tasks of `order` are distinct and are
      the keys of `config`, every task declares a dependency list, and
      `dependency_out` names only tasks. */
  ghost predicate JobShape(order: seq<TaskId>, config: map<TaskId, TaskConfig>,
                           declared: map<TaskId, seq<TaskId>>, rev: map<TaskId, seq<TaskId>>) {
    && Distinct(order)
    && (forall t :: t in config <==> t in order)
    && declared.Keys == config.Keys
    && (forall d, u :: d in rev && u in rev[d] ==> u in config)
  }

  /** Construction of a well-formed submission yields that structure and a
      table that fits it. */
  lemma InitialFits(info: JobInfo)
    requires WellFormed(info)
    ensures var declared := DeclaredDeps(info);
      && JobShape(info.taskOrder, info.tasks, declared, ReverseIndex(info.taskOrder, declared))
      && TableFits(info.tasks, InitialTable(info.taskOrder, declared))
  {
    var declared := DeclaredDeps(info);
    var tb := InitialTable(info.taskOrder, declared);
    assert declared.Keys == info.tasks.Keys;
    assert tb.status.Keys == info.tasks.Keys;
    AllCategoriesComplete();
    assert HasAllCategories(tb.cnt);
    ReverseIndexIsInverse(info.taskOrder, declared);
  }

  /** finish_task (src/master/jobmgr.py:95-116) on a known task `t` of a job
      whose table is `tb`, with `allcnt` tasks and `rev` its
      `dependency_out`: the reply (the named dependents made ready, or the
      error `list.remove` raised), the table Finish leaves, and the job
      status recomputed once `t` is finished. */
  function FinishOutcome(user: string, jobId: string, config: map<TaskId, TaskConfig>, allcnt: int,
                         rev: map<TaskId, seq<TaskId>>, tb: Table, t: TaskId): (o: (Result<seq<ReadyTask>>, Table, JobStatus))
    requires t in tb.status && HasAllCategories(tb.cnt)
    requires Tracks(tb, Lookup(rev, t)) && Covers(Lookup(rev, t), config)
    ensures TableFits(config, tb) ==> TableFits(config, o.1)
  {
    var p := Finish(rev, tb, t);
    FinishReadyKnown(user, jobId, config, rev, tb, t);
    (if p.ok then Success(ReadyTasks(user, jobId, config, p.ids)) else Failure(RemoveMissing),
     p.table, JobStatusOf(p.table.cnt, allcnt))
  }

  /** The dependents Finish makes ready are tasks of the job, and it never
      lowers the 'failed' counter. */
  lemma FinishReadyKnown(user: string, jobId: string, config: map<TaskId, TaskConfig>,
                         rev: map<TaskId, seq<TaskId>>, tb: Table, t: TaskId)
    requires t in tb.status && HasAllCategories(tb.cnt)
    requires Tracks(tb, Lookup(rev, t)) && Covers(Lookup(rev, t), config)
    ensures var p := Finish(rev, tb, t);
      (forall u :: u in p.ids ==> u in config) && p.table.cnt[CatFailed] >= tb.cnt[CatFailed]
  {
    var m := SetStatus(tb, t, Finished, false);
    if t in rev {
      SpreadIsPropagate(user, jobId, config, m, t, rev[t]);
    }
  }

  /** finish_task (src/master/jobmgr.py:95-116) on a known task: the status
      and counter update, the job status, then the loop over the
      dependents, whose outcome is FinishOutcome. */
  method FinishOn(user: string, jobId: string, config: map<TaskId, TaskConfig>, allcnt: int,
                  rev: map<TaskId, seq<TaskId>>, tb: Table, t: TaskId)
    returns (r: Result<seq<ReadyTask>>, tb': Table, jobStatus: JobStatus)
    requires t in tb.status && HasAllCategories(tb.cnt)
    requires Tracks(tb, Lookup(rev, t)) && Covers(Lookup(rev, t), config)
    ensures (r, tb', jobStatus) == FinishOutcome(user, jobId, config, allcnt, rev, tb, t)
    ensures tb' == Finish(rev, tb, t).table && (r.Success? <==> Finish(rev, tb, t).ok)
  {
    var cnt := Move(tb.cnt, CategoryOf(tb.status[t]), CatFinished);
    var st := tb.status[t := Finished];
    jobStatus := JobStatusOf(cnt, allcnt);
    var m := Table(st, tb.deps, cnt);
    assert m == SetStatus(tb, t, Finished, false);
    FinishKeepsJobStatus(rev, tb, t, allcnt);
    if t !in rev {
      return Success([]), m, jobStatus;
    }
    SpreadIsPropagate(user, jobId, config, m, t, rev[t]);
    var ok, ret, deps;
    ok, ret, st, deps, cnt := SpreadTasks(user, jobId, config, m, t, rev[t]);
    tb' := Table(st, deps, cnt);
    r := if ok then Success(ret) else Failure(RemoveMissing);
  }

  /** The dependency list each task declares. */
  function DeclaredDeps(info: JobInfo): map<TaskId, seq<TaskId>> {
    map t | t in info.tasks :: Dependencies(info.tasks[t].dependency)
  }

  /** The first dependency in `ds` that is not a task of the job. */
  function FirstUndefinedIn(ds: seq<TaskId>, tasks: map<TaskId, TaskConfig>): (r: Option<TaskId>)
    ensures r.None? <==> forall d :: d in ds ==> d in tasks
    ensures r.Some? ==> r.value in ds && r.value !in tasks
  {
    if ds == [] then None
    else if ds[0] !in tasks then Some(ds[0])
    else
      assert forall d :: d in ds ==> d == ds[0] || d in ds[1..];
      FirstUndefinedIn(ds[1..], tasks)
  }

  /** The first (task, dependency) pair, in the order construction visits
      them, whose dependency is not a task of the job. */
  function FirstUndefined(order: seq<TaskId>, info: JobInfo): Option<(TaskId, TaskId)>
    requires forall t :: t in order ==> t in info.tasks
  {
    if order == [] then None
    else
      assert forall t :: t in order ==> t == order[0] || t in order[1..];
      match FirstUndefinedIn(Dependencies(info.tasks[order[0]].dependency), info.tasks)
      case Some(d) => Some((order[0], d))
      case None => FirstUndefined(order[1..], info)
  }

  /** The search finds nothing exactly when every dependency of every task
      in `order` is a task, and what it finds is a real offending pair. */
  lemma {:induction false} FirstUndefinedMeaning(order: seq<TaskId>, info: JobInfo)
    requires forall t :: t in order ==> t in info.tasks
    ensures var r := FirstUndefined(order, info);
            && (r.None? <==> forall t, d :: t in order && d in Dependencies(info.tasks[t].dependency) ==> d in info.tasks)
            && (r.Some? ==> && r.value.0 in order
                            && r.value.1 in Dependencies(info.tasks[r.value.0].dependency)
                            && r.value.1 !in info.tasks)
  {
    if order != [] {
      assert forall t :: t in order ==> t == order[0] || t in order[1..];
      FirstUndefinedMeaning(order[1..], info);
    }
  }

  lemma {:induction false} FirstUndefinedInAt(ds: seq<TaskId>, j: nat, tasks: map<TaskId, TaskConfig>)
    requires j < |ds| && ds[j] !in tasks
    requires forall k :: 0 <= k < j ==> ds[k] in tasks
    ensures FirstUndefinedIn(ds, tasks) == Some(ds[j])
  {
    if j > 0 {
      FirstUndefinedInAt(ds[1..], j - 1, tasks);
    }
  }

  /** The message construction raises with when `taskIdx` names an undefined
      dependency `d` (src/master/jobmgr.py:38, as intended). */
  function UndefinedMessage(taskIdx: TaskId, d: TaskId): string {
    "task " + d + " is not defined in the dependency of task " + taskIdx
  }

  /** The inner loop of `__init__` over the dependencies `parts` of task
      `t` (src/master/jobmgr.py:36-42): each is checked against the job's
      tasks, appended to `t`'s list, and `t` is appended to its entry of
      `dependency_out`, created when missing. `missing` is the first
      dependency that is not a task, at which the loop raises; otherwise
      the list is `parts` and `dependency_out` gained the edges of `t`. */
  method LinkDependencies(t: TaskId, parts: seq<TaskId>, tasks: map<TaskId, TaskConfig>, rev: map<TaskId, seq<TaskId>>)
    returns (missing: Option<TaskId>, ds: seq<TaskId>, rev': map<TaskId, seq<TaskId>>)
    ensures missing == FirstUndefinedIn(parts, tasks)
    ensures missing.None? ==> ds == parts && rev' == AddEdges(rev, t, parts)
  {
    ds, rev' := [], rev;
    for j := 0 to |parts|
      invariant ds == parts[..j] && rev' == AddEdges(rev, t, parts[..j])
      invariant forall k :: 0 <= k < j ==> parts[k] in tasks
    {
      var d := parts[j];
      if d !in tasks {
        FirstUndefinedInAt(parts, j, tasks);
        return Some(d), ds, rev';
      }
      assert parts[..j + 1][..j] == parts[..j];
      ds := ds + [d];
      if d !in rev' {
        rev' := rev'[d := []];
      }
      rev' := rev'[d := rev'[d] + [t]];
    }
    assert parts[..|parts|] == parts;
    missing := None;
  }

  /** The statuses construction has set once it has passed the tasks `ts`. */
  function AllPending(ts: seq<TaskId>): map<TaskId, TaskStatus> {
    if ts == [] then map[] else AllPending(ts[..|ts| - 1])[ts[|ts| - 1] := Pending]
  }

  /** The dependency lists construction has built once it has passed the
      tasks `ts`. */
  function DeclaredFor(ts: seq<TaskId>, declared: map<TaskId, seq<TaskId>>): map<TaskId, seq<TaskId>>
    requires Covers(ts, declared)
  {
    if ts == [] then map[]
    else
      assert forall u :: u in ts[..|ts| - 1] ==> u in ts;
      DeclaredFor(ts[..|ts| - 1], declared)[ts[|ts| - 1] := declared[ts[|ts| - 1]]]
  }

  lemma {:induction false} PrefixMaps(ts: seq<TaskId>, declared: map<TaskId, seq<TaskId>>)
    requires Covers(ts, declared)
    ensures forall u :: u in AllPending(ts) <==> u in ts
    ensures forall u :: u in AllPending(ts) ==> AllPending(ts)[u] == Pending
    ensures forall u :: u in DeclaredFor(ts, declared) <==> u in ts
    ensures forall u :: u in DeclaredFor(ts, declared) ==> DeclaredFor(ts, declared)[u] == declared[u]
  {
    if ts != [] {
      var init := ts[..|ts| - 1];
      assert forall u :: u in init ==> u in ts;
      PrefixMaps(init, declared);
      assert ts == init + [ts[|ts| - 1]];
    }
  }

  /** Having passed every task, construction has built the initial table. */
  lemma InitialMaps(info: JobInfo)
    requires WellFormed(info)
    ensures AllPending(info.taskOrder) == InitialTable(info.taskOrder, DeclaredDeps(info)).status
    ensures DeclaredFor(info.taskOrder, DeclaredDeps(info)) == DeclaredDeps(info)
  {
    PrefixMaps(info.taskOrder, DeclaredDeps(info));
  }

  /** What construction's turn at the `i`-th task adds to each of the
      values it builds, and where the search for an undefined dependency
      goes next. */
  lemma BuildStep(info: JobInfo, i: nat)
    requires WellFormed(info) && i < |info.taskOrder|
    ensures var (order, declared, t) := (info.taskOrder, DeclaredDeps(info), info.taskOrder[i]);
      && t in info.tasks && Covers(order[..i], declared) && Covers(order[..i + 1], declared)
      && AllPending(order[..i + 1]) == AllPending(order[..i])[t := Pending]
      && var ds := Dependencies(info.tasks[t].dependency);
      && DeclaredFor(order[..i + 1], declared) == DeclaredFor(order[..i], declared)[t := ds]
      && ReverseIndex(order[..i + 1], declared) == AddEdges(ReverseIndex(order[..i], declared), t, ds)
      && FirstUndefined(order[i..], info)
         == match FirstUndefinedIn(ds, info.tasks)
            case Some(d) => Some((t, d))
            case None => FirstUndefined(order[i + 1..], info)
  {
    var order := info.taskOrder;
    assert order[..i + 1][..i] == order[..i];
    assert order[i..][0] == order[i];
    assert order[i..][1..] == order[i + 1..];
  }

  /** One task's turn in `__init__` (src/master/jobmgr.py:33-42): its raw
      field is parsed, a lone empty field means no dependencies, and the
      rest are linked as LinkDependencies does. */
  method ParseAndLink(t: TaskId, raw: string, tasks: map<TaskId, TaskConfig>, rev: map<TaskId, seq<TaskId>>)
    returns (missing: Option<TaskId>, ds: seq<TaskId>, rev': map<TaskId, seq<TaskId>>)
    ensures missing == FirstUndefinedIn(Dependencies(raw), tasks)
    ensures missing.None? ==> ds == Dependencies(raw) && rev' == AddEdges(rev, t, Dependencies(raw))
  {
    var parts := Split(RemoveSpaces(Strip(raw)));
    if |parts| == 1 && parts[0] == "" {
      return None, [], rev;
    }
    missing, ds, rev' := LinkDependencies(t, parts, tasks, rev);
  }

  /** The counters `__init__` writes out are those of InitialCounters. */
  lemma CountersLiteral(n: nat)
    ensures map[CatPending := n, CatScheduling := 0, CatRunning := 0,
                CatError := 0, CatFailed := 0, CatFinished := 0] == InitialCounters(n)
  {
    AllCategoriesComplete();
  }

  /** The outer loop of `__init__` (src/master/jobmgr.py:21-42): every task
      starts pending with an empty list, the counters start with every task
      pending, and each task's parsed dependencies are linked in key order.
      It raises, naming the task and the dependency, at the first
      dependency that is not a task (FirstUndefined); otherwise it yields
      the initial table and the reverse index of the declared lists. */
  method BuildTasks(info: JobInfo) returns (r: Result<(Table, map<TaskId, seq<TaskId>>)>)
    requires WellFormed(info)
    ensures match FirstUndefined(info.taskOrder, info)
            case Some(e) => r == Failure(UndefinedMessage(e.0, e.1))
            case None => r == Success((InitialTable(info.taskOrder, DeclaredDeps(info)),
                                       ReverseIndex(info.taskOrder, DeclaredDeps(info))))
  {
    var order, tasks := info.taskOrder, info.tasks;
    ghost var declared := DeclaredDeps(info);
    var cnt: Counters := map[CatPending := |order|, CatScheduling := 0, CatRunning := 0,
                             CatError := 0, CatFailed := 0, CatFinished := 0];
    CountersLiteral(|order|);
    var st: map<TaskId, TaskStatus> := map[];
    var deps: map<TaskId, seq<TaskId>> := map[];
    var rev: map<TaskId, seq<TaskId>> := map[];
    for i := 0 to |order|
      invariant st == AllPending(order[..i])
      invariant deps == DeclaredFor(order[..i], declared)
      invariant rev == ReverseIndex(order[..i], declared)
      invariant FirstUndefined(order, info) == FirstUndefined(order[i..], info)
    {
      var t := order[i];
      BuildStep(info, i);
      st := st[t := Pending];
      var missing, ds;
      missing, ds, rev := ParseAndLink(t, tasks[t].dependency, tasks, rev);
      if missing.Some? {
        return Failure(UndefinedMessage(t, missing.value));
      }
      deps := deps[t := ds];
    }
    assert order[..|order|] == order;
    assert order[|order|..] == [];
    InitialMaps(info);
    r := Success((Table(st, deps, cnt), rev));
  }

  /** Python's message for `list.remove` of a missing element. */
  const RemoveMissing: string := "list.remove(x): x not in list"


  class BatchJob {
    const user: string
    const rawJobInfo: JobInfo
    const jobName: string
    const jobPriority: int
    const createTime: string
    /** The key order of `tasks`, which every scan follows. */
    const order: seq<TaskId>
    /** `tasks[t]['config']`. */
    const config: map<TaskId, TaskConfig>
    /** `dependency_out`: for each task, the tasks that list it as a dependency. */
    const dependencyOut: map<TaskId, seq<TaskId>>
    /** Each task's dependency list as declared. */
    ghost const declared: map<TaskId, seq<TaskId>>

    /** `job_id`: None until the registry assigns one. */
    var jobId: Option<string>
    var status: JobStatus
    /** The mutable part of `tasks` (each task's 'status' and 'dependency')
        together with `tasks_cnt`. */
    var tasks: Table
    /** The tasks whose completion finish_task has propagated to their
        dependents. */
    ghost var released: set<TaskId>

    /** The job's fixed structure (JobShape). */
    ghost predicate Shape() {
      JobShape(order, config, declared, dependencyOut)
    }

    /** The job's invariant: the structure above, with the task order and
        configurations of the well-formed submission `rawJobInfo`, and a
        table that fits the job's tasks and keeps JobState.Inv with the
        tasks in `released`. Inv makes `dependencyOut` the exact inverse of
        `declared`; that `declared` is the parse of the submission's
        dependency strings is stated by Initial, which construction
        establishes. */
    ghost predicate Valid()
      reads this`tasks, this`released
    {
      && Fits(tasks)
      && WellFormed(rawJobInfo) && order == rawJobInfo.taskOrder && config == rawJobInfo.tasks
      && Inv(order, declared, dependencyOut, tasks, released)
    }

    /** `tb` is a table this job can hold. */
    ghost predicate Fits(tb: Table) {
      Shape() && TableFits(config, tb)
    }

    /** The state construction leaves (src/master/jobmgr.py:11-42), apart
        from `job_id`, which starts as None and which add_job sets. */
    ghost predicate Initial(user: string, info: JobInfo, createTime: string)
      reads this`status, this`tasks, this`released
    {
      && WellFormed(info)
      && this.user == user && rawJobInfo == info && this.createTime == createTime
      && jobName == info.jobName && jobPriority == info.jobPriority
      && status == JobPending
      && order == info.taskOrder && config == info.tasks
      && declared == DeclaredDeps(info)
      && dependencyOut == ReverseIndex(order, declared)
      && tasks == InitialTable(order, declared)
      && released == {}
    }

    /** Field initialisation of `__init__`, given the table and
        `dependency_out` its loops built (see NewBatchJob). */
    constructor (user: string, info: JobInfo, createTime: string, tb: Table, rev: map<TaskId, seq<TaskId>>)
      requires WellFormed(info)
      requires tb == InitialTable(info.taskOrder, DeclaredDeps(info))
      requires rev == ReverseIndex(info.taskOrder, DeclaredDeps(info))
      ensures Valid() && Initial(user, info, createTime) && jobId == None
    {
      this.user := user;
      rawJobInfo := info;
      jobId := None;
      jobName := info.jobName;
      jobPriority := info.jobPriority;
      status := JobPending;
      this.createTime := createTime;
      order := info.taskOrder;
      config := info.tasks;
      declared := DeclaredDeps(info);
      dependencyOut := rev;
      tasks := tb;
      released := {};
      new;
      InitialFits(info);
      InitialInv(order, declared);
    }

    /** The tasks a scan of table `tb` picks, in key order, named for job
        `id`. */
    ghost function ReadyIn(id: string, tb: Table): seq<ReadyTask>
      requires Fits(tb)
    {
      ReadyTasks(user, id, config, ReadyIds(order, tb.status, tb.deps))
    }

    /** With table `tb` the job has no task to schedule. */
    ghost predicate IdleIn(tb: Table) {
      Fits(tb) && ReadyIds(order, tb.status, tb.deps) == []
    }

    /** Whether `get_tasks_no_dependency` would return anything now. */
    predicate HasReady()
      reads this`tasks, this`released
      requires Valid()
    {
      ReadyIds(order, tasks.status, tasks.deps) != []
    }

    /** Installs a table and a job status, and records `rel` as the
        released tasks, when together they keep the invariant. */
    method Install(tb: Table, st: JobStatus, ghost rel: set<TaskId>)
      requires Valid()
      requires TableFits(config, tb) && Inv(order, declared, dependencyOut, tb, rel)
      modifies this`tasks, this`status, this`released
      ensures Valid() && tasks == tb && status == st && released == rel
    {
      tasks, status, released := tb, st, rel;
    }

    /** `get_tasks_no_dependency` (src/master/jobmgr.py:59-70): the pending
        tasks with no dependencies, in key order; with `updateStatus` they
        are scheduled (JobState.Schedule: each becomes scheduling, one
        counter unit per task moves from 'pending' to 'scheduling'), without
        it nothing changes. */
    method GetTasksNoDependency(updateStatus: bool) returns (ret: seq<ReadyTask>)
      requires Valid() && jobId.Some?
      modifies this`tasks, this`status, this`released
      ensures Valid()
      ensures ret == ReadyTasks(user, jobId.value, config, ReadyIds(order, old(tasks).status, old(tasks).deps))
      ensures tasks == if updateStatus then Schedule(order, old(tasks)) else old(tasks)
      ensures status == old(status) && released == old(released)
    {
      var st, cnt;
      ret, st, cnt := ScanTasks(user, jobId.value, config, order, tasks, updateStatus);
      ScanIsSchedule(user, jobId.value, config, order, tasks, updateStatus);
      if updateStatus {
        ScheduleKeepsInv(order, declared, dependencyOut, tasks, released);
        var tb := Table(st, tasks.deps, cnt);
        assert tb == Schedule(order, tasks);
        Install(tb, status, released);
      }
    }

    /** `update_task_running` (src/master/jobmgr.py:86-91): the task becomes
        running, one unit moves from the counter of its old status to
        'running', and the job status is recomputed. An unknown task raises
        KeyError before anything changes. */
    method UpdateTaskRunning(t: TaskId) returns (r: Result<()>)
      requires Valid()
      modifies this`tasks, this`status, this`released
      ensures Valid() && released == old(released)
      ensures t !in old(tasks.status) ==> r == Failure(t) && unchanged(this)
      ensures t in old(tasks.status) ==>
                && r == Success(())
                && tasks == SetStatus(old(tasks), t, Running, false)
                && status == JobStatusOf(tasks.cnt, |order|)
    {
      if t !in tasks.status {
        return Failure(t);
      }
      SetStatusKeepsInv(order, declared, dependencyOut, tasks, released, t, Running, false);
      var tb := SetStatus(tasks, t, Running, false);
      Install(tb, JobStatusOf(tb.cnt, |order|), released);
      r := Success(());
    }

    /** `update_task_error` (src/master/jobmgr.py:120-128): the task's status
        becomes 'error(tried N times)'; its unit moves to 'failed' when the
        executor has given up (`tryOut`), to 'error' otherwise; the job
        status is recomputed, so a terminal error makes the job failed
        whatever its other tasks do. An unknown task raises KeyError before
        anything changes. */
    method UpdateTaskError(t: TaskId, tried: int, tryOut: bool) returns (r: Result<()>)
      requires Valid()
      modifies this`tasks, this`status, this`released
      ensures Valid() && released == old(released)
      ensures t !in old(tasks.status) ==> r == Failure(t) && unchanged(this)
      ensures t in old(tasks.status) ==>
                && r == Success(())
                && tasks == SetStatus(old(tasks), t, Errored(tried), tryOut)
                && status == JobStatusOf(tasks.cnt, |order|)
                && (tryOut ==> status == JobFailed)
    {
      if t !in tasks.status {
        return Failure(t);
      }
      SetStatusKeepsInv(order, declared, dependencyOut, tasks, released, t, Errored(tried), tryOut);
      MoveAt(tasks.cnt, CategoryOf(tasks.status[t]), if tryOut then CatFailed else CatError, CatFailed);
      var tb := SetStatus(tasks, t, Errored(tried), tryOut);
      Install(tb, JobStatusOf(tb.cnt, |order|), released);
      r := Success(());
    }

    /** `finish_task` (src/master/jobmgr.py:95-116) performs JobState.Finish:
        an unknown task is logged and nothing changes; otherwise the task
        becomes finished, the job status is recomputed, and `t` is taken out
        of the list of each task in `dependency_out[t]`; each of those left
        pending without dependencies becomes scheduling and is returned. When
        a list no longer holds `t`, `list.remove` raises and the changes made
        so far stay. A run to the end releases `t`. */
    method FinishTask(t: TaskId) returns (r: Result<seq<ReadyTask>>)
      requires Valid() && jobId.Some?
      modifies this`tasks, this`status, this`released
      ensures Valid()
      ensures t !in old(tasks.status) ==> r == Success([]) && unchanged(this)
      ensures t in old(tasks.status) ==>
                && (r, tasks, status) == FinishOutcome(user, jobId.value, config, |order|, dependencyOut, old(tasks), t)
                && released == if r.Success? then old(released) + {t} else old(released)
    {
      if t !in tasks.status {
        return Success([]);
      }
      r := FinishKnown(t);
    }

    /** FinishTask on a task of the job. */
    method FinishKnown(t: TaskId) returns (r: Result<seq<ReadyTask>>)
      requires Valid() && jobId.Some? && t in tasks.status
      modifies this`tasks, this`status, this`released
      ensures Valid()
      ensures (r, tasks, status) == FinishOutcome(user, jobId.value, config, |order|, dependencyOut, old(tasks), t)
      ensures released == if r.Success? then old(released) + {t} else old(released)
    {
      ghost var p := Finish(dependencyOut, tasks, t);
      FinishKeepsInv(order, declared, dependencyOut, tasks, released, t);
      var tb, jobStatus;
      r, tb, jobStatus := FinishOn(user, jobId.value, config, |order|, dependencyOut, tasks, t);
      Install(tb, jobStatus, if p.ok then released + {t} else released);
    }

    /** A live job's counters sum to its number of tasks, and each of its
        scheduling tasks has an empty dependency list. */
    lemma CountersSum()
      requires Valid()
      ensures Total(tasks.cnt) == |order|
      ensures forall t :: t in tasks.status && tasks.status[t] == Scheduling ==> tasks.deps[t] == []
    {
      CountsSumToTaskCount(order, tasks.status, tasks.cnt);
    }

    /** finish_task(t) on a live job, for a task whose completion has not
        been propagated or that has no dependents, runs to the end, so that
        FinishOutcome returns its ready dependents, named; those are exactly
        the dependents left pending without dependencies, they and only they
        become scheduling, and `t` becomes finished (JobState.FinishReady). */
    lemma FinishReturnsHere(t: TaskId)
      requires Valid() && jobId.Some? && t in tasks.status
      requires t !in released || t !in dependencyOut
      ensures Tracks(tasks, Lookup(dependencyOut, t))
      ensures Finish(dependencyOut, tasks, t).ok
      ensures ReturnsReady(dependencyOut, tasks, t) && MarksReady(dependencyOut, tasks, t)
    {
      FinishFailsIff(order, declared, dependencyOut, tasks, released, t);
      FinishReady(order, declared, dependencyOut, tasks, released, t);
    }
  }

  /** `BatchJob(user, job_info)` (src/master/jobmgr.py:10-42): it raises,
      and no job exists, exactly when some declared dependency is not a
      task of the job; the message names the first such dependency and the
      task declaring it. Otherwise the new job is in its initial state. */
  method NewBatchJob(user: string, info: JobInfo, createTime: string) returns (r: Result<BatchJob>)
    requires WellFormed(info)
    ensures r.Failure? <==> FirstUndefined(info.taskOrder, info).Some?
    ensures r.Failure? ==> var e := FirstUndefined(info.taskOrder, info).value;
                           r.error == UndefinedMessage(e.0, e.1)
    ensures r.Success? ==> && fresh(r.value) && r.value.Valid() && r.value.jobId == None
                           && r.value.Initial(user, info, createTime)
  {
    var built := BuildTasks(info);
    if built.Failure? {
      return Failure(built.error);
    }
    var job := new BatchJob(user, info, createTime, built.value.0, built.value.1);
    r := Success(job);
  }
}
