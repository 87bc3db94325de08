/** The job registry and dispatcher: class JobMgr of
    src/master/jobmgr.py:130-221. The task manager it hands tasks to is
    outside this core; the model records each hand-over in `dispatched`. */
module JobManager {
  import opened Common
  import opened DependencyLists
  import opened TaskGraph
  import opened JobState
  import opened BatchJobs

  /** One call `taskmgr.add_task(user, task_name, task_info, priority)`. */
  datatype Dispatch = Dispatch(user: string, task: ReadyTask, priority: int)

  /** One entry of list_jobs' result: name, id, status, creation time, the
      task keys in order and each task's `instCount`. */
  datatype JobSummary = JobSummary(jobName: string, jobId: string, status: JobStatus, createTime: string,
                                   tasks: seq<TaskId>, instCounts: map<TaskId, int>)

  /** add_job's reply `[ok, message]`. */
  datatype Reply = Reply(ok: bool, message: string)

  const AddedMessage: string := "add batch job success"

  /** add_job's reply as written (src/master/jobmgr.py:149-160): the
      `return` inside `finally` replaces whatever the `except` clauses
      returned, so every call reports success. */
  function ReplyAsWritten(outcome: Result<string>): (r: Reply)
    ensures r.ok
  {
    Reply(true, AddedMessage)
  }

  /** add_job's reply as intended: success with the fixed message when the
      job was registered, otherwise failure with the exception's message. */
  function AddReply(outcome: Result<string>): (r: Reply)
    ensures r.ok <==> outcome.Success?
    ensures r.message == if outcome.Success? then AddedMessage else outcome.error
  {
    match outcome
    case Success(_) => Reply(true, AddedMessage)
    case Failure(e) => Reply(false, e)
  }

  /** A submission whose construction raises is reported as added. */
  lemma FinallyMasksFailure(e: string)
    ensures ReplyAsWritten(Failure(e)).ok && !AddReply(Failure(e)).ok
  {
  }

  /** `string.ascii_letters + string.digits`. */
  predicate IsAlphanumeric(c: char) {
    ('a' <= c <= 'z') || ('A' <= c <= 'Z') || ('0' <= c <= '9')
  }

  /** What `''.join(random.sample(ascii_letters + digits, 8))` yields:
      eight distinct alphanumeric characters. */
  predicate IsSample(d: string) {
    |d| == 8 && Distinct(d) && forall k :: 0 <= k < |d| ==> IsAlphanumeric(d[k])
  }

  /** The position of the first draw not already in `queue`. */
  function FirstFresh(draws: seq<string>, queue: seq<string>): (k: nat)
    requires exists j :: 0 <= j < |draws| && draws[j] !in queue
    ensures k < |draws| && draws[k] !in queue
    ensures forall j :: 0 <= j < k ==> draws[j] in queue
  {
    if draws[0] !in queue then 0
    else
      assert exists j :: 0 <= j < |draws[1..]| && draws[1..][j] !in queue by {
        var j :| 0 <= j < |draws| && draws[j] !in queue;
        assert draws[1..][j - 1] == draws[j];
      }
      1 + FirstFresh(draws[1..], queue)
  }

  /** The ids of `ids` whose job belongs to `user`, in the order of `ids`. */
  function UserJobIds(user: string, ids: seq<string>, owners: map<string, string>): (r: seq<string>)
    requires forall id :: id in ids ==> id in owners
    ensures forall id :: id in r ==> id in ids
  {
    if ids == [] then []
    else
      var init, id := ids[..|ids| - 1], ids[|ids| - 1];
      assert forall x :: x in init ==> x in ids;
      UserJobIds(user, init, owners) + (if owners[id] == user then [id] else [])
  }

  /** Exactly the user's jobs are listed. */
  lemma {:induction false} UserJobIdsMembers(user: string, ids: seq<string>, owners: map<string, string>)
    requires forall id :: id in ids ==> id in owners
    ensures forall id :: id in UserJobIds(user, ids, owners) <==> id in ids && owners[id] == user
  {
    if ids != [] {
      var init := ids[..|ids| - 1];
      assert forall x :: x in init ==> x in ids;
      UserJobIdsMembers(user, init, owners);
      assert ids == init + [ids[|ids| - 1]];
    }
  }

  /** `xs` is `ys` with some of its elements deleted: its last element is
      either matched with `ys`'s last one or `ys`'s last one is deleted. */
  predicate IsSubsequence(xs: seq<string>, ys: seq<string>) {
    || xs == []
    || (&& ys != []
        && (|| (xs[|xs| - 1] == ys[|ys| - 1] && IsSubsequence(xs[..|xs| - 1], ys[..|ys| - 1]))
            || IsSubsequence(xs, ys[..|ys| - 1])))
  }

  /** The listing keeps queue order, and lists no job twice. */
  lemma {:induction false} UserJobIdsInOrder(user: string, ids: seq<string>, owners: map<string, string>)
    requires forall id :: id in ids ==> id in owners
    ensures IsSubsequence(UserJobIds(user, ids, owners), ids)
    ensures Distinct(ids) ==> Distinct(UserJobIds(user, ids, owners))
  {
    if ids != [] {
      var init, id := ids[..|ids| - 1], ids[|ids| - 1];
      assert forall x :: x in init ==> x in ids;
      UserJobIdsInOrder(user, init, owners);
      var prev := UserJobIds(user, init, owners);
      var r := UserJobIds(user, ids, owners);
      if owners[id] == user {
        assert r == prev + [id] && r[..|r| - 1] == prev;
      } else {
        assert r == prev;
      }
      if Distinct(ids) {
        assert ids == init + [id];
        DistinctSnoc(init, id);
        DistinctSnoc(prev, id);
      }
    }
  }

  /** Each task's `instCount`, as list_jobs reads it. */
  function InstCounts(tasks: map<TaskId, TaskConfig>): (m: map<TaskId, int>)
    ensures m.Keys == tasks.Keys
    ensures forall t :: t in m ==> m[t] == tasks[t].instCount
  {
    map t | t in tasks :: tasks[t].instCount
  }

  class JobMgr {
    /** `job_queue`: job ids in submission order. */
    var jobQueue: seq<string>
    /** `job_map`: each queued id's job. */
    var jobMap: map<string, BatchJob>
    /** The calls made to the task manager, oldest first. */
    var dispatched: seq<Dispatch>

    /** The registry holds each id once, maps exactly the queued ids, and
        each mapped job is well formed and carries its own id. */
    ghost predicate Valid()
      reads this, jobMap.Values
    {
      && Distinct(jobQueue)
      && (forall id :: id in jobMap <==> id in jobQueue)
      && (forall id :: id in jobMap ==> jobMap[id].jobId == Some(id))
      && forall id {:trigger jobMap[id].Valid()} :: id in jobMap ==> jobMap[id].Valid()
    }

    /** Each queued id's owner. */
    function Owners(): (o: map<string, string>)
      reads this
      ensures o.Keys == jobMap.Keys
    {
      map id | id in jobMap :: jobMap[id].user
    }

    /** The entry list_jobs builds for job `id`. */
    function SummaryOf(id: string): JobSummary
      reads this, jobMap.Values
      requires id in jobMap
    {
      var job := jobMap[id];
      JobSummary(job.jobName, id, job.status, job.createTime, job.rawJobInfo.taskOrder,
                 InstCounts(job.rawJobInfo.tasks))
    }

    /** Each summary list_jobs builds names the job's task keys once each,
        and its `tasks_instCount` maps exactly those keys. */
    lemma SummaryCovers(id: string)
      requires Valid() && id in jobMap
      ensures var s := SummaryOf(id);
              && s.jobId == id && Distinct(s.tasks)
              && forall t :: t in s.instCounts <==> t in s.tasks
    {
      assert jobMap[id].Valid();
    }

    /** Every registered job keeps its counters summing to its number of
        tasks and schedules only tasks without dependencies. */
    lemma RegisteredCounters(id: string)
      requires Valid() && id in jobMap
      ensures var job := jobMap[id];
              && job.Valid()
              && Total(job.tasks.cnt) == |job.order|
              && forall t :: t in job.tasks.status && job.tasks.status[t] == Scheduling ==> job.tasks.deps[t] == []
    {
      jobMap[id].CountersSum();
    }

    /** `JobMgr(taskmgr)` (src/master/jobmgr.py:133-138): empty registry. */
    constructor ()
      ensures Valid() && jobQueue == [] && jobMap == map[] && dispatched == []
    {
      jobQueue := [];
      jobMap := map[];
      dispatched := [];
    }

    /** `is_job_exist` (src/master/jobmgr.py:192-193). */
    predicate IsJobExist(id: string)
      reads this
    {
      id in jobQueue
    }

    /** An id is queued exactly when it has a job. */
    lemma JobExistIff(id: string)
      requires Valid()
      ensures IsJobExist(id) <==> id in jobMap
    {
    }

    /** `gen_jobid` (src/master/jobmgr.py:196-200): draws ids until one is
        not queued. The random draws are the parameter `draws`, each a
        sample as `random.sample` makes it, one of them not yet queued. */
    method GenJobId(draws: seq<string>) returns (id: string)
      requires forall k :: 0 <= k < |draws| ==> IsSample(draws[k])
      requires exists k :: 0 <= k < |draws| && draws[k] !in jobQueue
      ensures id == draws[FirstFresh(draws, jobQueue)]
      ensures IsSample(id) && !IsJobExist(id)
    {
      var i := 0;
      id := draws[0];
      while IsJobExist(id)
        invariant 0 <= i < |draws| && id == draws[i]
        invariant forall j :: 0 <= j < i ==> draws[j] in jobQueue
        invariant exists j :: i <= j < |draws| && draws[j] !in jobQueue
        decreases |draws| - i
      {
        i := i + 1;
        id := draws[i];
      }
      FirstFreshIs(draws, jobQueue, i);
    }

    /** `add_job` (src/master/jobmgr.py:148-160), replying as intended (see
        ReplyAsWritten). A submission with an undefined dependency raises
        in construction: the reply carries the message and nothing is
        registered. Otherwise the job gets the first fresh draw as its id,
        which is appended to the queue and mapped to the job. */
    method AddJob(user: string, info: JobInfo, createTime: string, draws: seq<string>) returns (reply: Reply)
      requires Valid() && WellFormed(info)
      requires forall k :: 0 <= k < |draws| ==> IsSample(draws[k])
      requires exists k :: 0 <= k < |draws| && draws[k] !in jobQueue
      modifies this`jobQueue, this`jobMap
      ensures Valid()
      ensures FirstUndefined(info.taskOrder, info).Some? ==>
                var e := FirstUndefined(info.taskOrder, info).value;
                && reply == Reply(false, UndefinedMessage(e.0, e.1))
                && jobQueue == old(jobQueue) && jobMap == old(jobMap)
      ensures FirstUndefined(info.taskOrder, info).None? ==>
                var id := draws[FirstFresh(draws, old(jobQueue))];
                && reply == Reply(true, AddedMessage)
                && id !in old(jobMap) && IsSample(id)
                && jobQueue == old(jobQueue) + [id]
                && jobMap == old(jobMap)[id := jobMap[id]]
                && fresh(jobMap[id]) && jobMap[id].jobId == Some(id)
                && jobMap[id].Initial(user, info, createTime)
    {
      var r := NewBatchJob(user, info, createTime);
      if r.Failure? {
        return AddReply(Failure(r.error));
      }
      var id := Register(r.value, draws);
      reply := AddReply(Success(id));
    }

    /** A fresh id from `draws` (GenJobId), then `job.job_id = id`, and `id`
        appended to the queue and mapped to `job`. */
    method Register(job: BatchJob, draws: seq<string>) returns (id: string)
      requires Valid() && job.Valid()
      requires forall other :: other in jobMap ==> jobMap[other] != job
      requires forall k :: 0 <= k < |draws| ==> IsSample(draws[k])
      requires exists k :: 0 <= k < |draws| && draws[k] !in jobQueue
      modifies this`jobQueue, this`jobMap, job`jobId
      ensures Valid()
      ensures id == draws[FirstFresh(draws, old(jobQueue))] && IsSample(id) && id !in old(jobMap)
      ensures jobQueue == old(jobQueue) + [id] && jobMap == old(jobMap)[id := job] && job.jobId == Some(id)
    {
      id := GenJobId(draws);
      job.jobId := Some(id);
      DistinctSnoc(jobQueue, id);
      jobQueue := jobQueue + [id];
      jobMap := jobMap[id := job];
    }

    /** `list_jobs` (src/master/jobmgr.py:164-182): the summaries of the
        user's jobs, in queue order (UserJobIdsMembers, UserJobIdsInOrder). */
    method ListJobs(user: string) returns (res: seq<JobSummary>)
      requires Valid()
      ensures var ids := UserJobIds(user, jobQueue, Owners());
              |res| == |ids| && forall k :: 0 <= k < |ids| ==> res[k] == SummaryOf(ids[k])
    {
      res := [];
      ghost var owners := Owners();
      for i := 0 to |jobQueue|
        invariant forall x :: x in UserJobIds(user, jobQueue[..i], owners) ==> x in jobMap
        invariant var ids := UserJobIds(user, jobQueue[..i], owners);
                  |res| == |ids| && forall k :: 0 <= k < |ids| ==> res[k] == SummaryOf(ids[k])
      {
        var id := jobQueue[i];
        var job := jobMap[id];
        assert jobQueue[..i + 1][..i] == jobQueue[..i];
        if job.user == user {
          res := res + [JobSummary(job.jobName, id, job.status, job.createTime, job.rawJobInfo.taskOrder,
                                   InstCounts(job.rawJobInfo.tasks))];
        }
      }
      assert jobQueue[..|jobQueue|] == jobQueue;
    }

    /** `job_processor` (src/master/jobmgr.py:203-210), taking its task
        from `get_tasks_no_dependency(True)`: the job's ready tasks are
        scheduled; if there were any, the first is handed to the task
        manager with the job's priority and the result is True. */
    method JobProcessor(job: BatchJob) returns (ok: bool)
      requires job.Valid() && job.jobId.Some?
      modifies job`tasks, job`status, job`released, this`dispatched
      ensures job.Valid()
      ensures var ready := job.ReadyIn(job.jobId.value, old(job.tasks));
              && ok == (ready != [])
              && job.tasks == Schedule(job.order, old(job.tasks))
              && dispatched == old(dispatched) + (if ok then [Dispatch(job.user, ready[0], job.jobPriority)] else [])
      ensures !ok ==> job.tasks == old(job.tasks)
      ensures job.status == old(job.status) && job.released == old(job.released)
    {
      ghost var before := job.tasks;
      var ready := job.GetTasksNoDependency(true);
      if ready == [] {
        ScheduleNothing(before);
        return false;
      }
      dispatched := dispatched + [Dispatch(job.user, ready[0], job.jobPriority)];
      ok := true;
    }

    /** The `j`-th queued job has nothing to schedule. */
    ghost predicate Idle(j: int)
      reads this, jobMap.Values
    {
      && 0 <= j < |jobQueue| && jobQueue[j] in jobMap
      && jobMap[jobQueue[j]].IdleIn(jobMap[jobQueue[j]].tasks)
    }

    /** `job_scheduler` (src/master/jobmgr.py:213-219): the jobs are tried
        in queue order; the first whose processor succeeds is marked
        running and the scan stops. Jobs tried before it had nothing ready
        and are left as they were; `served` is the position of the job
        served, if any. */
    method JobScheduler() returns (served: Option<nat>)
      requires Valid()
      modifies this`dispatched, jobMap.Values
      ensures Valid()
      ensures var n := if served.Some? then served.value else |jobQueue|;
              && n <= |jobQueue|
              && forall j :: 0 <= j < n ==> old(Idle(j))
      ensures served.None? ==> dispatched == old(dispatched)
      ensures served.Some? ==>
                && served.value < |jobQueue|
                && var id := jobQueue[served.value];
                && var job := jobMap[id];
                && job.Fits(old(job.tasks))
                && var ready := job.ReadyIn(id, old(job.tasks));
                && ready != []
                && job.status == JobRunning
                && job.tasks == Schedule(job.order, old(job.tasks))
                && dispatched == old(dispatched) + [Dispatch(job.user, ready[0], job.jobPriority)]
      ensures forall id :: id in jobMap && (served.None? || id != jobQueue[served.value]) ==> unchanged(jobMap[id])
    {
      var i := FirstReady();
      if i == |jobQueue| {
        return None;
      }
      var id := jobQueue[i];
      Serve(id, jobMap[id]);
      served := Some(i);
    }

    /** The position of the first queued job with a task ready, or the
        queue length when there is none. */
    method FirstReady() returns (i: nat)
      requires Valid()
      ensures i <= |jobQueue| && forall j :: 0 <= j < i ==> old(Idle(j))
      ensures i < |jobQueue| ==> jobQueue[i] in jobMap && jobMap[jobQueue[i]].HasReady()
    {
      i := 0;
      while i < |jobQueue| && !jobMap[jobQueue[i]].HasReady()
        invariant i <= |jobQueue|
        invariant forall j :: 0 <= j < i ==> old(Idle(j))
      {
        i := i + 1;
      }
    }

    /** The processor run on the job `id`, which has a task ready, and the
        job marked running. */
    method Serve(id: string, job: BatchJob)
      requires Valid() && id in jobMap && jobMap[id] == job && job.HasReady()
      modifies this`dispatched, job`tasks, job`status, job`released
      ensures Valid()
      ensures && job.Fits(old(job.tasks))
              && var ready := job.ReadyIn(id, old(job.tasks));
              && ready != []
              && job.status == JobRunning
              && job.tasks == Schedule(job.order, old(job.tasks))
              && dispatched == old(dispatched) + [Dispatch(job.user, ready[0], job.jobPriority)]
      ensures forall other :: other in jobMap && other != id ==> unchanged(jobMap[other])
    {
      var found := JobProcessor(job);
      job.status := JobRunning;
      ValidAfter(id);
    }

    /** The registry stays valid when only the job at `key` changed and
        that job is still well formed and carries its id. */
    twostate lemma ValidAfter(key: string)
      requires old(Valid()) && jobQueue == old(jobQueue) && jobMap == old(jobMap)
      requires forall id :: id in jobMap && id != key ==>
                 && jobMap[id].tasks == old(jobMap[id].tasks) && jobMap[id].released == old(jobMap[id].released)
                 && jobMap[id].jobId == old(jobMap[id].jobId)
      requires key in jobMap && jobMap[key].Valid() && jobMap[key].jobId == Some(key)
      ensures Valid()
    {
    }
  }

  /** A position whose draw is fresh and all of whose predecessors are
      queued is the first fresh one. */
  lemma {:induction false} FirstFreshIs(draws: seq<string>, queue: seq<string>, i: nat)
    requires i < |draws| && draws[i] !in queue
    requires forall j :: 0 <= j < i ==> draws[j] in queue
    ensures FirstFresh(draws, queue) == i
  {
    if i > 0 {
      FirstFreshIs(draws[1..], queue, i - 1);
    }
  }
}
