/** The per-job task state of src/master/jobmgr.py: task statuses, the
    `tasks_cnt` counters kept beside them, the job status derived from the
    counters, the scan for ready tasks and the reverse dependency index
    `dependency_out`. Everything here is a value; the class that owns this
    state is BatchJobs.BatchJob. */
module TaskGraph {
  import opened Common
  import opened DependencyLists

  /** A task's status. The source keeps it as a string; `Errored` stands for
      'error(tried N times)' and carries N. */
  datatype TaskStatus = Pending | Scheduling | Running | Errored(tried: int) | Finished

  /** The six keys of `tasks_cnt`. */
  datatype Category = CatPending | CatScheduling | CatRunning | CatError | CatFailed | CatFinished

  /** The counter a status is filed under when it is left: the status string
      up to its first '(' (src/master/jobmgr.py:87, 99, 121). No status
      string is ever 'failed', so nothing is ever taken out of that counter. */
  function CategoryOf(s: TaskStatus): (c: Category)
    ensures c != CatFailed
  {
    match s
    case Pending => CatPending
    case Scheduling => CatScheduling
    case Running => CatRunning
    case Errored(_) => CatError
    case Finished => CatFinished
  }

  /** The job-level status. */
  datatype JobStatus = JobPending | JobRunning | JobDone | JobFailed

  type Counters = map<Category, int>

  predicate HasAllCategories(cnt: Counters) {
    forall c: Category :: c in cnt
  }

  /** `tasks_cnt` right after construction: every task pending
      (src/master/jobmgr.py:21, 26). */
  function InitialCounters(n: nat): Counters {
    map c: Category | c in AllCategories :: if c == CatPending then n else 0
  }

  const AllCategories: set<Category> :=
    {CatPending, CatScheduling, CatRunning, CatError, CatFailed, CatFinished}

  lemma AllCategoriesComplete()
    ensures forall c: Category :: c in AllCategories
  {
    forall c: Category ensures c in AllCategories {
      match c
      case CatPending =>
      case CatScheduling =>
      case CatRunning =>
      case CatError =>
      case CatFailed =>
      case CatFinished =>
    }
  }

  /** `sum(tasks_cnt.values())`. */
  function Total(cnt: Counters): int
    requires HasAllCategories(cnt)
  {
    cnt[CatPending] + cnt[CatScheduling] + cnt[CatRunning]
      + cnt[CatError] + cnt[CatFailed] + cnt[CatFinished]
  }

  /** `tasks_cnt[from] -= 1; tasks_cnt[to] += 1`: every transition moves
      one unit from one counter to another, so the sum never changes. */
  function Move(cnt: Counters, from: Category, to: Category): (r: Counters)
    requires HasAllCategories(cnt)
    ensures HasAllCategories(r) && Total(r) == Total(cnt)
    ensures r[CatFailed] >= cnt[CatFailed] || from == CatFailed
  {
    var m := cnt[from := cnt[from] - 1];
    var r := m[to := m[to] + 1];
    assert forall c :: c in cnt ==> r[c] == cnt[c] - (if c == from then 1 else 0) + (if c == to then 1 else 0);
    r
  }

  /** Each counter after a move. */
  lemma MoveAt(cnt: Counters, from: Category, to: Category, c: Category)
    requires HasAllCategories(cnt)
    ensures Move(cnt, from, to)[c] == cnt[c] - (if c == from then 1 else 0) + (if c == to then 1 else 0)
  {
  }

  /** `k` tasks moved from pending to scheduling. */
  function ScheduleCount(cnt: Counters, k: int): Counters
    requires HasAllCategories(cnt)
  {
    cnt[CatPending := cnt[CatPending] - k][CatScheduling := cnt[CatScheduling] + k]
  }

  /** Every task of `order` has an entry in `m`. */
  predicate Covers<V>(order: seq<TaskId>, m: map<TaskId, V>) {
    forall t :: t in order ==> t in m
  }

  /** Number of tasks of `order` whose status is filed under `c`. */
  function CountIn(order: seq<TaskId>, status: map<TaskId, TaskStatus>, c: Category): (n: nat)
    requires Covers(order, status)
    ensures n <= |order|
  {
    if order == [] then 0
    else (if CategoryOf(status[order[0]]) == c then 1 else 0) + CountIn(order[1..], status, c)
  }

  lemma {:induction false} CountInFrame(order: seq<TaskId>, s1: map<TaskId, TaskStatus>, s2: map<TaskId, TaskStatus>, c: Category)
    requires Covers(order, s1) && Covers(order, s2)
    requires forall t :: t in order ==> s1[t] == s2[t]
    ensures CountIn(order, s1, c) == CountIn(order, s2, c)
  {
    if order != [] {
      CountInFrame(order[1..], s1, s2, c);
    }
  }

  /** Changing one task's status changes the count of its old category and
      of its new one by one each. */
  lemma {:induction false} CountInUpdate(order: seq<TaskId>, status: map<TaskId, TaskStatus>, t: TaskId, s: TaskStatus, c: Category)
    requires Distinct(order) && Covers(order, status) && t in order
    ensures CountIn(order, status[t := s], c)
         == CountIn(order, status, c) - (if CategoryOf(status[t]) == c then 1 else 0) + (if CategoryOf(s) == c then 1 else 0)
  {
    if order[0] == t {
      CountInFrame(order[1..], status[t := s], status, c);
    } else {
      CountInUpdate(order[1..], status, t, s, c);
    }
  }

  /** Every task is filed under exactly one category, and none under 'failed'. */
  lemma {:induction false} CountInPartition(order: seq<TaskId>, status: map<TaskId, TaskStatus>)
    requires Covers(order, status)
    ensures CountIn(order, status, CatFailed) == 0
    ensures CountIn(order, status, CatPending) + CountIn(order, status, CatScheduling)
          + CountIn(order, status, CatRunning) + CountIn(order, status, CatError)
          + CountIn(order, status, CatFinished) == |order|
  {
    if order != [] {
      CountInPartition(order[1..], status);
    }
  }

  /** A category counts every task exactly when every task is filed under it. */
  lemma {:induction false} CountInAll(order: seq<TaskId>, status: map<TaskId, TaskStatus>, c: Category)
    requires Covers(order, status)
    ensures CountIn(order, status, c) == |order| <==> forall t :: t in order ==> CategoryOf(status[t]) == c
  {
    if order != [] {
      CountInAll(order[1..], status, c);
      assert forall t :: t in order ==> t == order[0] || t in order[1..];
    }
  }

  /** A category counts some task exactly when some task is filed under it. */
  lemma {:induction false} CountInSome(order: seq<TaskId>, status: map<TaskId, TaskStatus>, c: Category)
    requires Covers(order, status)
    ensures CountIn(order, status, c) > 0 <==> exists t :: t in order && CategoryOf(status[t]) == c
  {
    if order != [] {
      CountInSome(order[1..], status, c);
      assert forall t :: t in order[1..] ==> t in order;
      assert forall t :: t in order ==> t == order[0] || t in order[1..];
    }
  }

  /** The counters agree with the task statuses. Each counter is the number
      of tasks filed under it, except that a terminal error
      (src/master/jobmgr.py:124-125) files the task's unit under 'failed'
      while its status reads 'error(...)': 'error' and 'failed' together
      count the tasks in error, and 'failed' counts the terminal errors
      reported so far. */
  predicate CountsAgree(order: seq<TaskId>, status: map<TaskId, TaskStatus>, cnt: Counters)
    requires Covers(order, status)
  {
    && HasAllCategories(cnt)
    && (forall c :: c != CatError && c != CatFailed ==> cnt[c] == CountIn(order, status, c))
    && cnt[CatError] + cnt[CatFailed] == CountIn(order, status, CatError)
    && cnt[CatFailed] >= 0
  }

  /** The sum of `tasks_cnt` is the number of tasks. */
  lemma CountsSumToTaskCount(order: seq<TaskId>, status: map<TaskId, TaskStatus>, cnt: Counters)
    requires Covers(order, status) && CountsAgree(order, status, cnt)
    ensures Total(cnt) == |order|
  {
    CountInPartition(order, status);
  }

  /** Construction files every task under 'pending'. */
  lemma {:induction false} InitialCountsAgree(order: seq<TaskId>, status: map<TaskId, TaskStatus>)
    requires Covers(order, status)
    requires forall t :: t in order ==> status[t] == Pending
    ensures CountsAgree(order, status, InitialCounters(|order|))
  {
    AllCategoriesComplete();
    if order != [] {
      InitialCountsAgree(order[1..], status);
    }
  }

  /** Setting one task's status and moving one unit from the counter of its
      old status to the counter of the new one (to 'failed' for a terminal
      error) keeps the counters in agreement. */
  lemma SetStatusAgrees(order: seq<TaskId>, status: map<TaskId, TaskStatus>, cnt: Counters,
                        t: TaskId, s: TaskStatus, terminal: bool)
    requires Distinct(order) && Covers(order, status) && t in order
    requires CountsAgree(order, status, cnt)
    requires terminal ==> s.Errored?
    ensures CountsAgree(order, status[t := s],
                        Move(cnt, CategoryOf(status[t]), if terminal then CatFailed else CategoryOf(s)))
  {
    var from, to := CategoryOf(status[t]), if terminal then CatFailed else CategoryOf(s);
    var r := Move(cnt, from, to);
    forall c
      ensures CountIn(order, status[t := s], c)
           == CountIn(order, status, c) - (if from == c then 1 else 0) + (if CategoryOf(s) == c then 1 else 0)
      ensures r[c] == cnt[c] - (if c == from then 1 else 0) + (if c == to then 1 else 0)
    {
      CountInUpdate(order, status, t, s, c);
      MoveAt(cnt, from, to, c);
    }
  }

  /** `_update_job_status` (src/master/jobmgr.py:73-82): 'failed' before
      'running' before 'done' before 'pending'. */
  function JobStatusOf(cnt: Counters, allcnt: int): JobStatus
    requires HasAllCategories(cnt)
  {
    if cnt[CatFailed] != 0 then JobFailed
    else if cnt[CatRunning] != 0 then JobRunning
    else if cnt[CatFinished] == allcnt then JobDone
    else JobPending
  }

  /** The job is 'done' exactly when every task is finished and no terminal
      error was ever reported. */
  lemma JobDoneIff(order: seq<TaskId>, status: map<TaskId, TaskStatus>, cnt: Counters)
    requires Covers(order, status) && CountsAgree(order, status, cnt)
    ensures JobStatusOf(cnt, |order|) == JobDone
        <==> cnt[CatFailed] == 0 && forall t :: t in order ==> status[t] == Finished
  {
    CountInPartition(order, status);
    CountInAll(order, status, CatFinished);
    assert forall t :: t in order ==> (CategoryOf(status[t]) == CatFinished <==> status[t] == Finished);
  }

  /** The job is 'running' exactly when no terminal error was reported and
      some task is running. */
  lemma JobRunningIff(order: seq<TaskId>, status: map<TaskId, TaskStatus>, cnt: Counters)
    requires Covers(order, status) && CountsAgree(order, status, cnt)
    ensures JobStatusOf(cnt, |order|) == JobRunning
        <==> cnt[CatFailed] == 0 && exists t :: t in order && status[t] == Running
  {
    CountInSome(order, status, CatRunning);
    assert forall t :: t in order ==> (CategoryOf(status[t]) == CatRunning <==> status[t] == Running);
  }

  /** The job is 'pending' exactly when no terminal error was reported, no
      task runs and some task is not finished. */
  lemma JobPendingIff(order: seq<TaskId>, status: map<TaskId, TaskStatus>, cnt: Counters)
    requires Covers(order, status) && CountsAgree(order, status, cnt)
    ensures JobStatusOf(cnt, |order|) == JobPending
        <==> && cnt[CatFailed] == 0
             && (forall t :: t in order ==> status[t] != Running)
             && (exists t :: t in order && status[t] != Finished)
  {
    JobDoneIff(order, status, cnt);
    JobRunningIff(order, status, cnt);
  }

  /** Moving pending tasks to scheduling leaves the job status as it was. */
  lemma ScheduleKeepsJobStatus(cnt: Counters, k: int, allcnt: int)
    requires HasAllCategories(cnt)
    ensures JobStatusOf(ScheduleCount(cnt, k), allcnt) == JobStatusOf(cnt, allcnt)
  {
  }

  /** The tasks `get_tasks_no_dependency` picks (src/master/jobmgr.py:61-63):
      pending with an empty dependency list, in the order of `order`. */
  function ReadyIds(order: seq<TaskId>, status: map<TaskId, TaskStatus>, deps: map<TaskId, seq<TaskId>>): (r: seq<TaskId>)
    requires Covers(order, status) && Covers(order, deps)
    ensures forall t :: t in r ==> t in order
  {
    if order == [] then []
    else
      var init, t := order[..|order| - 1], order[|order| - 1];
      assert forall u :: u in init ==> u in order;
      ReadyIds(init, status, deps) + (if status[t] == Pending && deps[t] == [] then [t] else [])
  }

  /** A task is picked exactly when it is a task of `order`, pending, and
      without dependencies. */
  lemma {:induction false} ReadyIdsMembers(order: seq<TaskId>, status: map<TaskId, TaskStatus>, deps: map<TaskId, seq<TaskId>>)
    requires Covers(order, status) && Covers(order, deps)
    ensures forall t :: t in ReadyIds(order, status, deps) <==> t in order && status[t] == Pending && deps[t] == []
  {
    if order != [] {
      var init, t := order[..|order| - 1], order[|order| - 1];
      assert forall u :: u in init ==> u in order;
      ReadyIdsMembers(init, status, deps);
      assert order == init + [t];
    }
  }

  /** Each task is picked at most once. */
  lemma {:induction false} ReadyIdsDistinct(order: seq<TaskId>, status: map<TaskId, TaskStatus>, deps: map<TaskId, seq<TaskId>>)
    requires Distinct(order) && Covers(order, status) && Covers(order, deps)
    ensures Distinct(ReadyIds(order, status, deps))
  {
    if order != [] {
      var init, t := order[..|order| - 1], order[|order| - 1];
      assert forall u :: u in init ==> u in order;
      assert order == init + [t];
      DistinctSnoc(init, t);
      ReadyIdsDistinct(init, status, deps);
      ReadyIdsMembers(init, status, deps);
      var r := ReadyIds(init, status, deps);
      DistinctSnoc(r, t);
      assert r + [] == r;
    }
  }

  /** The scan one task further: `order[i]` is appended exactly when it is
      ready, and it is not among the tasks found before it. */
  lemma ReadyIdsSnoc(order: seq<TaskId>, status: map<TaskId, TaskStatus>, deps: map<TaskId, seq<TaskId>>, i: int)
    requires Distinct(order) && Covers(order, status) && Covers(order, deps) && 0 <= i < |order|
    ensures var t := order[i];
      status[t] == Pending && deps[t] == [] ==>
        ReadyIds(order[..i + 1], status, deps) == ReadyIds(order[..i], status, deps) + [t]
    ensures var t := order[i];
      !(status[t] == Pending && deps[t] == []) ==>
        ReadyIds(order[..i + 1], status, deps) == ReadyIds(order[..i], status, deps)
    ensures order[i] !in ReadyIds(order[..i], status, deps)
  {
    assert order[..i + 1][..i] == order[..i];
    assert ReadyIds(order[..i], status, deps) + [] == ReadyIds(order[..i], status, deps);
    assert forall u :: u in order[..i] ==> u in order;
    DistinctNotBefore(order, i);
    ReadyIdsMembers(order[..i], status, deps);
  }

  /** `status` with every task of `ids` set to scheduling. */
  function MarkScheduling(status: map<TaskId, TaskStatus>, ids: seq<TaskId>): map<TaskId, TaskStatus> {
    map t | t in status :: if t in ids then Scheduling else status[t]
  }

  /** Scheduling no task changes no counter. */
  lemma ScheduleCountZero(cnt: Counters)
    requires HasAllCategories(cnt)
    ensures ScheduleCount(cnt, 0) == cnt
  {
    var x := ScheduleCount(cnt, 0);
    assert x.Keys == cnt.Keys;
    assert forall c :: c in x ==> x[c] == cnt[c];
  }

  /** Scheduling one more task is one more move from 'pending' to 'scheduling'. */
  lemma ScheduleCountStep(cnt: Counters, k: int)
    requires HasAllCategories(cnt)
    ensures Move(ScheduleCount(cnt, k), CatPending, CatScheduling) == ScheduleCount(cnt, k + 1)
  {
    var a, b := Move(ScheduleCount(cnt, k), CatPending, CatScheduling), ScheduleCount(cnt, k + 1);
    assert a.Keys == b.Keys;
    assert forall c :: c in a ==> a[c] == b[c];
  }

  /** Scheduling `a` tasks and then `b` more is scheduling `a + b`. */
  lemma ScheduleCountAdd(cnt: Counters, a: int, b: int)
    requires HasAllCategories(cnt)
    ensures ScheduleCount(ScheduleCount(cnt, a), b) == ScheduleCount(cnt, a + b)
  {
    var x, y := ScheduleCount(ScheduleCount(cnt, a), b), ScheduleCount(cnt, a + b);
    assert x.Keys == y.Keys;
    assert forall c :: c in x ==> x[c] == y[c];
  }

  /** Marking one more task. */
  lemma MarkSchedulingSnoc(status: map<TaskId, TaskStatus>, ids: seq<TaskId>, x: TaskId)
    requires x in status
    ensures MarkScheduling(status, ids)[x := Scheduling] == MarkScheduling(status, ids + [x])
  {
    var a, b := MarkScheduling(status, ids)[x := Scheduling], MarkScheduling(status, ids + [x]);
    assert a.Keys == b.Keys;
    assert forall u :: u in a ==> a[u] == b[u];
  }

  /** Scheduling distinct pending tasks, one counter unit each, keeps the
      counters in agreement with the statuses. */
  lemma {:induction false} ScheduleAgrees(order: seq<TaskId>, status: map<TaskId, TaskStatus>, cnt: Counters,
                                          ids: seq<TaskId>)
    requires Distinct(order) && Covers(order, status) && CountsAgree(order, status, cnt)
    requires Distinct(ids) && forall u :: u in ids ==> u in order && status[u] == Pending
    ensures Covers(order, MarkScheduling(status, ids))
    ensures CountsAgree(order, MarkScheduling(status, ids), ScheduleCount(cnt, |ids|))
    decreases |ids|
  {
    if ids == [] {
      assert MarkScheduling(status, ids) == status;
      assert ScheduleCount(cnt, 0) == cnt;
    } else {
      var init, x := ids[..|ids| - 1], ids[|ids| - 1];
      assert ids == init + [x];
      DistinctSnoc(init, x);
      assert forall u :: u in init ==> u in ids;
      ScheduleAgrees(order, status, cnt, init);
      var st := MarkScheduling(status, init);
      assert st[x] == Pending;
      SetStatusAgrees(order, st, ScheduleCount(cnt, |init|), x, Scheduling, false);
      MarkSchedulingSnoc(status, init, x);
      ScheduleCountStep(cnt, |init|);
    }
  }

  function Lookup(rev: map<TaskId, seq<TaskId>>, d: TaskId): seq<TaskId> {
    if d in rev then rev[d] else []
  }

  /** For each `d` of `ds` in turn, append `t` to `rev[d]`, creating the
      entry when missing (src/master/jobmgr.py:40-42). */
  function AddEdges(rev: map<TaskId, seq<TaskId>>, t: TaskId, ds: seq<TaskId>): map<TaskId, seq<TaskId>> {
    if ds == [] then rev
    else
      var r, d := AddEdges(rev, t, ds[..|ds| - 1]), ds[|ds| - 1];
      r[d := Lookup(r, d) + [t]]
  }

  /** `dependency_out` as construction builds it from the forward lists. */
  function ReverseIndex(order: seq<TaskId>, fwd: map<TaskId, seq<TaskId>>): map<TaskId, seq<TaskId>>
    requires Covers(order, fwd)
  {
    if order == [] then map[]
    else
      var init, t := order[..|order| - 1], order[|order| - 1];
      assert forall u :: u in init ==> u in order;
      AddEdges(ReverseIndex(init, fwd), t, fwd[t])
  }

  /** `rev` is the inverse of the forward lists, multiplicities included. */
  ghost predicate IsReverseIndex(order: seq<TaskId>, fwd: map<TaskId, seq<TaskId>>, rev: map<TaskId, seq<TaskId>>) {
    && (forall d :: d in rev ==> rev[d] != [])
    && (forall d, u :: d in rev && u in rev[d] ==> u in order)
    && (forall d, u :: u in fwd ==> Count(Lookup(rev, d), u) == Count(fwd[u], d))
  }

  lemma {:induction false} AddEdgesCount(rev: map<TaskId, seq<TaskId>>, t: TaskId, ds: seq<TaskId>, d: TaskId, u: TaskId)
    ensures Count(Lookup(AddEdges(rev, t, ds), d), u)
         == Count(Lookup(rev, d), u) + (if u == t then Count(ds, d) else 0)
  {
    if ds != [] {
      var init, x := ds[..|ds| - 1], ds[|ds| - 1];
      var r := AddEdges(rev, t, init);
      AddEdgesCount(rev, t, init, d, u);
      assert ds == init + [x];
      CountConcat(init, [x], d);
      if d == x {
        CountConcat(Lookup(r, d), [t], u);
      }
    }
  }

  lemma {:induction false} AddEdgesNonEmpty(rev: map<TaskId, seq<TaskId>>, t: TaskId, ds: seq<TaskId>)
    requires forall d :: d in rev ==> rev[d] != []
    ensures forall d :: d in AddEdges(rev, t, ds) ==> AddEdges(rev, t, ds)[d] != []
  {
    if ds != [] {
      AddEdgesNonEmpty(rev, t, ds[..|ds| - 1]);
    }
  }

  lemma {:induction false} ReverseIndexCount(order: seq<TaskId>, fwd: map<TaskId, seq<TaskId>>, d: TaskId, u: TaskId)
    requires Distinct(order) && Covers(order, fwd)
    ensures Count(Lookup(ReverseIndex(order, fwd), d), u) == (if u in order then Count(fwd[u], d) else 0)
  {
    if order != [] {
      var init, t := order[..|order| - 1], order[|order| - 1];
      assert forall v :: v in init ==> v in order;
      assert order == init + [t];
      DistinctSnoc(init, t);
      ReverseIndexCount(init, fwd, d, u);
      AddEdgesCount(ReverseIndex(init, fwd), t, fwd[t], d, u);
    }
  }

  lemma {:induction false} ReverseIndexNonEmpty(order: seq<TaskId>, fwd: map<TaskId, seq<TaskId>>)
    requires Covers(order, fwd)
    ensures forall d :: d in ReverseIndex(order, fwd) ==> ReverseIndex(order, fwd)[d] != []
  {
    if order != [] {
      var init, t := order[..|order| - 1], order[|order| - 1];
      assert forall v :: v in init ==> v in order;
      ReverseIndexNonEmpty(init, fwd);
      AddEdgesNonEmpty(ReverseIndex(init, fwd), t, fwd[t]);
    }
  }

  /** `dependency_out` as built is the inverse of the forward lists: `u`
      appears in `dependency_out[d]` as often as `d` appears in `u`'s list,
      so in particular `u` is in `dependency_out[d]` exactly when `d` is a
      dependency of `u`. */
  lemma ReverseIndexIsInverse(order: seq<TaskId>, fwd: map<TaskId, seq<TaskId>>)
    requires Distinct(order) && (forall t :: t in fwd <==> t in order)
    ensures IsReverseIndex(order, fwd, ReverseIndex(order, fwd))
    ensures forall d, u :: u in order ==> (u in Lookup(ReverseIndex(order, fwd), d) <==> d in fwd[u])
  {
    var rev := ReverseIndex(order, fwd);
    ReverseIndexNonEmpty(order, fwd);
    forall d, u ensures Count(Lookup(rev, d), u) == (if u in order then Count(fwd[u], d) else 0) {
      ReverseIndexCount(order, fwd, d, u);
    }
    forall d, u | d in rev && u in rev[d] ensures u in order {
      assert Count(Lookup(rev, d), u) > 0;
    }
  }
}
