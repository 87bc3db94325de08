/** The state a BatchJob changes (src/master/jobmgr.py:9-128) as a value,
    the transitions its methods perform on it, and the invariant every
    transition keeps. The class BatchJobs.BatchJob holds the same state in
    fields and proves that each of its methods performs one of these
    transitions. */
module JobState {
  import opened Common
  import opened DependencyLists
  import opened TaskGraph

  /** `tasks[t]['status']`, `tasks[t]['dependency']` and `tasks_cnt`. */
  datatype Table = Table(status: map<TaskId, TaskStatus>, deps: map<TaskId, seq<TaskId>>, cnt: Counters)

  /** The tasks of `order` are distinct and are exactly the keys of every
      per-task dictionary. */
  ghost predicate Keyed(order: seq<TaskId>, declared: map<TaskId, seq<TaskId>>, tb: Table) {
    && Distinct(order)
    && (forall t :: t in tb.status <==> t in order)
    && tb.deps.Keys == tb.status.Keys
    && declared.Keys == tb.status.Keys
  }

  /** `rev` (`dependency_out`) is the inverse of the declared lists, and each
      current dependency list is the declared one less the tasks in
      `released`, the tasks whose completion has been propagated. */
  ghost predicate GraphOk(order: seq<TaskId>, declared: map<TaskId, seq<TaskId>>, rev: map<TaskId, seq<TaskId>>,
                          deps: map<TaskId, seq<TaskId>>, released: set<TaskId>)
  {
    && IsReverseIndex(order, declared, rev)
    && (forall t :: t in deps && t in declared ==> deps[t] == Without(declared[t], released))
  }

  /** Only a task whose dependency list is empty is ever scheduling, and a
      finished task's completion has been propagated. */
  ghost predicate StatusOk(tb: Table, released: set<TaskId>) {
    && (forall t :: t in tb.status && tb.status[t] == Scheduling ==> t in tb.deps && tb.deps[t] == [])
    && (forall t :: t in tb.status && tb.status[t] == Finished ==> t in released)
  }

  /** The invariant of a job's task state. */
  ghost predicate Inv(order: seq<TaskId>, declared: map<TaskId, seq<TaskId>>, rev: map<TaskId, seq<TaskId>>,
                      tb: Table, released: set<TaskId>)
  {
    && Keyed(order, declared, tb)
    && GraphOk(order, declared, rev, tb.deps, released)
    && StatusOk(tb, released)
    && CountsAgree(order, tb.status, tb.cnt)
  }

  /** The counter a transition to `s` files the task's unit under: 'failed'
      for a terminal error, the status's own counter otherwise. */
  function Target(s: TaskStatus, terminal: bool): Category {
    if terminal then CatFailed else CategoryOf(s)
  }

  /** Task `t` set to status `s`, one unit moved from the counter of its old
      status to `Target(s, terminal)`. */
  function SetStatus(tb: Table, t: TaskId, s: TaskStatus, terminal: bool): (r: Table)
    requires t in tb.status && HasAllCategories(tb.cnt)
    ensures r.status.Keys == tb.status.Keys && r.deps == tb.deps && HasAllCategories(r.cnt)
    ensures r.cnt[CatFailed] >= tb.cnt[CatFailed]
  {
    Table(tb.status[t := s], tb.deps, Move(tb.cnt, CategoryOf(tb.status[t]), Target(s, terminal)))
  }

  /** Every task of `ids` set to scheduling, one unit per task moved from
      'pending' to 'scheduling'. */
  function ScheduleAll(tb: Table, ids: seq<TaskId>): (r: Table)
    requires HasAllCategories(tb.cnt)
    ensures r.status.Keys == tb.status.Keys && r.deps == tb.deps && HasAllCategories(r.cnt)
    ensures r.cnt[CatFailed] == tb.cnt[CatFailed]
  {
    Table(MarkScheduling(tb.status, ids), tb.deps, ScheduleCount(tb.cnt, |ids|))
  }

  /** A table with the same tasks is keyed as well. */
  lemma KeyedFrame(order: seq<TaskId>, declared: map<TaskId, seq<TaskId>>, tb: Table, tb': Table)
    requires Keyed(order, declared, tb)
    requires tb'.status.Keys == tb.status.Keys && tb'.deps.Keys == tb.deps.Keys
    ensures Keyed(order, declared, tb')
  {
  }

  /** Setting a status keeps StatusOk under the conditions of SetStatusKeepsInv. */
  lemma SetStatusOk(tb: Table, released: set<TaskId>, t: TaskId, s: TaskStatus, terminal: bool)
    requires StatusOk(tb, released) && t in tb.status && t in tb.deps && HasAllCategories(tb.cnt)
    requires s == Scheduling ==> tb.deps[t] == []
    requires s == Finished ==> t in released
    ensures StatusOk(SetStatus(tb, t, s, terminal), released)
  {
  }

  /** Setting a status keeps the invariant, provided the new status is
      scheduling only for a task without dependencies and finished only for
      a task whose completion has been propagated. */
  lemma SetStatusKeepsInv(order: seq<TaskId>, declared: map<TaskId, seq<TaskId>>, rev: map<TaskId, seq<TaskId>>,
                          tb: Table, released: set<TaskId>, t: TaskId, s: TaskStatus, terminal: bool)
    requires Inv(order, declared, rev, tb, released)
    requires t in tb.status && (terminal ==> s.Errored?)
    requires s == Scheduling ==> tb.deps[t] == []
    requires s == Finished ==> t in released
    ensures Inv(order, declared, rev, SetStatus(tb, t, s, terminal), released)
  {
    var tb' := SetStatus(tb, t, s, terminal);
    KeyedFrame(order, declared, tb, tb');
    SetStatusOk(tb, released, t, s, terminal);
    SetStatusAgrees(order, tb.status, tb.cnt, t, s, terminal);
  }

  /** Scheduling pending tasks without dependencies keeps the invariant. */
  lemma ScheduleAllKeepsInv(order: seq<TaskId>, declared: map<TaskId, seq<TaskId>>, rev: map<TaskId, seq<TaskId>>,
                            tb: Table, released: set<TaskId>, ids: seq<TaskId>)
    requires Inv(order, declared, rev, tb, released)
    requires Distinct(ids)
    requires forall u :: u in ids ==> u in tb.status && tb.status[u] == Pending && tb.deps[u] == []
    ensures Inv(order, declared, rev, ScheduleAll(tb, ids), released)
  {
    ScheduleAgrees(order, tb.status, tb.cnt, ids);
  }

  /** The outcome of the loop of finish_task over `dependency_out[t]`: the
      table it leaves, the dependents it made ready in loop order, and
      whether it ran to the end (`false` when `list.remove` found `t`
      missing from a dependent's list and raised). */
  datatype Propagation = Propagation(table: Table, ids: seq<TaskId>, ok: bool)

  /** Every task of `outs` has a status and a dependency list. */
  predicate Tracks(tb: Table, outs: seq<TaskId>) {
    forall u :: u in outs ==> u in tb.status && u in tb.deps
  }

  /** Dependent `u` becomes ready when `t` leaves its list: it is pending
      and `t` was its last dependency. */
  predicate Fires(tb: Table, u: TaskId, t: TaskId)
    requires u in tb.status && u in tb.deps && t in tb.deps[u]
  {
    tb.status[u] == Pending && RemoveFirst(tb.deps[u], t) == []
  }

  /** One pass of that loop: the first `t` leaves `u`'s list, and `u` moves
      to scheduling, with one unit from 'pending' to 'scheduling', when it
      fires. */
  function Release(tb: Table, u: TaskId, t: TaskId): (r: Table)
    requires u in tb.status && u in tb.deps && t in tb.deps[u] && HasAllCategories(tb.cnt)
    ensures r.status.Keys == tb.status.Keys && r.deps.Keys == tb.deps.Keys && HasAllCategories(r.cnt)
  {
    var d := RemoveFirst(tb.deps[u], t);
    if Fires(tb, u, t) then Table(tb.status[u := Scheduling], tb.deps[u := d], ScheduleCount(tb.cnt, 1))
    else Table(tb.status, tb.deps[u := d], tb.cnt)
  }

  /** The loop over `outs`, the dependents of `t`, with `ids` the dependents
      made ready so far. */
  function Propagate(tb: Table, t: TaskId, outs: seq<TaskId>, ids: seq<TaskId>): (p: Propagation)
    requires Tracks(tb, outs) && HasAllCategories(tb.cnt)
    ensures p.table.status.Keys == tb.status.Keys && p.table.deps.Keys == tb.deps.Keys
    ensures HasAllCategories(p.table.cnt)
    decreases |outs|
  {
    if outs == [] then Propagation(tb, ids, true)
    else if t !in tb.deps[outs[0]] then Propagation(tb, ids, false)
    else
      var u := outs[0];
      Propagate(Release(tb, u, t), t, outs[1..], if Fires(tb, u, t) then ids + [u] else ids)
  }

  /** finish_task on a known task `t`: `t` becomes finished, then its
      completion propagates to its dependents, if it has any. */
  function Finish(rev: map<TaskId, seq<TaskId>>, tb: Table, t: TaskId): (p: Propagation)
    requires t in tb.status && HasAllCategories(tb.cnt) && Tracks(tb, Lookup(rev, t))
    ensures p.table.status.Keys == tb.status.Keys && p.table.deps.Keys == tb.deps.Keys
    ensures HasAllCategories(p.table.cnt)
  {
    var m := SetStatus(tb, t, Finished, false);
    if t !in rev then Propagation(m, [], true) else Propagate(m, t, rev[t], [])
  }

  /** The loop moves one counter unit from 'pending' to 'scheduling' per
      task it makes ready, whether or not it runs to the end. */
  lemma {:induction false} PropagateCounts(tb: Table, t: TaskId, outs: seq<TaskId>, ids: seq<TaskId>)
    requires Tracks(tb, outs) && HasAllCategories(tb.cnt)
    ensures var p := Propagate(tb, t, outs, ids);
      && |ids| <= |p.ids| && p.ids[..|ids|] == ids
      && p.table.cnt == ScheduleCount(tb.cnt, |p.ids| - |ids|)
    decreases |outs|
  {
    var p := Propagate(tb, t, outs, ids);
    if outs == [] || t !in tb.deps[outs[0]] {
      assert ScheduleCount(tb.cnt, 0) == tb.cnt;
    } else {
      var u := outs[0];
      var fires := Fires(tb, u, t);
      var ids' := if fires then ids + [u] else ids;
      var tb' := Release(tb, u, t);
      PropagateCounts(tb', t, outs[1..], ids');
      assert p == Propagate(tb', t, outs[1..], ids');
      assert p.ids[..|ids|] == p.ids[..|ids'|][..|ids|];
      var k := |p.ids| - |ids'|;
      assert p.table.cnt == ScheduleCount(tb'.cnt, k);
      if fires {
        assert tb'.cnt == ScheduleCount(tb.cnt, 1) && |ids'| == |ids| + 1;
        ScheduleCountAdd(tb.cnt, 1, k);
      } else {
        assert tb'.cnt == tb.cnt && |ids'| == |ids|;
      }
    }
  }

  /** Every dependent in `outs` still has `t` in its list at least as often
      as it occurs in `outs`. */
  predicate Bounded(tb: Table, t: TaskId, outs: seq<TaskId>)
    requires Tracks(tb, outs)
  {
    forall u :: u in outs ==> Count(outs, u) <= Count(tb.deps[u], t)
  }

  /** One pass of the loop keeps the rest of the loop bounded. */
  lemma ReleaseKeepsBounded(tb: Table, t: TaskId, outs: seq<TaskId>)
    requires outs != [] && Tracks(tb, outs) && HasAllCategories(tb.cnt) && Bounded(tb, t, outs)
    ensures t in tb.deps[outs[0]]
    ensures Count(outs[1..], outs[0]) == Count(outs, outs[0]) - 1
    ensures Tracks(Release(tb, outs[0], t), outs[1..]) && Bounded(Release(tb, outs[0], t), t, outs[1..])
  {
    var u, rest := outs[0], outs[1..];
    var tb' := Release(tb, u, t);
    assert Count(outs, u) == 1 + Count(rest, u);
    forall v | v in rest ensures Count(rest, v) <= Count(tb'.deps[v], t) {
      assert Count(outs, v) == (if u == v then 1 else 0) + Count(rest, v);
    }
  }

  /** The dependency lists after the whole loop, from those after the rest
      of it. */
  lemma DropStep(tb: Table, t: TaskId, outs: seq<TaskId>, d: map<TaskId, seq<TaskId>>)
    requires outs != [] && Tracks(tb, outs) && HasAllCategories(tb.cnt) && Bounded(tb, t, outs)
    requires t in tb.deps[outs[0]] && Bounded(Release(tb, outs[0], t), t, outs[1..])
    requires var tb' := Release(tb, outs[0], t);
      && (forall u :: u in tb'.deps && u !in outs[1..] ==> u in d && d[u] == tb'.deps[u])
      && (forall u :: u in outs[1..] ==> u in d && d[u] == DropFirst(tb'.deps[u], t, Count(outs[1..], u)))
    ensures forall u :: u in tb.deps && u !in outs ==> u in d && d[u] == tb.deps[u]
    ensures forall u :: u in outs ==> u in d && d[u] == DropFirst(tb.deps[u], t, Count(outs, u))
  {
    var u, rest := outs[0], outs[1..];
    forall v | v in outs ensures v in d && d[v] == DropFirst(tb.deps[v], t, Count(outs, v)) {
      assert Count(outs, v) == (if u == v then 1 else 0) + Count(rest, v);
    }
  }

  /** When the loop is bounded it runs to the end and takes exactly the
      counted copies of `t` out of the lists. */
  lemma {:induction false} PropagateDeps(tb: Table, t: TaskId, outs: seq<TaskId>, ids: seq<TaskId>)
    requires Tracks(tb, outs) && HasAllCategories(tb.cnt) && Bounded(tb, t, outs)
    ensures var p := Propagate(tb, t, outs, ids);
      && p.ok
      && (forall u :: u in tb.deps && u !in outs ==> p.table.deps[u] == tb.deps[u])
      && (forall u :: u in outs ==> p.table.deps[u] == DropFirst(tb.deps[u], t, Count(outs, u)))
    decreases |outs|
  {
    if outs != [] {
      var u, rest := outs[0], outs[1..];
      ReleaseKeepsBounded(tb, t, outs);
      var ids' := if Fires(tb, u, t) then ids + [u] else ids;
      var tb' := Release(tb, u, t);
      PropagateDeps(tb', t, rest, ids');
      var p := Propagate(tb', t, rest, ids');
      assert p == Propagate(tb, t, outs, ids);
      DropStep(tb, t, outs, p.table.deps);
    }
  }

  /** Under the same condition the loop makes ready exactly the dependents
      that were pending and are left without dependencies, each once, sets
      them to scheduling, and changes no other status. */
  lemma {:induction false} PropagateReady(tb: Table, t: TaskId, outs: seq<TaskId>, ids: seq<TaskId>)
    requires Tracks(tb, outs) && HasAllCategories(tb.cnt)
    requires Bounded(tb, t, outs)
    requires forall x :: x in ids ==> x !in outs && x in tb.status && tb.status[x] == Scheduling
    requires Distinct(ids)
    ensures var p := Propagate(tb, t, outs, ids);
      && Distinct(p.ids)
      && (forall u :: u in tb.status ==> p.table.status[u] == (if u in p.ids then Scheduling else tb.status[u]))
      && (forall u :: u in p.ids <==> u in ids || (u in outs && tb.status[u] == Pending && p.table.deps[u] == []))
    decreases |outs|
  {
    if outs != [] {
      var u, rest := outs[0], outs[1..];
      ReleaseKeepsBounded(tb, t, outs);
      var fires := Fires(tb, u, t);
      var ids' := if fires then ids + [u] else ids;
      var tb' := Release(tb, u, t);
      if fires {
        assert Count(rest, u) == 0;
        DistinctSnoc(ids, u);
      }
      PropagateReady(tb', t, rest, ids');
      PropagateDeps(tb', t, rest, ids');
      var p := Propagate(tb', t, rest, ids');
      assert p == Propagate(tb, t, outs, ids);
      forall v ensures v in p.ids <==> v in ids || (v in outs && tb.status[v] == Pending && p.table.deps[v] == []) {
        if v == u && u !in rest {
          assert p.table.deps[u] == RemoveFirst(tb.deps[u], t);
        }
      }
    }
  }

  /** Under the invariant, finishing a task whose completion has not been
      propagated starts a bounded loop: each dependent holds `t` exactly as
      often as it occurs in `dependency_out[t]`. */
  lemma FinishBounded(order: seq<TaskId>, declared: map<TaskId, seq<TaskId>>, rev: map<TaskId, seq<TaskId>>,
                      tb: Table, released: set<TaskId>, t: TaskId)
    requires Inv(order, declared, rev, tb, released) && t in tb.status
    ensures Tracks(tb, Lookup(rev, t))
    ensures t !in released ==> forall u :: u in tb.deps ==> Count(Lookup(rev, t), u) == Count(tb.deps[u], t)
    ensures t !in released ==> Bounded(SetStatus(tb, t, Finished, false), t, Lookup(rev, t))
  {
    if t !in released {
      forall u | u in tb.deps ensures Count(Lookup(rev, t), u) == Count(tb.deps[u], t) {
        CountWithout(declared[u], released, t);
      }
    }
  }

  /** finish_task's loop fails exactly when `t`'s completion was already
      propagated and `t` has dependents: `list.remove` then raises on the
      first of them, before anything but `t`'s own status has changed. */
  lemma FinishFailsIff(order: seq<TaskId>, declared: map<TaskId, seq<TaskId>>, rev: map<TaskId, seq<TaskId>>,
                       tb: Table, released: set<TaskId>, t: TaskId)
    requires Inv(order, declared, rev, tb, released) && t in tb.status
    ensures Tracks(tb, Lookup(rev, t))
    ensures var p := Finish(rev, tb, t);
      && (p.ok <==> t !in released || t !in rev)
      && (!p.ok ==> p.table == SetStatus(tb, t, Finished, false) && p.ids == [])
  {
    FinishBounded(order, declared, rev, tb, released, t);
    var m := SetStatus(tb, t, Finished, false);
    if t in rev {
      if t !in released {
        PropagateDeps(m, t, rev[t], []);
      } else {
        var u := rev[t][0];
        assert u in rev[t];
        assert t !in m.deps[u];
      }
    }
  }

  /** After a successful finish_task every dependency list has lost every
      copy of `t`, and so holds the declared dependencies less the tasks
      released so far and `t`. */
  lemma FinishDeps(order: seq<TaskId>, declared: map<TaskId, seq<TaskId>>, rev: map<TaskId, seq<TaskId>>,
                   tb: Table, released: set<TaskId>, t: TaskId)
    requires Inv(order, declared, rev, tb, released) && t in tb.status
    requires t !in released || t !in rev
    ensures Tracks(tb, Lookup(rev, t))
    ensures var p := Finish(rev, tb, t);
      && (forall u :: u in tb.deps ==> p.table.deps[u] == Without(tb.deps[u], {t}))
      && (forall u :: u in tb.deps ==> p.table.deps[u] == Without(declared[u], released + {t}))
  {
    FinishBounded(order, declared, rev, tb, released, t);
    var m := SetStatus(tb, t, Finished, false);
    var outs := Lookup(rev, t);
    var p := Finish(rev, tb, t);
    if t in rev {
      PropagateDeps(m, t, outs, []);
    }
    forall u | u in tb.deps
      ensures p.table.deps[u] == Without(tb.deps[u], {t}) == Without(declared[u], released + {t})
    {
      WithoutTwice(declared[u], released, {t});
      if t in tb.deps[u] {
        assert t !in released && u in outs;
        DropAllIsWithout(tb.deps[u], t);
      } else {
        WithoutAbsent(tb.deps[u], {t});
      }
    }
  }

  /** The tasks a successful finish_task returns are exactly the dependents
      of `t` other than `t` that were pending and are left without
      dependencies, each once; they and only they become scheduling, `t`
      becomes finished, and the counters move one unit from `t`'s old
      status to 'finished' and one per returned task from 'pending' to
      'scheduling'. */
  lemma FinishReady(order: seq<TaskId>, declared: map<TaskId, seq<TaskId>>, rev: map<TaskId, seq<TaskId>>,
                    tb: Table, released: set<TaskId>, t: TaskId)
    requires Inv(order, declared, rev, tb, released) && t in tb.status
    requires t !in released || t !in rev
    ensures Tracks(tb, Lookup(rev, t))
    ensures ReturnsReady(rev, tb, t) && MarksReady(rev, tb, t) && CountsReady(rev, tb, t)
  {
    FinishBounded(order, declared, rev, tb, released, t);
    FinishReturnsReady(rev, tb, t);
    FinishMarksReady(rev, tb, t);
    FinishCountsReady(rev, tb, t);
  }

  /** The tasks finish_task returns: each dependent of `t` other than `t`
      that was pending and is left without dependencies, once. */
  ghost predicate ReturnsReady(rev: map<TaskId, seq<TaskId>>, tb: Table, t: TaskId)
    requires t in tb.status && HasAllCategories(tb.cnt) && Tracks(tb, Lookup(rev, t))
  {
    var p := Finish(rev, tb, t);
    && Distinct(p.ids)
    && (forall u :: u in p.ids <==> u != t && u in Lookup(rev, t) && tb.status[u] == Pending && p.table.deps[u] == [])
  }

  /** The statuses after finish_task: `t` finished, the returned tasks
      scheduling, every other status as it was. */
  ghost predicate MarksReady(rev: map<TaskId, seq<TaskId>>, tb: Table, t: TaskId)
    requires t in tb.status && HasAllCategories(tb.cnt) && Tracks(tb, Lookup(rev, t))
  {
    var p := Finish(rev, tb, t);
    forall u :: u in tb.status ==>
      p.table.status[u] == (if u in p.ids then Scheduling else if u == t then Finished else tb.status[u])
  }

  /** The counters after finish_task: one unit from `t`'s old status to
      'finished', one per returned task from 'pending' to 'scheduling'. */
  ghost predicate CountsReady(rev: map<TaskId, seq<TaskId>>, tb: Table, t: TaskId)
    requires t in tb.status && HasAllCategories(tb.cnt) && Tracks(tb, Lookup(rev, t))
  {
    var p := Finish(rev, tb, t);
    p.table.cnt == ScheduleCount(Move(tb.cnt, CategoryOf(tb.status[t]), CatFinished), |p.ids|)
  }

  lemma FinishReturnsReady(rev: map<TaskId, seq<TaskId>>, tb: Table, t: TaskId)
    requires t in tb.status && HasAllCategories(tb.cnt) && Tracks(tb, Lookup(rev, t))
    requires t in rev ==> Bounded(SetStatus(tb, t, Finished, false), t, rev[t])
    ensures ReturnsReady(rev, tb, t)
  {
    if t in rev {
      var m := SetStatus(tb, t, Finished, false);
      assert Finish(rev, tb, t) == Propagate(m, t, rev[t], []);
      PropagateReady(m, t, rev[t], []);
    }
  }

  lemma FinishMarksReady(rev: map<TaskId, seq<TaskId>>, tb: Table, t: TaskId)
    requires t in tb.status && HasAllCategories(tb.cnt) && Tracks(tb, Lookup(rev, t))
    requires t in rev ==> Bounded(SetStatus(tb, t, Finished, false), t, rev[t])
    ensures MarksReady(rev, tb, t)
  {
    if t in rev {
      var m := SetStatus(tb, t, Finished, false);
      assert Finish(rev, tb, t) == Propagate(m, t, rev[t], []);
      PropagateReady(m, t, rev[t], []);
    }
  }

  lemma FinishCountsReady(rev: map<TaskId, seq<TaskId>>, tb: Table, t: TaskId)
    requires t in tb.status && HasAllCategories(tb.cnt) && Tracks(tb, Lookup(rev, t))
    ensures CountsReady(rev, tb, t)
  {
    var m := SetStatus(tb, t, Finished, false);
    assert m.cnt == Move(tb.cnt, CategoryOf(tb.status[t]), CatFinished);
    var p := Finish(rev, tb, t);
    if t in rev {
      assert p == Propagate(m, t, rev[t], []);
      PropagateCounts(m, t, rev[t], []);
      assert p.table.cnt == ScheduleCount(m.cnt, |p.ids|);
    } else {
      ScheduleCountZero(m.cnt);
    }
  }

  /** finish_task's table before its returned tasks are scheduled: `t`
      finished, the dependency lists as the loop leaves them. */
  function Unscheduled(rev: map<TaskId, seq<TaskId>>, tb: Table, t: TaskId): (r: Table)
    requires t in tb.status && HasAllCategories(tb.cnt) && Tracks(tb, Lookup(rev, t))
    ensures HasAllCategories(r.cnt)
  {
    var m := SetStatus(tb, t, Finished, false);
    Table(m.status, Finish(rev, tb, t).table.deps, m.cnt)
  }

  /** A successful finish_task schedules its returned tasks on top of that. */
  lemma FinishIsSchedule(rev: map<TaskId, seq<TaskId>>, tb: Table, t: TaskId)
    requires t in tb.status && HasAllCategories(tb.cnt) && Tracks(tb, Lookup(rev, t))
    requires MarksReady(rev, tb, t) && CountsReady(rev, tb, t)
    ensures Finish(rev, tb, t).table == ScheduleAll(Unscheduled(rev, tb, t), Finish(rev, tb, t).ids)
  {
    var p, q := Finish(rev, tb, t), Unscheduled(rev, tb, t);
    assert p.table.status == MarkScheduling(q.status, p.ids);
  }

  /** Its dependency lists agree with the declared ones once `t` is
      released. */
  lemma UnscheduledGraphOk(order: seq<TaskId>, declared: map<TaskId, seq<TaskId>>, rev: map<TaskId, seq<TaskId>>,
                           tb: Table, released: set<TaskId>, t: TaskId)
    requires Inv(order, declared, rev, tb, released) && t in tb.status
    requires t !in released || t !in rev
    ensures Tracks(tb, Lookup(rev, t))
    ensures GraphOk(order, declared, rev, Unscheduled(rev, tb, t).deps, released + {t})
  {
    FinishDeps(order, declared, rev, tb, released, t);
  }

  /** Only tasks without dependencies are scheduling in it, and `t` is
      released. */
  lemma UnscheduledStatusOk(rev: map<TaskId, seq<TaskId>>, tb: Table, released: set<TaskId>, t: TaskId)
    requires t in tb.status && HasAllCategories(tb.cnt) && Tracks(tb, Lookup(rev, t))
    requires StatusOk(tb, released) && tb.deps.Keys == tb.status.Keys
    requires forall u :: u in tb.deps ==> Finish(rev, tb, t).table.deps[u] == Without(tb.deps[u], {t})
    ensures StatusOk(Unscheduled(rev, tb, t), released + {t})
  {
    var q := Unscheduled(rev, tb, t);
    assert q.status == tb.status[t := Finished];
    forall u | u in q.status && q.status[u] == Scheduling ensures u in q.deps && q.deps[u] == [] {
      assert tb.status[u] == Scheduling;
    }
  }

  /** That table keeps the invariant with `t` released. */
  lemma UnscheduledKeepsInv(order: seq<TaskId>, declared: map<TaskId, seq<TaskId>>, rev: map<TaskId, seq<TaskId>>,
                            tb: Table, released: set<TaskId>, t: TaskId)
    requires Inv(order, declared, rev, tb, released) && t in tb.status
    requires t !in released || t !in rev
    ensures Tracks(tb, Lookup(rev, t))
    ensures Inv(order, declared, rev, Unscheduled(rev, tb, t), released + {t})
  {
    FinishBounded(order, declared, rev, tb, released, t);
    var q := Unscheduled(rev, tb, t);
    KeyedFrame(order, declared, tb, q);
    UnscheduledGraphOk(order, declared, rev, tb, released, t);
    FinishDeps(order, declared, rev, tb, released, t);
    UnscheduledStatusOk(rev, tb, released, t);
    SetStatusAgrees(order, tb.status, tb.cnt, t, Finished, false);
  }

  /** The tasks a successful finish_task returns can be scheduled on top of
      its unscheduled table. */
  lemma ReturnedSchedulable(rev: map<TaskId, seq<TaskId>>, tb: Table, t: TaskId)
    requires t in tb.status && HasAllCategories(tb.cnt) && Tracks(tb, Lookup(rev, t))
    requires ReturnsReady(rev, tb, t)
    ensures var q, ids := Unscheduled(rev, tb, t), Finish(rev, tb, t).ids;
      && Distinct(ids)
      && forall u :: u in ids ==> u in q.status && q.status[u] == Pending && q.deps[u] == []
  {
  }

  /** A successful finish_task keeps the invariant with `t` released. */
  lemma FinishOkKeepsInv(order: seq<TaskId>, declared: map<TaskId, seq<TaskId>>, rev: map<TaskId, seq<TaskId>>,
                         tb: Table, released: set<TaskId>, t: TaskId)
    requires Inv(order, declared, rev, tb, released) && t in tb.status
    requires t !in released || t !in rev
    ensures Tracks(tb, Lookup(rev, t))
    ensures Inv(order, declared, rev, Finish(rev, tb, t).table, released + {t})
  {
    FinishReady(order, declared, rev, tb, released, t);
    UnscheduledKeepsInv(order, declared, rev, tb, released, t);
    FinishIsSchedule(rev, tb, t);
    ReturnedSchedulable(rev, tb, t);
    ScheduleAllKeepsInv(order, declared, rev, Unscheduled(rev, tb, t), released + {t}, Finish(rev, tb, t).ids);
  }

  /** finish_task keeps the invariant, with `t` added to the released tasks
      when its loop runs to the end. */
  lemma FinishKeepsInv(order: seq<TaskId>, declared: map<TaskId, seq<TaskId>>, rev: map<TaskId, seq<TaskId>>,
                       tb: Table, released: set<TaskId>, t: TaskId)
    requires Inv(order, declared, rev, tb, released) && t in tb.status
    ensures Tracks(tb, Lookup(rev, t))
    ensures var p := Finish(rev, tb, t);
      Inv(order, declared, rev, p.table, if p.ok then released + {t} else released)
  {
    FinishFailsIff(order, declared, rev, tb, released, t);
    if t in released && t in rev {
      SetStatusKeepsInv(order, declared, rev, tb, released, t, Finished, false);
    } else {
      FinishOkKeepsInv(order, declared, rev, tb, released, t);
    }
  }

  /** The table right after construction: every task pending with its
      declared dependency list, all counter units under 'pending'. */
  function InitialTable(order: seq<TaskId>, declared: map<TaskId, seq<TaskId>>): (r: Table)
    ensures r.status.Keys == r.deps.Keys == declared.Keys
    ensures forall t :: t in r.status ==> r.status[t] == Pending
  {
    Table(map t | t in declared :: Pending, declared, InitialCounters(|order|))
  }

  /** Construction establishes the invariant, with no task released yet and
      `dependency_out` the reverse index of the declared lists. */
  lemma InitialInv(order: seq<TaskId>, declared: map<TaskId, seq<TaskId>>)
    requires Distinct(order) && forall t :: t in declared <==> t in order
    ensures Inv(order, declared, ReverseIndex(order, declared), InitialTable(order, declared), {})
  {
    var tb := InitialTable(order, declared);
    ReverseIndexIsInverse(order, declared);
    InitialCountsAgree(order, tb.status);
    forall t | t in declared ensures declared[t] == Without(declared[t], {}) {
      WithoutAbsent(declared[t], {});
    }
  }

  /** `get_tasks_no_dependency(update_status=True)` on a table: every task
      of `order` that is pending without dependencies becomes scheduling. */
  function Schedule(order: seq<TaskId>, tb: Table): (r: Table)
    requires Covers(order, tb.status) && Covers(order, tb.deps) && HasAllCategories(tb.cnt)
    ensures r.status.Keys == tb.status.Keys && r.deps == tb.deps && HasAllCategories(r.cnt)
  {
    ScheduleAll(tb, ReadyIds(order, tb.status, tb.deps))
  }

  /** That scan keeps the invariant. */
  lemma ScheduleKeepsInv(order: seq<TaskId>, declared: map<TaskId, seq<TaskId>>, rev: map<TaskId, seq<TaskId>>,
                         tb: Table, released: set<TaskId>)
    requires Inv(order, declared, rev, tb, released)
    ensures Inv(order, declared, rev, Schedule(order, tb), released)
  {
    var ids := ReadyIds(order, tb.status, tb.deps);
    ReadyIdsMembers(order, tb.status, tb.deps);
    ReadyIdsDistinct(order, tb.status, tb.deps);
    ScheduleAllKeepsInv(order, declared, rev, tb, released, ids);
  }

  /** When no task is ready the scan changes nothing. */
  lemma ScheduleNothing(tb: Table)
    requires HasAllCategories(tb.cnt)
    ensures ScheduleAll(tb, []) == tb
  {
    ScheduleCountZero(tb.cnt);
    assert MarkScheduling(tb.status, []) == tb.status;
  }

  /** The scan moves no task with a non-empty dependency list to
      scheduling. */
  lemma ScheduleNeedsNoDeps(order: seq<TaskId>, tb: Table)
    requires Covers(order, tb.status) && Covers(order, tb.deps) && HasAllCategories(tb.cnt)
    ensures var r := Schedule(order, tb);
      forall u :: u in tb.status && r.status[u] == Scheduling && tb.status[u] != Scheduling ==> tb.deps[u] == []
  {
    ReadyIdsMembers(order, tb.status, tb.deps);
  }

  /** Every task that is scheduling in `r` but was not in `tb` is left
      without dependencies in `r`, and had no dependency but `t` in `tb`. */
  ghost predicate ScheduledFree(tb: Table, r: Table, t: TaskId) {
    forall u ::
      (u in tb.status && u in tb.deps && u in r.status && u in r.deps &&
       r.status[u] == Scheduling && tb.status[u] != Scheduling) ==>
        r.deps[u] == [] && Without(tb.deps[u], {t}) == []
  }

  /** A finish_task whose loop raises schedules nothing. */
  lemma FailedFinishFree(tb: Table, t: TaskId)
    requires t in tb.status && HasAllCategories(tb.cnt)
    ensures ScheduledFree(tb, SetStatus(tb, t, Finished, false), t)
  {
  }

  /** A successful one schedules only its returned tasks. */
  lemma ReadyHadOnlyT(rev: map<TaskId, seq<TaskId>>, tb: Table, t: TaskId)
    requires t in tb.status && HasAllCategories(tb.cnt) && Tracks(tb, Lookup(rev, t))
    requires tb.deps.Keys == tb.status.Keys
    requires ReturnsReady(rev, tb, t) && MarksReady(rev, tb, t)
    requires forall u :: u in tb.deps ==> Finish(rev, tb, t).table.deps[u] == Without(tb.deps[u], {t})
    ensures ScheduledFree(tb, Finish(rev, tb, t).table, t)
  {
  }

  /** Nor does finish_task move such a task to scheduling: a task it
      schedules is left with an empty list, and had no dependency but `t`
      before. */
  lemma FinishNeedsNoDeps(order: seq<TaskId>, declared: map<TaskId, seq<TaskId>>,
                          rev: map<TaskId, seq<TaskId>>, tb: Table, released: set<TaskId>, t: TaskId)
    requires Inv(order, declared, rev, tb, released) && t in tb.status
    ensures Tracks(tb, Lookup(rev, t))
    ensures ScheduledFree(tb, Finish(rev, tb, t).table, t)
  {
    FinishFailsIff(order, declared, rev, tb, released, t);
    if t !in released || t !in rev {
      FinishReady(order, declared, rev, tb, released, t);
      FinishDeps(order, declared, rev, tb, released, t);
      ReadyHadOnlyT(rev, tb, t);
    } else {
      FailedFinishFree(tb, t);
    }
  }

  /** The job status finish_task computes right after `t` becomes finished
      is the status of the counters it leaves: the moves from 'pending' to
      'scheduling' that follow change none of the counters the status
      depends on. */
  lemma FinishKeepsJobStatus(rev: map<TaskId, seq<TaskId>>, tb: Table, t: TaskId, allcnt: int)
    requires t in tb.status && HasAllCategories(tb.cnt) && Tracks(tb, Lookup(rev, t))
    ensures JobStatusOf(Finish(rev, tb, t).table.cnt, allcnt) == JobStatusOf(SetStatus(tb, t, Finished, false).cnt, allcnt)
  {
    if t in rev {
      PropagateKeepsJobStatus(SetStatus(tb, t, Finished, false), t, rev[t], allcnt);
    }
  }

  /** The loop over the dependents leaves the job status as it found it. */
  lemma PropagateKeepsJobStatus(tb: Table, t: TaskId, outs: seq<TaskId>, allcnt: int)
    requires Tracks(tb, outs) && HasAllCategories(tb.cnt)
    ensures JobStatusOf(Propagate(tb, t, outs, []).table.cnt, allcnt) == JobStatusOf(tb.cnt, allcnt)
  {
    PropagateCounts(tb, t, outs, []);
    ScheduleKeepsJobStatus(tb.cnt, |Propagate(tb, t, outs, []).ids|, allcnt);
  }

  /** Scheduling one more task that the earlier ones did not include. */
  lemma ScheduleAllSnoc(tb: Table, ids: seq<TaskId>, t: TaskId)
    requires HasAllCategories(tb.cnt) && t in tb.status && t !in ids
    ensures ScheduleAll(tb, ids).status[t] == tb.status[t]
    ensures ScheduleAll(tb, ids + [t]) == Table(ScheduleAll(tb, ids).status[t := Scheduling], tb.deps,
                                                ScheduleCount(ScheduleAll(tb, ids).cnt, 1))
  {
    MarkSchedulingSnoc(tb.status, ids, t);
    ScheduleCountAdd(tb.cnt, |ids|, 1);
  }
}
