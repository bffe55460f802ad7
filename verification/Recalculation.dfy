/** Recalculating a project schedule as a whole (core/modules/project_management/services/
    scheduling/engine.py, results.py): both passes, the dates written back, and doing it again. */
module Recalculation {
  import opened Text
  import opened WorkCalendar
  import opened DependencyGraph
  import opened ForwardPass
  import opened BackwardPass

  // ----- the whole recalculation -------------------------------------------------------------------

  /** `build_schedule_result` stores the early start as the start date, unless there is an
      actual start. */
  function Written(task: Task, d: Dates): Task {
    if task.actualStart.None? then task.(start := d.es) else task
  }

  function WrittenBack(tasks: map<Id, Task>, m: Schedule): map<Id, Task> {
    map t | t in tasks :: Written(tasks[t], DatesOf(m, t))
  }

  ghost predicate OrderedBy(tasks: map<Id, Task>, deps: seq<Dependency>, order: seq<Id>) {
    Closed(tasks, deps) && Topological(deps, order) && Distinct(order) && Done(order) == tasks.Keys
  }

  /** The outcome and the late dates of a recalculation. */
  ghost predicate Recalculated(cal: Calendar, tasks: map<Id, Task>, deps: seq<Dependency>, r: Outcome, late: LateDates) {
    var known := Filtered(tasks, deps);
    && (r.CircularDependency? <==> tasks != map[] && HasCycle(known))
    && (r.NothingDated? <==> tasks != map[] && !HasCycle(known) && forall t :: t in tasks ==> !Anchored(tasks[t]))
    && (r.Scheduled? ==> Solves(cal, tasks, known, r.dates))
    && (r.Scheduled? && tasks == map[] ==> r.finish.None? && late == map[])
    && (r.Scheduled? && tasks != map[] ==>
          && (exists order :: OrderedBy(tasks, known, order))
          && r.finish.Some? && LatestFinishOf(r.dates, r.finish.value)
          && SolvesLate(cal, tasks, known, r.dates, r.finish.value, late))
  }

  /** `recalculate_project_schedule`: both passes, and the dates written back into the tasks. */
  method RecalculateProjectSchedule(cal: Calendar, tasks: map<Id, Task>, deps: seq<Dependency>)
    returns (r: Outcome, late: LateDates, written: map<Id, Task>)
    requires cal.Valid()
    ensures Recalculated(cal, tasks, deps, r, late)
    ensures written == if r.Scheduled? then WrittenBack(tasks, r.dates) else tasks
  {
    var graph;
    r, graph := ScheduleProject(cal, tasks, deps);
    late, written := map[], tasks;
    if r.Scheduled? {
      if tasks != map[] {
        late := RunBackwardPass(cal, tasks, Filtered(tasks, deps), graph.order, graph.byPredecessor, r.dates, r.finish.value);
        assert OrderedBy(tasks, Filtered(tasks, deps), graph.order);
      }
      written := WriteBack(tasks, r.dates);
    }
  }

  /** The loop of `build_schedule_result`, over the tasks in any order. */
  method WriteBack(tasks: map<Id, Task>, m: Schedule) returns (written: map<Id, Task>)
    ensures written == WrittenBack(tasks, m)
  {
    written := tasks;
    var todo := tasks.Keys;
    while todo != {}
      invariant todo <= tasks.Keys && written.Keys == tasks.Keys
      invariant forall t :: t in tasks ==> written[t] == if t in todo then tasks[t] else Written(tasks[t], DatesOf(m, t))
      decreases todo
    {
      var t :| t in todo;
      if written[t].actualStart.None? {
        written := written[t := written[t].(start := DatesOf(m, t).es)];
      }
      todo := todo - {t};
    }
  }

  // ----- recalculating again --------------------------------------------------------------------------

  lemma WrittenDatesStay(cal: Calendar, task: Task, links: seq<Dependency>, m: Schedule)
    ensures var d := Computed(cal, task, links, m); Computed(cal, Written(task, d), links, m) == d
    ensures var d := Computed(cal, task, links, m); Written(Written(task, d), d) == Written(task, d)
  {
  }

  /** The dates also solve the project into which they were written. */
  lemma WrittenSolves(cal: Calendar, tasks: map<Id, Task>, deps: seq<Dependency>, m: Schedule)
    requires Solves(cal, tasks, deps, m)
    ensures Solves(cal, WrittenBack(tasks, m), deps, m)
  {
    var written := WrittenBack(tasks, m);
    forall t | t in written ensures Follows(cal, written, deps, m, t) {
      assert Follows(cal, tasks, deps, m, t);
      WrittenDatesStay(cal, tasks[t], Incoming(deps, t), m);
    }
  }

  lemma WrittenSolvesLate(cal: Calendar, tasks: map<Id, Task>, deps: seq<Dependency>, m: Schedule, finish: int, late: LateDates)
    requires SolvesLate(cal, tasks, deps, m, finish, late)
    ensures SolvesLate(cal, WrittenBack(tasks, m), deps, m, finish, late)
  {
    var written := WrittenBack(tasks, m);
    forall t | t in written ensures FollowsLate(cal, written, deps, m, finish, late, t) {
      assert FollowsLate(cal, tasks, deps, m, finish, late, t);
    }
  }

  lemma {:induction false} SameFilter(tasks: map<Id, Task>, others: map<Id, Task>, deps: seq<Dependency>)
    requires tasks.Keys == others.Keys
    ensures Filtered(tasks, deps) == Filtered(others, deps)
  {
    if deps != [] { SameFilter(tasks, others, deps[..|deps| - 1]); }
  }

  ghost predicate LateAgreeFrom(order: seq<Id>, m: LateDates, n: LateDates, k: nat)
    requires k <= |order|
  {
    forall j :: k <= j < |order| ==> LateAt(m, order[j]) == LateAt(n, order[j])
  }

  lemma {:induction false} LateSolutionsAgree(cal: Calendar, tasks: map<Id, Task>, deps: seq<Dependency>, order: seq<Id>,
                                              early: Schedule, finish: int, m: LateDates, n: LateDates, k: nat)
    requires Closed(tasks, deps) && Topological(deps, order) && Distinct(order) && Done(order) == tasks.Keys && k <= |order|
    requires SolvesLate(cal, tasks, deps, early, finish, m) && SolvesLate(cal, tasks, deps, early, finish, n)
    ensures LateAgreeFrom(order, m, n, k)
    decreases |order| - k
  {
    if k < |order| {
      var t, out := order[k], Outgoing(deps, order[k]);
      LateSolutionsAgree(cal, tasks, deps, order, early, finish, m, n, k + 1);
      assert t in Done(order);
      forall i | 0 <= i < |out| ensures LateAt(m, out[i].successor) == LateAt(n, out[i].successor) {
        OutgoingLinks(deps, t, i);
        var at := SuccessorComesLater(deps, order, k, out[i]);
      }
      EarliestDependsOnSuccessors(cal, out, m, n, true);
      EarliestDependsOnSuccessors(cal, out, m, n, false);
      assert FollowsLate(cal, tasks, deps, early, finish, m, t) && FollowsLate(cal, tasks, deps, early, finish, n, t);
    }
  }

  /** Without cycles there is one solution for the late dates, too. */
  lemma LateDatesAreUnique(cal: Calendar, tasks: map<Id, Task>, deps: seq<Dependency>, order: seq<Id>,
                           early: Schedule, finish: int, m: LateDates, n: LateDates)
    requires Closed(tasks, deps) && Topological(deps, order) && Distinct(order) && Done(order) == tasks.Keys
    requires SolvesLate(cal, tasks, deps, early, finish, m) && SolvesLate(cal, tasks, deps, early, finish, n)
    ensures m == n
  {
    LateSolutionsAgree(cal, tasks, deps, order, early, finish, m, n, 0);
    forall t | t in tasks ensures m[t] == n[t] {
      assert t in Done(order);
      var j :| 0 <= j < |order| && order[j] == t;
      assert LateAt(m, order[j]) == LateAt(n, order[j]);
    }
  }

  lemma WrittenIsAnchored(cal: Calendar, tasks: map<Id, Task>, deps: seq<Dependency>, m: Schedule, finish: int)
    requires Solves(cal, tasks, deps, m) && LatestFinishOf(m, finish)
    ensures exists t :: t in WrittenBack(tasks, m) && Anchored(WrittenBack(tasks, m)[t])
  {
    var t :| t in m && m[t].ef == Some(finish);
    assert Follows(cal, tasks, deps, m, t);
    assert Anchored(WrittenBack(tasks, m)[t]);
  }

  /** The written project has the same solutions and no others. */
  lemma SolutionsStay(cal: Calendar, tasks: map<Id, Task>, deps: seq<Dependency>, m: Schedule, finish: int, late: LateDates,
                      n: Schedule, finishAgain: int, lateAgain: LateDates)
    requires exists order :: OrderedBy(tasks, deps, order)
    requires Solves(cal, tasks, deps, m) && LatestFinishOf(m, finish) && SolvesLate(cal, tasks, deps, m, finish, late)
    requires Solves(cal, WrittenBack(tasks, m), deps, n) && LatestFinishOf(n, finishAgain)
    requires SolvesLate(cal, WrittenBack(tasks, m), deps, n, finishAgain, lateAgain)
    ensures n == m && finishAgain == finish && lateAgain == late
  {
    var order :| OrderedBy(tasks, deps, order);
    var written := WrittenBack(tasks, m);
    WrittenSolves(cal, tasks, deps, m);
    ScheduleIsUnique(cal, written, deps, order, m, n);
    WrittenSolvesLate(cal, tasks, deps, m, finish, late);
    LateDatesAreUnique(cal, written, deps, order, m, finish, late, lateAgain);
  }

  lemma WrittenTwice(tasks: map<Id, Task>, m: Schedule)
    ensures WrittenBack(WrittenBack(tasks, m), m) == WrittenBack(tasks, m)
  {
  }

  /** Recalculating a project whose dates have just been written back gives the same outcome,
      the same late dates and the same tasks again. */
  lemma RecalculatingAgainChangesNothing(cal: Calendar, tasks: map<Id, Task>, deps: seq<Dependency>,
                                         r: Outcome, late: LateDates, again: Outcome, lateAgain: LateDates)
    requires Recalculated(cal, tasks, deps, r, late) && r.Scheduled?
    requires Recalculated(cal, WrittenBack(tasks, r.dates), deps, again, lateAgain)
    ensures again == r && lateAgain == late && WrittenBack(WrittenBack(tasks, r.dates), again.dates) == WrittenBack(tasks, r.dates)
  {
    var written, known := WrittenBack(tasks, r.dates), Filtered(tasks, deps);
    SameFilter(tasks, written, deps);
    WrittenTwice(tasks, r.dates);
    if tasks == map[] {
      assert written == map[] && r.dates.Keys == {};
      assert again.Scheduled? && again.dates.Keys == {};
    } else {
      assert written.Keys == tasks.Keys != {};
      WrittenIsAnchored(cal, tasks, known, r.dates, r.finish.value);
      SolutionsStay(cal, tasks, known, r.dates, r.finish.value, late, again.dates, again.finish.value, lateAgain);
    }
  }

  /** What is written back stands on its own: with all links removed, a task that has not
      actually started keeps the dates it was given; a task that has is not written at all. */
  lemma WrittenDatesStand(cal: Calendar, tasks: map<Id, Task>, deps: seq<Dependency>, m: Schedule, n: Schedule, t: Id)
    requires Solves(cal, tasks, deps, m) && Solves(cal, WrittenBack(tasks, m), [], n)
    requires t in tasks
    ensures tasks[t].actualStart.None? ==> n[t] == m[t]
    ensures tasks[t].actualStart.Some? ==> WrittenBack(tasks, m)[t] == tasks[t]
  {
    assert Follows(cal, tasks, deps, m, t) && Follows(cal, WrittenBack(tasks, m), [], n, t);
    WrittenDatesStay(cal, tasks[t], Incoming(deps, t), m);
    assert Incoming([], t) == [];
  }
}
