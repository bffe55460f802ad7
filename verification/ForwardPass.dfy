/** The forward pass of the project scheduler (core/modules/project_management/services/
    scheduling/passes.py, engine.py, date_compute.py): earliest dates from links. */
module ForwardPass {
  import opened Text
  import opened WorkCalendar
  import opened DependencyGraph

  datatype Dates = Dates(es: Option<int>, ef: Option<int>)

  const UNDATED: Dates := Dates(None, None)

  type Schedule = map<Id, Dates>

  function DatesOf(m: Schedule, t: Id): Dates {
    if t in m then m[t] else UNDATED
  }

  // ----- one task --------------------------------------------------------------------------

  /** The predecessor's date that a link of this type starts from. */
  function Origin(link: LinkType, d: Dates): Option<int> {
    if link.FinishToStart? || link.FinishToFinish? then d.ef else d.es
  }

  predicate BoundsFinish(link: LinkType) {
    link.FinishToFinish? || link.StartToFinish?
  }

  /** The start date that one link demands, given a date to start from. */
  function Candidate(cal: Calendar, duration: int, dep: Dependency, origin: int): int {
    var bound := ForwardBound(cal, dep.link, origin, dep.lag);
    if duration > 0 && BoundsFinish(dep.link) then Add(cal, bound, -(duration - 1)) else bound
  }

  /** `max(candidates)` over the links whose predecessor is dated. */
  function Latest(cal: Calendar, duration: int, links: seq<Dependency>, m: Schedule): Option<int> {
    if links == [] then None
    else
      var before := Latest(cal, duration, links[..|links| - 1], m);
      var dep := links[|links| - 1];
      match Origin(dep.link, DatesOf(m, dep.predecessor))
      case None => before
      case Some(day) =>
        var c := Candidate(cal, duration, dep, day);
        if before.Some? && before.value >= c then before else Some(c)
  }

  /** Dates from a start date. */
  function From(cal: Calendar, duration: int, start: Option<int>): Dates {
    match start
    case None => UNDATED
    case Some(day) => Dates(start, if duration <= 0 then start else Some(Add(cal, day, duration)))
  }

  /** `_apply_actual_constraints` */
  function WithActuals(cal: Calendar, task: Task, d: Dates): Dates {
    if task.actualEnd.Some? then
      var start := if task.actualStart.Some? then task.actualStart.value
                   else if task.duration > 0 then Add(cal, task.actualEnd.value, -(task.duration - 1))
                   else task.actualEnd.value;
      Dates(Some(start), task.actualEnd)
    else if task.actualStart.Some? && (d.es.None? || task.actualStart.value > d.es.value) then
      From(cal, task.duration, task.actualStart)
    else d
  }

  /** `compute_task_dates_common` */
  function Computed(cal: Calendar, task: Task, links: seq<Dependency>, m: Schedule): Dates {
    var latest := Latest(cal, task.duration, links, m);
    WithActuals(cal, task, From(cal, task.duration, if latest.Some? then latest else task.start))
  }

  method LatestCandidate(cal: Calendar, duration: int, links: seq<Dependency>, m: Schedule) returns (latest: Option<int>)
    requires cal.Valid()
    ensures latest == Latest(cal, duration, links, m)
  {
    latest := None;
    for k := 0 to |links|
      invariant latest == Latest(cal, duration, links[..k], m)
    {
      assert links[..k + 1][..k] == links[..k];
      var dep := links[k];
      match Origin(dep.link, DatesOf(m, dep.predecessor))
      case None =>
      case Some(day) =>
        var c := AddWorkingDays(cal, day, if dep.link.FinishToStart? then dep.lag + 2 else dep.lag);
        if duration > 0 && BoundsFinish(dep.link) {
          c := AddWorkingDays(cal, c, -(duration - 1));
        }
        if latest.None? || latest.value < c {
          latest := Some(c);
        }
    }
    assert links[..|links|] == links;
  }

  // ----- all tasks ----------------------------------------------------------------------------

  /** Every task's dates follow from the dates of its predecessors. */
  ghost predicate Solves(cal: Calendar, tasks: map<Id, Task>, deps: seq<Dependency>, m: Schedule) {
    m.Keys == tasks.Keys && forall t {:trigger Follows(cal, tasks, deps, m, t)} :: t in tasks ==> Follows(cal, tasks, deps, m, t)
  }

  predicate Follows(cal: Calendar, tasks: map<Id, Task>, deps: seq<Dependency>, m: Schedule, t: Id)
    requires t in tasks
  {
    t in m && m[t] == Computed(cal, tasks[t], Incoming(deps, t), m)
  }

  /** The first `k` tasks of the order are settled. */
  ghost predicate SolvesFirst(cal: Calendar, tasks: map<Id, Task>, deps: seq<Dependency>, order: seq<Id>, k: nat, m: Schedule)
    requires k <= |order|
  {
    && m.Keys == tasks.Keys
    && forall j :: 0 <= j < k && order[j] in tasks ==> m[order[j]] == Computed(cal, tasks[order[j]], Incoming(deps, order[j]), m)
  }

  lemma {:induction false} LatestDependsOnPredecessors(cal: Calendar, duration: int, links: seq<Dependency>, m: Schedule, n: Schedule)
    requires forall k :: 0 <= k < |links| ==> DatesOf(m, links[k].predecessor) == DatesOf(n, links[k].predecessor)
    ensures Latest(cal, duration, links, m) == Latest(cal, duration, links, n)
  {
    if links != [] {
      var front := links[..|links| - 1];
      forall k | 0 <= k < |front| ensures DatesOf(m, front[k].predecessor) == DatesOf(n, front[k].predecessor) {
        assert front[k] == links[k];
      }
      LatestDependsOnPredecessors(cal, duration, front, m, n);
    }
  }

  lemma {:induction false} IncomingLinks(deps: seq<Dependency>, t: Id, k: nat)
    requires k < |Incoming(deps, t)|
    ensures Incoming(deps, t)[k] in deps && Incoming(deps, t)[k].successor == t
  {
    var front := deps[..|deps| - 1];
    if k < |Incoming(front, t)| { IncomingLinks(front, t, k); }
  }

  lemma PredecessorComesFirst(deps: seq<Dependency>, order: seq<Id>, j: nat, dep: Dependency)
    requires Topological(deps, order) && j < |order| && dep in deps && dep.successor == order[j]
    ensures dep.predecessor in order[..j]
  {
    var k :| 0 <= k < |deps| && deps[k] == dep;
    assert Edge(deps, dep.predecessor, order[j]);
  }

  predicate Distinct(order: seq<Id>) {
    forall i, j :: 0 <= i < j < |order| ==> order[i] != order[j]
  }

  /** Dating what stands at position `i` leaves the dates computed for the tasks up to there as
      they are. */
  lemma DatingKeeps(cal: Calendar, tasks: map<Id, Task>, deps: seq<Dependency>, order: seq<Id>, i: nat, j: nat, m: Schedule, d: Dates)
    requires Topological(deps, order) && Distinct(order) && j <= i < |order| && order[j] in tasks
    ensures Computed(cal, tasks[order[j]], Incoming(deps, order[j]), m[order[i] := d])
         == Computed(cal, tasks[order[j]], Incoming(deps, order[j]), m)
  {
    var n, links := m[order[i] := d], Incoming(deps, order[j]);
    forall k | 0 <= k < |links| ensures DatesOf(m, links[k].predecessor) == DatesOf(n, links[k].predecessor) {
      IncomingLinks(deps, order[j], k);
      PredecessorComesFirst(deps, order, j, links[k]);
      var x :| 0 <= x < j && order[..j][x] == links[k].predecessor;
      assert order[x] != order[i];
    }
    LatestDependsOnPredecessors(cal, tasks[order[j]].duration, links, m, n);
  }

  lemma SolvesOneMore(cal: Calendar, tasks: map<Id, Task>, deps: seq<Dependency>, order: seq<Id>, k: nat, m: Schedule, d: Dates)
    requires Topological(deps, order) && Distinct(order) && k < |order| && order[k] in tasks
    requires SolvesFirst(cal, tasks, deps, order, k, m)
    requires d == Computed(cal, tasks[order[k]], Incoming(deps, order[k]), m)
    ensures SolvesFirst(cal, tasks, deps, order, k + 1, m[order[k] := d])
  {
    var n := m[order[k] := d];
    forall j | 0 <= j < k + 1 && order[j] in tasks
      ensures n[order[j]] == Computed(cal, tasks[order[j]], Incoming(deps, order[j]), n)
    {
      DatingKeeps(cal, tasks, deps, order, k, j, m, d);
    }
  }

  lemma SolvesAll(cal: Calendar, tasks: map<Id, Task>, deps: seq<Dependency>, order: seq<Id>, m: Schedule)
    requires SolvesFirst(cal, tasks, deps, order, |order|, m) && Done(order) == tasks.Keys
    ensures Solves(cal, tasks, deps, m)
  {
  }

  /** `run_forward_pass`; no finish when no task could be dated. */
  method RunForwardPass(cal: Calendar, tasks: map<Id, Task>, deps: seq<Dependency>, order: seq<Id>, incoming: map<Id, seq<Dependency>>)
    returns (m: Schedule, finish: Option<int>)
    requires cal.Valid() && Topological(deps, order) && Distinct(order) && Done(order) == tasks.Keys
    requires forall t :: Incoming(deps, t) == if t in incoming then incoming[t] else []
    ensures Solves(cal, tasks, deps, m)
    ensures finish.Some? ==> exists t :: t in m && m[t].ef == finish
    ensures forall t :: t in m && m[t].ef.Some? ==> finish.Some? && m[t].ef.value <= finish.value
  {
    m := map t | t in tasks :: UNDATED;
    for k := 0 to |order|
      invariant SolvesFirst(cal, tasks, deps, order, k, m)
    {
      var t := order[k];
      assert t in Done(order);
      var links := if t in incoming then incoming[t] else [];
      var d := DateTask(cal, tasks[t], links, m);
      SolvesOneMore(cal, tasks, deps, order, k, m, d);
      m := m[t := d];
    }
    SolvesAll(cal, tasks, deps, order, m);
    finish := LatestFinish(m);
  }

  /** `compute_task_dates_common` with its milestone and duration variants. */
  method DateTask(cal: Calendar, task: Task, links: seq<Dependency>, m: Schedule) returns (d: Dates)
    requires cal.Valid()
    ensures d == Computed(cal, task, links, m)
  {
    var start := LatestCandidate(cal, task.duration, links, m);
    if start.None? {
      start := task.start;
    }
    d := UNDATED;
    if start.Some? {
      var ef := start.value;
      if task.duration > 0 {
        ef := AddWorkingDays(cal, ef, task.duration);
      }
      d := Dates(start, Some(ef));
    }
    if task.actualEnd.Some? {
      var es := task.actualEnd.value;
      if task.actualStart.Some? {
        es := task.actualStart.value;
      } else if task.duration > 0 {
        es := AddWorkingDays(cal, es, -(task.duration - 1));
      }
      return Dates(Some(es), task.actualEnd);
    }
    if task.actualStart.Some? {
      if d.es.None? || task.actualStart.value > d.es.value {
        var ef := task.actualStart.value;
        if task.duration > 0 {
          ef := AddWorkingDays(cal, ef, task.duration);
        }
        d := Dates(task.actualStart, Some(ef));
      }
    }
  }

  method LatestFinish(m: Schedule) returns (finish: Option<int>)
    ensures finish.Some? ==> exists t :: t in m && m[t].ef == finish
    ensures forall t :: t in m && m[t].ef.Some? ==> finish.Some? && m[t].ef.value <= finish.value
  {
    finish := None;
    var todo := m.Keys;
    while todo != {}
      invariant todo <= m.Keys
      invariant finish.Some? ==> exists t :: t in m && m[t].ef == finish
      invariant forall t :: t in m && t !in todo && m[t].ef.Some? ==> finish.Some? && m[t].ef.value <= finish.value
      decreases todo
    {
      var t :| t in todo;
      if m[t].ef.Some? && (finish.None? || finish.value < m[t].ef.value) {
        finish := m[t].ef;
      }
      todo := todo - {t};
    }
  }

  // ----- when nothing can be dated ---------------------------------------------------------------

  /** The task brings a date of its own. */
  predicate Anchored(task: Task) {
    task.start.Some? || task.actualStart.Some? || task.actualEnd.Some?
  }

  lemma AnchoredIsDated(cal: Calendar, task: Task, links: seq<Dependency>, m: Schedule)
    requires Anchored(task)
    ensures Computed(cal, task, links, m).ef.Some?
  {
  }

  lemma {:induction false} LatestOfUndated(cal: Calendar, duration: int, links: seq<Dependency>, m: Schedule)
    requires forall k :: 0 <= k < |links| ==> DatesOf(m, links[k].predecessor) == UNDATED
    ensures Latest(cal, duration, links, m) == None
  {
    if links != [] {
      var front := links[..|links| - 1];
      forall k | 0 <= k < |front| ensures DatesOf(m, front[k].predecessor) == UNDATED { assert front[k] == links[k]; }
      LatestOfUndated(cal, duration, front, m);
    }
  }

  ghost predicate UndatedUpTo(order: seq<Id>, m: Schedule, k: nat)
    requires k <= |order|
  {
    forall j :: 0 <= j < k ==> DatesOf(m, order[j]) == UNDATED
  }

  /** Without any date to start from no task along the order gets one. */
  lemma {:induction false} NothingToStartFrom(cal: Calendar, tasks: map<Id, Task>, deps: seq<Dependency>, order: seq<Id>, m: Schedule, k: nat)
    requires Topological(deps, order) && Solves(cal, tasks, deps, m) && k <= |order|
    requires forall t :: t in tasks ==> !Anchored(tasks[t])
    ensures UndatedUpTo(order, m, k)
  {
    if k > 0 {
      NothingToStartFrom(cal, tasks, deps, order, m, k - 1);
      var t := order[k - 1];
      if t in tasks {
        assert Follows(cal, tasks, deps, m, t);
        var links := Incoming(deps, t);
        forall i | 0 <= i < |links| ensures DatesOf(m, links[i].predecessor) == UNDATED {
          IncomingLinks(deps, t, i);
          PredecessorComesFirst(deps, order, k - 1, links[i]);
          var x :| 0 <= x < k - 1 && order[..k - 1][x] == links[i].predecessor;
          assert order[x] == links[i].predecessor;
        }
        LatestOfUndated(cal, tasks[t].duration, links, m);
      }
    }
  }

  /** The dates of a project without cycles contain a finish date exactly when some task
      brings a date of its own. */
  lemma DatedWhenAnchored(cal: Calendar, tasks: map<Id, Task>, deps: seq<Dependency>, order: seq<Id>, m: Schedule)
    requires Topological(deps, order) && Done(order) == tasks.Keys && Solves(cal, tasks, deps, m)
    ensures (exists t :: t in m && m[t].ef.Some?) <==> exists t :: t in tasks && Anchored(tasks[t])
  {
    if exists t :: t in tasks && Anchored(tasks[t]) {
      var t :| t in tasks && Anchored(tasks[t]);
      assert Follows(cal, tasks, deps, m, t);
      AnchoredIsDated(cal, tasks[t], Incoming(deps, t), m);
    } else {
      NothingToStartFrom(cal, tasks, deps, order, m, |order|);
      forall t | t in m ensures m[t].ef.None? {
        assert t in Done(order);
        var j :| 0 <= j < |order| && order[j] == t;
        assert DatesOf(m, order[j]) == UNDATED;
      }
    }
  }

  datatype Outcome = CircularDependency | NothingDated | Scheduled(dates: Schedule, finish: Option<int>)

  ghost predicate LatestFinishOf(m: Schedule, finish: int) {
    (exists t :: t in m && m[t].ef == Some(finish)) && forall t :: t in m && m[t].ef.Some? ==> m[t].ef.value <= finish
  }

  /** What the backward pass needs of the order and the grouped links. */
  ghost predicate OrderedGraph(tasks: map<Id, Task>, deps: seq<Dependency>, graph: Ordering) {
    && graph.Ordered? && Closed(tasks, deps)
    && Topological(deps, graph.order) && Distinct(graph.order) && Done(graph.order) == tasks.Keys
    && (forall t :: Outgoing(deps, t) == if t in graph.byPredecessor then graph.byPredecessor[t] else [])
    && (forall t :: t in graph.byPredecessor ==> graph.byPredecessor[t] != [])
  }

  /** The forward half of `recalculate_project_schedule`. A project without tasks has the
      empty schedule; a cycle among its dependencies is refused; so is a project in which no
      task brings a date of its own, for then none can be dated. */
  method ScheduleProject(cal: Calendar, tasks: map<Id, Task>, deps: seq<Dependency>) returns (r: Outcome, graph: Ordering)
    requires cal.Valid()
    ensures r.CircularDependency? <==> tasks != map[] && HasCycle(Filtered(tasks, deps))
    ensures r.NothingDated? <==> tasks != map[] && !HasCycle(Filtered(tasks, deps)) && forall t :: t in tasks ==> !Anchored(tasks[t])
    ensures r.Scheduled? ==> Solves(cal, tasks, Filtered(tasks, deps), r.dates)
    ensures r.Scheduled? && tasks != map[] ==> OrderedGraph(tasks, Filtered(tasks, deps), graph)
    ensures r.Scheduled? ==> if tasks == map[] then r.finish.None? else r.finish.Some? && LatestFinishOf(r.dates, r.finish.value)
  {
    graph := Cycle;
    if tasks == map[] {
      return Scheduled(map[], None), graph;
    }
    graph := BuildProjectDependencyGraph(tasks, deps);
    if graph.Cycle? {
      return CircularDependency, graph;
    }
    FilteredEdges(tasks, deps);
    GreedyIsTopological(tasks, Filtered(tasks, deps), graph.order);
    var dates, finish := RunForwardPass(cal, tasks, Filtered(tasks, deps), graph.order, graph.bySuccessor);
    DatedWhenAnchored(cal, tasks, Filtered(tasks, deps), graph.order, dates);
    if finish.None? {
      return NothingDated, graph;
    }
    return Scheduled(dates, finish), graph;
  }

  // ----- the dates are the only ones ----------------------------------------------------------------

  ghost predicate AgreeUpTo(order: seq<Id>, m: Schedule, n: Schedule, k: nat)
    requires k <= |order|
  {
    forall j :: 0 <= j < k ==> DatesOf(m, order[j]) == DatesOf(n, order[j])
  }

  lemma ComputedAlike(cal: Calendar, task: Task, deps: seq<Dependency>, order: seq<Id>, m: Schedule, n: Schedule, k: nat)
    requires Topological(deps, order) && k < |order| && AgreeUpTo(order, m, n, k)
    ensures Computed(cal, task, Incoming(deps, order[k]), m) == Computed(cal, task, Incoming(deps, order[k]), n)
  {
    var links := Incoming(deps, order[k]);
    forall i | 0 <= i < |links| ensures DatesOf(m, links[i].predecessor) == DatesOf(n, links[i].predecessor) {
      IncomingLinks(deps, order[k], i);
      PredecessorComesFirst(deps, order, k, links[i]);
      var x :| 0 <= x < k && order[..k][x] == links[i].predecessor;
      assert order[x] == links[i].predecessor;
    }
    LatestDependsOnPredecessors(cal, task.duration, links, m, n);
  }

  lemma {:induction false} SolutionsAgree(cal: Calendar, tasks: map<Id, Task>, deps: seq<Dependency>, order: seq<Id>, m: Schedule, n: Schedule, k: nat)
    requires Topological(deps, order) && Solves(cal, tasks, deps, m) && Solves(cal, tasks, deps, n) && k <= |order|
    ensures AgreeUpTo(order, m, n, k)
  {
    if k > 0 {
      SolutionsAgree(cal, tasks, deps, order, m, n, k - 1);
      var t := order[k - 1];
      if t in tasks {
        ComputedAlike(cal, tasks[t], deps, order, m, n, k - 1);
        assert Follows(cal, tasks, deps, m, t) && Follows(cal, tasks, deps, n, t);
      }
    }
  }

  /** A project without cycles has exactly one schedule in which every task's dates follow
      from its predecessors'; so the order in which tasks are dated does not matter. */
  lemma ScheduleIsUnique(cal: Calendar, tasks: map<Id, Task>, deps: seq<Dependency>, order: seq<Id>, m: Schedule, n: Schedule)
    requires Topological(deps, order) && Done(order) == tasks.Keys
    requires Solves(cal, tasks, deps, m) && Solves(cal, tasks, deps, n)
    ensures m == n
  {
    SolutionsAgree(cal, tasks, deps, order, m, n, |order|);
    forall t | t in tasks ensures m[t] == n[t] {
      assert t in Done(order);
      var j :| 0 <= j < |order| && order[j] == t;
      assert DatesOf(m, order[j]) == DatesOf(n, order[j]);
    }
  }

  // ----- the dates respect the links -------------------------------------------------------------------

  lemma {:induction false} LatestBounds(cal: Calendar, duration: int, links: seq<Dependency>, m: Schedule, dep: Dependency)
    requires dep in links && Origin(dep.link, DatesOf(m, dep.predecessor)).Some?
    ensures var latest := Latest(cal, duration, links, m);
            latest.Some? && latest.value >= Candidate(cal, duration, dep, Origin(dep.link, DatesOf(m, dep.predecessor)).value)
  {
    var front := links[..|links| - 1];
    assert links == front + [links[|links| - 1]];
    if dep in front { LatestBounds(cal, duration, front, m, dep); }
  }

  lemma {:induction false} LatestAttained(cal: Calendar, duration: int, links: seq<Dependency>, m: Schedule) returns (dep: Dependency)
    requires Latest(cal, duration, links, m).Some?
    ensures dep in links && Origin(dep.link, DatesOf(m, dep.predecessor)).Some?
    ensures Latest(cal, duration, links, m)
         == Some(Candidate(cal, duration, dep, Origin(dep.link, DatesOf(m, dep.predecessor)).value))
  {
    dep := links[|links| - 1];
    var front := links[..|links| - 1];
    assert links == front + [dep];
    if Latest(cal, duration, links, m) == Latest(cal, duration, front, m) { dep := LatestAttained(cal, duration, front, m); }
  }

  lemma {:induction false} IncomingMember(deps: seq<Dependency>, dep: Dependency)
    requires dep in deps
    ensures dep in Incoming(deps, dep.successor)
  {
    var front := deps[..|deps| - 1];
    assert deps == front + [deps[|deps| - 1]];
    if dep in front { IncomingMember(front, dep); }
  }

  /** Starting no earlier than a finish-bounding link demands, a task finishes no earlier
      than its bound. */
  lemma FinishReachesBound(cal: Calendar, bound: int, duration: int, start: int)
    requires cal.Valid() && duration > 0 && start >= Add(cal, bound, -(duration - 1))
    ensures Add(cal, start, duration) >= bound
  {
    var b := Next(cal, bound);
    var e := Add(cal, bound, -(duration - 1));
    NextIsFirst(cal, bound);
    if duration > 1 {
      LaterThenEarlier(cal, b, duration - 1);
      WorkingIsNext(cal, e);
    }
    NextMonotone(cal, e, start);
    NextIsFirst(cal, e);
    NextIsFirst(cal, start);
    LaterMonotone(cal, Next(cal, e), Next(cal, start), duration - 1);
  }

  lemma NextMonotone(cal: Calendar, a: int, b: int)
    requires cal.Valid() && a <= b
    ensures Next(cal, a) <= Next(cal, b)
  {
    NextIsFirst(cal, a);
    NextIsFirst(cal, b);
  }

  lemma {:induction false} LaterMonotone(cal: Calendar, a: int, b: int, n: nat)
    requires cal.Valid() && a <= b
    ensures Later(cal, a, n) <= Later(cal, b, n)
  {
    if n > 0 {
      LaterMonotone(cal, a, b, n - 1);
      NextMonotone(cal, Later(cal, a, n - 1) + 1, Later(cal, b, n - 1) + 1);
    }
  }

  /** Every link is respected: unless the successor already has an actual end, it starts, or
      for the links that bound its finish ends, no earlier than the link says, whatever its
      other links, start date and actual start are. */
  lemma LinksAreRespected(cal: Calendar, tasks: map<Id, Task>, deps: seq<Dependency>, m: Schedule, dep: Dependency)
    requires cal.Valid() && Solves(cal, tasks, deps, m) && dep in deps && dep.successor in tasks
    requires tasks[dep.successor].actualEnd.None? && Origin(dep.link, DatesOf(m, dep.predecessor)).Some?
    ensures var d := m[dep.successor];
            var bound := ForwardBound(cal, dep.link, Origin(dep.link, DatesOf(m, dep.predecessor)).value, dep.lag);
            d.es.Some? && d.ef.Some? && if BoundsFinish(dep.link) then d.ef.value >= bound else d.es.value >= bound
  {
    var t := dep.successor;
    var task, links := tasks[t], Incoming(deps, t);
    assert Follows(cal, tasks, deps, m, t);
    IncomingMember(deps, dep);
    LatestBounds(cal, task.duration, links, m, dep);
    var bound := ForwardBound(cal, dep.link, Origin(dep.link, DatesOf(m, dep.predecessor)).value, dep.lag);
    if task.duration > 0 && BoundsFinish(dep.link) {
      FinishReachesBound(cal, bound, task.duration, m[t].es.value);
    }
  }
}
