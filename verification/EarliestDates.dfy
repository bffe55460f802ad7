/** What the two passes mean (core/modules/project_management/services/scheduling/engine.py):
    the early dates are the earliest that suit all links and given dates; the late dates are
    the tightest limits. */
module EarliestDates {
  import opened Text
  import opened WorkCalendar
  import opened DependencyGraph
  import opened ForwardPass
  import opened BackwardPass

  // ----- what a link demands --------------------------------------------------------------------

  /** The first day that a link leaves its successor to start on, once its predecessor is
      dated: counted in working days, the predecessor's finish being a day's work, and back
      over the successor's duration for the links that bound its finish. */
  function Demand(cal: Calendar, duration: int, dep: Dependency, d: Dates): Option<int> {
    match dep.link
    case FinishToStart => if d.ef.None? then None else Some(Add(cal, d.ef.value, dep.lag + 2))
    case StartToStart => if d.es.None? then None else Some(Add(cal, d.es.value, dep.lag))
    case FinishToFinish => if d.ef.None? then None else Some(StartFor(cal, duration, Add(cal, d.ef.value, dep.lag)))
    case StartToFinish => if d.es.None? then None else Some(StartFor(cal, duration, Add(cal, d.es.value, dep.lag)))
  }

  /** Where a task must start to finish on the given day. */
  function StartFor(cal: Calendar, duration: int, finish: int): int {
    if duration > 0 then Add(cal, finish, -(duration - 1)) else finish
  }

  function FinishFrom(cal: Calendar, duration: int, start: int): int {
    if duration > 0 then Add(cal, start, duration) else start
  }

  function DemandOn(cal: Calendar, tasks: map<Id, Task>, m: Schedule, t: Id, dep: Dependency): Option<int>
    requires t in tasks
  {
    if dep.successor != t then None else Demand(cal, tasks[t].duration, dep, DatesOf(m, dep.predecessor))
  }

  /** Some link leads to `t` from a dated predecessor. */
  ghost predicate Pressed(cal: Calendar, tasks: map<Id, Task>, deps: seq<Dependency>, m: Schedule, t: Id)
    requires t in tasks
  {
    exists k :: 0 <= k < |deps| && DemandOn(cal, tasks, m, t, deps[k]).Some?
  }

  /** Starting on a working day, a task finishes no earlier than the given day exactly when it
      starts no earlier than counting back from that day allows. */
  lemma StartForFinish(cal: Calendar, duration: int, finish: int, start: int)
    requires cal.Valid() && cal.working(start)
    ensures FinishFrom(cal, duration, start) >= finish <==> start >= StartFor(cal, duration, finish)
  {
    if duration > 0 {
      WorkingIsNext(cal, start);
      if start >= StartFor(cal, duration, finish) {
        FinishReachesBound(cal, finish, duration, start);
      } else if FinishFrom(cal, duration, start) >= finish {
        var ef := FinishFrom(cal, duration, start);
        AddMonotone(cal, finish, ef, -(duration - 1));
        LaterThenEarlier(cal, start, duration - 1);
        WorkingIsNext(cal, ef);
        assert false;
      }
    }
  }

  // ----- dates that suit everything -----------------------------------------------------------------

  /** The dates of `t` suit the links to it and the dates given for it: what actually ended
      is where it was; anything else takes its duration, starts no earlier than any link
      demands, no earlier than it actually started and, when no link demands anything, no
      earlier than planned; and it is dated only if one of these says something. */
  ghost predicate Suits(cal: Calendar, tasks: map<Id, Task>, deps: seq<Dependency>, n: Schedule, t: Id)
    requires t in tasks
  {
    var task, d := tasks[t], DatesOf(n, t);
    if task.actualEnd.Some? then
      && d.ef == task.actualEnd
      && d.es == if task.actualStart.Some? then task.actualStart else Some(StartFor(cal, task.duration, task.actualEnd.value))
    else if d.es.None? then
      d.ef.None? && task.start.None? && task.actualStart.None? && !Pressed(cal, tasks, deps, n, t)
    else
      && d.ef == Some(FinishFrom(cal, task.duration, d.es.value))
      && (task.start.Some? || task.actualStart.Some? || Pressed(cal, tasks, deps, n, t))
      && (forall k :: 0 <= k < |deps| && DemandOn(cal, tasks, n, t, deps[k]).Some? ==>
            d.es.value >= DemandOn(cal, tasks, n, t, deps[k]).value)
      && (task.actualStart.Some? ==> d.es.value >= task.actualStart.value)
      && (task.start.Some? && !Pressed(cal, tasks, deps, n, t) ==> d.es.value >= task.start.value)
  }

  ghost predicate AllSuit(cal: Calendar, tasks: map<Id, Task>, deps: seq<Dependency>, n: Schedule) {
    n.Keys == tasks.Keys && forall t :: t in tasks ==> Suits(cal, tasks, deps, n, t)
  }

  /** Dated alike, and the first nowhere later than the second. */
  predicate NoLater(d: Dates, e: Dates) {
    && (d.es.Some? <==> d.ef.Some?)
    && (d.es.Some? <==> e.es.Some?) && (d.ef.Some? <==> e.ef.Some?)
    && (d.es.Some? && e.es.Some? ==> d.es.value <= e.es.value)
    && (d.ef.Some? && e.ef.Some? ==> d.ef.value <= e.ef.value)
  }

  // ----- the computed start ----------------------------------------------------------------------------

  lemma DemandIsCandidate(cal: Calendar, duration: int, dep: Dependency, d: Dates)
    ensures Demand(cal, duration, dep, d).Some? <==> Origin(dep.link, d).Some?
    ensures Origin(dep.link, d).Some? ==> Demand(cal, duration, dep, d) == Some(Candidate(cal, duration, dep, Origin(dep.link, d).value))
  {
  }

  /** The latest of the demands on `t`. */
  lemma LatestIsTheDemand(cal: Calendar, tasks: map<Id, Task>, deps: seq<Dependency>, m: Schedule, t: Id)
    requires t in tasks
    ensures var latest := Latest(cal, tasks[t].duration, Incoming(deps, t), m);
            && (latest.Some? <==> Pressed(cal, tasks, deps, m, t))
            && (latest.Some? ==>
                  && (forall k :: 0 <= k < |deps| && DemandOn(cal, tasks, m, t, deps[k]).Some? ==>
                        latest.value >= DemandOn(cal, tasks, m, t, deps[k]).value)
                  && (exists k :: 0 <= k < |deps| && DemandOn(cal, tasks, m, t, deps[k]) == latest))
  {
    var links, duration := Incoming(deps, t), tasks[t].duration;
    var latest := Latest(cal, duration, links, m);
    forall k | 0 <= k < |deps| && DemandOn(cal, tasks, m, t, deps[k]).Some?
      ensures latest.Some? && latest.value >= DemandOn(cal, tasks, m, t, deps[k]).value
    {
      IncomingMember(deps, deps[k]);
      DemandIsCandidate(cal, duration, deps[k], DatesOf(m, deps[k].predecessor));
      LatestBounds(cal, duration, links, m, deps[k]);
    }
    if latest.Some? {
      var dep := LatestAttained(cal, duration, links, m);
      var i :| 0 <= i < |links| && links[i] == dep;
      IncomingLinks(deps, t, i);
      DemandIsCandidate(cal, duration, dep, DatesOf(m, dep.predecessor));
      var k :| 0 <= k < |deps| && deps[k] == dep;
      assert DemandOn(cal, tasks, m, t, deps[k]) == latest;
    }
  }

  /** In the schedule a task without actual dates starts, if some link leads to it from a
      dated predecessor, exactly on the latest day that such a link demands, whatever its
      planned start; otherwise exactly as planned. */
  lemma StartIsTheLatestDemand(cal: Calendar, tasks: map<Id, Task>, deps: seq<Dependency>, m: Schedule, t: Id)
    requires Solves(cal, tasks, deps, m) && t in tasks && tasks[t].actualStart.None? && tasks[t].actualEnd.None?
    ensures if Pressed(cal, tasks, deps, m, t) then
              && (exists k :: 0 <= k < |deps| && DemandOn(cal, tasks, m, t, deps[k]).Some? && DemandOn(cal, tasks, m, t, deps[k]) == m[t].es)
              && (forall k :: 0 <= k < |deps| && DemandOn(cal, tasks, m, t, deps[k]).Some? ==>
                    m[t].es.value >= DemandOn(cal, tasks, m, t, deps[k]).value)
            else m[t].es == tasks[t].start
    ensures m[t].ef == if m[t].es.None? then None else Some(FinishFrom(cal, tasks[t].duration, m[t].es.value))
  {
    assert Follows(cal, tasks, deps, m, t);
    LatestIsTheDemand(cal, tasks, deps, m, t);
  }

  // ----- leastness ---------------------------------------------------------------------------------------

  /** The schedule itself suits all links and given dates. */
  lemma ScheduleSuits(cal: Calendar, tasks: map<Id, Task>, deps: seq<Dependency>, m: Schedule)
    requires Solves(cal, tasks, deps, m)
    ensures AllSuit(cal, tasks, deps, m)
  {
    forall t | t in tasks ensures Suits(cal, tasks, deps, m, t) {
      assert Follows(cal, tasks, deps, m, t);
      LatestIsTheDemand(cal, tasks, deps, m, t);
    }
  }

  ghost predicate NoLaterUpTo(order: seq<Id>, m: Schedule, n: Schedule, k: nat)
    requires k <= |order|
  {
    forall j :: 0 <= j < k ==> NoLater(DatesOf(m, order[j]), DatesOf(n, order[j]))
  }

  lemma DemandGrows(cal: Calendar, duration: int, dep: Dependency, d: Dates, e: Dates)
    requires cal.Valid() && NoLater(d, e)
    ensures Demand(cal, duration, dep, d).Some? <==> Demand(cal, duration, dep, e).Some?
    ensures Demand(cal, duration, dep, d).Some? ==> Demand(cal, duration, dep, d).value <= Demand(cal, duration, dep, e).value
  {
    if Demand(cal, duration, dep, d).Some? {
      var a, b := Origin(dep.link, d).value, Origin(dep.link, e).value;
      var n := if dep.link.FinishToStart? then dep.lag + 2 else dep.lag;
      AddMonotone(cal, a, b, n);
      AddMonotone(cal, Add(cal, a, n), Add(cal, b, n), -(duration - 1));
    }
  }

  lemma DemandsGrow(cal: Calendar, tasks: map<Id, Task>, deps: seq<Dependency>, order: seq<Id>, m: Schedule, n: Schedule, j: nat, k: nat)
    requires cal.Valid() && Topological(deps, order) && j < |order| && NoLaterUpTo(order, m, n, j) && order[j] in tasks && k < |deps|
    ensures var d, e := DemandOn(cal, tasks, m, order[j], deps[k]), DemandOn(cal, tasks, n, order[j], deps[k]);
            (d.Some? <==> e.Some?) && (d.Some? ==> d.value <= e.value)
  {
    var dep := deps[k];
    if dep.successor == order[j] {
      PredecessorComesFirst(deps, order, j, dep);
      var x :| 0 <= x < j && order[..j][x] == dep.predecessor;
      assert NoLater(DatesOf(m, order[x]), DatesOf(n, order[x]));
      DemandGrows(cal, tasks[order[j]].duration, dep, DatesOf(m, dep.predecessor), DatesOf(n, dep.predecessor));
    }
  }

  lemma FinishGrows(cal: Calendar, duration: int, a: int, b: int)
    requires cal.Valid() && a <= b
    ensures FinishFrom(cal, duration, a) <= FinishFrom(cal, duration, b)
  {
    if duration > 0 { AddMonotone(cal, a, b, duration); }
  }

  lemma NoLaterHere(cal: Calendar, tasks: map<Id, Task>, deps: seq<Dependency>, order: seq<Id>, m: Schedule, n: Schedule, j: nat)
    requires cal.Valid() && Topological(deps, order) && Solves(cal, tasks, deps, m) && AllSuit(cal, tasks, deps, n)
    requires j < |order| && NoLaterUpTo(order, m, n, j) && order[j] in tasks
    ensures NoLater(DatesOf(m, order[j]), DatesOf(n, order[j]))
  {
    var t := order[j];
    var task, d, e := tasks[t], m[t], n[t];
    assert Follows(cal, tasks, deps, m, t) && Suits(cal, tasks, deps, n, t);
    LatestIsTheDemand(cal, tasks, deps, m, t);
    forall k: nat | k < |deps|
      ensures var a, b := DemandOn(cal, tasks, m, t, deps[k]), DemandOn(cal, tasks, n, t, deps[k]);
              (a.Some? <==> b.Some?) && (a.Some? ==> a.value <= b.value)
    {
      DemandsGrow(cal, tasks, deps, order, m, n, j, k);
    }
    assert Pressed(cal, tasks, deps, m, t) <==> Pressed(cal, tasks, deps, n, t);
    if task.actualEnd.None? && d.es.Some? && e.es.Some? && d.es.value <= e.es.value {
      FinishGrows(cal, task.duration, d.es.value, e.es.value);
    }
  }

  lemma {:induction false} NoLaterAlong(cal: Calendar, tasks: map<Id, Task>, deps: seq<Dependency>, order: seq<Id>, m: Schedule, n: Schedule, k: nat)
    requires cal.Valid() && Topological(deps, order) && Solves(cal, tasks, deps, m) && AllSuit(cal, tasks, deps, n) && k <= |order|
    ensures NoLaterUpTo(order, m, n, k)
  {
    if k > 0 {
      NoLaterAlong(cal, tasks, deps, order, m, n, k - 1);
      if order[k - 1] in tasks { NoLaterHere(cal, tasks, deps, order, m, n, k - 1); }
    }
  }

  /** Without cycles the computed schedule suits all links and given dates, and it is the
      earliest that does: every other one dates the same tasks and none of them earlier. */
  lemma ScheduleIsEarliest(cal: Calendar, tasks: map<Id, Task>, deps: seq<Dependency>, order: seq<Id>, m: Schedule)
    requires cal.Valid() && Topological(deps, order) && Done(order) == tasks.Keys && Solves(cal, tasks, deps, m)
    ensures AllSuit(cal, tasks, deps, m)
    ensures forall n, t :: AllSuit(cal, tasks, deps, n) && t in tasks ==> NoLater(m[t], n[t])
  {
    ScheduleSuits(cal, tasks, deps, m);
    forall n, t | AllSuit(cal, tasks, deps, n) && t in tasks ensures NoLater(m[t], n[t]) {
      NoLaterAlong(cal, tasks, deps, order, m, n, |order|);
      assert t in Done(order);
      var j :| 0 <= j < |order| && order[j] == t;
      assert NoLater(DatesOf(m, order[j]), DatesOf(n, order[j]));
    }
  }

  /** Planned starts of tasks to which a link leads from a dated predecessor do not matter: a
      project that differs in them alone has the same schedule. */
  lemma PlannedStartsOfLinkedTasksDoNotMatter(cal: Calendar, tasks: map<Id, Task>, others: map<Id, Task>, deps: seq<Dependency>,
                                              order: seq<Id>, m: Schedule, n: Schedule)
    requires cal.Valid() && Topological(deps, order) && Done(order) == tasks.Keys == others.Keys
    requires forall t :: t in tasks ==> others[t] == tasks[t].(start := others[t].start)
    requires forall t :: t in tasks && others[t] != tasks[t] ==> Pressed(cal, tasks, deps, m, t)
    requires Solves(cal, tasks, deps, m) && Solves(cal, others, deps, n)
    ensures m == n
  {
    forall t | t in others ensures Follows(cal, others, deps, m, t) {
      assert Follows(cal, tasks, deps, m, t);
      if others[t] != tasks[t] { LatestIsTheDemand(cal, tasks, deps, m, t); }
    }
    ScheduleIsUnique(cal, others, deps, order, m, n);
  }

  // ----- the late dates ------------------------------------------------------------------------------------

  /** The last day that a link leaves its predecessor to finish or, for the links from its
      start, to start on. */
  function Limit(cal: Calendar, dep: Dependency, late: Late): Option<int> {
    match dep.link
    case FinishToStart => if late.ls.None? then None else Some(Add(cal, late.ls.value, -(dep.lag + 1)))
    case StartToStart => if late.ls.None? then None else Some(Add(cal, late.ls.value, -dep.lag))
    case FinishToFinish => if late.lf.None? then None else Some(Add(cal, late.lf.value, -dep.lag))
    case StartToFinish => if late.lf.None? then None else Some(Add(cal, late.lf.value, -dep.lag))
  }

  predicate FromFinish(dep: Dependency) {
    dep.link == FinishToStart || dep.link == FinishToFinish
  }

  /** The limit of a link on the finish (`finish`) or the start of `t`. */
  function LimitOn(cal: Calendar, m: LateDates, t: Id, dep: Dependency, finish: bool): Option<int> {
    if dep.predecessor != t || FromFinish(dep) != finish then None else Limit(cal, dep, LateAt(m, dep.successor))
  }

  ghost predicate Limited(cal: Calendar, deps: seq<Dependency>, m: LateDates, t: Id, finish: bool) {
    exists k :: 0 <= k < |deps| && LimitOn(cal, m, t, deps[k], finish).Some?
  }

  /** `day` is the earliest of the limits on the finish or the start of `t`. */
  ghost predicate IsTightest(cal: Calendar, deps: seq<Dependency>, m: LateDates, t: Id, finish: bool, day: Option<int>) {
    && (exists k :: 0 <= k < |deps| && LimitOn(cal, m, t, deps[k], finish).Some? && LimitOn(cal, m, t, deps[k], finish) == day)
    && (forall k :: 0 <= k < |deps| && LimitOn(cal, m, t, deps[k], finish).Some? ==>
          day.Some? && day.value <= LimitOn(cal, m, t, deps[k], finish).value)
  }

  lemma LimitIsBound(cal: Calendar, dep: Dependency, late: Late)
    ensures FromFinish(dep) <==> LimitsFinish(dep.link)
    ensures Limit(cal, dep, late).Some? <==> LimitedBy(dep.link, late).Some?
    ensures LimitedBy(dep.link, late).Some? ==> Limit(cal, dep, late) == Some(BackwardBound(cal, dep.link, LimitedBy(dep.link, late).value, dep.lag))
  {
  }

  lemma EarliestIsTightest(cal: Calendar, deps: seq<Dependency>, m: LateDates, t: Id, finish: bool)
    ensures var e := Earliest(cal, Outgoing(deps, t), m, finish);
            if Limited(cal, deps, m, t, finish) then IsTightest(cal, deps, m, t, finish, e) else e.None?
  {
    var links := Outgoing(deps, t);
    var e := Earliest(cal, links, m, finish);
    forall k | 0 <= k < |deps| && LimitOn(cal, m, t, deps[k], finish).Some?
      ensures e.Some? && e.value <= LimitOn(cal, m, t, deps[k], finish).value
    {
      OutgoingMember(deps, deps[k]);
      LimitIsBound(cal, deps[k], LateAt(m, deps[k].successor));
      EarliestBelow(cal, links, m, deps[k]);
    }
    if e.Some? {
      var dep := EarliestAttained(cal, links, m, finish);
      var i :| 0 <= i < |links| && links[i] == dep;
      OutgoingLinks(deps, t, i);
      LimitIsBound(cal, dep, LateAt(m, dep.successor));
      var k :| 0 <= k < |deps| && deps[k] == dep;
      assert LimitOn(cal, m, t, deps[k], finish) == e;
    }
  }

  /** The late dates of a task: without successors it may finish with the project; else as
      late as the tightest limit on its finish says or, when nothing limits that, it may start
      as late as the tightest limit on its start says; unlimited, it keeps its early dates. */
  lemma LateDatesAreTheTightestLimits(cal: Calendar, tasks: map<Id, Task>, deps: seq<Dependency>, early: Schedule, finish: int,
                                      m: LateDates, t: Id)
    requires SolvesLate(cal, tasks, deps, early, finish, m) && t in tasks
    ensures var late, duration := m[t], tasks[t].duration;
            if forall k :: 0 <= k < |deps| ==> deps[k].predecessor != t then
              late == Late(Some(StartFor(cal, duration, finish)), Some(finish))
            else if Limited(cal, deps, m, t, true) then
              IsTightest(cal, deps, m, t, true, late.lf) && late.ls == Some(StartFor(cal, duration, late.lf.value))
            else if Limited(cal, deps, m, t, false) then
              && IsTightest(cal, deps, m, t, false, late.ls)
              && late.lf == Some(if duration > 0 then Add(cal, late.ls.value, duration - 1) else late.ls.value)
            else late == if DatesOf(early, t).es.Some? then Late(DatesOf(early, t).es, DatesOf(early, t).ef) else Late(None, None)
  {
    assert FollowsLate(cal, tasks, deps, early, finish, m, t);
    EarliestIsTightest(cal, deps, m, t, true);
    EarliestIsTightest(cal, deps, m, t, false);
    NothingOutgoing(deps, t);
  }

  lemma {:induction false} NothingOutgoing(deps: seq<Dependency>, t: Id)
    ensures Outgoing(deps, t) == [] <==> forall k :: 0 <= k < |deps| ==> deps[k].predecessor != t
  {
    if deps != [] {
      var front := deps[..|deps| - 1];
      NothingOutgoing(front, t);
      assert forall k :: 0 <= k < |front| ==> front[k] == deps[k];
    }
  }
}
