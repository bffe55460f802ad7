/** The backward pass of the project scheduler (core/modules/project_management/services/
    scheduling/passes.py): latest dates from the project finish. */
module BackwardPass {
  import opened Text
  import opened WorkCalendar
  import opened DependencyGraph
  import opened ForwardPass

  datatype Late = Late(ls: Option<int>, lf: Option<int>)

  type LateDates = map<Id, Late>

  function LateAt(m: LateDates, t: Id): Late {
    if t in m then m[t] else Late(None, None)
  }

  // ----- one task ----------------------------------------------------------------------------

  /** The link limits its predecessor's finish; the other types limit its start. */
  predicate LimitsFinish(link: LinkType) {
    link.FinishToStart? || link.FinishToFinish?
  }

  /** The successor's late date that the limit is counted back from. */
  function LimitedBy(link: LinkType, late: Late): Option<int> {
    if BoundsFinish(link) then late.lf else late.ls
  }

  /** `min(cand_lf_dates)` (`finish`) or `min(cand_ls_dates)`. */
  function Earliest(cal: Calendar, links: seq<Dependency>, m: LateDates, finish: bool): Option<int> {
    if links == [] then None
    else
      var before := Earliest(cal, links[..|links| - 1], m, finish);
      var dep := links[|links| - 1];
      match LimitedBy(dep.link, LateAt(m, dep.successor))
      case None => before
      case Some(day) =>
        var c := BackwardBound(cal, dep.link, day, dep.lag);
        if LimitsFinish(dep.link) != finish || (before.Some? && before.value <= c) then before else Some(c)
  }

  function BackFrom(cal: Calendar, duration: int, lf: int): Late {
    Late(Some(if duration > 0 then Add(cal, lf, -(duration - 1)) else lf), Some(lf))
  }

  function LateOf(cal: Calendar, duration: int, early: Dates, links: seq<Dependency>, m: LateDates, finish: int): Late {
    if links == [] then BackFrom(cal, duration, finish)
    else
      var f, s := Earliest(cal, links, m, true), Earliest(cal, links, m, false);
      if f.Some? then BackFrom(cal, duration, f.value)
      else if s.Some? then Late(s, Some(if duration > 0 then Add(cal, s.value, duration - 1) else s.value))
      else if early.es.Some? then Late(early.es, early.ef)
      else Late(None, None)
  }

  /** The candidate loop over the outgoing links. */
  method Limits(cal: Calendar, links: seq<Dependency>, m: LateDates) returns (f: Option<int>, s: Option<int>)
    requires cal.Valid()
    ensures f == Earliest(cal, links, m, true) && s == Earliest(cal, links, m, false)
  {
    f, s := None, None;
    for k := 0 to |links|
      invariant f == Earliest(cal, links[..k], m, true) && s == Earliest(cal, links[..k], m, false)
    {
      assert links[..k + 1][..k] == links[..k];
      var dep := links[k];
      match LimitedBy(dep.link, LateAt(m, dep.successor))
      case None =>
      case Some(day) =>
        var c := AddWorkingDays(cal, day, if dep.link.FinishToStart? then -(dep.lag + 1) else -dep.lag);
        if LimitsFinish(dep.link) {
          if f.None? || c < f.value {
            f := Some(c);
          }
        } else {
          if s.None? || c < s.value {
            s := Some(c);
          }
        }
    }
    assert links[..|links|] == links;
  }

  // ----- all tasks ------------------------------------------------------------------------------

  predicate FollowsLate(cal: Calendar, tasks: map<Id, Task>, deps: seq<Dependency>, early: Schedule, finish: int, m: LateDates, t: Id)
    requires t in tasks
  {
    t in m && m[t] == LateOf(cal, tasks[t].duration, DatesOf(early, t), Outgoing(deps, t), m, finish)
  }

  /** Every task's late dates follow from those of its successors. */
  ghost predicate SolvesLate(cal: Calendar, tasks: map<Id, Task>, deps: seq<Dependency>, early: Schedule, finish: int, m: LateDates) {
    && m.Keys == tasks.Keys
    && forall t {:trigger FollowsLate(cal, tasks, deps, early, finish, m, t)} ::
         t in tasks ==> FollowsLate(cal, tasks, deps, early, finish, m, t)
  }

  lemma {:induction false} EarliestDependsOnSuccessors(cal: Calendar, links: seq<Dependency>, m: LateDates, n: LateDates, finish: bool)
    requires forall k :: 0 <= k < |links| ==> LateAt(m, links[k].successor) == LateAt(n, links[k].successor)
    ensures Earliest(cal, links, m, finish) == Earliest(cal, links, n, finish)
  {
    if links != [] {
      var front := links[..|links| - 1];
      forall k | 0 <= k < |front| ensures LateAt(m, front[k].successor) == LateAt(n, front[k].successor) {
        assert front[k] == links[k];
      }
      EarliestDependsOnSuccessors(cal, front, m, n, finish);
    }
  }

  lemma {:induction false} EarliestBelow(cal: Calendar, links: seq<Dependency>, m: LateDates, dep: Dependency)
    requires dep in links && LimitedBy(dep.link, LateAt(m, dep.successor)).Some?
    ensures var e := Earliest(cal, links, m, LimitsFinish(dep.link));
            e.Some? && e.value <= BackwardBound(cal, dep.link, LimitedBy(dep.link, LateAt(m, dep.successor)).value, dep.lag)
  {
    var front := links[..|links| - 1];
    assert links == front + [links[|links| - 1]];
    if dep in front { EarliestBelow(cal, front, m, dep); }
  }

  lemma {:induction false} EarliestAttained(cal: Calendar, links: seq<Dependency>, m: LateDates, finish: bool) returns (dep: Dependency)
    requires Earliest(cal, links, m, finish).Some?
    ensures dep in links && LimitsFinish(dep.link) == finish && LimitedBy(dep.link, LateAt(m, dep.successor)).Some?
    ensures Earliest(cal, links, m, finish)
         == Some(BackwardBound(cal, dep.link, LimitedBy(dep.link, LateAt(m, dep.successor)).value, dep.lag))
  {
    dep := links[|links| - 1];
    var front := links[..|links| - 1];
    assert links == front + [dep];
    if Earliest(cal, links, m, finish) == Earliest(cal, front, m, finish) { dep := EarliestAttained(cal, front, m, finish); }
  }

  lemma {:induction false} OutgoingMember(deps: seq<Dependency>, dep: Dependency)
    requires dep in deps
    ensures dep in Outgoing(deps, dep.predecessor)
  {
    var front := deps[..|deps| - 1];
    assert deps == front + [deps[|deps| - 1]];
    if dep in front { OutgoingMember(front, dep); }
  }

  lemma SuccessorComesLater(deps: seq<Dependency>, order: seq<Id>, j: nat, dep: Dependency) returns (i: nat)
    requires Topological(deps, order) && Distinct(order) && j < |order|
    requires dep in deps && dep.predecessor == order[j] && dep.successor in Done(order)
    ensures j < i < |order| && order[i] == dep.successor
  {
    i :| 0 <= i < |order| && order[i] == dep.successor;
    PredecessorComesFirst(deps, order, i, dep);
    var x :| 0 <= x < i && order[..i][x] == order[j];
    assert order[x] == order[j];
  }

  /** Changing the late dates at position `k` does not affect the tasks after it. */
  lemma LatingKeeps(cal: Calendar, tasks: map<Id, Task>, deps: seq<Dependency>, order: seq<Id>, k: nat, j: nat, m: LateDates, d: Late,
                    early: Schedule, finish: int)
    requires Closed(tasks, deps) && Topological(deps, order) && Distinct(order) && Done(order) == tasks.Keys && k <= j < |order|
    ensures var out := Outgoing(deps, order[j]); var n := m[order[k] := d];
            forall x, e :: LateOf(cal, x, e, out, n, finish) == LateOf(cal, x, e, out, m, finish)
  {
    var n, out := m[order[k] := d], Outgoing(deps, order[j]);
    forall i | 0 <= i < |out| ensures LateAt(m, out[i].successor) == LateAt(n, out[i].successor) {
      OutgoingLinks(deps, order[j], i);
      var at := SuccessorComesLater(deps, order, j, out[i]);
    }
    EarliestDependsOnSuccessors(cal, out, m, n, true);
    EarliestDependsOnSuccessors(cal, out, m, n, false);
  }

  ghost predicate SolvedFrom(cal: Calendar, tasks: map<Id, Task>, deps: seq<Dependency>, order: seq<Id>, k: nat, early: Schedule,
                             finish: int, m: LateDates)
    requires k <= |order|
  {
    && m.Keys == tasks.Keys
    && (forall j :: k <= j < |order| && order[j] in tasks ==> FollowsLate(cal, tasks, deps, early, finish, m, order[j]))
    && (forall t :: t in tasks && Outgoing(deps, t) == [] ==> m[t] == BackFrom(cal, tasks[t].duration, finish))
  }

  lemma SolvedOneMore(cal: Calendar, tasks: map<Id, Task>, deps: seq<Dependency>, order: seq<Id>, k: nat, early: Schedule,
                      finish: int, m: LateDates)
    requires Closed(tasks, deps) && Topological(deps, order) && Distinct(order) && Done(order) == tasks.Keys && k < |order|
    requires SolvedFrom(cal, tasks, deps, order, k + 1, early, finish, m) && order[k] in tasks
    ensures var t := order[k];
            var d := LateOf(cal, tasks[t].duration, DatesOf(early, t), Outgoing(deps, t), m, finish);
            SolvedFrom(cal, tasks, deps, order, k, early, finish, m[t := d])
  {
    var t := order[k];
    var d := LateOf(cal, tasks[t].duration, DatesOf(early, t), Outgoing(deps, t), m, finish);
    forall j | k <= j < |order| && order[j] in tasks ensures FollowsLate(cal, tasks, deps, early, finish, m[t := d], order[j]) {
      if j > k { assert FollowsLate(cal, tasks, deps, early, finish, m, order[j]); }
      StillFollows(cal, tasks, deps, order, k, j, m, d, early, finish);
    }
  }

  lemma StillFollows(cal: Calendar, tasks: map<Id, Task>, deps: seq<Dependency>, order: seq<Id>, k: nat, j: nat, m: LateDates, d: Late,
                     early: Schedule, finish: int)
    requires Closed(tasks, deps) && Topological(deps, order) && Distinct(order) && Done(order) == tasks.Keys && k <= j < |order|
    requires order[j] in tasks
    requires var t := order[j]; var l := LateOf(cal, tasks[t].duration, DatesOf(early, t), Outgoing(deps, t), m, finish);
             if j == k then d == l else t in m && m[t] == l
    ensures FollowsLate(cal, tasks, deps, early, finish, m[order[k] := d], order[j])
  {
    LatingKeeps(cal, tasks, deps, order, k, j, m, d, early, finish);
  }

  /** `run_backward_pass`: the tasks without successors first, then all in reversed order. */
  method RunBackwardPass(cal: Calendar, tasks: map<Id, Task>, deps: seq<Dependency>, order: seq<Id>, outgoing: map<Id, seq<Dependency>>,
                         early: Schedule, finish: int) returns (m: LateDates)
    requires cal.Valid() && Closed(tasks, deps) && Topological(deps, order) && Distinct(order) && Done(order) == tasks.Keys
    requires forall t :: Outgoing(deps, t) == if t in outgoing then outgoing[t] else []
    requires forall t :: t in outgoing ==> outgoing[t] != []
    ensures SolvesLate(cal, tasks, deps, early, finish, m)
  {
    m := map t | t in tasks :: if t in outgoing then Late(None, None) else BackFrom(cal, tasks[t].duration, finish);
    for k := |order| downto 0
      invariant SolvedFrom(cal, tasks, deps, order, k, early, finish, m)
    {
      var t := order[k];
      assert t in Done(order);
      SolvedOneMore(cal, tasks, deps, order, k, early, finish, m);
      if t in outgoing {
        var d := DateBack(cal, tasks[t].duration, DatesOf(early, t), outgoing[t], m, finish);
        m := m[t := d];
      } else {
        EndIsSettled(cal, tasks, deps, order, k + 1, early, finish, m, t);
      }
    }
    SolvedAll(cal, tasks, deps, order, early, finish, m);
  }

  lemma EndIsSettled(cal: Calendar, tasks: map<Id, Task>, deps: seq<Dependency>, order: seq<Id>, k: nat, early: Schedule,
                     finish: int, m: LateDates, t: Id)
    requires k <= |order| && SolvedFrom(cal, tasks, deps, order, k, early, finish, m) && t in tasks && Outgoing(deps, t) == []
    ensures m[t := LateOf(cal, tasks[t].duration, DatesOf(early, t), Outgoing(deps, t), m, finish)] == m
  {
  }

  lemma SolvedAll(cal: Calendar, tasks: map<Id, Task>, deps: seq<Dependency>, order: seq<Id>, early: Schedule, finish: int, m: LateDates)
    requires SolvedFrom(cal, tasks, deps, order, 0, early, finish, m) && Done(order) == tasks.Keys
    ensures SolvesLate(cal, tasks, deps, early, finish, m)
  {
    forall t | t in tasks ensures FollowsLate(cal, tasks, deps, early, finish, m, t) {
      assert t in Done(order);
    }
  }

  /** The late dates of a task with successors. */
  method DateBack(cal: Calendar, duration: int, early: Dates, links: seq<Dependency>, m: LateDates, finish: int) returns (d: Late)
    requires cal.Valid() && links != []
    ensures d == LateOf(cal, duration, early, links, m, finish)
  {
    var f, s := Limits(cal, links, m);
    if f.Some? {
      var ls := f.value;
      if duration > 0 {
        ls := AddWorkingDays(cal, ls, -(duration - 1));
      }
      return Late(Some(ls), f);
    }
    if s.Some? {
      var lf := s.value;
      if duration > 0 {
        lf := AddWorkingDays(cal, lf, duration - 1);
      }
      return Late(s, Some(lf));
    }
    return if early.es.Some? then Late(early.es, early.ef) else Late(None, None);
  }

  // ----- both passes together -------------------------------------------------------------------

  /** A project with the order its tasks were dated in and the dates of both passes. */
  datatype Plan = Plan(tasks: map<Id, Task>, deps: seq<Dependency>, order: seq<Id>,
                       early: Schedule, finish: int, late: LateDates)

  ghost predicate Planned(cal: Calendar, x: Plan) {
    && cal.Valid() && Closed(x.tasks, x.deps) && Solves(cal, x.tasks, x.deps, x.early) && LatestFinishOf(x.early, x.finish)
    && Topological(x.deps, x.order) && Distinct(x.order) && Done(x.order) == x.tasks.Keys
    && SolvesLate(cal, x.tasks, x.deps, x.early, x.finish, x.late)
  }

  function Early(x: Plan, t: Id): Dates {
    DatesOf(x.early, t)
  }

  predicate Dated(d: Dates) {
    d.es.Some? && d.ef.Some?
  }

  /** The successor starts, or for the links that bound its finish ends, no earlier than the
      link says. */
  predicate LinkKept(cal: Calendar, x: Plan, dep: Dependency) {
    Origin(dep.link, Early(x, dep.predecessor)).Some? ==>
      var d := Early(x, dep.successor);
      var bound := ForwardBound(cal, dep.link, Origin(dep.link, Early(x, dep.predecessor)).value, dep.lag);
      Dated(d) && if BoundsFinish(dep.link) then d.ef.value >= bound else d.es.value >= bound
  }

  predicate KeepsLinks(cal: Calendar, x: Plan, t: Id) {
    forall k :: 0 <= k < |x.deps| && x.deps[k].successor == t ==> LinkKept(cal, x, x.deps[k])
  }

  lemma LinksAreKept(cal: Calendar, x: Plan, dep: Dependency)
    requires Planned(cal, x) && dep in x.deps
    requires x.tasks[dep.successor].actualEnd.Some? ==> KeepsLinks(cal, x, dep.successor)
    ensures LinkKept(cal, x, dep)
  {
    var k :| 0 <= k < |x.deps| && x.deps[k] == dep;
    if x.tasks[dep.successor].actualEnd.None? && Origin(dep.link, Early(x, dep.predecessor)).Some? {
      LinksAreRespected(cal, x.tasks, x.deps, x.early, dep);
    }
  }

  // ----- monotone steps ---------------------------------------------------------------------------

  lemma {:induction false} EarlierMonotone(cal: Calendar, a: int, b: int, n: nat)
    requires cal.Valid() && a <= b
    ensures Earlier(cal, a, n) <= Earlier(cal, b, n)
  {
    if n > 0 {
      EarlierMonotone(cal, a, b, n - 1);
      LastIsLast(cal, Earlier(cal, a, n - 1) - 1);
      LastIsLast(cal, Earlier(cal, b, n - 1) - 1);
    }
  }

  lemma AddMonotone(cal: Calendar, a: int, b: int, n: int)
    requires cal.Valid() && a <= b
    ensures Add(cal, a, n) <= Add(cal, b, n)
  {
    NextMonotone(cal, a, b);
    if n > 0 {
      LaterMonotone(cal, Next(cal, a), Next(cal, b), n - 1);
    } else if n < 0 {
      EarlierMonotone(cal, Next(cal, a), Next(cal, b), -n);
    }
  }

  lemma {:induction false} LaterIncreases(cal: Calendar, d: int, n: nat)
    requires cal.Valid()
    ensures Later(cal, d, n) >= d + n
  {
    if n > 0 {
      LaterIncreases(cal, d, n - 1);
      NextIsFirst(cal, Later(cal, d, n - 1) + 1);
    }
  }

  /** On a link that settles a successor without float, the limit comes no earlier than the
      date it was counted from exactly when the link is finish-to-start or its lag is zero. */
  lemma CriticalLinkFloat(cal: Calendar, ty: LinkType, day: int, lag: int, late: int)
    requires cal.Valid() && late == ForwardBound(cal, ty, day, lag)
    ensures BackwardBound(cal, ty, late, lag) >= day <==> ty.FinishToStart? || lag == 0
  {
    BackwardUndoesForward(cal, ty, day, lag);
    LastIsLast(cal, day - 1);
  }

  lemma LimitIsNotEarly(cal: Calendar, ty: LinkType, day: int, lag: int, late: int)
    requires cal.Valid() && late >= ForwardBound(cal, ty, day, lag) && (ty.FinishToStart? || lag == 0)
    ensures BackwardBound(cal, ty, late, lag) >= day
  {
    BackwardUndoesForward(cal, ty, day, lag);
    AddMonotone(cal, ForwardBound(cal, ty, day, lag), late, if ty.FinishToStart? then -(lag + 1) else -lag);
  }
}
