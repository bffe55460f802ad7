/** Total float and the critical path (core/modules/project_management/services/scheduling/
    results.py): which links leave every project one, and what the others lead to. */
module CriticalPaths {
  import opened Text
  import opened WorkCalendar
  import opened DependencyGraph
  import opened ForwardPass
  import opened BackwardPass
  import opened ProjectFloat

  // ----- float and the critical path --------------------------------------------------------------

  /** `total_float_days` of `build_schedule_result`, negative float shown as none. */
  function TotalFloat(cal: Calendar, early: Dates, late: Late): Option<int> {
    if early.es.None? || late.ls.None? then None
    else if late.ls.value < early.es.value then Some(0)
    else
      var days := CountIn(cal, early.es.value, late.ls.value);
      Some(if days < 1 then 0 else days - 1)
  }

  predicate IsCritical(cal: Calendar, early: Dates, late: Late) {
    TotalFloat(cal, early, late) == Some(0)
  }

  /** The float of a task is how many working days its start can move. */
  lemma FloatIsRoomToMove(cal: Calendar, early: Dates, late: Late, n: nat)
    requires cal.Valid() && early.es.Some? && cal.working(early.es.value)
    requires late.ls == Some(Later(cal, early.es.value, n))
    ensures TotalFloat(cal, early, late) == Some(n)
  {
    LaterCounts(cal, early.es.value, n);
  }

  function LinkedStart(cal: Calendar, x: Plan, t: Id): Option<int>
    requires t in x.tasks
  {
    Latest(cal, x.tasks[t].duration, Incoming(x.deps, t), x.early)
  }

  /** The task starts on a date of its own: one that no link gave it, but its start date, its
      actual start or its actual end did. */
  predicate StartsOnItsOwn(cal: Calendar, x: Plan, t: Id)
    requires t in x.tasks
  {
    var task, d := x.tasks[t], Early(x, t);
    && d.es.Some? && d.es != LinkedStart(cal, x, t)
    && (task.actualEnd.None? ==> d.es == task.start || d.es == task.actualStart)
  }

  /** A chain of linked critical tasks, from one that starts on a date of its own to one
      without successors that ends at the project finish. */
  ghost predicate CriticalPath(cal: Calendar, x: Plan, q: seq<Id>) {
    && q != [] && Path(x.deps, q)
    && (forall k :: 0 <= k < |q| ==> q[k] in x.tasks && IsCritical(cal, Early(x, q[k]), LateAt(x.late, q[k])))
    && StartsOnItsOwn(cal, x, q[0])
    && Outgoing(x.deps, q[|q| - 1]) == [] && Early(x, q[|q| - 1]).ef == Some(x.finish)
  }

  /** Finish-to-start with a lead of at most two days, or finish-to-finish without lead. */
  predicate Ordinary(link: LinkType, lag: int) {
    (link.FinishToStart? && lag >= -2) || (link.FinishToFinish? && lag >= 0)
  }

  /** A task with an actual end kept its incoming links and took exactly its duration. */
  predicate KeepsPace(cal: Calendar, x: Plan, t: Id)
    requires t in x.tasks
  {
    x.tasks[t].actualEnd.Some? ==>
      KeepsLinks(cal, x, t) && Early(x, t) == From(cal, x.tasks[t].duration, Early(x, t).es)
  }

  /** All links are ordinary and all tasks with an actual end keep pace. */
  ghost predicate Steady(cal: Calendar, x: Plan) {
    && (forall t :: t in x.tasks ==> KeepsPace(cal, x, t))
    && (forall k :: 0 <= k < |x.deps| ==> Ordinary(x.deps[k].link, x.deps[k].lag))
  }

  /** The late finish gains no working day on the early one. */
  predicate Tight(cal: Calendar, early: Dates, late: Late) {
    Dated(early) && late.lf.Some? && late.lf.value <= Next(cal, early.ef.value)
  }

  lemma {:induction false} CountInMonotone(cal: Calendar, from: int, a: int, b: int)
    requires a <= b
    ensures CountIn(cal, from, a) <= CountIn(cal, from, b)
    decreases b - a
  {
    if a < b { CountInMonotone(cal, from, a, b - 1); }
  }

  /** Counted back from a tight finish, the late start is at most the first working day from
      the early start on. */
  lemma TightStart(cal: Calendar, duration: int, es: int, lf: int)
    requires cal.Valid() && lf <= Next(cal, From(cal, duration, Some(es)).ef.value)
    ensures BackFrom(cal, duration, lf).ls.value <= Next(cal, es)
  {
    if duration > 0 {
      var first, ef := Next(cal, es), Add(cal, es, duration);
      NextIsFirst(cal, es);
      LaterThenEarlier(cal, first, duration - 1);
      WorkingIsNext(cal, ef);
      AddMonotone(cal, lf, ef, -(duration - 1));
    }
  }

  lemma TightIsCritical(cal: Calendar, duration: int, early: Dates, late: Late)
    requires cal.Valid() && Tight(cal, early, late) && early == From(cal, duration, early.es)
    requires late == BackFrom(cal, duration, late.lf.value)
    ensures IsCritical(cal, early, late)
  {
    var es, ls := early.es.value, late.ls.value;
    TightStart(cal, duration, es, late.lf.value);
    AddedDaysAreCounted(cal, es, 1);
    if ls >= es { CountInMonotone(cal, es, ls, Next(cal, es)); }
  }

  /** The limit that a tight successor puts on what settled its start. */
  lemma LimitOfTight(cal: Calendar, duration: int, dep: Dependency, origin: int, lf: int)
    requires cal.Valid() && Ordinary(dep.link, dep.lag)
    requires var es := Candidate(cal, duration, dep, origin); lf <= Next(cal, From(cal, duration, Some(es)).ef.value)
    ensures BackwardBound(cal, dep.link, LimitedBy(dep.link, BackFrom(cal, duration, lf)).value, dep.lag) <= Next(cal, origin)
  {
    var es, ls := Candidate(cal, duration, dep, origin), BackFrom(cal, duration, lf).ls.value;
    NextIsFirst(cal, origin);
    BackwardUndoesForward(cal, dep.link, origin, dep.lag);
    if dep.link.FinishToStart? {
      TightStart(cal, duration, es, lf);
      NextIsFirst(cal, es);
      WorkingIsNext(cal, Next(cal, es));
      AddMonotone(cal, ls, Next(cal, es), -(dep.lag + 1));
      WorkingIsNext(cal, Next(cal, origin));
    } else {
      FinishOfCandidate(cal, duration, Add(cal, origin, dep.lag));
      if dep.lag > 0 {
        AddedIsWorking(cal, origin, dep.lag);
        WorkingIsNext(cal, Add(cal, origin, dep.lag));
        AddMonotone(cal, lf, Add(cal, origin, dep.lag), -dep.lag);
      }
    }
  }

  /** A start counted back from a finish bound leads to the first working day from it on. */
  lemma FinishOfCandidate(cal: Calendar, duration: int, bound: int)
    requires cal.Valid()
    ensures var es := if duration > 0 then Add(cal, bound, -(duration - 1)) else bound;
            Next(cal, From(cal, duration, Some(es)).ef.value) == Next(cal, bound)
  {
    var first := Next(cal, bound);
    NextIsFirst(cal, bound);
    WorkingIsNext(cal, first);
    if duration > 1 {
      LaterThenEarlier(cal, first, duration - 1);
      WorkingIsNext(cal, Earlier(cal, first, duration - 1));
    }
  }

  lemma EdgeOf(deps: seq<Dependency>, dep: Dependency)
    requires dep in deps
    ensures Edge(deps, dep.predecessor, dep.successor)
  {
    var k :| 0 <= k < |deps| && deps[k] == dep;
  }

  lemma DatedFully(cal: Calendar, x: Plan, t: Id)
    requires Planned(cal, x) && Steady(cal, x) && t in x.tasks
    ensures Early(x, t) == From(cal, x.tasks[t].duration, Early(x, t).es)
  {
    assert KeepsPace(cal, x, t);
    if x.tasks[t].actualEnd.None? { EndsAfterDuration(cal, x, t); }
  }

  lemma OrdinaryLinkIsKept(cal: Calendar, x: Plan, dep: Dependency)
    requires Planned(cal, x) && Steady(cal, x) && dep in x.deps
    ensures dep.predecessor in x.tasks && dep.successor in x.tasks && Ordinary(dep.link, dep.lag) && LinkKept(cal, x, dep)
  {
    var k :| 0 <= k < |x.deps| && x.deps[k] == dep;
    assert KeepsPace(cal, x, dep.successor);
    LinksAreKept(cal, x, dep);
  }

  lemma SuccessorIsLate(cal: Calendar, x: Plan, dep: Dependency)
    requires Planned(cal, x) && Steady(cal, x) && dep in x.deps && Dated(Early(x, dep.predecessor))
    ensures Ordinary(dep.link, dep.lag) && LimitedBy(dep.link, LateAt(x.late, dep.successor)).Some?
  {
    OrdinaryLinkIsKept(cal, x, dep);
    assert FollowsLate(cal, x.tasks, x.deps, x.early, x.finish, x.late, dep.successor);
  }

  /** Late dates are counted back from the late finish, as all links limit finishes. */
  lemma LateIsBackFrom(cal: Calendar, x: Plan, t: Id)
    requires Planned(cal, x) && Steady(cal, x) && t in x.tasks && Dated(Early(x, t))
    ensures LateAt(x.late, t).lf.Some? && LateAt(x.late, t) == BackFrom(cal, x.tasks[t].duration, LateAt(x.late, t).lf.value)
    ensures Outgoing(x.deps, t) == [] ==> LateAt(x.late, t).lf == Some(x.finish)
    ensures Outgoing(x.deps, t) != [] ==> LateAt(x.late, t).lf == Earliest(cal, Outgoing(x.deps, t), x.late, true)
  {
    var out := Outgoing(x.deps, t);
    assert FollowsLate(cal, x.tasks, x.deps, x.early, x.finish, x.late, t);
    if out != [] {
      OutgoingLinks(x.deps, t, 0);
      SuccessorIsLate(cal, x, out[0]);
      EarliestBelow(cal, out, x.late, out[0]);
    }
  }

  /** If a tight task starts when a link says, the task that the link comes from is tight. */
  lemma PredecessorIsTight(cal: Calendar, x: Plan, dep: Dependency)
    requires Planned(cal, x) && Steady(cal, x) && dep in x.deps && dep.successor in x.tasks
    requires Origin(dep.link, Early(x, dep.predecessor)).Some?
    requires Tight(cal, Early(x, dep.successor), LateAt(x.late, dep.successor))
    requires Early(x, dep.successor).es
          == Some(Candidate(cal, x.tasks[dep.successor].duration, dep, Origin(dep.link, Early(x, dep.predecessor)).value))
    ensures dep.predecessor in x.tasks && Tight(cal, Early(x, dep.predecessor), LateAt(x.late, dep.predecessor))
  {
    var p, t := dep.predecessor, dep.successor;
    OrdinaryLinkIsKept(cal, x, dep);
    DatesComeTogether(cal, x, p);
    DatedFully(cal, x, t);
    LateIsBackFrom(cal, x, t);
    LateIsBackFrom(cal, x, p);
    LimitOfTight(cal, x.tasks[t].duration, dep, Early(x, p).ef.value, LateAt(x.late, t).lf.value);
    OutgoingMember(x.deps, dep);
    EarliestBelow(cal, Outgoing(x.deps, p), x.late, dep);
  }

  lemma StartComesFrom(cal: Calendar, x: Plan, t: Id)
    requires Planned(cal, x) && t in x.tasks && Dated(Early(x, t)) && Early(x, t).es != LinkedStart(cal, x, t)
    ensures StartsOnItsOwn(cal, x, t)
  {
    assert Follows(cal, x.tasks, x.deps, x.early, t);
  }

  ghost predicate TightPath(cal: Calendar, x: Plan, q: seq<Id>) {
    && q != [] && Path(x.deps, q)
    && (forall k :: 0 <= k < |q| ==> q[k] in x.tasks && Tight(cal, Early(x, q[k]), LateAt(x.late, q[k])))
    && StartsOnItsOwn(cal, x, q[0])
  }

  lemma PathExtends(deps: seq<Dependency>, q: seq<Id>, t: Id)
    requires q != [] && Path(deps, q) && Edge(deps, q[|q| - 1], t)
    ensures Path(deps, q + [t])
  {
    forall i | 0 <= i < |q + [t]| - 1 ensures Edge(deps, (q + [t])[i], (q + [t])[i + 1]) {
      if i < |q| - 1 { assert Edge(deps, q[i], q[i + 1]); }
    }
  }

  /** A tight task is reached by a path of tight tasks from one that starts on its own. */
  lemma {:induction false} TightChain(cal: Calendar, x: Plan, j: nat) returns (q: seq<Id>)
    requires Planned(cal, x) && Steady(cal, x) && j < |x.order| && x.order[j] in x.tasks
    requires Tight(cal, Early(x, x.order[j]), LateAt(x.late, x.order[j]))
    ensures TightPath(cal, x, q) && q[|q| - 1] == x.order[j]
    decreases j
  {
    var t := x.order[j];
    if Early(x, t).es != LinkedStart(cal, x, t) {
      StartComesFrom(cal, x, t);
      q := [t];
    } else {
      var dep := LatestAttained(cal, x.tasks[t].duration, Incoming(x.deps, t), x.early);
      var k :| 0 <= k < |Incoming(x.deps, t)| && Incoming(x.deps, t)[k] == dep;
      IncomingLinks(x.deps, t, k);
      PredecessorIsTight(cal, x, dep);
      PredecessorComesFirst(x.deps, x.order, j, dep);
      var i :| 0 <= i < j && x.order[..j][i] == dep.predecessor;
      var front := TightChain(cal, x, i);
      EdgeOf(x.deps, dep);
      PathExtends(x.deps, front, t);
      q := front + [t];
    }
  }

  lemma EndsNotBeforeStart(cal: Calendar, duration: int, es: int)
    requires cal.Valid()
    ensures From(cal, duration, Some(es)).ef.value >= es
  {
    NextIsFirst(cal, es);
    if duration > 0 { LaterIncreases(cal, Next(cal, es), duration - 1); }
  }

  lemma ForwardIsNotBefore(cal: Calendar, link: LinkType, day: int, lag: int)
    requires cal.Valid() && Ordinary(link, lag)
    ensures ForwardBound(cal, link, day, lag) >= day
  {
    var n := if link.FinishToStart? then lag + 2 else lag;
    NextIsFirst(cal, day);
    if n > 0 { LaterIncreases(cal, Next(cal, day), n - 1); }
  }

  /** Whatever follows a task that ends at the project finish ends there too. */
  lemma FinishIsPassedOn(cal: Calendar, x: Plan, dep: Dependency)
    requires Planned(cal, x) && Steady(cal, x) && dep in x.deps
    requires Dated(Early(x, dep.predecessor)) && Early(x, dep.predecessor).ef == Some(x.finish)
    ensures dep.successor in x.tasks && Dated(Early(x, dep.successor)) && Early(x, dep.successor).ef == Some(x.finish)
  {
    OrdinaryLinkIsKept(cal, x, dep);
    ForwardIsNotBefore(cal, dep.link, x.finish, dep.lag);
    DatedFully(cal, x, dep.successor);
    DatesComeTogether(cal, x, dep.successor);
    EndsNotBeforeStart(cal, x.tasks[dep.successor].duration, Early(x, dep.successor).es.value);
  }

  /** From any task that ends at the project finish on, one without successors does. */
  lemma {:induction false} LastFinisher(cal: Calendar, x: Plan, j: nat) returns (i: nat)
    requires Planned(cal, x) && Steady(cal, x) && j < |x.order| && x.order[j] in x.tasks
    requires Dated(Early(x, x.order[j])) && Early(x, x.order[j]).ef == Some(x.finish)
    ensures i < |x.order| && x.order[i] in x.tasks && Outgoing(x.deps, x.order[i]) == []
    ensures Dated(Early(x, x.order[i])) && Early(x, x.order[i]).ef == Some(x.finish)
    decreases |x.order| - j
  {
    i := j;
    if Outgoing(x.deps, x.order[j]) != [] {
      var dep := Outgoing(x.deps, x.order[j])[0];
      OutgoingLinks(x.deps, x.order[j], 0);
      FinishIsPassedOn(cal, x, dep);
      var next := SuccessorComesLater(x.deps, x.order, j, dep);
      i := LastFinisher(cal, x, next);
    }
  }

  /** If all links are ordinary and all tasks with an actual end keep pace, there is a
      critical path. */
  lemma CriticalPathExists(cal: Calendar, x: Plan) returns (q: seq<Id>)
    requires Planned(cal, x) && Steady(cal, x)
    ensures CriticalPath(cal, x, q)
  {
    var t :| t in x.early && x.early[t].ef == Some(x.finish);
    assert t in Done(x.order);
    var j :| 0 <= j < |x.order| && x.order[j] == t;
    DatesComeTogether(cal, x, t);
    var i := LastFinisher(cal, x, j);
    LateIsBackFrom(cal, x, x.order[i]);
    NextIsFirst(cal, x.finish);
    q := TightChain(cal, x, i);
    forall k | 0 <= k < |q| ensures IsCritical(cal, Early(x, q[k]), LateAt(x.late, q[k])) {
      DatedFully(cal, x, q[k]);
      LateIsBackFrom(cal, x, q[k]);
      TightIsCritical(cal, x.tasks[q[k]].duration, Early(x, q[k]), LateAt(x.late, q[k]));
    }
  }

  // ----- links without a critical path -----------------------------------------------------------------

  /** All links are of the given type and lag; no task has an actual end. */
  ghost predicate SameLinks(x: Plan, ty: LinkType, lag: int) {
    && (forall t :: t in x.tasks ==> x.tasks[t].actualEnd.None?)
    && forall k :: 0 <= k < |x.deps| ==> x.deps[k].link == ty && x.deps[k].lag == lag
  }

  /** Every project with such links, however planned, has a critical path. */
  ghost predicate AlwaysCritical(cal: Calendar, ty: LinkType, lag: int) {
    forall x: Plan :: Planned(cal, x) && SameLinks(x, ty, lag) ==> exists q :: CriticalPath(cal, x, q)
  }

  /** A task `p` longer than the lag from a working day on, linked to milestone `s`. */
  function Pair(cal: Calendar, ty: LinkType, lag: int, day: int): Plan {
    var duration := if lag > 0 then lag + 2 else 2 - lag;
    var d := From(cal, duration, Some(day));
    var at, dep := ForwardBound(cal, ty, Origin(ty, d).value, lag), Dependency("p", "s", ty, lag);
    var rest := map["s" := Late(d.ef, d.ef)];
    Plan(map["p" := Task(0, "", duration, Some(day), None, None), "s" := Task(0, "", 0, None, None, None)],
         [dep], ["p", "s"], map["p" := d, "s" := Dates(Some(at), Some(at))], d.ef.value,
         rest["p" := LateOf(cal, duration, d, [dep], rest, d.ef.value)])
  }

  lemma {:induction false} LaterStrictly(cal: Calendar, d: int, m: nat, n: nat)
    requires cal.Valid() && m < n
    ensures Later(cal, d, m) < Later(cal, d, n)
  {
    NextIsFirst(cal, Later(cal, d, n - 1) + 1);
    if m < n - 1 { LaterStrictly(cal, d, m, n - 1); }
  }

  /** The milestone comes before the end of the first task. */
  lemma MilestoneComesEarly(cal: Calendar, ty: LinkType, lag: int, day: int)
    requires cal.Valid() && cal.working(day) && !Ordinary(ty, lag)
    ensures var x := Pair(cal, ty, lag, day); var at := x.early["s"].es.value;
            cal.working(at) && cal.working(x.finish) && at < x.finish
  {
    var x := Pair(cal, ty, lag, day);
    var n := if ty.FinishToStart? then lag + 2 else lag;
    var origin := Origin(ty, x.early["p"]).value;
    WorkingIsNext(cal, day);
    AddedIsWorking(cal, day, x.tasks["p"].duration);
    AddedIsWorking(cal, origin, n);
    WorkingIsNext(cal, origin);
    LaterStrictly(cal, day, if lag > 0 then lag - 1 else 0, x.tasks["p"].duration - 1);
    if n < 0 { EarlierDecreases(cal, origin, 0, -n); }
  }

  lemma PairIsPlanned(cal: Calendar, ty: LinkType, lag: int, day: int)
    requires cal.Valid() && cal.working(day) && !Ordinary(ty, lag)
    ensures Planned(cal, Pair(cal, ty, lag, day)) && SameLinks(Pair(cal, ty, lag, day), ty, lag)
  {
    var x := Pair(cal, ty, lag, day);
    var dep := x.deps[0];
    MilestoneComesEarly(cal, ty, lag, day);
    PairIsOrdered(x, dep);
    OneLinkLatest(cal, 0, dep, x.early);
    assert Latest(cal, x.tasks["p"].duration, [], x.early) == None;
    EarliestDependsOnSuccessors(cal, [dep], x.late, map["s" := x.late["s"]], true);
    EarliestDependsOnSuccessors(cal, [dep], x.late, map["s" := x.late["s"]], false);
    assert Follows(cal, x.tasks, x.deps, x.early, "p") && Follows(cal, x.tasks, x.deps, x.early, "s");
    assert FollowsLate(cal, x.tasks, x.deps, x.early, x.finish, x.late, "p");
    assert FollowsLate(cal, x.tasks, x.deps, x.early, x.finish, x.late, "s");
    assert "p" in x.early && x.early["p"].ef == Some(x.finish);
  }

  /** Every other link makes a project of two tasks without a critical path: the only task
      without successors has float. */
  lemma NoCriticalPath(cal: Calendar, ty: LinkType, lag: int, day: int)
    requires cal.Valid() && cal.working(day) && !Ordinary(ty, lag)
    ensures var x := Pair(cal, ty, lag, day);
            Planned(cal, x) && SameLinks(x, ty, lag) && forall q :: !CriticalPath(cal, x, q)
  {
    var x := Pair(cal, ty, lag, day);
    PairIsPlanned(cal, ty, lag, day);
    MilestoneComesEarly(cal, ty, lag, day);
    PairIsOrdered(x, x.deps[0]);
    var at := x.early["s"].es.value;
    CountInMonotone(cal, at, at, x.finish - 1);
    assert CountIn(cal, at, at) == 1 by { assert CountIn(cal, at, at - 1) == 0; }
    assert !IsCritical(cal, Early(x, "s"), LateAt(x.late, "s"));
    forall q ensures !CriticalPath(cal, x, q) {}
  }

  /** Every project with such links has a critical path if and only if the links are ordinary:
      finish-to-start with a lead of at most two days, or finish-to-finish without lead. */
  lemma OrdinaryExactly(cal: Calendar, ty: LinkType, lag: int)
    requires cal.Valid()
    ensures AlwaysCritical(cal, ty, lag) <==> Ordinary(ty, lag)
  {
    if Ordinary(ty, lag) {
      forall x: Plan | Planned(cal, x) && SameLinks(x, ty, lag) ensures exists q :: CriticalPath(cal, x, q) {
        var q := CriticalPathExists(cal, x);
      }
    } else {
      NextIsFirst(cal, 0);
      NoCriticalPath(cal, ty, lag, Next(cal, 0));
    }
  }
}
