/** The float between the dates of the two scheduling passes: which links and actual ends keep
    it from ever being negative, and what the others cost. */
module ProjectFloat {
  import opened Text
  import opened WorkCalendar
  import opened DependencyGraph
  import opened ForwardPass
  import opened BackwardPass

  // ----- no negative float ----------------------------------------------------------------------

  /** The early dates, if there are any, are not after the late ones. */
  predicate NoNegativeFloatAt(early: Dates, late: Late) {
    Dated(early) ==>
      late.ls.Some? && late.lf.Some? && early.es.value <= late.ls.value && early.ef.value <= late.lf.value
  }

  ghost predicate NoNegativeFloatIn(x: Plan) {
    forall t :: t in x.tasks ==> NoNegativeFloatAt(Early(x, t), LateAt(x.late, t))
  }

  /** Some link of the task limits its finish, so that the limits on its start are ignored. */
  predicate FinishLimited(deps: seq<Dependency>, t: Id) {
    exists k :: 0 <= k < |Outgoing(deps, t)| && LimitsFinish(Outgoing(deps, t)[k].link)
  }

  /** A link that cannot cost a predecessor of this duration any float: finish-to-start with
      any lag, finish-to-finish without lag, or one that limits the start, without lag and
      with a predecessor of at most one day. */
  predicate Harmless(link: LinkType, lag: int, duration: int) {
    || link.FinishToStart?
    || (link.FinishToFinish? && lag == 0)
    || (!LimitsFinish(link) && lag == 0 && duration <= 1)
  }

  /** The link is harmless, or it limits a start and is ignored for the sake of another one. */
  predicate CostsNothing(x: Plan, dep: Dependency)
    requires dep.predecessor in x.tasks
  {
    || Harmless(dep.link, dep.lag, x.tasks[dep.predecessor].duration)
    || (!LimitsFinish(dep.link) && FinishLimited(x.deps, dep.predecessor))
  }

  /** Between the two dates lies at least the task's duration. */
  predicate LongEnough(cal: Calendar, duration: int, d: Dates) {
    Dated(d) ==> BackFrom(cal, duration, d.ef.value).ls.value >= d.es.value
  }

  /** Between the two dates lies at most the task's duration. */
  predicate NotLonger(cal: Calendar, duration: int, d: Dates) {
    Dated(d) ==> d.ef.value <= From(cal, duration, d.es).ef.value
  }

  /** A task with an actual end kept its incoming links, took no less than its duration and,
      if only its start is limited, no more. */
  predicate Orderly(cal: Calendar, x: Plan, t: Id)
    requires t in x.tasks
  {
    x.tasks[t].actualEnd.Some? ==>
      && KeepsLinks(cal, x, t)
      && LongEnough(cal, x.tasks[t].duration, Early(x, t))
      && (Outgoing(x.deps, t) != [] && !FinishLimited(x.deps, t) ==> NotLonger(cal, x.tasks[t].duration, Early(x, t)))
  }

  /** Without an actual end, a task ends its duration after it starts. */
  lemma EndsAfterDuration(cal: Calendar, x: Plan, t: Id)
    requires Planned(cal, x) && t in x.tasks && x.tasks[t].actualEnd.None?
    ensures Early(x, t) == From(cal, x.tasks[t].duration, Early(x, t).es)
  {
    assert Follows(cal, x.tasks, x.deps, x.early, t);
  }

  lemma DatesComeTogether(cal: Calendar, x: Plan, t: Id)
    requires Planned(cal, x) && t in x.tasks
    ensures Early(x, t).es.Some? <==> Early(x, t).ef.Some?
    ensures Dated(Early(x, t)) ==> Early(x, t).ef.value <= x.finish
  {
    assert Follows(cal, x.tasks, x.deps, x.early, t);
    assert t in x.early;
  }

  lemma DurationLies(cal: Calendar, duration: int, es: int)
    requires cal.Valid()
    ensures LongEnough(cal, duration, From(cal, duration, Some(es))) && NotLonger(cal, duration, From(cal, duration, Some(es)))
  {
    if duration > 0 {
      var first := Next(cal, es);
      NextIsFirst(cal, es);
      LaterThenEarlier(cal, first, duration - 1);
      WorkingIsNext(cal, Later(cal, first, duration - 1));
    }
  }

  lemma TaskIsLongEnough(cal: Calendar, x: Plan, t: Id)
    requires Planned(cal, x) && t in x.tasks && Orderly(cal, x, t)
    ensures LongEnough(cal, x.tasks[t].duration, Early(x, t))
    ensures Outgoing(x.deps, t) != [] && !FinishLimited(x.deps, t) ==> NotLonger(cal, x.tasks[t].duration, Early(x, t))
  {
    if x.tasks[t].actualEnd.None? && Dated(Early(x, t)) {
      EndsAfterDuration(cal, x, t);
      DurationLies(cal, x.tasks[t].duration, Early(x, t).es.value);
    }
  }

  /** A late date is a working day unless it is not before the project finish. */
  predicate Settled(cal: Calendar, finish: int, day: int) {
    cal.working(day) || day >= finish
  }

  predicate FloatOk(cal: Calendar, finish: int, early: Dates, late: Late) {
    && NoNegativeFloatAt(early, late)
    && (Dated(early) ==> Settled(cal, finish, late.ls.value) && Settled(cal, finish, late.lf.value))
  }

  /** Counting back from a settled finish that is not before the early one. */
  lemma BackFromIsOk(cal: Calendar, duration: int, d: Dates, finish: int, lf: int)
    requires cal.Valid() && Dated(d) && LongEnough(cal, duration, d) && d.ef.value <= lf && Settled(cal, finish, lf)
    ensures FloatOk(cal, finish, d, BackFrom(cal, duration, lf))
  {
    if duration > 0 {
      AddMonotone(cal, d.ef.value, lf, -(duration - 1));
      if duration > 1 { AddedIsWorking(cal, lf, -(duration - 1)); }
    }
  }

  /** Counting on from a settled start that is not before the early one, at most one day. */
  lemma OnFromIsOk(cal: Calendar, duration: int, d: Dates, finish: int, ls: int)
    requires cal.Valid() && Dated(d) && NotLonger(cal, duration, d) && d.es.value <= ls && Settled(cal, finish, ls)
    requires duration <= 1 && d.ef.value <= finish
    ensures FloatOk(cal, finish, d, Late(Some(ls), Some(if duration > 0 then Add(cal, ls, duration - 1) else ls)))
  {
    NextIsFirst(cal, d.es.value);
  }

  /** The link, if it limits the kind of date asked for, limits it to a settled day no earlier
      than `floor`. */
  predicate Allows(cal: Calendar, m: LateDates, dep: Dependency, finish: bool, end: int, floor: int) {
    LimitsFinish(dep.link) == finish ==>
      var limit := LimitedBy(dep.link, LateAt(m, dep.successor));
      limit.Some? && var c := BackwardBound(cal, dep.link, limit.value, dep.lag); c >= floor && Settled(cal, end, c)
  }

  /** What one outgoing link allows, given its successor's float. */
  lemma LinkAllows(cal: Calendar, x: Plan, dep: Dependency)
    requires Planned(cal, x) && dep in x.deps && LinkKept(cal, x, dep) && Dated(Early(x, dep.predecessor))
    requires FloatOk(cal, x.finish, Early(x, dep.successor), LateAt(x.late, dep.successor))
    ensures var limit := LimitedBy(dep.link, LateAt(x.late, dep.successor));
            limit.Some? && (dep.link.FinishToStart? || dep.lag == 0 ==>
              var c := BackwardBound(cal, dep.link, limit.value, dep.lag);
              c >= Origin(dep.link, Early(x, dep.predecessor)).value && Settled(cal, x.finish, c))
  {
    var limit := LimitedBy(dep.link, LateAt(x.late, dep.successor));
    if dep.link.FinishToStart? || dep.lag == 0 {
      LimitIsNotEarly(cal, dep.link, Origin(dep.link, Early(x, dep.predecessor)).value, dep.lag, limit.value);
      if dep.link.FinishToStart? && dep.lag != -1 { AddedIsWorking(cal, limit.value, -(dep.lag + 1)); }
    }
  }

  lemma {:induction false} EarliestAllows(cal: Calendar, links: seq<Dependency>, m: LateDates, finish: bool, end: int, floor: int)
    requires forall k :: 0 <= k < |links| ==> Allows(cal, m, links[k], finish, end, floor)
    ensures Earliest(cal, links, m, finish).Some? <==> exists k :: 0 <= k < |links| && LimitsFinish(links[k].link) == finish
    ensures var e := Earliest(cal, links, m, finish); e.Some? ==> e.value >= floor && Settled(cal, end, e.value)
  {
    if links != [] {
      var front, last := links[..|links| - 1], links[|links| - 1];
      forall k | 0 <= k < |front| ensures Allows(cal, m, front[k], finish, end, floor) { assert front[k] == links[k]; }
      EarliestAllows(cal, front, m, finish, end, floor);
      assert Allows(cal, m, last, finish, end, floor);
      if Earliest(cal, front, m, finish).Some? {
        var k :| 0 <= k < |front| && LimitsFinish(front[k].link) == finish;
        assert links[k] == front[k];
      }
      if exists k :: 0 <= k < |links| && LimitsFinish(links[k].link) == finish {
        var k :| 0 <= k < |links| && LimitsFinish(links[k].link) == finish;
        if k < |front| { assert front[k] == links[k]; }
      }
    }
  }

  /** Every task with an actual end is orderly, and no link costs anything. */
  ghost predicate Sheltered(cal: Calendar, x: Plan) {
    && (forall t :: t in x.tasks ==> Orderly(cal, x, t))
    && (forall k :: 0 <= k < |x.deps| ==> x.deps[k].predecessor in x.tasks && CostsNothing(x, x.deps[k]))
  }

  lemma LinkIsAllowed(cal: Calendar, x: Plan, t: Id, k: nat)
    requires Planned(cal, x) && Sheltered(cal, x) && t in x.tasks && Dated(Early(x, t)) && k < |Outgoing(x.deps, t)|
    requires var s := Outgoing(x.deps, t)[k].successor; FloatOk(cal, x.finish, Early(x, s), LateAt(x.late, s))
    ensures var dep := Outgoing(x.deps, t)[k];
            && Allows(cal, x.late, dep, true, x.finish, Early(x, t).ef.value)
            && (!FinishLimited(x.deps, t) ==> x.tasks[t].duration <= 1 && Allows(cal, x.late, dep, false, x.finish, Early(x, t).es.value))
  {
    var dep := Outgoing(x.deps, t)[k];
    OutgoingLinks(x.deps, t, k);
    var i :| 0 <= i < |x.deps| && x.deps[i] == dep;
    assert CostsNothing(x, x.deps[i]) && Orderly(cal, x, dep.successor);
    LinksAreKept(cal, x, dep);
    LinkAllows(cal, x, dep);
  }

  /** One task, given float at all its successors. */
  lemma FloatAt(cal: Calendar, x: Plan, t: Id)
    requires Planned(cal, x) && Sheltered(cal, x) && t in x.tasks
    requires forall k :: 0 <= k < |Outgoing(x.deps, t)| ==>
               var s := Outgoing(x.deps, t)[k].successor; FloatOk(cal, x.finish, Early(x, s), LateAt(x.late, s))
    ensures FloatOk(cal, x.finish, Early(x, t), LateAt(x.late, t))
  {
    var d, out, duration := Early(x, t), Outgoing(x.deps, t), x.tasks[t].duration;
    DatesComeTogether(cal, x, t);
    assert FollowsLate(cal, x.tasks, x.deps, x.early, x.finish, x.late, t);
    if Dated(d) {
      TaskIsLongEnough(cal, x, t);
      if out == [] {
        BackFromIsOk(cal, duration, d, x.finish, x.finish);
      } else {
        forall k | 0 <= k < |out|
          ensures Allows(cal, x.late, out[k], true, x.finish, d.ef.value)
          ensures !FinishLimited(x.deps, t) ==> duration <= 1 && Allows(cal, x.late, out[k], false, x.finish, d.es.value)
        {
          LinkIsAllowed(cal, x, t, k);
        }
        EarliestAllows(cal, out, x.late, true, x.finish, d.ef.value);
        if FinishLimited(x.deps, t) {
          BackFromIsOk(cal, duration, d, x.finish, Earliest(cal, out, x.late, true).value);
        } else {
          assert !LimitsFinish(out[0].link);
          EarliestAllows(cal, out, x.late, false, x.finish, d.es.value);
          OnFromIsOk(cal, duration, d, x.finish, Earliest(cal, out, x.late, false).value);
        }
      }
    }
  }

  lemma {:induction false} FloatFrom(cal: Calendar, x: Plan, j: nat)
    requires Planned(cal, x) && Sheltered(cal, x) && j < |x.order|
    ensures FloatOk(cal, x.finish, Early(x, x.order[j]), LateAt(x.late, x.order[j]))
    decreases |x.order| - j
  {
    var t := x.order[j];
    assert t in Done(x.order);
    forall k | 0 <= k < |Outgoing(x.deps, t)|
      ensures var s := Outgoing(x.deps, t)[k].successor; FloatOk(cal, x.finish, Early(x, s), LateAt(x.late, s))
    {
      OutgoingLinks(x.deps, t, k);
      var i := SuccessorComesLater(x.deps, x.order, j, Outgoing(x.deps, t)[k]);
      FloatFrom(cal, x, i);
    }
    FloatAt(cal, x, t);
  }

  /** If every task with an actual end is orderly and no link costs anything, no task has
      negative float: whatever the calendar, the start dates, the actual starts, the durations
      and the lags of finish-to-start links, every dated task starts and ends no later than
      its late dates. */
  lemma NoNegativeFloat(cal: Calendar, x: Plan)
    requires Planned(cal, x) && Sheltered(cal, x)
    ensures NoNegativeFloatIn(x)
  {
    forall t | t in x.tasks ensures NoNegativeFloatAt(Early(x, t), LateAt(x.late, t)) {
      assert t in Done(x.order);
      var j :| 0 <= j < |x.order| && x.order[j] == t;
      FloatFrom(cal, x, j);
    }
  }

  // ----- links that cost float ----------------------------------------------------------------------

  /** The only links are finish-to-start ones and ones of the given type and lag, from tasks of
      the given duration; no task has an actual end. */
  ghost predicate OnlyLinks(x: Plan, ty: LinkType, lag: int, duration: int) {
    && (forall t :: t in x.tasks ==> x.tasks[t].actualEnd.None?)
    && forall k :: 0 <= k < |x.deps| ==>
         x.deps[k].link.FinishToStart?
         || (x.deps[k].link == ty && x.deps[k].lag == lag
             && x.deps[k].predecessor in x.tasks && x.tasks[x.deps[k].predecessor].duration == duration)
  }

  /** No project with such links, however planned, has negative float. */
  ghost predicate NeverNegative(cal: Calendar, ty: LinkType, lag: int, duration: int) {
    forall x: Plan :: Planned(cal, x) && OnlyLinks(x, ty, lag, duration) ==> NoNegativeFloatIn(x)
  }

  lemma {:induction false} TwoLinks(a: Dependency, b: Dependency, t: Id)
    ensures Incoming([a, b], t) == (if a.successor == t then [a] else []) + (if b.successor == t then [b] else [])
    ensures Outgoing([a, b], t) == (if a.predecessor == t then [a] else []) + (if b.predecessor == t then [b] else [])
  {
    assert [a, b][..1] == [a] && [a][..0] == [];
    assert Incoming([a], t) == Incoming([a][..0], t) + if a.successor == t then [a] else [];
    assert Outgoing([a], t) == Outgoing([a][..0], t) + if a.predecessor == t then [a] else [];
  }

  lemma OneLinkLatest(cal: Calendar, duration: int, dep: Dependency, m: Schedule)
    ensures Latest(cal, duration, [dep], m)
         == match Origin(dep.link, DatesOf(m, dep.predecessor))
            case None => None
            case Some(day) => Some(Candidate(cal, duration, dep, day))
  {
    assert [dep][..0] == [];
    assert Latest(cal, duration, [dep][..0], m) == None;
  }

  lemma OneLinkEarliest(cal: Calendar, dep: Dependency, m: LateDates)
    requires LimitedBy(dep.link, LateAt(m, dep.successor)).Some?
    ensures Earliest(cal, [dep], m, LimitsFinish(dep.link))
         == Some(BackwardBound(cal, dep.link, LimitedBy(dep.link, LateAt(m, dep.successor)).value, dep.lag))
    ensures Earliest(cal, [dep], m, !LimitsFinish(dep.link)) == None
  {
    assert [dep][..0] == [];
    assert Earliest(cal, [dep][..0], m, true) == None && Earliest(cal, [dep][..0], m, false) == None;
  }

  /** Task `p` of the given duration from a working day on, linked to milestone `s`, which
      task `u` follows finish-to-start, long enough to end the project. */
  function Chain(cal: Calendar, ty: LinkType, lag: int, duration: int, day: int): Plan {
    var d := From(cal, duration, Some(day));
    var at := ForwardBound(cal, ty, Origin(ty, d).value, lag);
    var next := Add(cal, at, 2);
    var days := if d.ef.value < next then 1 else d.ef.value - next + 1;
    var finish := Add(cal, next, days);
    var link, tail := Dependency("p", "s", ty, lag), Dependency("s", "u", FinishToStart, 0);
    var rest := map["s" := Late(Some(at), Some(at)), "u" := Late(Some(next), Some(finish))];
    Plan(map["p" := Task(0, "", duration, Some(day), None, None), "s" := Task(0, "", 0, None, None, None),
             "u" := Task(0, "", days, None, None, None)],
         [link, tail], ["p", "s", "u"],
         map["p" := d, "s" := Dates(Some(at), Some(at)), "u" := Dates(Some(next), Some(finish))], finish,
         rest["p" := LateOf(cal, duration, d, [link], rest, finish)])
  }

  lemma ChainDates(cal: Calendar, ty: LinkType, lag: int, duration: int, day: int)
    requires cal.Valid() && cal.working(day) && !ty.FinishToStart?
    ensures var d := From(cal, duration, Some(day)); var at := ForwardBound(cal, ty, Origin(ty, d).value, lag);
            var x := Chain(cal, ty, lag, duration, day); var next := Add(cal, at, 2);
            && cal.working(d.ef.value) && cal.working(at) && cal.working(next)
            && d.ef.value <= x.finish && at <= x.finish && x.tasks["u"].duration >= 1
            && x.finish == Add(cal, next, x.tasks["u"].duration)
            && BackFrom(cal, x.tasks["u"].duration, x.finish).ls == Some(next)
            && BackwardBound(cal, FinishToStart, next, 0) == at
  {
    var d := From(cal, duration, Some(day));
    var at := ForwardBound(cal, ty, Origin(ty, d).value, lag);
    var next := Add(cal, at, 2);
    var days := Chain(cal, ty, lag, duration, day).tasks["u"].duration;
    if duration > 0 { AddedIsWorking(cal, day, duration); }
    AddedIsWorking(cal, Origin(ty, d).value, lag);
    AddedIsWorking(cal, at, 2);
    WorkingIsNext(cal, next);
    LaterIncreases(cal, next, days - 1);
    WorkingIsNext(cal, at);
    LaterIncreases(cal, at, 1);
    LaterThenEarlier(cal, next, days - 1);
    WorkingIsNext(cal, Later(cal, next, days - 1));
    BackwardUndoesForward(cal, FinishToStart, at, 0);
  }

  lemma ChainIsOrdered(x: Plan, link: Dependency, tail: Dependency)
    requires x.deps == [link, tail] && x.order == ["p", "s", "u"]
    requires link.predecessor == "p" && link.successor == "s" && tail.predecessor == "s" && tail.successor == "u"
    ensures Topological(x.deps, x.order) && Distinct(x.order) && Done(x.order) == {"p", "s", "u"}
  {
    var o := x.order;
    assert o[0] == "p" && o[1] == "s" && o[2] == "u" && |"p"| == 1;
    assert "p" != "s" && "s" != "u" && "p" != "u" by { assert "p"[0] != "s"[0] && "s"[0] != "u"[0] && "p"[0] != "u"[0]; }
    forall a, b, j | Edge(x.deps, a, b) && 0 <= j < |o| && o[j] == b ensures a in o[..j] {
      var k :| 0 <= k < |x.deps| && x.deps[k].predecessor == a && x.deps[k].successor == b;
      assert o[..1][0] == "p" && o[..2][1] == "s";
    }
    forall t ensures t in Done(o) <==> t in {"p", "s", "u"} {}
  }

  lemma ChainSolves(cal: Calendar, ty: LinkType, lag: int, duration: int, day: int)
    requires cal.Valid() && cal.working(day) && !ty.FinishToStart?
    ensures var x := Chain(cal, ty, lag, duration, day);
            Solves(cal, x.tasks, x.deps, x.early) && LatestFinishOf(x.early, x.finish)
  {
    var x := Chain(cal, ty, lag, duration, day);
    var link, tail := x.deps[0], x.deps[1];
    ChainDates(cal, ty, lag, duration, day);
    TwoLinks(link, tail, "p");
    TwoLinks(link, tail, "s");
    TwoLinks(link, tail, "u");
    OneLinkLatest(cal, 0, link, x.early);
    OneLinkLatest(cal, x.tasks["u"].duration, tail, x.early);
    assert Latest(cal, duration, [], x.early) == None;
    assert Follows(cal, x.tasks, x.deps, x.early, "p") && Follows(cal, x.tasks, x.deps, x.early, "s");
    assert Follows(cal, x.tasks, x.deps, x.early, "u");
    assert "u" in x.early && x.early["u"].ef == Some(x.finish);
  }

  lemma ChainSolvesLate(cal: Calendar, ty: LinkType, lag: int, duration: int, day: int)
    requires cal.Valid() && cal.working(day) && !ty.FinishToStart?
    ensures var x := Chain(cal, ty, lag, duration, day); SolvesLate(cal, x.tasks, x.deps, x.early, x.finish, x.late)
    ensures var x := Chain(cal, ty, lag, duration, day);
            Earliest(cal, [x.deps[0]], x.late, LimitsFinish(ty)) == Some(BackwardBound(cal, ty, x.early["s"].es.value, lag))
            && Earliest(cal, [x.deps[0]], x.late, !LimitsFinish(ty)) == None
            && x.late["p"] == LateOf(cal, duration, x.early["p"], [x.deps[0]], x.late, x.finish)
  {
    var x := Chain(cal, ty, lag, duration, day);
    var link, tail := x.deps[0], x.deps[1];
    ChainDates(cal, ty, lag, duration, day);
    TwoLinks(link, tail, "p");
    TwoLinks(link, tail, "s");
    TwoLinks(link, tail, "u");
    OneLinkEarliest(cal, link, x.late);
    OneLinkEarliest(cal, tail, x.late);
    var rest := map["s" := x.late["s"], "u" := x.late["u"]];
    EarliestDependsOnSuccessors(cal, [link], x.late, rest, true);
    EarliestDependsOnSuccessors(cal, [link], x.late, rest, false);
    assert FollowsLate(cal, x.tasks, x.deps, x.early, x.finish, x.late, "p");
    assert FollowsLate(cal, x.tasks, x.deps, x.early, x.finish, x.late, "s");
    assert FollowsLate(cal, x.tasks, x.deps, x.early, x.finish, x.late, "u");
  }

  /** What the first task of the chain loses: with a lag, the date that the link limits falls on
      the last working day before the early one; without one, a task of two days or more that
      is limited on its start gets a late finish on the working day before its early finish. */
  predicate LosesFloat(cal: Calendar, ty: LinkType, lag: int, early: Dates, late: Late) {
    && Dated(early) && late.ls.Some? && late.lf.Some?
    && if lag == 0 || LimitsFinish(ty)
       then late.lf.value == Last(cal, early.ef.value - 1) < early.ef.value
       else late.ls.value == Last(cal, early.es.value - 1) < early.es.value
  }

  lemma LagLosesFloat(cal: Calendar, ty: LinkType, lag: int, duration: int, day: int)
    requires cal.Valid() && cal.working(day) && !ty.FinishToStart? && lag != 0
    ensures var x := Chain(cal, ty, lag, duration, day); LosesFloat(cal, ty, lag, Early(x, "p"), LateAt(x.late, "p"))
  {
    ChainSolvesLate(cal, ty, lag, duration, day);
    var origin := Origin(ty, From(cal, duration, Some(day))).value;
    BackwardUndoesForward(cal, ty, origin, lag);
    LastIsLast(cal, origin - 1);
  }

  /** The working day before the `n`-th day from `day` on is the one before it in the count. */
  lemma DayBefore(cal: Calendar, day: int, n: int)
    requires cal.Valid() && cal.working(day) && n >= 2
    ensures Add(cal, day, n - 1) == Last(cal, Add(cal, day, n) - 1) < Add(cal, day, n)
  {
    WorkingIsNext(cal, day);
    LaterThenEarlier(cal, day, n - 2);
    StepBack(cal, Later(cal, day, n - 2));
    NextIsFirst(cal, Later(cal, day, n - 2) + 1);
  }

  lemma DurationLosesFloat(cal: Calendar, ty: LinkType, lag: int, duration: int, day: int)
    requires cal.Valid() && cal.working(day) && !LimitsFinish(ty) && lag == 0 && duration >= 2
    ensures var x := Chain(cal, ty, lag, duration, day); LosesFloat(cal, ty, lag, Early(x, "p"), LateAt(x.late, "p"))
  {
    ChainSolvesLate(cal, ty, lag, duration, day);
    DayBefore(cal, day, duration);
  }

  /** Every link that is not harmless costs the first task of such a chain float. */
  lemma HarmfulLinkCostsFloat(cal: Calendar, ty: LinkType, lag: int, duration: int, day: int)
    requires cal.Valid() && cal.working(day) && !Harmless(ty, lag, duration)
    ensures var x := Chain(cal, ty, lag, duration, day);
            && Planned(cal, x) && OnlyLinks(x, ty, lag, duration)
            && LosesFloat(cal, ty, lag, Early(x, "p"), LateAt(x.late, "p"))
            && !NoNegativeFloatAt(Early(x, "p"), LateAt(x.late, "p"))
  {
    var x := Chain(cal, ty, lag, duration, day);
    ChainIsOrdered(x, x.deps[0], x.deps[1]);
    ChainSolves(cal, ty, lag, duration, day);
    ChainSolvesLate(cal, ty, lag, duration, day);
    if lag != 0 { LagLosesFloat(cal, ty, lag, duration, day); } else { DurationLosesFloat(cal, ty, lag, duration, day); }
  }

  /** No project with such links has negative float if and only if the links are harmless:
      finish-to-start, or finish-to-finish without lag, or limiting the start, without lag and
      from a task of at most one day. */
  lemma HarmlessExactly(cal: Calendar, ty: LinkType, lag: int, duration: int)
    requires cal.Valid()
    ensures NeverNegative(cal, ty, lag, duration) <==> Harmless(ty, lag, duration)
  {
    if Harmless(ty, lag, duration) {
      forall x: Plan | Planned(cal, x) && OnlyLinks(x, ty, lag, duration) ensures NoNegativeFloatIn(x) {
        NoNegativeFloat(cal, x);
      }
    } else {
      NextIsFirst(cal, 0);
      HarmfulLinkCostsFloat(cal, ty, lag, duration, Next(cal, 0));
      assert "p" in Chain(cal, ty, lag, duration, Next(cal, 0)).tasks;
    }
  }

  /** In any project: a task of two days or more that only links on its start limit gets a late
      finish on the working day before its duration, counted from its late start, is over. */
  lemma StartLimitedFinishIsShort(cal: Calendar, duration: int, early: Dates, links: seq<Dependency>, m: LateDates, finish: int)
    requires cal.Valid() && duration >= 2 && links != []
    requires Earliest(cal, links, m, true).None? && Earliest(cal, links, m, false).Some?
    ensures var d := LateOf(cal, duration, early, links, m, finish); var over := Add(cal, d.ls.value, duration);
            d.lf == Some(Last(cal, over - 1)) && d.lf.value < over
  {
    var ls := Earliest(cal, links, m, false).value;
    NextIsFirst(cal, ls);
    WorkingIsNext(cal, Next(cal, ls));
    DayBefore(cal, Next(cal, ls), duration);
  }

  /** Actual ends that break a link cost float as well: milestone `p` on a working day, linked
      finish-to-start to a milestone that actually ended before. */
  lemma EarlyActualEndCostsFloat(cal: Calendar, day: int, ended: int) returns (x: Plan)
    requires cal.Valid() && cal.working(day) && ended < day
    ensures Planned(cal, x) && x.deps == [Dependency("p", "s", FinishToStart, 0)] && x.tasks.Keys == {"p", "s"}
    ensures x.tasks["s"].actualEnd == Some(ended) && Early(x, "p").ef == Some(day)
    ensures LateAt(x.late, "p").lf == Some(Last(cal, day - 1)) && Last(cal, day - 1) < day
  {
    var dep, before := Dependency("p", "s", FinishToStart, 0), Last(cal, day - 1);
    LastIsLast(cal, day - 1);
    WorkingIsNext(cal, day);
    x := Plan(map["p" := Task(0, "", 0, Some(day), None, None), "s" := Task(0, "", 0, None, None, Some(ended))],
              [dep], ["p", "s"],
              map["p" := Dates(Some(day), Some(day)), "s" := Dates(Some(ended), Some(ended))], day,
              map["p" := Late(Some(before), Some(before)), "s" := Late(Some(day), Some(day))]);
    PairIsOrdered(x, dep);
    OneLinkLatest(cal, 0, dep, x.early);
    OneLinkEarliest(cal, dep, x.late);
    assert Add(cal, day, -1) == before by { assert Earlier(cal, day, 0) == day; }
    assert Latest(cal, 0, [], x.early) == None;
    assert Follows(cal, x.tasks, x.deps, x.early, "p") && Follows(cal, x.tasks, x.deps, x.early, "s");
    assert FollowsLate(cal, x.tasks, x.deps, x.early, day, x.late, "p") && FollowsLate(cal, x.tasks, x.deps, x.early, day, x.late, "s");
    assert "p" in x.early && x.early["p"].ef == Some(day);
  }

  lemma PairIsOrdered(x: Plan, dep: Dependency)
    requires x.deps == [dep] && x.order == ["p", "s"] && dep.predecessor == "p" && dep.successor == "s"
    ensures Topological(x.deps, x.order) && Distinct(x.order) && Done(x.order) == {"p", "s"}
    ensures Incoming(x.deps, "s") == [dep] && Outgoing(x.deps, "p") == [dep]
    ensures Incoming(x.deps, "p") == [] && Outgoing(x.deps, "s") == []
  {
    var o := x.order;
    assert o[0] == "p" && o[1] == "s" && "p" != "s" by { assert "p"[0] != "s"[0]; }
    forall a, b, j | Edge(x.deps, a, b) && 0 <= j < |o| && o[j] == b ensures a in o[..j] {
      assert o[..1][0] == "p";
    }
    forall t ensures t in Done(o) <==> t in {"p", "s"} {}
    assert [dep][..0] == [];
  }
}
