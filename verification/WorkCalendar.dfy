/** Working-day arithmetic (core/modules/project_management/services/work_calendar/engine.py)
    over any calendar, and how the links between tasks use it in the two scheduling passes. */
module WorkCalendar {

  /** Days are numbered. `gap` bounds how far apart working days are; a calendar without
      such a bound would keep the loops below from ending. */
  datatype Calendar = Calendar(working: int -> bool, gap: nat) {
    ghost predicate Valid() {
      forall d: int :: HasWorkingDay(d)
    }

    ghost predicate HasWorkingDay(d: int) {
      exists e :: d <= e < d + gap && working(e)
    }
  }

  function NextWithin(cal: Calendar, d: int, steps: nat): int
    decreases steps
  {
    if cal.working(d) || steps == 0 then d else NextWithin(cal, d + 1, steps - 1)
  }

  /** The first working day on or after `d`. */
  function Next(cal: Calendar, d: int): int {
    NextWithin(cal, d, cal.gap)
  }

  function LastWithin(cal: Calendar, d: int, steps: nat): int
    decreases steps
  {
    if cal.working(d) || steps == 0 then d else LastWithin(cal, d - 1, steps - 1)
  }

  /** The last working day on or before `d`. */
  function Last(cal: Calendar, d: int): int {
    LastWithin(cal, d, cal.gap)
  }

  ghost predicate FirstFrom(cal: Calendar, d: int, e: int) {
    d <= e && cal.working(e) && forall x :: d <= x < e ==> !cal.working(x)
  }

  ghost predicate LastUpTo(cal: Calendar, d: int, e: int) {
    e <= d && cal.working(e) && forall x :: e < x <= d ==> !cal.working(x)
  }

  lemma {:induction false} NextWithinIsFirst(cal: Calendar, d: int, steps: nat, w: int)
    requires d <= w <= d + steps && cal.working(w)
    ensures FirstFrom(cal, d, NextWithin(cal, d, steps))
    decreases steps
  {
    if !cal.working(d) { NextWithinIsFirst(cal, d + 1, steps - 1, w); }
  }

  lemma {:induction false} LastWithinIsLast(cal: Calendar, d: int, steps: nat, w: int)
    requires d - steps <= w <= d && cal.working(w)
    ensures LastUpTo(cal, d, LastWithin(cal, d, steps))
    decreases steps
  {
    if !cal.working(d) { LastWithinIsLast(cal, d - 1, steps - 1, w); }
  }

  lemma NextIsFirst(cal: Calendar, d: int)
    requires cal.Valid()
    ensures FirstFrom(cal, d, Next(cal, d))
  {
    assert cal.HasWorkingDay(d);
    var w :| d <= w < d + cal.gap && cal.working(w);
    NextWithinIsFirst(cal, d, cal.gap, w);
  }

  lemma LastIsLast(cal: Calendar, d: int)
    requires cal.Valid()
    ensures LastUpTo(cal, d, Last(cal, d))
  {
    assert cal.HasWorkingDay(d - cal.gap);
    var w :| d - cal.gap <= w < d && cal.working(w);
    LastWithinIsLast(cal, d, cal.gap, w);
  }

  // ----- moving by working days ------------------------------------------------------------

  /** The `n`-th working day after the working day `d`. */
  function Later(cal: Calendar, d: int, n: nat): int {
    if n == 0 then d else Next(cal, Later(cal, d, n - 1) + 1)
  }

  /** The `n`-th working day before `d`. */
  function Earlier(cal: Calendar, d: int, n: nat): int {
    if n == 0 then d else Last(cal, Earlier(cal, d, n - 1) - 1)
  }

  /** `add_working_days`: a positive count includes the start day, a negative one does not. */
  function Add(cal: Calendar, start: int, n: int): int {
    if n == 0 then start
    else if n > 0 then Later(cal, Next(cal, start), n - 1)
    else Earlier(cal, Next(cal, start), -n)
  }

  method NextWorkingDay(cal: Calendar, d: int) returns (r: int)
    requires cal.Valid()
    ensures r == Next(cal, d) && FirstFrom(cal, d, r)
  {
    NextIsFirst(cal, d);
    r := d;
    while !cal.working(r)
      invariant d <= r <= Next(cal, d)
      decreases Next(cal, d) - r
    {
      r := r + 1;
    }
  }

  /** The upward loop of `add_working_days`. */
  method CountUp(cal: Calendar, first: int, n: nat) returns (current: int)
    requires cal.Valid()
    ensures current == Later(cal, first, n)
  {
    current := first;
    var remaining := n;
    NextIsFirst(cal, first + 1);
    while remaining > 0
      invariant 0 <= remaining <= n
      invariant Later(cal, first, n - remaining) <= current < Later(cal, first, n - remaining + 1)
      invariant current == Later(cal, first, n - remaining) || !cal.working(current)
      invariant remaining == 0 ==> current == Later(cal, first, n)
      decreases remaining, Later(cal, first, n - remaining + 1) - current
    {
      NextIsFirst(cal, Later(cal, first, n - remaining) + 1);
      current := current + 1;
      if cal.working(current) {
        remaining := remaining - 1;
        assert current == Later(cal, first, n - remaining);
        NextIsFirst(cal, current + 1);
      }
    }
  }

  /** The downward loop. */
  method CountDown(cal: Calendar, first: int, n: nat) returns (current: int)
    requires cal.Valid()
    ensures current == Earlier(cal, first, n)
  {
    current := first;
    var remaining := n;
    LastIsLast(cal, first - 1);
    while remaining > 0
      invariant 0 <= remaining <= n
      invariant Earlier(cal, first, n - remaining + 1) < current <= Earlier(cal, first, n - remaining)
      invariant current == Earlier(cal, first, n - remaining) || !cal.working(current)
      invariant remaining == 0 ==> current == Earlier(cal, first, n)
      decreases remaining, current - Earlier(cal, first, n - remaining + 1)
    {
      LastIsLast(cal, Earlier(cal, first, n - remaining) - 1);
      current := current - 1;
      if cal.working(current) {
        remaining := remaining - 1;
        assert current == Earlier(cal, first, n - remaining);
        LastIsLast(cal, current - 1);
      }
    }
  }

  method AddWorkingDays(cal: Calendar, start: int, n: int) returns (r: int)
    requires cal.Valid()
    ensures r == Add(cal, start, n)
  {
    if n == 0 {
      return start;
    }
    var first := NextWorkingDay(cal, start);
    if n > 0 {
      r := CountUp(cal, first, n - 1);
    } else {
      r := CountDown(cal, first, -n);
    }
  }

  // ----- counting back what was counted on ------------------------------------------------------

  lemma StepBack(cal: Calendar, d: int)
    requires cal.Valid() && cal.working(d)
    ensures Last(cal, Next(cal, d + 1) - 1) == d && Next(cal, Last(cal, d - 1) + 1) == d
    ensures cal.working(Next(cal, d + 1)) && cal.working(Last(cal, d - 1))
  {
    var n, l := Next(cal, d + 1), Last(cal, d - 1);
    NextIsFirst(cal, d + 1);
    LastIsLast(cal, n - 1);
    LastIsLast(cal, d - 1);
    NextIsFirst(cal, l + 1);
  }

  lemma {:induction false} LaterThenEarlier(cal: Calendar, d: int, n: nat)
    requires cal.Valid() && cal.working(d)
    ensures cal.working(Later(cal, d, n)) && cal.working(Earlier(cal, d, n))
    ensures Earlier(cal, Later(cal, d, n), n) == d && Later(cal, Earlier(cal, d, n), n) == d
  {
    if n > 0 {
      LaterThenEarlier(cal, d, n - 1);
      StepBack(cal, Later(cal, d, n - 1));
      StepBack(cal, Earlier(cal, d, n - 1));
      EarlierFirst(cal, Later(cal, d, n), n);
      LaterFirst(cal, Earlier(cal, d, n), n);
    }
  }

  lemma {:induction false} EarlierFirst(cal: Calendar, d: int, n: nat)
    requires n > 0
    ensures Earlier(cal, d, n) == Earlier(cal, Last(cal, d - 1), n - 1)
  {
    if n > 1 { EarlierFirst(cal, d, n - 1); }
  }

  lemma {:induction false} LaterFirst(cal: Calendar, d: int, n: nat)
    requires n > 0
    ensures Later(cal, d, n) == Later(cal, Next(cal, d + 1), n - 1)
  {
    if n > 1 { LaterFirst(cal, d, n - 1); }
  }

  lemma WorkingIsNext(cal: Calendar, d: int)
    requires cal.working(d)
    ensures Next(cal, d) == d
  {
  }

  /** Counting on and counting back disagree by one: `n` days on, the start included, and
      then `m` days back returns to a working start exactly when `m` is `n - 1`. */
  lemma CountBack(cal: Calendar, d: int, n: int, m: int)
    requires cal.Valid() && cal.working(d) && n >= 1 && m >= 0
    ensures Add(cal, Add(cal, d, n), -m) == d <==> m == n - 1
  {
    var e := Add(cal, d, n);
    WorkingIsNext(cal, d);
    LaterThenEarlier(cal, d, n - 1);
    WorkingIsNext(cal, e);
    if m < n - 1 {
      EarlierDecreases(cal, e, m, n - 1);
    } else if m > n - 1 {
      EarlierDecreases(cal, e, n - 1, m);
    }
  }

  lemma {:induction false} EarlierDecreases(cal: Calendar, d: int, m: nat, n: nat)
    requires cal.Valid() && m < n
    ensures Earlier(cal, d, n) < Earlier(cal, d, m)
  {
    LastIsLast(cal, Earlier(cal, d, n - 1) - 1);
    if m < n - 1 { EarlierDecreases(cal, d, m, n - 1); }
  }

  lemma AddedIsWorking(cal: Calendar, day: int, n: int)
    requires cal.Valid() && (n != 0 || cal.working(day))
    ensures cal.working(Add(cal, day, n))
  {
    NextIsFirst(cal, day);
    if n > 0 {
      LaterThenEarlier(cal, Next(cal, day), n - 1);
    } else if n < 0 {
      LaterThenEarlier(cal, Next(cal, day), -n);
    }
  }

  // ----- counting working days ---------------------------------------------------------------------

  function CountIn(cal: Calendar, from: int, to: int): nat
    decreases to - from
  {
    if to < from then 0 else CountIn(cal, from, to - 1) + if cal.working(to) then 1 else 0
  }

  /** `working_days_between`, both ends included. */
  method WorkingDaysBetween(cal: Calendar, from: int, to: int) returns (count: nat)
    ensures count == CountIn(cal, from, to)
  {
    if to < from {
      return 0;
    }
    var current := from;
    count := 0;
    while current <= to
      invariant from <= current <= to + 1 && count == CountIn(cal, from, current - 1)
    {
      if cal.working(current) {
        count := count + 1;
      }
      current := current + 1;
    }
  }

  lemma {:induction false} IdleDaysCountNothing(cal: Calendar, from: int, a: int, b: int)
    requires from <= a <= b + 1 && forall x :: a <= x <= b ==> !cal.working(x)
    ensures CountIn(cal, from, b) == CountIn(cal, from, a - 1)
    decreases b - a
  {
    if a <= b { IdleDaysCountNothing(cal, from, a, b - 1); }
  }

  lemma {:induction false} LaterCounts(cal: Calendar, d: int, n: nat)
    requires cal.Valid() && cal.working(d)
    ensures d <= Later(cal, d, n) && CountIn(cal, d, Later(cal, d, n)) == n + 1
  {
    if n == 0 {
      assert CountIn(cal, d, d - 1) == 0;
    } else {
      var e := Later(cal, d, n - 1);
      LaterCounts(cal, d, n - 1);
      NextIsFirst(cal, e + 1);
      IdleDaysCountNothing(cal, d, e + 1, Next(cal, e + 1) - 1);
    }
  }

  /** Adding `n` working days and counting them agree: from any start, the stretch up to the
      day that `add_working_days` returns holds exactly `n` working days and ends on one. */
  lemma AddedDaysAreCounted(cal: Calendar, start: int, n: int)
    requires cal.Valid() && n >= 1
    ensures CountIn(cal, start, Add(cal, start, n)) == n && cal.working(Add(cal, start, n))
  {
    var d, e := Next(cal, start), Add(cal, start, n);
    NextIsFirst(cal, start);
    LaterCounts(cal, d, n - 1);
    LaterThenEarlier(cal, d, n - 1);
    IdlePrefix(cal, start, d, e);
  }

  lemma {:induction false} IdlePrefix(cal: Calendar, start: int, d: int, e: int)
    requires start <= d <= e + 1 && forall x :: start <= x < d ==> !cal.working(x)
    ensures CountIn(cal, start, e) == CountIn(cal, d, e)
    decreases e - d
  {
    if d == e + 1 {
      IdleDaysCountNothing(cal, start, start, e);
      assert CountIn(cal, start, start - 1) == 0;
    } else {
      IdlePrefix(cal, start, d, e - 1);
    }
  }

  // ----- links between tasks ------------------------------------------------------------------------

  datatype LinkType = FinishToStart | StartToStart | FinishToFinish | StartToFinish

  /** The bound that a link of this type puts on its successor in the forward pass, from the
      predecessor's start or finish date. */
  function ForwardBound(cal: Calendar, ty: LinkType, day: int, lag: int): int {
    if ty.FinishToStart? then Add(cal, day, lag + 2) else Add(cal, day, lag)
  }

  /** The bound that it puts on its predecessor in the backward pass, from the successor's
      date of the same kind. */
  function BackwardBound(cal: Calendar, ty: LinkType, day: int, lag: int): int {
    if ty.FinishToStart? then Add(cal, day, -(lag + 1)) else Add(cal, day, -lag)
  }

  /** Where the backward rule leads from the day that the forward rule gave. For
      finish-to-start links it is the first working day from `day` on, whatever the lag: the
      day itself if and only if that is a working day, and too late otherwise. For the other
      types it is the day itself if and only if the lag is zero, and otherwise the last
      working day before it, which is too early. */
  lemma BackwardUndoesForward(cal: Calendar, ty: LinkType, day: int, lag: int)
    requires cal.Valid()
    ensures var back := BackwardBound(cal, ty, ForwardBound(cal, ty, day, lag), lag);
            && back == (if ty.FinishToStart? then Next(cal, day) else if lag == 0 then day else Last(cal, day - 1))
            && (back == day <==> if ty.FinishToStart? then cal.working(day) else lag == 0)
            && (ty.FinishToStart? ==> back >= day) && (!ty.FinishToStart? ==> back <= day)
  {
    NextIsFirst(cal, day);
    LastIsLast(cal, day - 1);
    var first := Next(cal, day);
    WorkingIsNext(cal, first);
    BeforeNext(cal, day);
    if ty.FinishToStart? {
      ShiftPair(cal, day, lag + 1);
    } else if lag > 0 {
      LaterThenEarlier(cal, first, lag - 1);
      WorkingIsNext(cal, Later(cal, first, lag - 1));
    } else if lag < 0 {
      ShortReturn(cal, first, -lag);
    }
  }

  lemma BeforeNext(cal: Calendar, day: int)
    requires cal.Valid()
    ensures Last(cal, Next(cal, day) - 1) == Last(cal, day - 1)
  {
    NextIsFirst(cal, day);
    LastIsLast(cal, day - 1);
    LastIsLast(cal, Next(cal, day) - 1);
  }

  /** `n` working days back and `n - 1` forward end one working day short. */
  lemma ShortReturn(cal: Calendar, first: int, n: nat)
    requires cal.Valid() && cal.working(first) && n > 0
    ensures Add(cal, Earlier(cal, first, n), n) == Last(cal, first - 1)
  {
    var before := Last(cal, first - 1);
    StepBack(cal, first);
    EarlierFirst(cal, first, n);
    LaterThenEarlier(cal, before, n - 1);
    WorkingIsNext(cal, Earlier(cal, before, n - 1));
  }

  /** A shift by `k + 1` followed by one of `-k` leads to the first working day. */
  lemma ShiftPair(cal: Calendar, day: int, k: int)
    requires cal.Valid()
    ensures Add(cal, Add(cal, day, k + 1), -k) == Next(cal, day)
  {
    var first := Next(cal, day);
    NextIsFirst(cal, day);
    WorkingIsNext(cal, first);
    if k >= 0 {
      LaterThenEarlier(cal, first, k);
      WorkingIsNext(cal, Later(cal, first, k));
    } else {
      LaterThenEarlier(cal, first, -k - 1);
      WorkingIsNext(cal, Earlier(cal, first, -k - 1));
    }
  }

  // ----- calendars of weekdays and holidays -------------------------------------------------------

  /** `is_working_day`: the weekday is a working one and the day is no holiday. The gap
      covers a week for every holiday. */
  function Weekly(weekdays: set<int>, holidays: set<int>): Calendar {
    Calendar(d => d % 7 in weekdays && d !in holidays, 7 * (|holidays| + 2))
  }

  /** Of the days a week apart from `d` on, one of the first `|holidays| + 1` is no holiday. */
  lemma {:induction false} FreeWeek(holidays: set<int>, d: int) returns (e: int)
    ensures d <= e <= d + 7 * |holidays| && (e - d) % 7 == 0 && e !in holidays
    decreases |holidays|
  {
    if d !in holidays {
      e := d;
    } else {
      e := FreeWeek(holidays - {d}, d + 7);
    }
  }

  /** The calendar has working days again and again, at whatever distance, if and only if it
      has a working weekday; then also at the distance given to it. */
  lemma WorkingDaysRecur(weekdays: set<int>, holidays: set<int>)
    ensures (exists gap: nat :: Weekly(weekdays, holidays).(gap := gap).Valid()) <==> exists w :: w in weekdays && 0 <= w < 7
    ensures Weekly(weekdays, holidays).Valid() <==> exists w :: w in weekdays && 0 <= w < 7
  {
    var cal := Weekly(weekdays, holidays);
    if exists w :: w in weekdays && 0 <= w < 7 {
      var w :| w in weekdays && 0 <= w < 7;
      forall d ensures cal.HasWorkingDay(d) {
        var start := d + (w - d) % 7;
        var e := FreeWeek(holidays, start);
        SameWeekday(d, w, start, e);
        assert cal.working(e);
      }
      assert cal.(gap := cal.gap).Valid();
    }
    if gap: nat :| cal.(gap := gap).Valid() {
      assert cal.(gap := gap).HasWorkingDay(0);
      var e :| 0 <= e < gap && cal.working(e);
      assert 0 <= e % 7 < 7;
    }
  }

  lemma SameWeekday(d: int, w: int, start: int, e: int)
    requires 0 <= w < 7 && start == d + (w - d) % 7 && (e - start) % 7 == 0
    ensures start % 7 == w && e % 7 == w && d <= start < d + 7
  {
  }

  /** Moving by working days never ends on a holiday or on a weekday off, and the working days
      counted are exactly the days that are neither. */
  lemma DaysOffAreSkipped(weekdays: set<int>, holidays: set<int>, day: int, n: int, from: int, to: int)
    requires (exists w :: w in weekdays && 0 <= w < 7) && n != 0
    ensures var cal := Weekly(weekdays, holidays);
            && Add(cal, day, n) % 7 in weekdays && Add(cal, day, n) !in holidays
            && CountIn(cal, from, to) == |set x | from <= x <= to && x % 7 in weekdays && x !in holidays|
  {
    var cal := Weekly(weekdays, holidays);
    WorkingDaysRecur(weekdays, holidays);
    AddedIsWorking(cal, day, n);
    CountOpenDays(weekdays, holidays, from, to);
  }

  lemma {:induction false} CountOpenDays(weekdays: set<int>, holidays: set<int>, from: int, to: int)
    ensures CountIn(Weekly(weekdays, holidays), from, to) == |set x | from <= x <= to && x % 7 in weekdays && x !in holidays|
    decreases -from + to
  {
    var open := set x | from <= x <= to && x % 7 in weekdays && x !in holidays;
    if to < from {
      assert open == {};
    } else {
      CountOpenDays(weekdays, holidays, from, to - 1);
      var before := set x | from <= x <= to - 1 && x % 7 in weekdays && x !in holidays;
      assert open == before + if to % 7 in weekdays && to !in holidays then {to} else {};
    }
  }

  // A week of Monday to Friday, day 0 being a Monday.

  function WorkingWeek(): Calendar {
    Weekly({0, 1, 2, 3, 4}, {})
  }

  /** A finish-to-start successor of something finished on a Saturday allows it to finish on
      Monday; a start-to-start successor one day after a Tuesday demands a start on Monday. */
  lemma BackwardRuleExamples()
    ensures var cal := WorkingWeek();
            && cal.Valid()
            && BackwardBound(cal, FinishToStart, ForwardBound(cal, FinishToStart, 5, 0), 0) == 7
            && BackwardBound(cal, StartToStart, ForwardBound(cal, StartToStart, 1, 1), 1) == 0
  {
    var cal := WorkingWeek();
    WorkingDaysRecur({0, 1, 2, 3, 4}, {});
    assert 0 in {0, 1, 2, 3, 4};
    BackwardUndoesForward(cal, FinishToStart, 5, 0);
    BackwardUndoesForward(cal, StartToStart, 1, 1);
    NextIsFirst(cal, 5);
    assert !cal.working(5) && !cal.working(6) && cal.working(7) && cal.working(0);
    LastIsLast(cal, 0);
  }
}
