/** What the clock promises of every run, read off the invariant. */
module ClockResults {
  import opened Prelude
  import opened ClockModel
  import opened ClockProofs

  // ---------------------------------------------- repeating fixed timers

  /** The `i`-th fire of a fixed timer, saturating at the end of the axis. */
  function Point(first: Nanos, interval: Nanos, i: nat): Nanos {
    if first + i * interval <= U64_MAX then first + i * interval else U64_MAX
  }

  lemma PointStep(first: Nanos, interval: Nanos, i: nat)
    ensures Point(first, interval, i + 1) == SaturatingAdd(Point(first, interval, i), interval)
  {
    assert (i + 1) * interval == i * interval + interval;
  }

  /** Fires are strictly increasing exactly until the axis saturates. */
  lemma PointsStrictUntilSaturated(first: Nanos, interval: Nanos, i: nat)
    requires interval >= 1
    ensures Point(first, interval, i) < Point(first, interval, i + 1) <==> Point(first, interval, i) < U64_MAX
  {
    PointStep(first, interval, i);
  }

  lemma PointsMonotone(first: Nanos, interval: Nanos, i: nat, j: nat)
    requires i <= j
    ensures Point(first, interval, i) <= Point(first, interval, j)
  {
    MulMonotone(i, j, interval);
  }

  lemma {:induction false} FixedChain(a: Arming, e: seq<Nanos>, i: nat)
    requires ChainOf(a, e) && a.cadence.Fixed? && i < |e|
    ensures e[i] == Point(a.First(), a.cadence.interval, i)
  {
    if i > 0 {
      FixedChain(a, e, i - 1);
      PointStep(a.First(), a.cadence.interval, i - 1);
    }
  }

  /** In every run a repeating fixed timer has emitted exactly a beginning of
      first, first + interval, first + 2 * interval, ...: in order, no gap, no
      repeat, none past the inclusive stop, none before its time. */
  lemma FixedTimerEmitsItsPoints(s: State, g: nat)
    requires Reachable(s) && g < |s.arms| && s.arms[g].cadence.Fixed?
    ensures forall i :: 0 <= i < |Stamps(s.log, g)| ==>
      && Stamps(s.log, g)[i] == Point(s.arms[g].First(), s.arms[g].cadence.interval, i)
      && WithinStop(s.arms[g].stop, Stamps(s.log, g)[i])
      && Stamps(s.log, g)[i] <= s.now
  {
    ReachableInv(s);
    StampsBounded(s.log, g, s.now);
    forall i | 0 <= i < |Stamps(s.log, g)|
      ensures Stamps(s.log, g)[i] == Point(s.arms[g].First(), s.arms[g].cadence.interval, i)
    {
      FixedChain(s.arms[g], Stamps(s.log, g), i);
    }
  }

  /** Once a live repeating fixed timer is caught up, the points it has emitted
      are exactly those at or below both sim-now and the stop. */
  lemma CaughtUpFixedTimerCount(s: State, name: string, i: nat)
    requires Reachable(s) && name in s.timers && CaughtUp(s, s.timers[name])
    requires s.timers[name].cadence.Fixed? && s.timers[name].repeat
    ensures var t := s.timers[name];
            t.serial < |s.arms| &&
            var point := Point(s.arms[t.serial].First(), t.cadence.interval, i);
            i < |Stamps(s.log, t.serial)| <==> point <= s.now && WithinStop(t.stop, point)
  {
    ReachableInv(s);
    var t := s.timers[name];
    var a := s.arms[t.serial];
    var e := Stamps(s.log, t.serial);
    if i < |e| {
      FixedTimerEmitsItsPoints(s, t.serial);
    } else {
      if |e| > 0 {
        FixedChain(a, e, |e| - 1);
        PointStep(a.First(), a.cadence.interval, |e| - 1);
      }
      assert Due(a, e) == Some(Point(a.First(), a.cadence.interval, |e|));
      PointsMonotone(a.First(), a.cadence.interval, |e|, i);
    }
  }

  // --------------------------------------------------------------- alerts

  lemma AlertFirstFire(a: Arming)
    requires AlertArming(a)
    ensures a.First() == if a.stop.value >= a.armedAt then a.stop.value else SaturatingAdd(a.armedAt, 1)
  {
  }

  /** An armed alert emits at most one event; once its task has ended it has
      emitted exactly one, stamped at the adjusted time, if and only if that time
      was at or after sim-now when it was armed. */
  lemma AlertFiresExactlyOnce(s: State, g: nat)
    requires Reachable(s) && g < |s.arms| && !s.arms[g].repeat
    ensures s.arms[g].stop.Some?
    ensures Stamps(s.log, g) == [] || Stamps(s.log, g) == [s.arms[g].stop.value]
    ensures forall n :: n in s.timers && s.timers[n].serial == g && s.timers[n].phase.Finished? ==>
      (Stamps(s.log, g) == [s.arms[g].stop.value] <==> s.arms[g].stop.value >= s.arms[g].armedAt)
  {
    ReachableInv(s);
    AlertFirstFire(s.arms[g]);
    var e := Stamps(s.log, g);
    if |e| > 0 {
      assert e == [e[0]];
    }
  }

  /** Once a live alert is caught up it has fired if and only if its time has come,
      provided that time was not already past when it was armed. */
  lemma CaughtUpAlert(s: State, name: string)
    requires Reachable(s) && name in s.timers && CaughtUp(s, s.timers[name]) && !s.timers[name].repeat
    ensures var t := s.timers[name];
            && t.serial < |s.arms| && t.stop.Some?
            && (Stamps(s.log, t.serial) == [t.stop.value] <==> s.arms[t.serial].armedAt <= t.stop.value <= s.now)
            && (Stamps(s.log, t.serial) == [] <==> !(s.arms[t.serial].armedAt <= t.stop.value <= s.now))
  {
    ReachableInv(s);
    var t := s.timers[name];
    AlertFirstFire(s.arms[t.serial]);
    AlertFiresExactlyOnce(s, t.serial);
    StampsBounded(s.log, t.serial, s.now);
  }

  // ------------------------------------------------------------ schedules

  /** The contract of a schedule: the least deadline strictly after the instant. */
  ghost predicate Honest(schedule: Schedule, deadlines: set<Nanos>) {
    forall t: Nanos :: LeastAfter(deadlines, t, schedule.nextAfter(t))
  }

  ghost predicate LeastAfter(deadlines: set<Nanos>, t: Nanos, next: Option<Nanos>) {
    match next
    case Some(d) => d in deadlines && d > t && forall x :: x in deadlines && x > t ==> d <= x
    case None => forall x :: x in deadlines ==> x <= t
  }

  /** What a schedule timer owes: deadlines after the schedule's start and not
      before arming; firing immediately owes the arming instant (or a future
      start) and then the deadlines after it. */
  ghost predicate OwedBy(start: Nanos, armedAt: Nanos, immediate: bool, deadlines: set<Nanos>, d: Nanos) {
    if immediate then
      var head := if start > armedAt then start else armedAt;
      d == head || (d in deadlines && d > head)
    else d in deadlines && d > start && d >= armedAt
  }

  ghost predicate Owed(a: Arming, deadlines: set<Nanos>, d: Nanos)
    requires a.cadence.Scheduled?
  {
    OwedBy(a.start, a.armedAt, a.fireImmediately, deadlines, d)
  }

  lemma ArmingInstance(a: Arming) returns (past: bool, firstEvent: Nanos)
    requires ArmingOk(a) && a.cadence.Scheduled?
    ensures ArmedFrom(a, past, firstEvent)
  {
    past, firstEvent :| ArmedFrom(a, past, firstEvent);
  }

  /** Arming positions the timer on the least fire it owes. */
  lemma ScheduleFirstIsLeastOwed(a: Arming, deadlines: set<Nanos>)
    requires ArmingOk(a) && a.cadence.Scheduled? && Honest(a.cadence.schedule, deadlines)
    ensures Owed(a, deadlines, a.First())
    ensures forall d: Nanos :: Owed(a, deadlines, d) ==> a.First() <= d
  {
    var past, firstEvent := ArmingInstance(a);
    var schedule := a.cadence.schedule;
    assert LeastAfter(deadlines, schedule.start, schedule.nextAfter(schedule.start));
    var from := SaturatingSub(a.armedAt, 1);
    assert LeastAfter(deadlines, from, schedule.nextAfter(from));
  }

  /** From an owed fire, the next one is the least owed fire after it. */
  lemma NextIsLeastOwed(a: Arming, deadlines: set<Nanos>, fired: Nanos)
    requires ArmingOk(a) && a.cadence.Scheduled? && Honest(a.cadence.schedule, deadlines)
    requires Owed(a, deadlines, fired)
    ensures match NextFire(a.cadence, fired)
            case Some(next) => next > fired && Owed(a, deadlines, next)
                               && forall d: Nanos :: Owed(a, deadlines, d) && d > fired ==> next <= d
            case None => forall d: Nanos :: Owed(a, deadlines, d) ==> d <= fired
  {
    var past, firstEvent := ArmingInstance(a);
    assert LeastAfter(deadlines, fired, a.cadence.schedule.nextAfter(fired));
  }

  lemma {:induction false} ScheduleChain(a: Arming, deadlines: set<Nanos>, e: seq<Nanos>, i: nat)
    requires ArmingOk(a) && a.cadence.Scheduled? && Honest(a.cadence.schedule, deadlines)
    requires ChainOf(a, e) && i < |e|
    ensures Owed(a, deadlines, e[i])
    ensures i > 0 ==> e[i - 1] < e[i]
    ensures forall d: Nanos :: Owed(a, deadlines, d) && d <= e[i] ==> d in e[..i + 1]
  {
    if i == 0 {
      ScheduleFirstIsLeastOwed(a, deadlines);
      assert e[..1] == [e[0]];
    } else {
      ScheduleChain(a, deadlines, e, i - 1);
      NextIsLeastOwed(a, deadlines, e[i - 1]);
      assert e[..i + 1] == e[..i] + [e[i]];
    }
  }

  /** In every run a schedule timer has emitted, strictly in order, owed fires
      only, none before arming and none past the stop, and skipped none. */
  lemma ScheduleTimerEmitsItsDeadlines(s: State, g: nat, deadlines: set<Nanos>)
    requires Reachable(s) && g < |s.arms| && s.arms[g].cadence.Scheduled?
    requires Honest(s.arms[g].cadence.schedule, deadlines)
    ensures var e := Stamps(s.log, g); var a := s.arms[g];
            && (forall i :: 0 < i < |e| ==> e[i - 1] < e[i])
            && (forall i :: 0 <= i < |e| ==> Owed(a, deadlines, e[i]) && a.armedAt <= e[i] && WithinStop(a.stop, e[i]))
            && (forall i, d: Nanos :: 0 <= i < |e| && Owed(a, deadlines, d) && d <= e[i] ==> d in e)
  {
    ReachableInv(s);
    var e := Stamps(s.log, g);
    var a := s.arms[g];
    forall i | 0 <= i < |e|
      ensures Owed(a, deadlines, e[i])
      ensures i > 0 ==> e[i - 1] < e[i]
      ensures forall d: Nanos :: Owed(a, deadlines, d) && d <= e[i] ==> d in e
    {
      ScheduleChain(a, deadlines, e, i);
    }
  }

  /** Once a live schedule timer is caught up, it has emitted a fire exactly when
      the fire is owed and at or below both sim-now and the stop. */
  lemma CaughtUpScheduleTimer(s: State, name: string, deadlines: set<Nanos>, d: Nanos)
    requires Reachable(s) && name in s.timers && CaughtUp(s, s.timers[name])
    requires s.timers[name].cadence.Scheduled? && Honest(s.timers[name].cadence.schedule, deadlines)
    ensures var t := s.timers[name];
            t.serial < |s.arms| &&
            var a := s.arms[t.serial];
            a.cadence.Scheduled? &&
            (d in Stamps(s.log, t.serial) <==>
               Owed(a, deadlines, d) && d <= s.now && WithinStop(t.stop, d))
  {
    ReachableInv(s);
    var t := s.timers[name];
    var a := s.arms[t.serial];
    var e := Stamps(s.log, t.serial);
    assert ArmingOk(a) && ChainOf(a, e) && TimerOk(t, a, e, s.sender) && a.cadence.Scheduled?;
    ScheduleTimerEmitsItsDeadlines(s, t.serial, deadlines);
    StampsBounded(s.log, t.serial, s.now);
    hide Inv, Reachable, ChainOf, ArmingOk, TimerOk, Owed, Honest, Stamps;
    if Owed(a, deadlines, d) && d <= s.now && WithinStop(t.stop, d) {
      OwedWasEmitted(s, t, a, e, deadlines, d);
    }
  }

  lemma OwedWasEmitted(s: State, t: Timer, a: Arming, e: seq<Nanos>, deadlines: set<Nanos>, d: Nanos)
    requires ArmingOk(a) && a.cadence.Scheduled? && Honest(a.cadence.schedule, deadlines)
    requires ChainOf(a, e) && TimerOk(t, a, e, s.sender) && CaughtUp(s, t)
    requires Owed(a, deadlines, d) && d <= s.now && WithinStop(t.stop, d)
    ensures d in e
  {
    if d !in e {
      NothingOwedBefore(a, e, deadlines, d);
    }
  }

  /** Nothing owed lies strictly between what was emitted and what is due. */
  lemma NothingOwedBefore(a: Arming, e: seq<Nanos>, deadlines: set<Nanos>, d: Nanos)
    requires ArmingOk(a) && a.cadence.Scheduled? && Honest(a.cadence.schedule, deadlines)
    requires ChainOf(a, e) && Owed(a, deadlines, d) && d !in e
    ensures Due(a, e).Some? && Due(a, e).value <= d
  {
    if |e| == 0 {
      ScheduleFirstIsLeastOwed(a, deadlines);
    } else {
      ScheduleChain(a, deadlines, e, |e| - 1);
      assert e[..|e|] == e;
      NextIsLeastOwed(a, deadlines, Last(e));
    }
  }

  /** Whatever the schedule answers, the stamps strictly increase: the successor
      filter makes a stuck or backwards schedule end the timer instead. */
  lemma DishonestScheduleStillIncreases(s: State, g: nat)
    requires Reachable(s) && g < |s.arms| && s.arms[g].cadence.Scheduled?
    ensures forall i, j :: 0 <= i < j < |Stamps(s.log, g)| ==> Stamps(s.log, g)[i] < Stamps(s.log, g)[j]
    ensures forall i :: 0 <= i < |Stamps(s.log, g)| ==> s.arms[g].armedAt <= Stamps(s.log, g)[i]
  {
    ReachableInv(s);
    var e := Stamps(s.log, g);
    forall i, j | 0 <= i < j < |e| ensures e[i] < e[j] {
      IncreasingChain(s.arms[g], e, i, j);
    }
    if |e| > 0 {
      var past, firstEvent := ArmingInstance(s.arms[g]);
      assert s.arms[g].armedAt <= e[0];
    }
  }

  lemma {:induction false} IncreasingChain(a: Arming, e: seq<Nanos>, i: nat, j: nat)
    requires ChainOf(a, e) && a.cadence.Scheduled? && i < j < |e|
    ensures e[i] < e[j]
    decreases j
  {
    assert NextFire(a.cadence, e[j - 1]) == Some(e[j]);
    if i < j - 1 {
      IncreasingChain(a, e, i, j - 1);
    }
  }

  // ------------------------------------------- cancelled and replaced timers

  lemma {:induction false} LogOnlyGrows(s: State, actions: seq<Action>)
    ensures s.log <= Run(s, actions).log
    ensures s.arms <= Run(s, actions).arms
  {
    hide Step;
    if actions != [] {
      LogOnlyGrows(s, Front(actions));
      OnlyPollsEmit(Run(s, Front(actions)), Last(actions));
    }
  }

  /** Every held timer after a step was held before it or is freshly numbered. */
  lemma SerialsAfterStep(s: State, a: Action, n: string)
    requires n in Step(s, a).timers
    ensures Step(s, a).timers[n].serial == |s.arms| || (n in s.timers
        && Step(s, a).timers[n].serial == s.timers[n].serial)
  {
  }

  lemma OnlyPollsEmit(s: State, a: Action)
    ensures s.arms <= Step(s, a).arms
    ensures Step(s, a).log != s.log ==> a.PollTask? && a.name in s.timers
    ensures Step(s, a).log != s.log ==>
      exists e: TimeEvent :: Step(s, a).log == s.log + [e] && e.serial == s.timers[a.name].serial
  {
    var s' := Step(s, a);
    if s'.log != s.log {
      assert s'.log == s.log + [s'.log[|s.log|]];
    }
  }

  lemma DeadStaysDeadStep(s: State, a: Action, g: nat)
    requires g < |s.arms| && !Live(s, g)
    ensures !Live(Step(s, a), g) && Stamps(Step(s, a).log, g) == Stamps(s.log, g)
  {
    var s' := Step(s, a);
    forall n | n in s'.timers ensures s'.timers[n].serial != g {
      SerialsAfterStep(s, a, n);
    }
    OnlyPollsEmit(s, a);
    if s'.log != s.log {
      var e: TimeEvent :| s'.log == s.log + [e] && e.serial == s.timers[a.name].serial;
      StampsAppend(s.log, e, g);
    }
  }

  /** A timer the clock no longer holds - cancelled, replaced or swept - emits
      nothing further, and what it had already handed over stays handed over. */
  lemma {:induction false} DeadTimerStaysSilent(s: State, actions: seq<Action>, g: nat)
    requires Reachable(s) && g < |s.arms| && !Live(s, g)
    ensures Stamps(Run(s, actions).log, g) == Stamps(s.log, g) && !Live(Run(s, actions), g)
    ensures s.log <= Run(s, actions).log
  {
    ReachableInv(s);
    LogOnlyGrows(s, actions);
    if actions != [] {
      var before := Front(actions);
      DeadTimerStaysSilent(s, before, g);
      RunKeepsInv(s, before);
      LogOnlyGrows(s, before);
      DeadStaysDeadStep(Run(s, before), Last(actions), g);
    }
  }

  /** Cancelling, and arming under a held name, both take the held timer out. */
  lemma CancelAndReplaceKill(s: State, name: string, a: Action)
    requires Reachable(s) && name in s.timers
    requires a == CancelTimer(name) || a == CancelTimers || a == Reset
             || ((a.ArmAlert? || a.ArmTimer? || a.ArmSchedule?) && a.name == name && |Step(s, a).arms| > |s.arms|)
    ensures !Live(Step(s, a), s.timers[name].serial)
  {
    ReachableInv(s);
    var g := s.timers[name].serial;
    forall n | n in Step(s, a).timers ensures Step(s, a).timers[n].serial != g {
      if n != name && n in s.timers {
        assert s.timers[n].serial != g;
      }
    }
  }

  // ------------------------------------------------------- the arming calls

  function Arm(s: State, a: Action): Outcome
    requires a.ArmAlert? || a.ArmTimer? || a.ArmSchedule?
  {
    match a
    case ArmAlert(name, alert, callback) => SetAlert(s, name, alert, callback)
    case ArmTimer(name, interval, prepared, callback) => SetTimer(s, name, interval, prepared, callback)
    case ArmSchedule(name, nameOk, schedule, stop, callback, allowPast, fireImmediately) =>
      SetSchedule(s, name, nameOk, schedule, stop, callback, allowPast, fireImmediately)
  }

  /** A refused call changes nothing at all. An accepted one leaves a live timer
      under its name, numbered afresh and holding the callback it was given or
      else the one registered; every other unexpired timer and registered callback is
      untouched and no expired timer is kept; nothing is emitted. */
  lemma ArmingCallEffect(s: State, a: Action)
    requires a.ArmAlert? || a.ArmTimer? || a.ArmSchedule?
    ensures Arm(s, a).error.Some? ==> Arm(s, a).state == s
    ensures Arm(s, a).error.None? ==>
      var s' := Arm(s, a).state;
      && TimerExists(s', a.name)
      && s'.timers[a.name].serial == |s.arms| && |s'.arms| == |s.arms| + 1
      && (a.callback.Some? || HasAnyCallback(s, a.name))
      && s'.timers[a.name].callback == (if a.callback.Some? then a.callback.value else GetCallback(s, a.name))
      && HasAnyCallback(s', a.name) && GetCallback(s', a.name) == s'.timers[a.name].callback
      && (forall n :: n != a.name ==>
            (n in s'.named <==> n in s.named) && (n in s.named ==> s'.named[n] == s.named[n]))
      && (forall n :: n != a.name ==>
            (n in s'.timers <==> TimerExists(s, n)) && (n in s'.timers ==> s'.timers[n] == s.timers[n]))
      && s'.log == s.log && s'.now == s.now && s'.default == s.default
  {
  }

  /** Exactly when an honest schedule is refused, callbacks aside. */
  lemma ScheduleRefusals(s: State, name: string, nameOk: bool, schedule: Schedule, stop: Option<Nanos>,
                         callback: Option<Callback>, allowPast: Option<bool>, immediate: bool, deadlines: set<Nanos>)
    requires Honest(schedule, deadlines)
    requires callback.Some? || HasAnyCallback(s, name)
    ensures SetSchedule(s, name, nameOk, schedule, stop, callback, allowPast, Some(immediate)).error.None? <==>
      && nameOk
      && (immediate || exists d :: d in deadlines && d > schedule.start && d >= s.now)
      && (stop.Some? ==> stop.value > schedule.start)
      && (!UnwrapOr(allowPast, true) ==>
            && (stop.Some? ==> stop.value > s.now)
            && if immediate then schedule.start >= s.now
               else forall d :: d in deadlines && d > schedule.start ==> d >= s.now)
  {
    FutureDeadline(schedule, deadlines, s.now);
    var next := schedule.nextAfter(schedule.start);
    assert LeastAfter(deadlines, schedule.start, next);
    var past := UnwrapOr(allowPast, true);
    var validated := ValidateSchedule(nameOk, schedule, stop, past, immediate, s.now);
    if validated.Ok? {
      assert immediate || validated.value == next.value;
    }
    var o := SetSchedule(s, name, nameOk, schedule, stop, callback, allowPast, Some(immediate));
    if immediate {
      assert o.error.None? <==> validated.Ok?;
    } else {
      assert o.error.None? <==> validated.Ok? && ArmedFirst(schedule, next.value, false, s.now).Ok?;
      if next.Some? {
        assert next.value >= s.now <==> forall d :: d in deadlines && d > schedule.start ==> d >= s.now;
      }
    }
  }

  /** Arming finds a first fire exactly when some deadline after the start is not past. */
  lemma FutureDeadline(schedule: Schedule, deadlines: set<Nanos>, now: Nanos)
    requires Honest(schedule, deadlines)
    ensures (exists d :: d in deadlines && d > schedule.start && d >= now) <==>
      var next := schedule.nextAfter(schedule.start);
      next.Some? && next.value > schedule.start && ArmedFirst(schedule, next.value, false, now).Ok?
  {
    var next := schedule.nextAfter(schedule.start);
    assert LeastAfter(deadlines, schedule.start, next);
    var from := SaturatingSub(now, 1);
    var later := schedule.nextAfter(from);
    assert LeastAfter(deadlines, from, later);
    if next.Some? {
      if next.value >= now {
        assert next.value in deadlines;
      } else if later.Some? {
        assert later.value in deadlines && later.value > schedule.start && later.value >= now;
      }
    }
  }

  // --------------------------------------------------------- introspection

  /** The four introspection surfaces agree in every state, and the reported
      next time is the stamp of the event its task emits when next it emits. */
  lemma IntrospectionAgrees(s: State, name: string)
    requires Reachable(s)
    ensures TimerExists(s, name) <==> name in TimerNames(s)
    ensures TimerExists(s, name) <==> NextTimeNs(s, name).Some?
    ensures TimerExists(s, name) && !s.timers[name].phase.Dispatching? && |Poll(s, name).log| > |s.log| ==>
      Poll(s, name).log == s.log + [TimeEvent(s.timers[name].serial, name, s.timers[name].callback,
                                              NextTimeNs(s, name).value, s.now)]
    ensures forall n :: n in s.timers && n != name && name in s.timers ==> s.timers[n].serial != s.timers[name].serial
  {
    ReachableInv(s);
  }

  /** While its handler runs, a timer reports the fire after the one being emitted
      where a sender is bound and there is one, and the one being emitted otherwise. */
  lemma HandlerSeesNextTime(s: State, name: string)
    requires Reachable(s) && name in s.timers && s.timers[name].phase.Dispatching?
    ensures var t := s.timers[name];
            && t.phase.next == NextFire(t.cadence, t.phase.fired)
            && NextTimeNs(s, name) ==
               Some(if s.sender && t.repeat && t.phase.next.Some? then t.phase.next.value else t.phase.fired)
  {
    ReachableInv(s);
  }

  // --------------------------------------------------------------- progress

  function Polls(name: string, n: nat): seq<Action> {
    seq(n, i => PollTask(name))
  }

  lemma {:induction false} RunConcat(s: State, a: seq<Action>, b: seq<Action>)
    ensures Run(s, a + b) == Run(Run(s, a), b)
  {
    if b == [] {
      assert a + b == a;
    } else {
      assert Front(a + b) == a + Front(b);
      RunConcat(s, a, Front(b));
    }
  }

  lemma PollsConcat(s: State, name: string, m: nat, n: nat)
    ensures Run(s, Polls(name, m + n)) == Run(Run(s, Polls(name, m)), Polls(name, n))
  {
    assert Polls(name, m + n) == Polls(name, m) + Polls(name, n);
    RunConcat(s, Polls(name, m), Polls(name, n));
  }

  lemma OnePoll(s: State, name: string)
    ensures Run(s, Polls(name, 1)) == Poll(s, name)
  {
    assert Polls(name, 1) == [PollTask(name)];
    assert [PollTask(name)][..0] == [];
    assert Run(s, []) == s;
  }

  ghost function Distance(s: State, t: Timer): nat {
    var to := if t.phase.Dispatching? then t.phase.fired else t.nextTime;
    3 * (if to <= s.now then s.now + 1 - to else 0) + (if t.phase.Dispatching? then 0 else if t.phase.Top?
        then 2 else 1)
  }

  /** Before the axis saturates, finitely many polls catch any held timer up,
      however far behind it is, without the clock moving. */
  lemma {:induction false} PollsCatchUp(s: State, name: string) returns (n: nat)
    requires Inv(s) && name in s.timers && s.now < U64_MAX
    ensures name in Run(s, Polls(name, n)).timers
    ensures CaughtUp(Run(s, Polls(name, n)), Run(s, Polls(name, n)).timers[name])
    ensures Run(s, Polls(name, n)).now == s.now
    decreases Distance(s, s.timers[name])
  {
    if CaughtUp(s, s.timers[name]) {
      n := 0;
    } else {
      var s' := Poll(s, name);
      PollKeepsInv(s, name);
      PollProgresses(s, name);
      if CaughtUp(s', s'.timers[name]) {
        n := 1;
        OnePoll(s, name);
      } else {
        var m := PollsCatchUp(s', name);
        n := 1 + m;
        OnePoll(s, name);
        PollsConcat(s, name, 1, m);
      }
    }
  }

  lemma PollProgresses(s: State, name: string)
    requires Inv(s) && name in s.timers && s.now < U64_MAX && !CaughtUp(s, s.timers[name])
    ensures name in Poll(s, name).timers && Poll(s, name).now == s.now
    ensures CaughtUp(Poll(s, name), Poll(s, name).timers[name])
            || Distance(Poll(s, name), Poll(s, name).timers[name]) < Distance(s, s.timers[name])
  {
    hide ChainsOk, LogOk, NextFire;
    var t := s.timers[name];
    match t.phase
    case Dispatching(fired, next) =>
      LastStampBounded(s, name);
      assert t.repeat && next.Some? ==> Poll(s, name).timers[name].nextTime == next.value;
    case _ =>
  }

  lemma LastStampBounded(s: State, name: string)
    requires Inv(s) && name in s.timers && s.timers[name].phase.Dispatching?
    ensures s.timers[name].phase.fired <= s.now
    ensures var p := s.timers[name].phase; p.next.Some? ==> p.next.value > p.fired || p.fired == U64_MAX
  {
    StampsBounded(s.log, s.timers[name].serial, s.now);
  }

  /** At the very end of the axis an unstopped repeating timer is never caught
      up: its saturated fire is due again at once. */
  lemma EndOfAxisNeverCatchesUp(s: State, name: string)
    requires Inv(s) && name in s.timers && s.now == U64_MAX
    requires s.timers[name].cadence.Fixed? && s.timers[name].repeat && s.timers[name].stop.None?
    ensures !CaughtUp(s, s.timers[name])
  {
  }
}
