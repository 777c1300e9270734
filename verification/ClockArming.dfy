/** What each arming call promises of every continuation, in terms of its own
    arguments and of the instant it was made. */
module ClockArming {
  import opened Prelude
  import opened ClockModel
  import opened ClockProofs
  import opened ClockResults

  /** Some callback is given or registered, which is all an accepted call needs
      beyond its prepared arguments. */
  predicate Answerable(s: State, name: string, callback: Option<Callback>) {
    callback.Some? || name in s.named || s.default.Some?
  }

  function CallbackUsed(s: State, name: string, callback: Option<Callback>): Callback
    requires Answerable(s, name, callback)
  {
    if callback.Some? then callback.value
    else if name in s.named then s.named[name]
    else s.default.value
  }

  /** No stop, or one not passed. */
  predicate Before(d: int, stop: Option<Nanos>) {
    match stop
    case None => true
    case Some(last) => d <= last
  }

  /** The number `i` fire of a repeating timer: `first`, then a step further each
      time, held at the last nanosecond. */
  function Tooth(first: int, step: int, i: nat): int { Min(first + i * step, 0xFFFF_FFFF_FFFF_FFFF) }

  /** The timer a call armed still stands under its name, with nothing owed now. */
  predicate Settled(s: State, name: string, serial: nat) {
    name in s.timers && s.timers[name].serial == serial && CaughtUp(s, s.timers[name])
  }

  /** Every event a serial handed over bears the call's name and callback, and is
      handed over at or after the instant it is stamped with. */
  ghost predicate Delivered(s: State, serial: nat, name: string, callback: Callback) {
    forall i :: 0 <= i < |s.log| && s.log[i].serial == serial ==>
      && s.log[i].name == name && s.log[i].callback == callback
      && s.log[i].tsEvent <= s.log[i].tsInit <= s.now
  }

  lemma ReachableRun(s: State, actions: seq<Action>)
    requires Reachable(s)
    ensures Reachable(Run(s, actions))
  {
    var now: Nanos, sender: bool, before: seq<Action> :| s == Run(Initial(now, sender), before);
    RunConcat(Initial(now, sender), before, actions);
  }

  lemma StepThenRun(s: State, a: Action, actions: seq<Action>)
    ensures Run(Step(s, a), actions) == Run(s, [a] + actions)
  {
    RunConcat(s, [a], actions);
    assert Front([a]) == [] && Run(s, []) == s;
  }

  /** What was armed stays on record, and its events are its own. */
  lemma Recorded(s: State, a: Action, actions: seq<Action>, arming: Arming)
    requires Reachable(s) && Step(s, a).arms == s.arms + [arming]
    ensures var s' := Run(Step(s, a), actions);
            && Reachable(s') && |s.arms| < |s'.arms| && s'.arms[|s.arms|] == arming
            && Delivered(s', |s.arms|, arming.name, arming.callback)
  {
    hide Step, Inv;
    StepThenRun(s, a, actions);
    ReachableRun(s, [a] + actions);
    LogOnlyGrows(Step(s, a), actions);
    ReachableInv(Run(Step(s, a), actions));
    Logged(Run(Step(s, a), actions), |s.arms|);
  }

  lemma Logged(s: State, g: nat)
    requires Inv(s) && g < |s.arms|
    ensures Delivered(s, g, s.arms[g].name, s.arms[g].callback)
  {
  }

  lemma HeldMatches(s: State, name: string)
    requires Reachable(s) && name in s.timers
    ensures var t := s.timers[name];
            && t.serial < |s.arms| && t.stop == s.arms[t.serial].stop
            && t.cadence == s.arms[t.serial].cadence && t.repeat == s.arms[t.serial].repeat
  {
    ReachableInv(s);
  }

  // ---------------------------------------------------------- interval timers

  /** An accepted interval timer hands over, on every continuation, a beginning of its
      own fires: `start` or one step after it, then a step apart, none past its own
      stop and none early; once settled, exactly those that are due. */
  lemma TimerKeepsItsArguments(s: State, name: string, interval: Nanos, prepared: PreparedTimer,
                               callback: Option<Callback>, actions: seq<Action>)
    requires Reachable(s) && Answerable(s, name, callback)
    ensures var s' := Run(Step(s, ArmTimer(name, interval, Some(prepared), callback)), actions);
            var e := Stamps(s'.log, |s.arms|);
            var step := Max(interval, 1);
            var first := if prepared.fireImmediately then prepared.start as int else Tooth(prepared.start, step, 1);
            && (forall i :: 0 <= i < |e| ==>
                  e[i] == Tooth(first, step, i) && Before(e[i], prepared.stop) && e[i] <= s'.now)
            && Delivered(s', |s.arms|, name, CallbackUsed(s, name, callback))
            && (Settled(s', name, |s.arms|) ==>
                  forall i: nat :: i < |e| <==>
                    Tooth(first, step, i) <= s'.now && Before(Tooth(first, step, i), prepared.stop))
  {
    hide Step, Run, Reachable, Inv, Stamps, CaughtUp, Delivered, Tooth, Point;
    var s' := Run(Step(s, ArmTimer(name, interval, Some(prepared), callback)), actions);
    var step := Max(interval, 1);
    var arming := TimerArmed(s, name, interval, prepared, callback);
    Recorded(s, ArmTimer(name, interval, Some(prepared), callback), actions, arming);
    FixedTimerEmitsItsPoints(s', |s.arms|);
    forall i: nat ensures Tooth(arming.First(), step, i) == Point(arming.First(), step, i) {
      ToothIsPoint(arming.First(), step, i);
    }
    if Settled(s', name, |s.arms|) {
      HeldMatches(s', name);
      forall i: nat
        ensures i < |Stamps(s'.log, |s.arms|)| <==>
                  Point(arming.First(), step, i) <= s'.now && Before(Point(arming.First(), step, i), prepared.stop)
      {
        CaughtUpFixedTimerCount(s', name, i);
      }
    }
  }

  lemma ToothIsPoint(first: Nanos, step: Nanos, i: nat)
    ensures Tooth(first, step, i) == Point(first, step, i)
  {
  }

  lemma TimerArmed(s: State, name: string, interval: Nanos, prepared: PreparedTimer, callback: Option<Callback>)
    returns (arming: Arming)
    requires Answerable(s, name, callback)
    ensures Step(s, ArmTimer(name, interval, Some(prepared), callback)).arms == s.arms + [arming]
    ensures arming == Arming(name, s.now, Fixed(Max(interval, 1)), prepared.start, prepared.stop,
                             prepared.fireImmediately, true, CallbackUsed(s, name, callback))
    ensures arming.First() ==
              if prepared.fireImmediately then prepared.start else Tooth(prepared.start, Max(interval, 1), 1)
  {
    arming := Arming(name, s.now, Fixed(Max(interval, 1)), prepared.start, prepared.stop, prepared.fireImmediately,
                     true, CallbackUsed(s, name, callback));
  }

  // ------------------------------------------------------------------- alerts

  /** An accepted alert hands over, on every continuation, nothing or one event at its
      own time; once settled, that event if and only if the time was not past when it
      was armed and has come since. */
  lemma AlertKeepsItsTime(s: State, name: string, alert: Nanos, callback: Option<Callback>, actions: seq<Action>)
    requires Reachable(s) && Answerable(s, name, callback)
    ensures var s' := Run(Step(s, ArmAlert(name, Some(alert), callback)), actions);
            var e := Stamps(s'.log, |s.arms|);
            && (e == [] || e == [alert])
            && Delivered(s', |s.arms|, name, CallbackUsed(s, name, callback))
            && (Settled(s', name, |s.arms|) ==> (e == [alert] <==> s.now <= alert <= s'.now))
  {
    var a := ArmAlert(name, Some(alert), callback);
    var span := if s.now < alert then alert - s.now else 1;
    var arming := Arming(name, s.now, Fixed(span), s.now, Some(alert), alert == s.now, false,
                         CallbackUsed(s, name, callback));
    var s' := Run(Step(s, a), actions);
    assert Step(s, a).arms == s.arms + [arming];
    hide Step, Run, Reachable, Inv, Stamps, CaughtUp, Delivered;
    Recorded(s, a, actions, arming);
    AlertFiresExactlyOnce(s', |s.arms|);
    if Settled(s', name, |s.arms|) {
      HeldMatches(s', name);
      CaughtUpAlert(s', name);
    }
  }

  // ---------------------------------------------------------------- schedules

  /** An accepted schedule timer hands over, on every continuation and strictly in
      order, fires of its own schedule only, skipping none: the deadlines after the
      schedule's start and not before the call, or with `immediate` the later of start
      and call and the deadlines after that. None is past its own stop and none early;
      once settled, exactly those that are due. */
  lemma ScheduleKeepsItsArguments(s: State, name: string, nameOk: bool, schedule: Schedule, stop: Option<Nanos>,
                                  callback: Option<Callback>, allowPast: Option<bool>, fireImmediately: Option<bool>,
                                  actions: seq<Action>, deadlines: set<Nanos>)
    requires Reachable(s) && Answerable(s, name, callback) && Honest(schedule, deadlines)
    requires SetSchedule(s, name, nameOk, schedule, stop, callback, allowPast, fireImmediately).error.None?
    ensures var call := ArmSchedule(name, nameOk, schedule, stop, callback, allowPast, fireImmediately);
            var s' := Run(Step(s, call), actions);
            var e := Stamps(s'.log, |s.arms|);
            var immediate := fireImmediately == Some(true);
            && (forall i :: 0 < i < |e| ==> e[i - 1] < e[i])
            && (forall i :: 0 <= i < |e| ==>
                  OwedBy(schedule.start, s.now, immediate, deadlines, e[i]) && Before(e[i], stop) && e[i] <= s'.now)
            && (forall i, d: Nanos ::
                  0 <= i < |e| && d <= e[i] && OwedBy(schedule.start, s.now, immediate, deadlines, d) ==> d in e)
            && Delivered(s', |s.arms|, name, CallbackUsed(s, name, callback))
            && (Settled(s', name, |s.arms|) ==>
                  forall d: Nanos :: d in e <==>
                    OwedBy(schedule.start, s.now, immediate, deadlines, d) && d <= s'.now && Before(d, stop))
  {
    var a := ArmSchedule(name, nameOk, schedule, stop, callback, allowPast, fireImmediately);
    var arming := ScheduleArmed(s, name, nameOk, schedule, stop, callback, allowPast, fireImmediately);
    var s' := Run(Step(s, a), actions);
    var g := |s.arms|;
    hide Step, Run, SetSchedule, Reachable, Inv, Stamps, CaughtUp, Delivered, Honest, OwedBy;
    Recorded(s, a, actions, arming);
    ScheduleTimerEmitsItsDeadlines(s', g, deadlines);
    EmittedByNow(s', g);
    if Settled(s', name, g) {
      HeldMatches(s', name);
      forall d: Nanos
        ensures d in Stamps(s'.log, g) <==>
                  OwedBy(schedule.start, s.now, fireImmediately == Some(true), deadlines, d)
                  && d <= s'.now && Before(d, stop)
      {
        CaughtUpScheduleTimer(s', name, deadlines, d);
      }
    }
  }

  lemma EmittedByNow(s: State, g: nat)
    requires Reachable(s)
    ensures forall i :: 0 <= i < |Stamps(s.log, g)| ==> Stamps(s.log, g)[i] <= s.now
  {
    ReachableInv(s);
    StampsBounded(s.log, g, s.now);
  }

  lemma ScheduleArmed(s: State, name: string, nameOk: bool, schedule: Schedule, stop: Option<Nanos>,
                      callback: Option<Callback>, allowPast: Option<bool>, fireImmediately: Option<bool>)
    returns (arming: Arming)
    requires Answerable(s, name, callback)
    requires SetSchedule(s, name, nameOk, schedule, stop, callback, allowPast, fireImmediately).error.None?
    ensures var call := ArmSchedule(name, nameOk, schedule, stop, callback, allowPast, fireImmediately);
            && Step(s, call).arms == s.arms + [arming]
            && arming.name == name && arming.armedAt == s.now && arming.cadence.Scheduled?
            && arming.cadence.schedule == schedule && arming.start == schedule.start && arming.stop == stop
            && arming.fireImmediately == (fireImmediately == Some(true)) && arming.repeat
            && arming.callback == CallbackUsed(s, name, callback)
  {
    var immediate := UnwrapOr(fireImmediately, false);
    var validated := ValidateSchedule(nameOk, schedule, stop, UnwrapOr(allowPast, true), immediate, s.now);
    var first := ArmedFirst(schedule, validated.value, immediate, s.now);
    arming := Arming(name, s.now, Scheduled(schedule, first.value), schedule.start, stop, immediate, true,
                     CallbackUsed(s, name, callback));
  }

  // ----------------------------------------------------------------- refusals

  /** An alert or an interval timer is refused exactly when its arguments did not
      prepare, or else when no callback answers it. */
  lemma FixedRefusals(s: State, name: string, alert: Option<Nanos>, interval: Nanos, prepared: Option<PreparedTimer>,
                      callback: Option<Callback>)
    ensures var reason := if alert.None? then Some(Rejected)
                          else if Answerable(s, name, callback) then None else Some(NoCallback);
            SetAlert(s, name, alert, callback).error == reason
    ensures var reason := if prepared.None? then Some(Rejected)
                          else if Answerable(s, name, callback) then None else Some(NoCallback);
            SetTimer(s, name, interval, prepared, callback).error == reason
  {
  }

  /** The reason an honest schedule is refused for, in the order they are looked at. */
  lemma ScheduleRefusalReasons(s: State, name: string, nameOk: bool, schedule: Schedule, stop: Option<Nanos>,
                               callback: Option<Callback>, allowPast: Option<bool>, immediate: bool,
                               deadlines: set<Nanos>)
    requires Honest(schedule, deadlines)
    ensures var error := SetSchedule(s, name, nameOk, schedule, stop, callback, allowPast, Some(immediate)).error;
            var strict := allowPast == Some(false);
            var none := !immediate && forall d :: d in deadlines ==> d <= schedule.start;
            var early := strict && (if immediate then schedule.start < s.now
                                    else exists d :: d in deadlines && schedule.start < d < s.now);
            var short := stop.Some? && stop.value <= schedule.start;
            var stopped := stop.Some? && strict && stop.value <= s.now;
            var past := !immediate && forall d :: d in deadlines && d > schedule.start ==> d < s.now;
            && (error == Some(Rejected) <==> !nameOk)
            && (error == Some(FirstEventOutOfRange) <==> nameOk && none)
            && (error == Some(FirstEventInPast) <==> nameOk && !none && early)
            && (error == Some(StopNotAfterStart) <==> nameOk && !none && !early && short)
            && (error == Some(StopInPast) <==> nameOk && !none && !early && !short && stopped)
            && (error == Some(NoDeadlineLeft) <==> nameOk && !none && !early && !short && !stopped && past)
            && (error == Some(NoCallback) <==>
                  nameOk && !none && !early && !short && !stopped && !past && !Answerable(s, name, callback))
  {
    var next := schedule.nextAfter(schedule.start);
    assert LeastAfter(deadlines, schedule.start, next);
    FutureDeadline(schedule, deadlines, s.now);
    hide LeastAfter, Honest, InstallChecked;
  }

  // -------------------------------------------------- every step but the arming calls

  predicate Arms(a: Action) { a.ArmAlert? || a.ArmTimer? || a.ArmSchedule? }

  /** Which callback a later call without one of its own finds: its name's, which only
      clearing the registry or a reset drops, or else the default, which a reset keeps. */
  lemma CallbacksLeft(s: State, a: Action, name: string)
    requires !Arms(a)
    ensures var s' := Step(s, a);
            var own := name in s.named && !a.Reset? && !a.CancelCallbacks?;
            var fallback := if a.RegisterDefault? then Some(a.handler)
                            else if a.CancelDefault? then None else s.default;
            && (Answerable(s', name, None) <==> own || fallback.Some?)
            && (Answerable(s', name, None) ==>
                  CallbackUsed(s', name, None) == if own then s.named[name] else fallback.value)
  {
    hide NextFire;
  }

  /** Which timers are left: cancelling takes out the one named, cancelling all and a
      reset take out every one, and no other step any; only a poll touches a timer that
      is left, its own, and only a poll hands an event over. */
  lemma TimersLeft(s: State, a: Action, name: string)
    requires !Arms(a)
    ensures var s' := Step(s, a);
            && (name in s'.timers <==>
                  name in s.timers && a != CancelTimer(name) && !a.CancelTimers? && !a.Reset?)
            && (name in s'.timers && a != PollTask(name) ==> s'.timers[name] == s.timers[name])
            && s'.now == (if a.Tick? then Min(s.now + a.elapsed, 0xFFFF_FFFF_FFFF_FFFF) else s.now)
            && (!a.PollTask? ==> s'.log == s.log) && s'.arms == s.arms && s'.sender == s.sender
  {
    hide NextFire;
  }
}
