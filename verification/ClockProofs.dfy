/** What every run of the clock keeps, and what each kind of timer emits. */
module ClockProofs {
  import opened Prelude
  import opened ClockModel

  // ------------------------------------------------------------- invariant

  ghost predicate WithinStop(stop: Option<Nanos>, fire: Nanos) { !PastStop(stop, fire) }

  /** `e` is a beginning of what the arming `a` owes: its first fire, then each
      fire's successor, none past the inclusive stop, one only for a one-shot. */
  ghost predicate ChainOf(a: Arming, e: seq<Nanos>) {
    && (|e| > 0 ==> e[0] == a.First())
    && (forall i :: 0 < i < |e| ==> NextFire(a.cadence, e[i - 1]) == Some(e[i]))
    && (forall i :: 0 <= i < |e| ==> WithinStop(a.stop, e[i]))
    && (!a.repeat ==> |e| <= 1)
  }

  /** The fire owed after `e`, before the stop is looked at. */
  ghost function Due(a: Arming, e: seq<Nanos>): Option<Nanos> {
    if |e| == 0 then Some(a.First())
    else if !a.repeat then None
    else NextFire(a.cadence, Last(e))
  }

  ghost predicate Exhausted(a: Arming, e: seq<Nanos>) {
    Due(a, e).None? || PastStop(a.stop, Due(a, e).value)
  }

  ghost predicate TimerOk(t: Timer, a: Arming, e: seq<Nanos>, sender: bool) {
    && t.cadence == a.cadence && t.stop == a.stop && t.repeat == a.repeat && t.callback == a.callback
    && match t.phase
       case Top => Due(a, e) == Some(t.nextTime)
       case Sleeping(fire) => fire == t.nextTime && Due(a, e) == Some(fire) && WithinStop(a.stop, fire)
       case Dispatching(fired, next) =>
         && |e| > 0 && fired == Last(e) && next == NextFire(a.cadence, fired)
         && t.nextTime == (if sender && a.repeat && next.Some? then next.value else fired)
       case Finished => Exhausted(a, e)
  }

  /** The constraints an arming call puts on what it records. */
  ghost predicate ArmingOk(a: Arming) {
    && (a.cadence.Fixed? ==> a.cadence.interval >= 1)
    && (!a.repeat ==> AlertArming(a))
    && (a.cadence.Scheduled? ==>
          a.repeat &&
          exists past, firstEvent :: ArmedFrom(a, past, firstEvent))
  }

  ghost predicate AlertArming(a: Arming) {
    && a.stop.Some? && a.start == a.armedAt
    && a.fireImmediately == (a.stop.value == a.armedAt)
    && a.cadence == Fixed(ValidInterval(SaturatingSub(a.stop.value, a.armedAt)))
  }

  ghost predicate ArmedFrom(a: Arming, past: bool, firstEvent: Nanos)
    requires a.cadence.Scheduled?
  {
    && a.start == a.cadence.schedule.start
    && ValidateSchedule(true, a.cadence.schedule, a.stop, past, a.fireImmediately, a.armedAt) == Ok(firstEvent)
    && ArmedFirst(a.cadence.schedule, firstEvent, a.fireImmediately, a.armedAt) == Ok(a.cadence.firstFire)
  }

  ghost predicate LogOk(s: State) {
    forall i :: 0 <= i < |s.log| ==>
      && s.log[i].serial < |s.arms|
      && s.log[i].name == s.arms[s.log[i].serial].name && s.log[i].callback == s.arms[s.log[i].serial].callback
      && s.log[i].tsEvent <= s.log[i].tsInit <= s.now
  }

  ghost predicate TimersOk(s: State) {
    forall n :: n in s.timers ==>
      var t := s.timers[n];
      t.serial < |s.arms| && s.arms[t.serial].name == n
      && TimerOk(t, s.arms[t.serial], Stamps(s.log, t.serial), s.sender)
  }

  ghost predicate ChainsOk(s: State) {
    forall g :: 0 <= g < |s.arms| ==>
      ArmingOk(s.arms[g]) && ChainOf(s.arms[g], Stamps(s.log, g)) && s.arms[g].armedAt <= s.now
  }

  ghost predicate Inv(s: State) { LogOk(s) && TimersOk(s) && ChainsOk(s) }

  // ---------------------------------------------------------- preservation

  lemma StampsAppend(log: seq<TimeEvent>, e: TimeEvent, g: nat)
    ensures Stamps(log + [e], g) == Stamps(log, g) + (if e.serial == g then [e.tsEvent] else [])
  {
    assert (log + [e])[..|log|] == log;
  }

  lemma {:induction false} StampsUnarmed(log: seq<TimeEvent>, g: nat)
    requires forall i :: 0 <= i < |log| ==> log[i].serial != g
    ensures Stamps(log, g) == []
  {
    if log != [] {
      StampsUnarmed(Front(log), g);
    }
  }

  lemma {:induction false} StampsBounded(log: seq<TimeEvent>, g: nat, now: Nanos)
    requires forall i :: 0 <= i < |log| ==> log[i].tsEvent <= now
    ensures forall i :: 0 <= i < |Stamps(log, g)| ==> Stamps(log, g)[i] <= now
  {
    if log != [] {
      StampsBounded(Front(log), g, now);
    }
  }

  lemma InstallKeepsTimers(s: State, name: string, callback: Option<Callback>, cadence: Cadence,
                           start: Nanos, stop: Option<Nanos>, fireImmediately: bool, repeat: bool)
    requires TimersOk(s) && LogOk(s)
    requires callback.Some? || HasAnyCallback(s, name)
    ensures TimersOk(Install(s, name, callback, cadence, start, stop, fireImmediately, repeat))
  {
    hide ChainOf, ArmingOk, FirstFire, NextFire;
    var s' := Install(s, name, callback, cadence, start, stop, fireImmediately, repeat);
    StampsUnarmed(s.log, |s.arms|);
    forall n | n in s'.timers
      ensures s'.timers[n].serial < |s'.arms| && s'.arms[s'.timers[n].serial].name == n
      ensures TimerOk(s'.timers[n], s'.arms[s'.timers[n].serial], Stamps(s'.log, s'.timers[n].serial), s'.sender)
    {
      if n != name {
        assert n in s.timers && s'.timers[n] == s.timers[n];
        assert s'.arms[s.timers[n].serial] == s.arms[s.timers[n].serial];
      }
    }
  }

  lemma InstallKeepsInv(s: State, name: string, callback: Option<Callback>, cadence: Cadence,
                        start: Nanos, stop: Option<Nanos>, fireImmediately: bool, repeat: bool)
    requires Inv(s)
    requires callback.Some? || HasAnyCallback(s, name)
    requires forall cb :: ArmingOk(Arming(name, s.now, Coerced(cadence), start, stop, fireImmediately, repeat, cb))
    ensures Inv(Install(s, name, callback, cadence, start, stop, fireImmediately, repeat))
  {
    hide TimersOk, ArmingOk;
    InstallKeepsTimers(s, name, callback, cadence, start, stop, fireImmediately, repeat);
    StampsUnarmed(s.log, |s.arms|);
    assert forall g :: 0 <= g < |s.arms| ==>
      Install(s, name, callback, cadence, start, stop, fireImmediately, repeat).arms[g] == s.arms[g];
  }

  /** Appending the due fire extends the chain. */
  lemma ChainExtends(a: Arming, e: seq<Nanos>, fire: Nanos)
    requires ChainOf(a, e) && Due(a, e) == Some(fire) && WithinStop(a.stop, fire)
    ensures ChainOf(a, e + [fire])
  {
  }

  lemma EmitStamps(s: State, name: string, fire: Nanos, g: nat)
    requires name in s.timers
    ensures Stamps(Emit(s, name, fire).log, g)
         == Stamps(s.log, g) + (if s.timers[name].serial == g then [fire] else [])
  {
    StampsAppend(s.log, Emit(s, name, fire).log[|s.log|], g);
  }

  lemma EmitKeepsChains(s: State, name: string, fire: Nanos)
    requires Inv(s) && name in s.timers && fire <= s.now
    requires Due(s.arms[s.timers[name].serial], Stamps(s.log, s.timers[name].serial)) == Some(fire)
    requires WithinStop(s.timers[name].stop, fire)
    ensures ChainsOk(Emit(s, name, fire))
  {
    var s' := Emit(s, name, fire);
    forall g | 0 <= g < |s.arms|
      ensures ChainOf(s'.arms[g], Stamps(s'.log, g))
    {
      EmitStamps(s, name, fire, g);
      if g == s.timers[name].serial {
        ChainExtends(s.arms[g], Stamps(s.log, g), fire);
      }
    }
  }

  lemma EmitKeepsTimers(s: State, name: string, fire: Nanos)
    requires LogOk(s) && TimersOk(s) && name in s.timers
    requires fire == s.timers[name].nextTime
    ensures TimersOk(Emit(s, name, fire))
  {
    hide Emit, TimerOk, Stamps;
    var s' := Emit(s, name, fire);
    EmitHolds(s, name, fire);
    forall n | n in s'.timers
      ensures s'.timers[n].serial < |s'.arms| && s'.arms[s'.timers[n].serial].name == n
      ensures TimerOk(s'.timers[n], s'.arms[s'.timers[n].serial], Stamps(s'.log, s'.timers[n].serial), s'.sender)
    {
      assert n in s.timers;
      if n == name {
        EmitKeepsNamed(s, name, fire);
      } else {
        EmitKeepsOther(s, name, fire, n);
      }
    }
  }

  lemma EmitHolds(s: State, name: string, fire: Nanos)
    requires name in s.timers
    ensures var s' := Emit(s, name, fire);
            && s'.timers.Keys == s.timers.Keys && s'.timers[name].serial == s.timers[name].serial
            && s'.arms == s.arms && s'.sender == s.sender
  {
    hide NextFire;
  }

  lemma EmitKeepsOther(s: State, name: string, fire: Nanos, n: string)
    requires name in s.timers && n in s.timers && s.timers[n].serial != s.timers[name].serial
    ensures var s' := Emit(s, name, fire);
            && n in s'.timers && s'.timers[n] == s.timers[n] && s'.arms == s.arms && s'.sender == s.sender
            && Stamps(s'.log, s.timers[n].serial) == Stamps(s.log, s.timers[n].serial)
  {
    EmitStamps(s, name, fire, s.timers[n].serial);
    hide Stamps, NextFire;
  }

  lemma EmitKeepsNamed(s: State, name: string, fire: Nanos)
    requires name in s.timers && fire == s.timers[name].nextTime && s.timers[name].serial < |s.arms|
    requires var t := s.timers[name]; TimerOk(t, s.arms[t.serial], Stamps(s.log, t.serial), s.sender)
    ensures var s' := Emit(s, name, fire);
            var t := s'.timers[name];
            t.serial < |s'.arms| && TimerOk(t, s'.arms[t.serial], Stamps(s'.log, t.serial), s'.sender)
  {
    EmitStamps(s, name, fire, s.timers[name].serial);
    hide Stamps;
  }

  lemma EmitKeepsInv(s: State, name: string, fire: Nanos)
    requires Inv(s) && name in s.timers && fire <= s.now
    requires fire == s.timers[name].nextTime
    requires Due(s.arms[s.timers[name].serial], Stamps(s.log, s.timers[name].serial)) == Some(fire)
    requires WithinStop(s.timers[name].stop, fire)
    ensures Inv(Emit(s, name, fire))
  {
    assert s.timers[name].serial < |s.arms| && s.arms[s.timers[name].serial].name == name;
    hide ChainsOk, TimersOk;
    EmitKeepsChains(s, name, fire);
    EmitKeepsTimers(s, name, fire);
  }

  /** Moving one task's phase keeps the invariant when the phase is accounted for. */
  lemma RephaseKeepsInv(s: State, name: string, t: Timer)
    requires Inv(s) && name in s.timers && t.serial == s.timers[name].serial
    requires TimerOk(t, s.arms[t.serial], Stamps(s.log, t.serial), s.sender)
    ensures Inv(s.(timers := s.timers[name := t]))
  {
  }

  lemma PollKeepsInv(s: State, name: string)
    requires Inv(s)
    ensures Inv(Poll(s, name))
  {
    hide ChainsOk, LogOk, Emit;
    if name in s.timers {
      var t := s.timers[name];
      match t.phase
      case Top =>
        if !PastStop(t.stop, t.nextTime) && s.now >= t.nextTime {
          EmitKeepsInv(s, name, t.nextTime);
        } else {
          RephaseKeepsInv(s, name, Poll(s, name).timers[name]);
        }
      case Sleeping(fire) =>
        if s.now >= fire {
          EmitKeepsInv(s, name, fire);
        }
      case Dispatching(fired, next) =>
        RephaseKeepsInv(s, name, Poll(s, name).timers[name]);
      case Finished =>
    }
  }

  lemma ArmScheduleKeepsInv(s: State, name: string, nameOk: bool, schedule: Schedule, stop: Option<Nanos>,
                            callback: Option<Callback>, allowPast: Option<bool>, fireImmediately: Option<bool>)
    requires Inv(s)
    ensures Inv(SetSchedule(s, name, nameOk, schedule, stop, callback, allowPast, fireImmediately).state)
  {
    var past := UnwrapOr(allowPast, true);
    var immediate := UnwrapOr(fireImmediately, false);
    var validated := ValidateSchedule(nameOk, schedule, stop, past, immediate, s.now);
    if validated.Ok? {
      var first := ArmedFirst(schedule, validated.value, immediate, s.now);
      if first.Ok? && (callback.Some? || HasAnyCallback(s, name)) {
        var cadence := Scheduled(schedule, first.value);
        forall cb ensures ArmingOk(Arming(name, s.now, cadence, schedule.start, stop, immediate, true, cb)) {
          var a := Arming(name, s.now, cadence, schedule.start, stop, immediate, true, cb);
          assert ArmedFrom(a, past, validated.value);
        }
        InstallKeepsInv(s, name, callback, Scheduled(schedule, first.value), schedule.start, stop, immediate, true);
      }
    }
  }

  /** Dropping timers, touching callbacks and letting time pass keep the invariant. */
  lemma QuietStepKeepsInv(s: State, s': State)
    requires Inv(s)
    requires s'.arms == s.arms && s'.log == s.log && s'.sender == s.sender && s'.now >= s.now
    requires s'.timers.Keys <= s.timers.Keys && forall n :: n in s'.timers ==> s'.timers[n] == s.timers[n]
    ensures Inv(s')
  {
    hide TimerOk, ArmingOk, ChainOf;
  }

  lemma StepKeepsInv(s: State, a: Action)
    requires Inv(s)
    ensures Inv(Step(s, a))
  {
    hide Inv, Install, SetSchedule, Poll;
    match a
    case ArmAlert(name, alert, callback) =>
      if alert.Some? && (callback.Some? || HasAnyCallback(s, name)) {
        InstallKeepsInv(s, name, callback, Fixed(SaturatingSub(alert.value, s.now)), s.now, alert,
                        alert.value == s.now, false);
      }
    case ArmTimer(name, interval, prepared, callback) =>
      if prepared.Some? && (callback.Some? || HasAnyCallback(s, name)) {
        InstallKeepsInv(s, name, callback, Fixed(ValidInterval(interval)), prepared.value.start,
                        prepared.value.stop, prepared.value.fireImmediately, true);
      }
    case ArmSchedule(name, nameOk, schedule, stop, callback, allowPast, fireImmediately) =>
      ArmScheduleKeepsInv(s, name, nameOk, schedule, stop, callback, allowPast, fireImmediately);
    case PollTask(name) => PollKeepsInv(s, name);
    case _ => QuietStepKeepsInv(s, Step(s, a));
  }

  lemma {:induction false} RunKeepsInv(s: State, actions: seq<Action>)
    requires Inv(s)
    ensures Inv(Run(s, actions))
  {
    if actions != [] {
      RunKeepsInv(s, Front(actions));
      StepKeepsInv(Run(s, Front(actions)), Last(actions));
    }
  }

  lemma ReachableInv(s: State)
    requires Reachable(s)
    ensures Inv(s)
  {
    var now: Nanos, sender: bool, actions: seq<Action> :| s == Run(Initial(now, sender), actions);
    RunKeepsInv(Initial(now, sender), actions);
  }
}
