/** `MogwaiClock` as the mutable object it is, each method proved against the
    transition it makes in `ClockModel`. */
module ClockObject {
  import opened Prelude
  import M = ClockModel

  class MogwaiClock {
    var now: M.Nanos
    var timers: map<string, M.Timer>
    var named: map<string, M.Callback>
    var default: Option<M.Callback>
    const sender: bool
    var arms: seq<M.Arming>
    /** Everything handed to the sender, or to the callback where there is none. */
    var dispatched: seq<M.TimeEvent>

    function State(): M.State
      reads this
    {
      M.State(now, timers, named, default, sender, arms, dispatched)
    }

    constructor (now: M.Nanos, sender: bool)
      ensures State() == M.Initial(now, sender)
    {
      this.now := now;
      this.sender := sender;
      timers, named, default, arms, dispatched := map[], map[], None, [], [];
    }

    method ClearExpiredTimers()
      modifies this`timers
      ensures timers == M.Unexpired(old(timers))
    {
      timers := map n | n in timers && !timers[n].IsExpired() :: timers[n];
    }

    method ReplaceExistingTimerIfNeeded(name: string)
      modifies this`timers
      ensures timers == old(timers) - {name}
    {
      if name in timers {
        timers := timers - {name};
      }
    }

    /** What the three arming calls do once their arguments are accepted. */
    method InstallTimer(name: string, callback: Option<M.Callback>, cadence: M.Cadence, start: M.Nanos,
                        stop: Option<M.Nanos>, fireImmediately: bool, repeat: bool)
      returns (error: Option<M.Error>)
      modifies this
      ensures M.Outcome(State(), error)
           == M.InstallChecked(old(State()), name, callback, cadence, start, stop, fireImmediately, repeat)
    {
      if callback.None? && name !in named && default.None? {
        return Some(M.NoCallback);
      }
      ReplaceExistingTimerIfNeeded(name);
      var used;
      if callback.Some? {
        named := named[name := callback.value];
        used := callback.value;
      } else {
        used := if name in named then named[name] else default.value;
      }
      var coerced := M.Coerced(cadence);
      var timer := M.Timer(|arms|, coerced, stop, repeat, used,
                           M.FirstFire(coerced, start, fireImmediately), M.Top);
      ClearExpiredTimers();
      timers := timers[name := timer];
      arms := arms + [M.Arming(name, now, coerced, start, stop, fireImmediately, repeat, used)];
      return None;
    }

    method SetTimeAlertNs(name: string, prepared: Option<M.Nanos>, callback: Option<M.Callback>)
      returns (error: Option<M.Error>)
      modifies this
      ensures M.Outcome(State(), error) == M.SetAlert(old(State()), name, prepared, callback)
    {
      if prepared.None? {
        return Some(M.Rejected);
      }
      var alert := prepared.value;
      error := InstallTimer(name, callback, M.Fixed(M.SaturatingSub(alert, now)), now, Some(alert),
                            alert == now, false);
    }

    method SetTimerNs(name: string, interval: M.Nanos, prepared: Option<M.PreparedTimer>, callback: Option<M.Callback>)
      returns (error: Option<M.Error>)
      modifies this
      ensures M.Outcome(State(), error) == M.SetTimer(old(State()), name, interval, prepared, callback)
    {
      if prepared.None? {
        return Some(M.Rejected);
      }
      var p := prepared.value;
      error := InstallTimer(name, callback, M.Fixed(M.ValidInterval(interval)), p.start, p.stop,
                            p.fireImmediately, true);
    }

    method SetTimerSchedule(name: string, nameOk: bool, schedule: M.Schedule, stop: Option<M.Nanos>,
                            callback: Option<M.Callback>, allowPast: Option<bool>, fireImmediately: Option<bool>)
      returns (error: Option<M.Error>)
      modifies this
      ensures M.Outcome(State(), error)
           == M.SetSchedule(old(State()), name, nameOk, schedule, stop, callback, allowPast, fireImmediately)
    {
      var immediate := UnwrapOr(fireImmediately, false);
      var validated := M.ValidateSchedule(nameOk, schedule, stop, UnwrapOr(allowPast, true), immediate, now);
      if validated.Err? {
        return Some(validated.error);
      }
      var first := M.ArmedFirst(schedule, validated.value, immediate, now);
      if first.Err? {
        return Some(first.error);
      }
      error := InstallTimer(name, callback, M.Scheduled(schedule, first.value), schedule.start, stop, immediate, true);
    }

    method CancelTimer(name: string)
      modifies this`timers
      ensures State() == M.Step(old(State()), M.CancelTimer(name))
    {
      ReplaceExistingTimerIfNeeded(name);
    }

    method CancelTimers()
      modifies this`timers
      ensures State() == M.Step(old(State()), M.CancelTimers)
    {
      timers := map[];
    }

    method Reset()
      modifies this
      ensures State() == M.Step(old(State()), M.Reset)
    {
      CancelTimers();
      named := map[];
    }

    method RegisterDefaultHandler(handler: M.Callback)
      modifies this`default
      ensures State() == M.Step(old(State()), M.RegisterDefault(handler))
    {
      default := Some(handler);
    }

    method CancelDefaultHandler()
      modifies this`default
      ensures State() == M.Step(old(State()), M.CancelDefault)
    {
      default := None;
    }

    method CancelCallbacks()
      modifies this`named
      ensures State() == M.Step(old(State()), M.CancelCallbacks)
    {
      named := map[];
    }

    /** Hands one event over: with a sender the advance precedes the send. */
    method Fire(name: string, fire: M.Nanos)
      requires name in timers
      modifies this
      ensures State() == M.Emit(old(State()), name, fire)
    {
      var t := timers[name];
      var event := M.TimeEvent(t.serial, name, t.callback, fire, now);
      var next := M.NextFire(t.cadence, fire);
      if sender {
        if t.repeat && next.Some? {
          t := t.(nextTime := next.value);
        }
      }
      dispatched := dispatched + [event];
      timers := timers[name := t.(phase := M.Dispatching(fire, next))];
    }

    /** Runs the named timer's task from the await it stands at to the next one. */
    method PollTask(name: string)
      modifies this
      ensures State() == M.Step(old(State()), M.PollTask(name))
    {
      if name !in timers {
        return;
      }
      var t := timers[name];
      match t.phase {
        case Top =>
          if t.stop.Some? && t.nextTime > t.stop.value {
            timers := timers[name := t.(phase := M.Finished)];
          } else if now >= t.nextTime {
            Fire(name, t.nextTime);
          } else {
            timers := timers[name := t.(phase := M.Sleeping(t.nextTime))];
          }
        case Sleeping(fire) =>
          if now >= fire {
            Fire(name, fire);
          }
        case Dispatching(_, next) =>
          if !sender && t.repeat && next.Some? {
            t := t.(nextTime := next.value);
          }
          if !t.repeat || next.None? {
            timers := timers[name := t.(phase := M.Finished)];
          } else {
            timers := timers[name := t.(phase := M.Top)];
          }
        case Finished =>
      }
    }

    method Advance(elapsed: nat)
      modifies this`now
      ensures State() == M.Step(old(State()), M.Tick(elapsed))
    {
      now := if now + elapsed <= M.U64_MAX then now + elapsed else M.U64_MAX;
    }

    method TimerExists(name: string) returns (r: bool)
      ensures r <==> name in M.TimerNames(State())
    {
      r := name in timers && !timers[name].IsExpired();
    }

    /** Counts the entries one by one, the expired ones passed over. */
    method TimerCount() returns (r: nat)
      ensures r == |M.TimerNames(State())|
    {
      r := 0;
      var rest := timers.Keys;
      ghost var counted: set<string> := {};
      while rest != {}
        invariant rest <= timers.Keys && r == |counted|
        invariant forall n :: n in counted <==> n in timers && n !in rest && !timers[n].IsExpired()
        decreases rest
      {
        var name :| name in rest;
        rest := rest - {name};
        if !timers[name].IsExpired() {
          r := r + 1;
          counted := counted + {name};
        }
      }
      assert counted == M.TimerNames(State());
    }

    method NextTimeNs(name: string) returns (r: Option<M.Nanos>)
      ensures r == M.NextTimeNs(State(), name)
      ensures r.Some? <==> name in M.TimerNames(State())
    {
      if name in timers && !timers[name].IsExpired() {
        r := Some(timers[name].nextTime);
      } else {
        r := None;
      }
    }
  }
}
