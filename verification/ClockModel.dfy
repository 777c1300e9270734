/** The simulated-axis clock of `crates/mogwai-adapter/src/clock.rs`, on values:
    the arming calls, the fire task from one await to the next, and time passing.
    `MogwaiClock` (ClockObject.dfy) is the mutable object proved against it. */
module ClockModel {
  import opened Prelude

  const U64_MAX: nat := 0xFFFF_FFFF_FFFF_FFFF

  type Nanos = n: nat | n <= U64_MAX

  /** The identity of a `TimeEventCallback`. */
  type Callback = nat

  function SaturatingAdd(a: Nanos, b: Nanos): Nanos {
    if a + b <= U64_MAX then a + b else U64_MAX
  }

  function SaturatingSub(a: Nanos, b: Nanos): Nanos {
    if b <= a then a - b else 0
  }

  /** nautilus' `create_valid_interval`: a zero span becomes one nanosecond. */
  function ValidInterval(interval: Nanos): Nanos {
    if interval == 0 then 1 else interval
  }

  /** A `TimerSchedule`. Nothing is assumed here of what `nextAfter` answers. */
  datatype Schedule = Schedule(start: Nanos, nextAfter: Nanos -> Option<Nanos>)

  datatype Cadence =
    | Fixed(interval: Nanos)
    | Scheduled(schedule: Schedule, firstFire: Nanos)

  /** Where a fire task stands between two polls. `Dispatching` is the span in
      which the event has been handed over and its handler may call the clock. */
  datatype Phase =
    | Top
    | Sleeping(fire: Nanos)
    | Dispatching(fired: Nanos, next: Option<Nanos>)
    | Finished

  datatype Timer = Timer(
    serial: nat,
    cadence: Cadence,
    stop: Option<Nanos>,
    repeat: bool,
    callback: Callback,
    nextTime: Nanos,
    phase: Phase)
  {
    predicate IsExpired() { phase.Finished? }
  }

  /** What one successful arming call fixed; `serial` indexes these. */
  datatype Arming = Arming(
    name: string,
    armedAt: Nanos,
    cadence: Cadence,
    start: Nanos,
    stop: Option<Nanos>,
    fireImmediately: bool,
    repeat: bool,
    callback: Callback)
  {
    function First(): Nanos { FirstFire(cadence, start, fireImmediately) }
  }

  datatype TimeEvent = TimeEvent(serial: nat, name: string, callback: Callback, tsEvent: Nanos, tsInit: Nanos)

  datatype State = State(
    now: Nanos,
    timers: map<string, Timer>,
    named: map<string, Callback>,
    default: Option<Callback>,
    sender: bool,
    arms: seq<Arming>,
    log: seq<TimeEvent>)

  datatype Error =
    | Rejected          // nautilus' own validators, which are not modelled
    | FirstEventOutOfRange
    | FirstEventInPast
    | StopNotAfterStart
    | StopInPast
    | NoDeadlineLeft
    | NoCallback

  datatype Outcome = Outcome(state: State, error: Option<Error>)

  // ---------------------------------------------------------------- timers

  /** The fire following `fired`, or none when a schedule has run out. */
  function NextFire(cadence: Cadence, fired: Nanos): Option<Nanos> {
    match cadence
    case Fixed(interval) => Some(SaturatingAdd(fired, interval))
    case Scheduled(schedule, _) =>
      match schedule.nextAfter(fired)
      case Some(next) => if next > fired then Some(next) else None
      case None => None
  }

  function FirstFire(cadence: Cadence, start: Nanos, fireImmediately: bool): Nanos {
    match cadence
    case Fixed(interval) => if fireImmediately then start else SaturatingAdd(start, interval)
    case Scheduled(_, firstFire) => firstFire
  }

  function Coerced(cadence: Cadence): Cadence {
    match cadence
    case Fixed(interval) => Fixed(ValidInterval(interval))
    case Scheduled(_, _) => cadence
  }

  predicate PastStop(stop: Option<Nanos>, fire: Nanos) {
    stop.Some? && fire > stop.value
  }

  // ------------------------------------------------------------- callbacks

  predicate HasAnyCallback(s: State, name: string) {
    name in s.named || s.default.Some?
  }

  function GetCallback(s: State, name: string): Callback
    requires HasAnyCallback(s, name)
  {
    if name in s.named then s.named[name] else s.default.value
  }

  // ---------------------------------------------------------- arming calls

  function Unexpired(timers: map<string, Timer>): map<string, Timer> {
    map n | n in timers && !timers[n].IsExpired() :: timers[n]
  }

  /** The shared tail of the three arming calls: replace, register, start, sweep, insert. */
  function Install(s: State, name: string, callback: Option<Callback>, cadence: Cadence,
                   start: Nanos, stop: Option<Nanos>, fireImmediately: bool, repeat: bool): State
    requires callback.Some? || HasAnyCallback(s, name)
  {
    var cad := Coerced(cadence);
    var cb := if callback.Some? then callback.value else GetCallback(s, name);
    var timer := Timer(|s.arms|, cad, stop, repeat, cb, FirstFire(cad, start, fireImmediately), Top);
    s.(timers := Unexpired(s.timers - {name})[name := timer],
       named := if callback.Some? then s.named[name := cb] else s.named,
       arms := s.arms + [Arming(name, s.now, cad, start, stop, fireImmediately, repeat, cb)])
  }

  function InstallChecked(s: State, name: string, callback: Option<Callback>, cadence: Cadence,
                          start: Nanos, stop: Option<Nanos>, fireImmediately: bool, repeat: bool): Outcome
  {
    if callback.None? && !HasAnyCallback(s, name) then Outcome(s, Some(NoCallback))
    else Outcome(Install(s, name, callback, cadence, start, stop, fireImmediately, repeat), None)
  }

  /** `prepared` is what `validate_and_prepare_time_alert` answered. */
  function SetAlert(s: State, name: string, prepared: Option<Nanos>, callback: Option<Callback>): Outcome {
    match prepared
    case None => Outcome(s, Some(Rejected))
    case Some(alert) =>
      InstallChecked(s, name, callback, Fixed(SaturatingSub(alert, s.now)),
                     s.now, Some(alert), alert == s.now, false)
  }

  datatype PreparedTimer = PreparedTimer(start: Nanos, stop: Option<Nanos>, fireImmediately: bool)

  /** `prepared` is what `validate_and_prepare_timer` answered. */
  function SetTimer(s: State, name: string, interval: Nanos, prepared: Option<PreparedTimer>,
                    callback: Option<Callback>): Outcome
  {
    match prepared
    case None => Outcome(s, Some(Rejected))
    case Some(PreparedTimer(start, stop, fireImmediately)) =>
      InstallChecked(s, name, callback, Fixed(ValidInterval(interval)), start, stop, fireImmediately, true)
  }

  /** `validate_and_prepare_schedule`: the first deadline after the schedule's
      start, or the start itself when firing immediately. */
  function ValidateSchedule(nameOk: bool, schedule: Schedule, stop: Option<Nanos>,
                            allowPast: bool, fireImmediately: bool, now: Nanos): Result<Nanos, Error>
  {
    if !nameOk then Err(Rejected) else
    var next := schedule.nextAfter(schedule.start);
    if !fireImmediately && (next.None? || next.value <= schedule.start) then Err(FirstEventOutOfRange) else
    var firstEvent := if fireImmediately then schedule.start else next.value;
    if !allowPast && firstEvent < now then Err(FirstEventInPast)
    else if stop.Some? && stop.value <= schedule.start then Err(StopNotAfterStart)
    else if stop.Some? && !allowPast && stop.value <= now then Err(StopInPast)
    else Ok(firstEvent)
  }

  /** Where arming positions a schedule timer, given the validated first event. */
  function ArmedFirst(schedule: Schedule, firstEvent: Nanos, fireImmediately: bool, now: Nanos): Result<Nanos, Error> {
    if fireImmediately then Ok(if schedule.start > now then schedule.start else now)
    else if firstEvent < now then
      var from := SaturatingSub(now, 1);
      match schedule.nextAfter(from)
      case Some(next) => if next > from then Ok(next) else Err(NoDeadlineLeft)
      case None => Err(NoDeadlineLeft)
    else Ok(firstEvent)
  }

  function SetSchedule(s: State, name: string, nameOk: bool, schedule: Schedule, stop: Option<Nanos>,
                       callback: Option<Callback>, allowPast: Option<bool>, fireImmediately: Option<bool>): Outcome
  {
    var past := UnwrapOr(allowPast, true);
    var immediate := UnwrapOr(fireImmediately, false);
    match ValidateSchedule(nameOk, schedule, stop, past, immediate, s.now)
    case Err(e) => Outcome(s, Some(e))
    case Ok(firstEvent) =>
      match ArmedFirst(schedule, firstEvent, immediate, s.now)
      case Err(e) => Outcome(s, Some(e))
      case Ok(firstFire) =>
        InstallChecked(s, name, callback, Scheduled(schedule, firstFire), schedule.start, stop, immediate, true)
  }

  // ---------------------------------------------------------- the fire task

  /** Hands the event stamped `fire` over. With a sender the next fire is stored
      before the hand-over, without one only after it. */
  function Emit(s: State, name: string, fire: Nanos): State
    requires name in s.timers
  {
    var t := s.timers[name];
    var next := NextFire(t.cadence, fire);
    var stored := if s.sender && t.repeat && next.Some? then next.value else t.nextTime;
    s.(timers := s.timers[name := t.(nextTime := stored, phase := Dispatching(fire, next))],
       log := s.log + [TimeEvent(t.serial, name, t.callback, fire, s.now)])
  }

  /** One poll of the named timer's task: from the await it stands at to the next. */
  function Poll(s: State, name: string): State {
    if name !in s.timers then s else
    var t := s.timers[name];
    match t.phase
    case Top =>
      if PastStop(t.stop, t.nextTime) then s.(timers := s.timers[name := t.(phase := Finished)])
      else if s.now >= t.nextTime then Emit(s, name, t.nextTime)
      else s.(timers := s.timers[name := t.(phase := Sleeping(t.nextTime))])
    case Sleeping(fire) =>
      if s.now >= fire then Emit(s, name, fire) else s
    case Dispatching(fired, next) =>
      var stored := if !s.sender && t.repeat && next.Some? then next.value else t.nextTime;
      var phase := if t.repeat && next.Some? then Top else Finished;
      s.(timers := s.timers[name := t.(nextTime := stored, phase := phase)])
    case Finished => s
  }

  // ------------------------------------------------------------ every step

  datatype Action =
    | ArmAlert(name: string, alert: Option<Nanos>, callback: Option<Callback>)
    | ArmTimer(name: string, interval: Nanos, prepared: Option<PreparedTimer>, callback: Option<Callback>)
    | ArmSchedule(name: string, nameOk: bool, schedule: Schedule, stop: Option<Nanos>,
                  callback: Option<Callback>, allowPast: Option<bool>, fireImmediately: Option<bool>)
    | CancelTimer(name: string)
    | CancelTimers
    | Reset
    | RegisterDefault(handler: Callback)
    | CancelDefault
    | CancelCallbacks
    | PollTask(name: string)
    | Tick(elapsed: nat)

  function Step(s: State, a: Action): State {
    match a
    case ArmAlert(name, alert, callback) => SetAlert(s, name, alert, callback).state
    case ArmTimer(name, interval, prepared, callback) => SetTimer(s, name, interval, prepared, callback).state
    case ArmSchedule(name, nameOk, schedule, stop, callback, allowPast, fireImmediately) =>
      SetSchedule(s, name, nameOk, schedule, stop, callback, allowPast, fireImmediately).state
    case CancelTimer(name) => s.(timers := s.timers - {name})
    case CancelTimers => s.(timers := map[])
    case Reset => s.(timers := map[], named := map[])
    case RegisterDefault(handler) => s.(default := Some(handler))
    case CancelDefault => s.(default := None)
    case CancelCallbacks => s.(named := map[])
    case PollTask(name) => Poll(s, name)
    case Tick(elapsed) => s.(now := if s.now + elapsed <= U64_MAX then s.now + elapsed else U64_MAX)
  }

  function Run(s: State, actions: seq<Action>): State {
    if actions == [] then s else Step(Run(s, Front(actions)), Last(actions))
  }

  function Initial(now: Nanos, sender: bool): State {
    State(now, map[], map[], None, sender, [], [])
  }

  ghost predicate Reachable(s: State) {
    exists now: Nanos, sender: bool, actions: seq<Action> :: s == Run(Initial(now, sender), actions)
  }

  // ----------------------------------------------------------- observations

  predicate TimerExists(s: State, name: string) {
    name in s.timers && !s.timers[name].IsExpired()
  }

  function TimerNames(s: State): set<string> {
    set n | n in s.timers && !s.timers[n].IsExpired()
  }

  function NextTimeNs(s: State, name: string): Option<Nanos> {
    if TimerExists(s, name) then Some(s.timers[name].nextTime) else None
  }

  /** The stamps the timer armed as number `serial` has emitted, in order. */
  function Stamps(log: seq<TimeEvent>, serial: nat): seq<Nanos> {
    if log == [] then []
    else
      var e := Last(log);
      Stamps(Front(log), serial) + (if e.serial == serial then [e.tsEvent] else [])
  }

  predicate Live(s: State, serial: nat) {
    exists n :: n in s.timers && s.timers[n].serial == serial
  }

  /** Nothing is owed at the present instant: its task sleeps towards a later
      fire, or has ended. */
  predicate CaughtUp(s: State, t: Timer) {
    t.phase.Finished? || (t.phase.Sleeping? && s.now < t.phase.fire)
  }
}
