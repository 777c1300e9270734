/** `wire_trigger_price` of `crates/mogwai-adapter/src/convert.rs`, and the two
    trailing-stop readings it mediates between: the host's, which carries a stated
    trigger through activation, and the venue's, seeded from the activating print
    alone (`crates/mogwai-engine/src/orders.rs`); and the venue's pass over a span of
    prints. Prices are exact reals within the decimal's range. */
module Trailing {
  import opened Prelude

  datatype Side = Buy | Sell

  datatype OrderType = TrailingStopMarket | TrailingStopLimit | OtherOrder

  datatype Refusal = LevelOverflows | TighterThanTrail

  const DECIMAL_MAX: real := 79228162514264337593543950335.0

  function Checked(r: real): Option<real> {
    if -DECIMAL_MAX <= r <= DECIMAL_MAX then Some(r) else None
  }

  // ------------------------------------------------------------ the mapping

  /** The level a trail of this offset takes from a print at `px`. */
  function Level(side: Side, px: real, offset: real): real {
    match side
    case Sell => px - offset
    case Buy => px + offset
  }

  function WireTriggerPrice(orderType: OrderType, side: Side, trigger: Option<real>,
                            activation: Option<real>, offset: Option<real>): Result<Option<real>, Refusal>
  {
    var trailing := orderType.TrailingStopMarket? || orderType.TrailingStopLimit?;
    if !trailing || trigger.None? || activation.None? || offset.None? then Ok(trigger)
    else
      match Checked(Level(side, activation.value, offset.value))
      case None => Err(LevelOverflows)
      case Some(level) =>
        var within := match side
                      case Sell => trigger.value <= level
                      case Buy => trigger.value >= level;
        if within then Ok(None) else Err(TighterThanTrail)
  }

  // ----------------------------------------------------------- the machines

  /** A dormant trailing order; `floor` is a stated trigger that survives activation
      where it is better than the trail's first level. */
  datatype Order = Order(side: Side, activation: real, offset: real, floor: Option<real>)

  datatype Trail = Dormant | Armed(stop: real) | StoppedOut(stop: real)

  /** Toward the level, as a touched order enters. */
  predicate Activates(o: Order, px: real) {
    match o.side
    case Sell => px >= o.activation
    case Buy => px <= o.activation
  }

  /** Through the level, as a stop protects. */
  predicate Stops(side: Side, stop: real, px: real) {
    match side
    case Sell => px <= stop
    case Buy => px >= stop
  }

  function Better(side: Side, a: real, b: real): real {
    match side
    case Sell => if a < b then b else a
    case Buy => if b < a then b else a
  }

  function Step(o: Order, t: Trail, px: real): Trail {
    match t
    case Dormant =>
      if !Activates(o, px) then Dormant
      else
        var first := Level(o.side, px, o.offset);
        Armed(if o.floor.Some? then Better(o.side, o.floor.value, first) else first)
    case Armed(stop) =>
      if Stops(o.side, stop, px) then StoppedOut(stop)
      else Armed(Better(o.side, stop, Level(o.side, px, o.offset)))
    case StoppedOut(_) => t
  }

  function Run(o: Order, path: seq<real>): Trail {
    if path == [] then Dormant else Step(o, Run(o, Front(path)), Last(path))
  }

  /** The host's reading of the stated order, and the venue's of what is sent. */
  function Stated(side: Side, trigger: real, activation: real, offset: real): Order {
    Order(side, activation, offset, Some(trigger))
  }

  function Sent(side: Side, activation: real, offset: real): Order {
    Order(side, activation, offset, None)
  }

  // --------------------------------------------------- meaning is preserved

  /** A floor at or beyond the activation level is never the better one. */
  lemma LooseFloorIsInert(side: Side, trigger: real, activation: real, offset: real, t: Trail, px: real)
    requires !Tighter(side, trigger, activation, offset)
    ensures Step(Stated(side, trigger, activation, offset), t, px) == Step(Sent(side, activation, offset), t, px)
  {
  }

  predicate Tighter(side: Side, trigger: real, activation: real, offset: real) {
    match side
    case Sell => trigger > Level(side, activation, offset)
    case Buy => trigger < Level(side, activation, offset)
  }

  lemma {:induction false} LooseFloorRunsEqual(side: Side, trigger: real, activation: real, offset: real,
      path: seq<real>)
    requires !Tighter(side, trigger, activation, offset)
    ensures Run(Stated(side, trigger, activation, offset), path) == Run(Sent(side, activation, offset), path)
  {
    if path != [] {
      var before := Front(path);
      LooseFloorRunsEqual(side, trigger, activation, offset, before);
      LooseFloorIsInert(side, trigger, activation, offset, Run(Sent(side, activation, offset), before),
          Last(path));
    }
  }

  lemma RunTwo(o: Order, p: real, q: real)
    ensures Run(o, [p, q]) == Step(o, Step(o, Dormant, p), q)
  {
    assert [p, q][..1] == [p] && [p][..0] == [];
    assert Run(o, []) == Dormant;
    assert Run(o, [p]) == Step(o, Dormant, p);
  }

  /** A tighter trigger separates the two on a two-print path: activate, then print
      at the trigger. The stated order stops out there and the sent one does not. */
  lemma TighterFloorSeparates(side: Side, trigger: real, activation: real, offset: real)
    requires Tighter(side, trigger, activation, offset)
    ensures Run(Stated(side, trigger, activation, offset), [activation, trigger]) == StoppedOut(trigger)
    ensures !Run(Sent(side, activation, offset), [activation, trigger]).StoppedOut?
  {
    RunTwo(Stated(side, trigger, activation, offset), activation, trigger);
    RunTwo(Sent(side, activation, offset), activation, trigger);
  }

  /** The trigger of a trailing order stating all three is dropped exactly when the
      order as stated and the order as sent carry the same stop and stop out on the
      same print on every price path; where it is refused as tighter, some path
      stops one out and not the other; both of a level within the decimal's range. */
  lemma DroppedIffMeaningPreserved(orderType: OrderType, side: Side, trigger: real, activation: real, offset: real)
    requires orderType.TrailingStopMarket? || orderType.TrailingStopLimit?
    ensures WireTriggerPrice(orderType, side, Some(trigger), Some(activation), Some(offset)) == Ok(None) <==>
              Checked(Level(side, activation, offset)).Some? &&
              forall path: seq<real> ::
                Run(Stated(side, trigger, activation, offset), path) == Run(Sent(side, activation, offset), path)
    ensures
      WireTriggerPrice(orderType, side, Some(trigger), Some(activation), Some(offset)) == Err(TighterThanTrail) <==>
              Checked(Level(side, activation, offset)).Some? &&
              exists path: seq<real> ::
                Run(Stated(side, trigger, activation, offset), path).StoppedOut?
                && !Run(Sent(side, activation, offset), path).StoppedOut?
  {
    if Tighter(side, trigger, activation, offset) {
      TighterFloorSeparates(side, trigger, activation, offset);
    } else {
      forall path: seq<real>
        ensures Run(Stated(side, trigger, activation, offset), path) == Run(Sent(side, activation, offset), path)
      {
        LooseFloorRunsEqual(side, trigger, activation, offset, path);
      }
    }
  }

  /** The mapping, case by case: a trailing order stating all three is refused as
      overflowing exactly where the level its offset takes from its activation - below it
      for a sell, above it for a buy - leaves the decimal's range, and in range refused as
      tighter exactly where its trigger is on the near side of that level; every other
      answer is the stated trigger, dropped from an order in range and not tighter. */
  lemma MappedByLevel(orderType: OrderType, side: Side, trigger: Option<real>,
                      activation: Option<real>, offset: Option<real>)
    ensures var mapped := WireTriggerPrice(orderType, side, trigger, activation, offset);
            if orderType.OtherOrder? || trigger.None? || activation.None? || offset.None? then mapped == Ok(trigger)
            else
              var level := if side.Sell? then activation.value - offset.value else activation.value + offset.value;
              var tighter := if side.Sell? then trigger.value > level else trigger.value < level;
              var inRange := AbsR(level) <= 79228162514264337593543950335.0;
              && (mapped == Err(LevelOverflows) <==> !inRange)
              && (mapped == Err(TighterThanTrail) <==> inRange && tighter)
              && (mapped == Ok(None) <==> inRange && !tighter)
  {
  }

  /** Everything but a trailing order stating all three passes through as stated,
      and an answer that carries a trigger always carries the stated one. */
  lemma OthersPassThrough(orderType: OrderType, side: Side, trigger: Option<real>,
                          activation: Option<real>, offset: Option<real>)
    ensures var mapped := WireTriggerPrice(orderType, side, trigger, activation, offset);
            (mapped != Ok(trigger) ==> !orderType.OtherOrder? && trigger.Some? && activation.Some? && offset.Some?)
            && (mapped.Ok? && mapped.value.Some? ==> mapped.value == trigger)
            && (mapped.Err? ==> trigger.Some?)
  {
  }

  // ---------------------------------------------------- the venue's ratchet

  /** A stop only ever improves along a path. */
  lemma {:induction false} StopNeverRetreats(o: Order, path: seq<real>, k: nat)
    requires k <= |path| && Run(o, path[..k]).Armed? && Run(o, path).Armed?
    ensures Better(o.side, Run(o, path[..k]).stop, Run(o, path).stop) == Run(o, path).stop
  {
    if k == |path| {
      assert path[..k] == path;
    } else {
      var before := Front(path);
      assert before[..k] == path[..k];
      StoppedStaysStopped(o, before, Last(path));
      ArmedStaysArmed(o, path, k);
      StopNeverRetreats(o, before, k);
    }
  }

  lemma StoppedStaysStopped(o: Order, before: seq<real>, px: real)
    ensures Run(o, before).StoppedOut? ==> Run(o, before + [px]) == Run(o, before)
  {
    assert (before + [px])[..|before|] == before;
  }

  /** Once armed, a later prefix is not dormant. */
  lemma {:induction false} ArmedStaysArmed(o: Order, path: seq<real>, k: nat)
    requires k < |path| && !Run(o, path[..k]).Dormant?
    ensures !Run(o, Front(path)).Dormant?
    decreases |path|
  {
    var before := Front(path);
    if k < |before| {
      assert before[..k] == path[..k];
      ArmedStaysArmed(o, before, k);
    } else {
      assert path[..k] == before;
    }
  }

  function RatchetEach(side: Side, offset: real, stop: real, ticks: seq<real>): real {
    if ticks == [] then stop
    else Better(side, RatchetEach(side, offset, stop, Front(ticks)), Level(side, Last(ticks), offset))
  }

  /** `extreme` is the print of the span this side's trail follows: the high for a
      sell, the low for a buy. */
  predicate IsExtreme(side: Side, ticks: seq<real>, extreme: real) {
    extreme in ticks && forall i :: 0 <= i < |ticks| ==> Better(side, ticks[i], extreme) == extreme
  }

  /** Ratcheting once against the span's extreme is what ratcheting on every tick
      of the span would have produced. */
  lemma OneRatchetPerSpan(side: Side, offset: real, stop: real, ticks: seq<real>, extreme: real)
    requires IsExtreme(side, ticks, extreme)
    ensures RatchetEach(side, offset, stop, ticks) == Better(side, stop, Level(side, extreme, offset))
  {
    RatchetBound(side, offset, stop, ticks, extreme);
    var i :| 0 <= i < |ticks| && ticks[i] == extreme;
    RatchetReaches(side, offset, stop, ticks, i);
  }

  lemma {:induction false} RatchetBound(side: Side, offset: real, stop: real, ticks: seq<real>, extreme: real)
    requires forall i :: 0 <= i < |ticks| ==> Better(side, ticks[i], extreme) == extreme
    ensures var bound := Better(side, stop, Level(side, extreme, offset));
            Better(side, RatchetEach(side, offset, stop, ticks), bound) == bound
  {
    if ticks != [] {
      RatchetBound(side, offset, stop, Front(ticks), extreme);
    }
  }

  lemma {:induction false} RatchetReaches(side: Side, offset: real, stop: real, ticks: seq<real>, i: nat)
    requires i < |ticks|
    ensures var each := RatchetEach(side, offset, stop, ticks);
            Better(side, Level(side, ticks[i], offset), each) == each && Better(side, stop, each) == each
    decreases |ticks|
  {
    var before := Front(ticks);
    if i < |before| {
      RatchetReaches(side, offset, stop, before, i);
    } else if before != [] {
      RatchetReaches(side, offset, stop, before, 0);
    }
  }

  // -------------------------------------------------------- a pass over a span

  /** The print of a span its side's trail follows; the mark where nothing printed. */
  function Followed(side: Side, ticks: seq<real>, mark: real): real {
    if ticks == [] then mark
    else if |ticks| == 1 then ticks[0]
    else Better(side, Followed(side, Front(ticks), mark), Last(ticks))
  }

  predicate Touched(side: Side, stop: real, ticks: seq<real>) {
    exists i :: 0 <= i < |ticks| && Stops(side, stop, ticks[i])
  }

  /** The venue's pass over an armed order: the whole span is walked against the stop
      the span began with, and only an order no print touched is ratcheted, once. */
  function Pass(side: Side, offset: real, stop: real, ticks: seq<real>, mark: real): Trail {
    if Touched(side, stop, ticks) then StoppedOut(stop)
    else Armed(Better(side, stop, Level(side, Followed(side, ticks, mark), offset)))
  }

  /** The same span one print at a time. */
  function EachPrint(o: Order, t: Trail, ticks: seq<real>): Trail {
    if ticks == [] then t else Step(o, EachPrint(o, t, Front(ticks)), Last(ticks))
  }

  /** A print of the span turns back through the level an earlier one of it set. */
  ghost predicate TurnsBack(side: Side, offset: real, ticks: seq<real>) {
    exists i, k :: 0 <= i < k < |ticks| && Stops(side, Level(side, ticks[i], offset), ticks[k])
  }

  lemma {:induction false} FollowedIsExtreme(side: Side, ticks: seq<real>, mark: real)
    requires ticks != []
    ensures IsExtreme(side, ticks, Followed(side, ticks, mark))
  {
    if |ticks| > 1 {
      FollowedIsExtreme(side, Front(ticks), mark);
      assert ticks == Front(ticks) + [Last(ticks)];
    }
  }

  /** A print goes through the ratcheted stop exactly when it goes through the stop the
      span began with or through the level of one of its prints. */
  lemma {:induction false} StopsRatcheted(side: Side, offset: real, stop: real, ticks: seq<real>, px: real)
    ensures Stops(side, RatchetEach(side, offset, stop, ticks), px) <==>
              Stops(side, stop, px) || exists i :: 0 <= i < |ticks| && Stops(side, Level(side, ticks[i], offset), px)
  {
    if ticks != [] {
      StopsRatcheted(side, offset, stop, Front(ticks), px);
      assert forall i :: 0 <= i < |ticks| - 1 ==> Front(ticks)[i] == ticks[i];
      assert Last(ticks) == ticks[|ticks| - 1];
    }
  }

  /** Print by print, an armed order stops out in a span exactly when a print touches
      the stop the span began with or turns back within it; otherwise it is ratcheted
      by every print. */
  lemma {:induction false} EachPrintStopsIff(o: Order, stop: real, ticks: seq<real>)
    ensures EachPrint(o, Armed(stop), ticks).StoppedOut? <==>
              Touched(o.side, stop, ticks) || TurnsBack(o.side, o.offset, ticks)
    ensures !EachPrint(o, Armed(stop), ticks).StoppedOut? ==>
      EachPrint(o, Armed(stop), ticks) == Armed(RatchetEach(o.side, o.offset, stop, ticks))
  {
    if ticks != [] {
      var before, px := Front(ticks), Last(ticks);
      EachPrintStopsIff(o, stop, before);
      StopsRatcheted(o.side, o.offset, stop, before, px);
      TouchedOrTurns(o.side, o.offset, stop, before, px);
      assert ticks == before + [px];
      hide Touched, TurnsBack, Stops, Level;
    }
  }

  lemma TouchedOrTurns(side: Side, offset: real, stop: real, before: seq<real>, px: real)
    ensures Touched(side, stop, before + [px]) <==> Touched(side, stop, before) || Stops(side, stop, px)
    ensures TurnsBack(side, offset, before + [px]) <==>
              TurnsBack(side, offset, before)
              || exists i :: 0 <= i < |before| && Stops(side, Level(side, before[i], offset), px)
  {
    hide Stops, Level;
    var ticks := before + [px];
    assert ticks[|before|] == px && forall i :: 0 <= i < |before| ==> ticks[i] == before[i];
  }

  /** The pass stops out no order the prints would have left; the two leave one state
      or both stop out exactly when a print touches the stop the span began with or
      none turns back within the span. */
  lemma PassAgreesIff(o: Order, stop: real, ticks: seq<real>, mark: real)
    requires ticks != []
    ensures var pass, each := Pass(o.side, o.offset, stop, ticks, mark), EachPrint(o, Armed(stop), ticks);
            && (pass.StoppedOut? ==> each.StoppedOut?)
            && (pass == each || (pass.StoppedOut? && each.StoppedOut?) <==>
                  Touched(o.side, stop, ticks) || !TurnsBack(o.side, o.offset, ticks))
  {
    hide Touched, TurnsBack, Stops, Level, RatchetEach;
    EachPrintStopsIff(o, stop, ticks);
    FollowedIsExtreme(o.side, ticks, mark);
    OneRatchetPerSpan(o.side, o.offset, stop, ticks, Followed(o.side, ticks, mark));
  }

  /** A sell trailing five behind with its stop at 95: prints of 110 and 100 stop it out
      one by one, and a pass over both moves its stop to 105. */
  lemma PassMissesTurn()
    ensures Pass(Sell, 5.0, 95.0, [110.0, 100.0], 100.0) == Armed(105.0)
    ensures EachPrint(Order(Sell, 100.0, 5.0, None), Armed(95.0), [110.0, 100.0]).StoppedOut?
  {
    var ticks := [110.0, 100.0];
    assert Stops(Sell, Level(Sell, ticks[0], 5.0), ticks[1]);
    EachPrintStopsIff(Order(Sell, 100.0, 5.0, None), 95.0, ticks);
    assert Followed(Sell, ticks, 100.0) == 110.0;
  }
}
