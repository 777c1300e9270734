/** Folding trades into time bars: `fold_trade` of `mogwai-data` and the adapter's
    `BarAggregator` and `aggregate_bars` over it. Decimals are reals; the conversion to
    nautilus prices and quantities, which can fail, is a parameter. */
module Bars {
  import opened Prelude
  import opened Grouping

  const U64_MAX: nat := 0xFFFF_FFFF_FFFF_FFFF

  type U64 = x: nat | x <= U64_MAX

  type Interval = x: nat | 0 < x <= U64_MAX witness 1

  datatype Trade = Trade(price: real, size: real, ts: U64)

  datatype BarAcc = BarAcc(open: real, high: real, low: real, close: real, volume: real, count: nat, closeTs: U64)

  function SaturatingMul(a: nat, b: nat): U64 { if a * b > U64_MAX then U64_MAX else a * b }

  /** The number of the epoch-anchored window a stamp falls in. */
  function Window(ts: int, iv: int): int
    requires iv > 0
  {
    ts / iv
  }

  /** The exclusive end of that window. */
  function WindowClose(ts: U64, iv: Interval): U64 {
    DivBounds(ts, iv);
    SaturatingMul(Min(Window(ts, iv) + 1, U64_MAX), iv)
  }

  predicate Saturates(ts: U64, iv: Interval) { (Window(ts, iv) + 1) * iv > U64_MAX }

  function OpenAcc(t: Trade, iv: Interval): BarAcc {
    BarAcc(t.price, t.price, t.price, t.price, t.size, 1, WindowClose(t.ts, iv))
  }

  function Extend(acc: BarAcc, t: Trade): BarAcc {
    acc.(high := MaxR(acc.high, t.price), low := MinR(acc.low, t.price), close := t.price,
         volume := acc.volume + t.size, count := acc.count + 1)
  }

  /** `fold_trade`: the new window, and the one the trade closed. */
  function FoldTrade(active: Option<BarAcc>, t: Trade, iv: Interval): (Option<BarAcc>, Option<BarAcc>) {
    match active
    case None => (Some(OpenAcc(t, iv)), None)
    case Some(acc) => if t.ts >= acc.closeTs then (Some(OpenAcc(t, iv)), Some(acc)) else (Some(Extend(acc, t)), None)
  }

  // ------------------------------------------------------------- window arithmetic

  lemma DivBounds(ts: nat, iv: nat)
    requires iv > 0
    ensures Window(ts, iv) >= 0
    ensures Window(ts, iv) * iv <= ts < Window(ts, iv) * iv + iv
    ensures (Window(ts, iv) + 1) * iv == Window(ts, iv) * iv + iv
  {
  }

  lemma MulFits(q: nat, iv: nat, cap: nat)
    requires q * iv <= cap && iv > 0
    ensures q <= cap
  {
    if q > cap {
      MulMonotone(1, iv, q);
    }
  }

  /** The close is the first multiple of the interval above the stamp, or the end
      of the axis when that multiple lies past it. */
  lemma CloseIsNextMultiple(ts: U64, iv: Interval)
    ensures Saturates(ts, iv) ==> WindowClose(ts, iv) == U64_MAX
    ensures !Saturates(ts, iv) ==>
      var c := WindowClose(ts, iv);
      c == (Window(ts, iv) + 1) * iv && c % iv == 0 && c - iv <= ts < c
  {
    var q := Window(ts, iv) + 1;
    DivBounds(ts, iv);
    if !Saturates(ts, iv) {
      MulFits(q, iv, U64_MAX);
      assert (q * iv) % iv == 0 by { MultipleMod(q, iv); }
    } else if q > U64_MAX {
      MulMonotone(1, iv, U64_MAX);
      assert U64_MAX * iv >= U64_MAX;
    }
  }

  lemma MultipleMod(q: nat, iv: nat)
    requires iv > 0
    ensures (q * iv) % iv == 0
  {
    NoMultipleBetween(q, (q * iv) / iv, iv, (q * iv) % iv);
  }

  lemma NoMultipleBetween(q: nat, d: nat, iv: nat, r: nat)
    requires q * iv == d * iv + r && r < iv
    ensures r == 0
  {
    assert (d + 1) * iv == d * iv + iv;
    if q > d {
      MulMonotone(d + 1, q, iv);
    } else {
      MulMonotone(q, d, iv);
    }
  }

  /** A trade belongs past a window exactly when its own window is a later one. */
  lemma RotatesIffLater(t: Trade, first: Trade, iv: Interval)
    requires !Saturates(first.ts, iv)
    ensures t.ts >= WindowClose(first.ts, iv) <==> Window(t.ts, iv) > Window(first.ts, iv)
  {
    CloseIsNextMultiple(first.ts, iv);
    DivBounds(t.ts, iv);
    var a, b := Window(t.ts, iv), Window(first.ts, iv);
    if a > b {
      MulMonotone(b + 1, a, iv);
    } else {
      MulMonotone(a + 1, b + 1, iv);
    }
  }

  /** A window that saturates is closed only by a trade on the last instant of the axis. */
  lemma SaturatedClosesAtTheEnd(t: Trade, first: Trade, iv: Interval)
    requires Saturates(first.ts, iv)
    ensures t.ts >= WindowClose(first.ts, iv) <==> t.ts == U64_MAX
  {
    CloseIsNextMultiple(first.ts, iv);
  }

  // -------------------------------------------------------- what the fold computes

  /** The trades cut where a trade reaches the close of the window the slice opened. */
  datatype Slices = Slices(closed: seq<seq<Trade>>, open: seq<Trade>)

  function CutStep(s: Slices, t: Trade, iv: Interval): Slices {
    if s.open == [] then Slices(s.closed, [t])
    else if t.ts >= WindowClose(s.open[0].ts, iv) then Slices(s.closed + [s.open], [t])
    else s.(open := s.open + [t])
  }

  function Cut(trades: seq<Trade>, iv: Interval): Slices {
    if trades == [] then Slices([], []) else CutStep(Cut(Front(trades), iv), Last(trades), iv)
  }

  function High(slice: seq<Trade>): real
    requires slice != []
  {
    var t := Last(slice);
    if |slice| == 1 then t.price else MaxR(High(Front(slice)), t.price)
  }

  function Low(slice: seq<Trade>): real
    requires slice != []
  {
    var t := Last(slice);
    if |slice| == 1 then t.price else MinR(Low(Front(slice)), t.price)
  }

  function Volume(trades: seq<Trade>): real {
    if trades == [] then 0.0 else Volume(Front(trades)) + Last(trades).size
  }

  /** A window as its trades make it. */
  function Describe(slice: seq<Trade>, iv: Interval): BarAcc
    requires slice != []
  {
    BarAcc(slice[0].price, High(slice), Low(slice), Last(slice).price, Volume(slice), |slice|,
           WindowClose(slice[0].ts, iv))
  }

  /** The high and the low are prices of the window that no price exceeds. */
  lemma {:induction false} Extremes(slice: seq<Trade>)
    requires slice != []
    ensures exists i :: 0 <= i < |slice| && slice[i].price == High(slice)
    ensures exists i :: 0 <= i < |slice| && slice[i].price == Low(slice)
    ensures forall i :: 0 <= i < |slice| ==> Low(slice) <= slice[i].price <= High(slice)
  {
    var n := |slice| - 1;
    assert slice[n].price == slice[n].price;
    if n > 0 {
      var f := slice[..n];
      Extremes(f);
      assert forall i :: 0 <= i < n ==> f[i] == slice[i];
      var i :| 0 <= i < n && f[i].price == High(f);
      var j :| 0 <= j < n && f[j].price == Low(f);
      assert slice[if High(f) < slice[n].price then n else i].price == High(slice);
      assert slice[if slice[n].price < Low(f) then n else j].price == Low(slice);
    }
  }

  lemma {:induction false} DescribeExtend(slice: seq<Trade>, t: Trade, iv: Interval)
    requires slice != []
    ensures Describe(slice + [t], iv) == Extend(Describe(slice, iv), t)
  {
    assert (slice + [t])[..|slice|] == slice;
  }

  lemma DescribeOne(t: Trade, iv: Interval)
    ensures Describe([t], iv) == OpenAcc(t, iv)
  {
    assert [t][..0] == [];
    assert Volume([]) == 0.0;
  }

  function Concat(slices: seq<seq<Trade>>): seq<Trade> {
    if slices == [] then [] else Concat(Front(slices)) + Last(slices)
  }

  lemma {:induction false} ConcatAppend(slices: seq<seq<Trade>>, slice: seq<Trade>)
    ensures Concat(slices + [slice]) == Concat(slices) + slice
  {
    assert (slices + [slice])[..|slices|] == slices;
  }

  lemma {:induction false} CutParts(trades: seq<Trade>, iv: Interval)
    ensures Cut(trades, iv).open == [] <==> trades == []
    ensures forall i :: 0 <= i < |Cut(trades, iv).closed| ==> Cut(trades, iv).closed[i] != []
  {
    if trades != [] {
      var f, t := Front(trades), Last(trades);
      CutParts(f, iv);
      CutExtend(f, t, iv);
      assert trades == f + [t];
      hide Cut, WindowClose;
    }
  }

  lemma StepConcat(s: Slices, t: Trade, iv: Interval)
    ensures Concat(CutStep(s, t, iv).closed) + CutStep(s, t, iv).open == (Concat(s.closed) + s.open) + [t]
  {
    hide Concat, WindowClose;
    ConcatAppend(s.closed, s.open);
    Regrouped(Concat(s.closed), s.open, t);
  }

  /** The slices are the trades, in order: none is lost, none is empty. */
  lemma {:induction false} CutConcat(trades: seq<Trade>, iv: Interval)
    ensures Concat(Cut(trades, iv).closed) + Cut(trades, iv).open == trades
    ensures Cut(trades, iv).open == [] <==> trades == []
    ensures forall i :: 0 <= i < |Cut(trades, iv).closed| ==> Cut(trades, iv).closed[i] != []
  {
    CutParts(trades, iv);
    if trades == [] {
      assert Concat([]) == [];
    } else {
      hide Concat, Cut, CutStep;
      var f, t := Front(trades), Last(trades);
      assert trades == f + [t];
      CutConcat(f, iv);
      CutExtend(f, t, iv);
      StepConcat(Cut(f, iv), t, iv);
    }
  }

  lemma Regrouped(a: seq<Trade>, b: seq<Trade>, t: Trade)
    ensures a + (b + [t]) == (a + b) + [t]
    ensures b == [] ==> a + [t] == (a + b) + [t]
  {
  }

  /** The running state of the fold after `trades`. */
  ghost predicate Folded(trades: seq<Trade>, iv: Interval, active: Option<BarAcc>) {
    var open := Cut(trades, iv).open;
    active == if open == [] then None else Some(Describe(open, iv))
  }

  lemma {:induction false} CutExtend(trades: seq<Trade>, t: Trade, iv: Interval)
    ensures Cut(trades + [t], iv) == CutStep(Cut(trades, iv), t, iv)
  {
    assert (trades + [t])[..|trades|] == trades;
  }

  /** Two trades on the last instant: the second closes the window the first opened. */
  lemma SaturatedWindowCloses(price: real, size: real)
    ensures var t := Trade(price, size, U64_MAX);
            Saturates(t.ts, 1) && Cut([t, t], 1) == Slices([[t]], [t])
  {
    var t := Trade(price, size, U64_MAX);
    CutExtend([], t, 1);
    CutExtend([t], t, 1);
    assert [] + [t] == [t] && [t] + [t] == [t, t];
  }

  /** One fold step is one step of the cut: the window it closes is the slice it cuts. */
  lemma {:induction false} FoldStep(trades: seq<Trade>, t: Trade, iv: Interval, active: Option<BarAcc>)
    requires Folded(trades, iv, active)
    ensures Folded(trades + [t], iv, FoldTrade(active, t, iv).0)
    ensures var s, closed := Cut(trades, iv), FoldTrade(active, t, iv).1;
            Cut(trades + [t], iv).closed == s.closed + (if closed.Some? then [s.open] else [])
            && (closed.Some? ==> s.open != [] && closed.value == Describe(s.open, iv))
  {
    var s := Cut(trades, iv);
    CutExtend(trades, t, iv);
    DescribeOne(t, iv);
    if s.open != [] {
      DescribeExtend(s.open, t, iv);
      assert Describe(s.open, iv).closeTs == WindowClose(s.open[0].ts, iv);
    }
    assert s.closed + [] == s.closed;
    hide Cut, High, Low, Volume, WindowClose, Extend, OpenAcc;
  }

  // -------------------------------------------------------------------- the bars

  /** A nautilus bar without the stamp of its making. */
  datatype Core<P, Q> = Core(open: P, high: P, low: P, close: P, volume: Q, tsEvent: U64)

  datatype Bar<P, Q> = Bar(core: Core<P, Q>, tsInit: U64)

  datatype Conversion<!P, !Q> = Conversion(price: real -> Option<P>, quantity: real -> Option<Q>)

  /** A window as a bar, unless a price or the volume is out of range. */
  function ToCore<P, Q>(acc: BarAcc, c: Conversion<P, Q>): Option<Core<P, Q>> {
    if c.price(acc.open).None? || c.price(acc.high).None? || c.price(acc.low).None? || c.price(acc.close).None?
       || c.quantity(acc.volume).None?
    then None
    else Some(Core(c.price(acc.open).value, c.price(acc.high).value, c.price(acc.low).value, c.price(acc.close).value,
                   c.quantity(acc.volume).value, acc.closeTs))
  }

  /** The bars of the windows that convert. */
  function Cores<P, Q>(slices: seq<seq<Trade>>, iv: Interval, c: Conversion<P, Q>): seq<Core<P, Q>> {
    if slices == [] then []
    else
      var rest, slice := Cores(Front(slices), iv, c), Last(slices);
      var core := if slice == [] then None else ToCore(Describe(slice, iv), c);
      if core.Some? then rest + [core.value] else rest
  }

  lemma {:induction false} CoresAppend<P, Q>(slices: seq<seq<Trade>>, slice: seq<Trade>, iv: Interval,
      c: Conversion<P, Q>)
    requires slice != []
    ensures var core := ToCore(Describe(slice, iv), c);
            Cores(slices + [slice], iv, c) == if core.Some?
                then Cores(slices, iv, c) + [core.value] else Cores(slices, iv, c)
  {
    assert (slices + [slice])[..|slices|] == slices;
  }

  // ------------------------------------------------------------ what a bar shows

  /** The end of the window a stamp falls in, the last instant where it lies past it. */
  function WindowEnd(ts: nat, iv: nat): nat
    requires iv > 0
  {
    Min((ts / iv + 1) * iv, 0xFFFF_FFFF_FFFF_FFFF)
  }

  lemma CloseIsEnd(ts: U64, iv: Interval)
    ensures WindowClose(ts, iv) == WindowEnd(ts, iv)
  {
    CloseIsNextMultiple(ts, iv);
  }

  function SizeOf(trades: seq<Trade>): real { if trades == [] then 0.0 else trades[0].size + SizeOf(trades[1..]) }

  lemma {:induction false} VolumeIsSize(trades: seq<Trade>)
    ensures Volume(trades) == SizeOf(trades)
  {
    if |trades| > 1 {
      VolumeIsSize(Front(trades));
      VolumeIsSize(trades[1..]);
      VolumeIsSize(Front(trades[1..]));
      assert Front(trades)[1..] == Front(trades[1..]);
      assert Front(trades)[0] == trades[0] && Last(trades[1..]) == Last(trades);
    } else if |trades| == 1 {
      assert Front(trades) == [] && trades[1..] == [];
    }
  }

  predicate IsHighest(slice: seq<Trade>, price: real) {
    && (exists i :: 0 <= i < |slice| && slice[i].price == price)
    && forall i :: 0 <= i < |slice| ==> slice[i].price <= price
  }

  predicate IsLowest(slice: seq<Trade>, price: real) {
    && (exists i :: 0 <= i < |slice| && slice[i].price == price)
    && forall i :: 0 <= i < |slice| ==> price <= slice[i].price
  }

  /** The bar shows the slice: its first and last price, a price none exceeds and one
      none undercuts, the summed size, and the end of the first trade's window. */
  ghost predicate Shows<P, Q>(core: Core<P, Q>, slice: seq<Trade>, iv: Interval, c: Conversion<P, Q>) {
    && slice != []
    && c.price(slice[0].price) == Some(core.open)
    && c.price(slice[|slice| - 1].price) == Some(core.close)
    && (exists high :: IsHighest(slice, high) && c.price(high) == Some(core.high))
    && (exists low :: IsLowest(slice, low) && c.price(low) == Some(core.low))
    && c.quantity(SizeOf(slice)) == Some(core.volume)
    && core.tsEvent == WindowEnd(slice[0].ts, iv)
  }

  /** One of the five figures is out of range. */
  ghost predicate OutOfRange<P, Q>(slice: seq<Trade>, c: Conversion<P, Q>) {
    slice != [] &&
    (c.price(slice[0].price).None? || c.price(slice[|slice| - 1].price).None?
     || (exists high :: IsHighest(slice, high) && c.price(high).None?)
     || (exists low :: IsLowest(slice, low) && c.price(low).None?)
     || c.quantity(SizeOf(slice)).None?)
  }

  /** A slice comes out as the bar that shows it, and as none exactly when a figure of it
      is out of range. */
  lemma CoreShowsSlice<P, Q>(slice: seq<Trade>, iv: Interval, c: Conversion<P, Q>)
    requires slice != []
    ensures var core := ToCore(Describe(slice, iv), c);
            && (core.Some? ==> Shows(core.value, slice, iv, c))
            && (core.None? <==> OutOfRange(slice, c))
  {
    Extremes(slice);
    VolumeIsSize(slice);
    CloseIsEnd(slice[0].ts, iv);
    hide High, Low, Volume, SizeOf, WindowClose, WindowEnd;
    assert IsHighest(slice, High(slice)) && forall p :: IsHighest(slice, p) ==> p == High(slice);
    assert IsLowest(slice, Low(slice)) && forall p :: IsLowest(slice, p) ==> p == Low(slice);
    hide IsHighest, IsLowest;
  }

  /** Slice by slice the bars show the slices, those with a figure out of range left out. */
  ghost predicate ShowAll<P, Q>(cores: seq<Core<P, Q>>, slices: seq<seq<Trade>>, iv: Interval, c: Conversion<P, Q>) {
    if slices == [] then cores == []
    else if OutOfRange(Last(slices), c) then ShowAll(cores, Front(slices), iv, c)
    else cores != [] && Shows(Last(cores), Last(slices), iv, c) && ShowAll(Front(cores), Front(slices), iv, c)
  }

  lemma {:induction false} CoresShowAll<P, Q>(slices: seq<seq<Trade>>, iv: Interval, c: Conversion<P, Q>)
    requires forall i :: 0 <= i < |slices| ==> slices[i] != []
    ensures ShowAll(Cores(slices, iv, c), slices, iv, c)
  {
    hide Shows, OutOfRange, ToCore, Describe;
    if slices != [] {
      CoresShowAll(Front(slices), iv, c);
      CoreShowsSlice(Last(slices), iv, c);
      assert forall core: Core<P, Q> :: Front(Cores(Front(slices), iv, c) + [core]) == Cores(Front(slices), iv, c);
    }
  }

  function CoresOf<P, Q>(bars: seq<Bar<P, Q>>): seq<Core<P, Q>> {
    seq(|bars|, i requires 0 <= i < |bars| => bars[i].core)
  }

  /** The open slice, once it has fully elapsed by the end. */
  function Trailing(trades: seq<Trade>, iv: Interval, end: Option<U64>): Option<seq<Trade>> {
    var open := Cut(trades, iv).open;
    if open != [] && end.Some? && end.value >= WindowClose(open[0].ts, iv) then Some(open) else None
  }

  /** The slices whose bars a stream owes by `end`. */
  function Elapsed(trades: seq<Trade>, iv: Interval, end: Option<U64>): seq<seq<Trade>> {
    var closed, last := Cut(trades, iv).closed, Trailing(trades, iv, end);
    if last.Some? then closed + [last.value] else closed
  }

  /** A stream owes its closed slices, and its open one exactly when the end is known and
      the window has ended by it; what is owed and what is left are the trades in order. */
  lemma ElapsedByEnd(trades: seq<Trade>, iv: Interval, end: Option<U64>)
    ensures var open, owed := Cut(trades, iv).open, Elapsed(trades, iv, end);
            && (forall i :: 0 <= i < |owed| ==> owed[i] != [])
            && (if open != [] && end.Some? && WindowEnd(open[0].ts, iv) <= end.value
                then owed == Cut(trades, iv).closed + [open] && Concat(owed) == trades
                else owed == Cut(trades, iv).closed && Concat(owed) + open == trades)
  {
    hide WindowClose, WindowEnd, Cut, Concat;
    CutConcat(trades, iv);
    var s := Cut(trades, iv);
    if s.open != [] {
      CloseIsEnd(s.open[0].ts, iv);
      ConcatAppend(s.closed, s.open);
    }
  }

  /** The slice a trade cuts off, if it reaches the close of the open window. */
  function CutOff(seen: seq<Trade>, t: Trade, iv: Interval): Option<seq<Trade>> {
    var open := Cut(seen, iv).open;
    if open != [] && t.ts >= WindowClose(open[0].ts, iv) then Some(open) else None
  }

  /** A slice as a bar under a stamp, if there is a slice and it converts. */
  function BarOf<P, Q>(slice: Option<seq<Trade>>, iv: Interval, c: Conversion<P, Q>,
      tsInit: Option<U64>): Option<Bar<P, Q>> {
    if slice.None? || slice.value == [] then None
    else match ToCore(Describe(slice.value, iv), c)
      case None => None
      case Some(core) => Some(Bar(core, UnwrapOr(tsInit, core.tsEvent)))
  }

  /** The bar a trade closes: one exactly when the trade reaches the end of the open
      window and that window's figures are in range. It shows the open slice, under the
      receipt stamp or else under the window's end. */
  lemma ClosedBarShows<P, Q>(seen: seq<Trade>, t: Trade, iv: Interval, c: Conversion<P, Q>, tsInit: Option<U64>)
    ensures var open, bar := Cut(seen, iv).open, BarOf(CutOff(seen, t, iv), iv, c, tsInit);
            && (bar.Some? <==> open != [] && WindowEnd(open[0].ts, iv) <= t.ts && !OutOfRange(open, c))
            && (bar.Some? ==>
                  && Shows(bar.value.core, open, iv, c)
                  && bar.value.tsInit == (if tsInit.Some? then tsInit.value else WindowEnd(open[0].ts, iv)))
  {
    hide Cut, ToCore, Describe, WindowClose, WindowEnd, OutOfRange;
    var open := Cut(seen, iv).open;
    if open != [] {
      CloseIsEnd(open[0].ts, iv);
      CoreShowsSlice(open, iv, c);
    }
  }

  class BarAggregator<!P, !Q> {
    const interval: Interval
    const conversion: Conversion<P, Q>
    var active: Option<BarAcc>
    ghost var seen: seq<Trade>
    ghost var taken: bool

    /** Until a window is taken, the active one is the open slice of the trades seen. */
    ghost predicate Valid()
      reads this
    {
      if taken then active.None? else Folded(seen, interval, active)
    }

    constructor (interval: Interval, conversion: Conversion<P, Q>)
      ensures Valid() && seen == [] && !taken && this.interval == interval && this.conversion == conversion
    {
      this.interval, this.conversion := interval, conversion;
      active, seen, taken := None, [], false;
    }

    /** `fold`: a trade in, and the bar of the slice it cuts off, if it converts. A
        trade after a take starts the count anew. */
    method Fold(t: Trade, tsInit: Option<U64>) returns (bar: Option<Bar<P, Q>>)
      requires Valid()
      modifies this
      ensures Valid() && !taken && seen == (if old(taken) then [] else old(seen)) + [t]
      ensures bar == if old(taken) then None else BarOf(CutOff(old(seen), t, interval), interval, conversion, tsInit)
    {
      if taken {
        seen, taken := [], false;
      }
      FoldStep(seen, t, interval, active);
      seen := seen + [t];
      var (next, closed) := FoldTrade(active, t, interval);
      active := next;
      bar := None;
      if closed.Some? {
        var stamp := UnwrapOr(tsInit, closed.value.closeTs);
        match ToCore(closed.value, conversion)
        case Some(core) => bar := Some(Bar(core, stamp));
        case None =>
      }
    }

    /** `push`, the live feed. */
    method Push(t: Trade, tsInit: U64) returns (bar: Option<Bar<P, Q>>)
      requires Valid()
      modifies this
      ensures Valid() && !taken && seen == (if old(taken) then [] else old(seen)) + [t]
      ensures bar == if old(taken)
          then None else BarOf(CutOff(old(seen), t, interval), interval, conversion, Some(tsInit))
    {
      bar := Fold(t, Some(tsInit));
    }

    /** `take_closed`: the open slice once it has elapsed by `now`, cleared even when it
        does not convert; a slice still in progress stays. */
    method TakeClosed(now: U64) returns (bar: Option<Result<Bar<P, Q>, ()>>)
      requires Valid()
      modifies this
      ensures Valid() && seen == old(seen)
      ensures var open := Cut(seen, interval).open;
              var elapsed := !old(taken) && open != [] && WindowClose(open[0].ts, interval) <= now;
              && taken == (old(taken) || elapsed)
              && (bar.Some? <==> elapsed)
              && (elapsed ==>
                    bar.value == match ToCore(Describe(open, interval), conversion)
                                 case Some(core) => Ok(Bar(core, now))
                                 case None => Err(()))
    {
      if active.None? || active.value.closeTs > now {
        return None;
      }
      var acc := active.value;
      active, taken := None, true;
      match ToCore(acc, conversion)
      case Some(core) => bar := Some(Ok(Bar(core, now)));
      case None => bar := Some(Err(()));
    }
  }

  // ------------------------------------------------------- history against live

  lemma {:induction false} OwedStep<P, Q>(trades: seq<Trade>, t: Trade, iv: Interval, c: Conversion<P, Q>,
      tsInit: Option<U64>)
    ensures var bar := BarOf(CutOff(trades, t, iv), iv, c, tsInit);
            Cores(Cut(trades + [t], iv).closed, iv, c) ==
            Cores(Cut(trades, iv).closed, iv, c) + (if bar.Some? then [bar.value.core] else [])
  {
    var s := Cut(trades, iv);
    CutExtend(trades, t, iv);
    if s.open != [] {
      CoresAppend(s.closed, s.open, iv, c);
    }
    hide Cut, Cores, Describe, ToCore, WindowClose;
  }

  /** The same for the slice that has elapsed by the end. */
  lemma {:induction false} OwedAtEnd<P, Q>(trades: seq<Trade>, iv: Interval, c: Conversion<P, Q>, end: Option<U64>)
    ensures var bar := BarOf(Trailing(trades, iv, end), iv, c, None);
            Cores(Elapsed(trades, iv, end), iv, c) ==
            Cores(Cut(trades, iv).closed, iv, c) + (if bar.Some? then [bar.value.core] else [])
  {
    var s := Cut(trades, iv);
    if s.open != [] {
      CoresAppend(s.closed, s.open, iv, c);
    }
    hide Cut, Cores, Describe, ToCore, WindowClose;
  }

  lemma ActiveIsOpen(trades: seq<Trade>, iv: Interval, active: Option<BarAcc>)
    requires Folded(trades, iv, active)
    ensures var open := Cut(trades, iv).open;
            && (active.Some? <==> open != [])
            && (active.Some? ==>
                  active.value == Describe(open, iv) && active.value.closeTs == WindowClose(open[0].ts, iv))
  {
  }

  lemma CoresOfAppend<P, Q>(bars: seq<Bar<P, Q>>, bar: Bar<P, Q>)
    ensures CoresOf(bars + [bar]) == CoresOf(bars) + [bar.core]
  {
  }

  lemma NothingCut<P, Q>(iv: Interval, c: Conversion<P, Q>)
    ensures Cut([], iv) == Slices([], []) && Cores([], iv, c) == []
  {
  }

  lemma OwedShown<P, Q>(trades: seq<Trade>, iv: Interval, c: Conversion<P, Q>, end: Option<U64>)
    ensures ShowAll(Cores(Elapsed(trades, iv, end), iv, c), Elapsed(trades, iv, end), iv, c)
  {
    hide Elapsed, ShowAll, Cores, Cut, Concat, WindowEnd;
    ElapsedByEnd(trades, iv, end);
    CoresShowAll(Elapsed(trades, iv, end), iv, c);
  }

  /** `aggregate_bars`: the bars of every elapsed slice that converts, each stamped
      with its own close. */
  method AggregateBars<P, Q>(trades: seq<Trade>, iv: Interval, c: Conversion<P, Q>, end: Option<U64>)
    returns (out: seq<Bar<P, Q>>)
    ensures CoresOf(out) == Cores(Elapsed(trades, iv, end), iv, c)
    ensures ShowAll(CoresOf(out), Elapsed(trades, iv, end), iv, c)
    ensures forall i :: 0 <= i < |out| ==> out[i].tsInit == out[i].core.tsEvent
  {
    OwedShown(trades, iv, c, end);
    hide Cut, CutOff, Cores, CoresOf, Folded, WindowClose, Describe, Elapsed, ShowAll;
    NothingCut(iv, c);
    NoBars<P, Q>();
    var window := new BarAggregator<P, Q>(iv, c);
    out := [];
    var i := 0;
    assert trades[..0] == [];
    while i < |trades|
      invariant 0 <= i <= |trades| && window.Valid() && window.seen == trades[..i] && !window.taken && fresh(window)
      invariant CoresOf(out) == Cores(Cut(trades[..i], iv).closed, iv, c)
      invariant forall j :: 0 <= j < |out| ==> out[j].tsInit == out[j].core.tsEvent
      modifies window
    {
      var bar := window.Fold(trades[i], None);
      OwedStep(trades[..i], trades[i], iv, c, None);
      assert trades[..i + 1] == trades[..i] + [trades[i]];
      if bar.Some? {
        CoresOfAppend(out, bar.value);
        out := out + [bar.value];
      }
      i := i + 1;
    }
    assert trades[..i] == trades;
    OwedAtEnd(trades, iv, c, end);
    ActiveIsOpen(trades, iv, window.active);
    if window.active.Some? && end.Some? && end.value >= window.active.value.closeTs {
      match ToCore(window.active.value, c)
      case Some(core) =>
        CoresOfAppend(out, Bar(core, window.active.value.closeTs));
        out := out + [Bar(core, window.active.value.closeTs)];
      case None =>
    }
  }

  lemma NoBars<P, Q>()
    ensures CoresOf<P, Q>([]) == []
  {
  }

  /** A live feed of the same trades, then one take at `end`. */
  method LiveBars<P, Q>(trades: seq<Trade>, stamps: seq<U64>, iv: Interval, c: Conversion<P, Q>, end: U64)
    returns (out: seq<Bar<P, Q>>)
    requires |stamps| == |trades|
    ensures CoresOf(out) == Cores(Elapsed(trades, iv, Some(end)), iv, c)
    ensures ShowAll(CoresOf(out), Elapsed(trades, iv, Some(end)), iv, c)
  {
    OwedShown(trades, iv, c, Some(end));
    hide Cut, CutOff, Cores, CoresOf, Folded, WindowClose, Describe, Elapsed, ShowAll;
    NothingCut(iv, c);
    NoBars<P, Q>();
    var window := new BarAggregator<P, Q>(iv, c);
    out := [];
    var i := 0;
    assert trades[..0] == [];
    while i < |trades|
      invariant 0 <= i <= |trades| && window.Valid() && window.seen == trades[..i] && !window.taken && fresh(window)
      invariant CoresOf(out) == Cores(Cut(trades[..i], iv).closed, iv, c)
      modifies window
    {
      var bar := window.Push(trades[i], stamps[i]);
      OwedStep(trades[..i], trades[i], iv, c, Some(stamps[i]));
      assert trades[..i + 1] == trades[..i] + [trades[i]];
      if bar.Some? {
        CoresOfAppend(out, bar.value);
        out := out + [bar.value];
      }
      i := i + 1;
    }
    assert trades[..i] == trades;
    OwedAtEnd(trades, iv, c, Some(end));
    var last := window.TakeClosed(end);
    if last.Some? && last.value.Ok? {
      CoresOfAppend(out, last.value.value);
      out := out + [last.value.value];
    }
  }

  // ------------------------------------------------------------------ conservation

  function Volumes(accs: seq<BarAcc>): real {
    if accs == [] then 0.0 else Volumes(Front(accs)) + Last(accs).volume
  }

  function Accs(slices: seq<seq<Trade>>, iv: Interval): seq<BarAcc>
    requires forall i :: 0 <= i < |slices| ==> slices[i] != []
  {
    seq(|slices|, i requires 0 <= i < |slices| => Describe(slices[i], iv))
  }

  lemma {:induction false} VolumeConcat(a: seq<Trade>, b: seq<Trade>)
    ensures Volume(a + b) == Volume(a) + Volume(b)
  {
    if b == [] {
      assert a + b == a;
    } else {
      var n := |b| - 1;
      VolumeConcat(a, b[..n]);
      assert (a + b)[..|a| + n] == a + b[..n];
    }
  }

  lemma {:induction false} VolumesOfSlices(slices: seq<seq<Trade>>, iv: Interval)
    requires forall i :: 0 <= i < |slices| ==> slices[i] != []
    ensures Volumes(Accs(slices, iv)) == Volume(Concat(slices))
  {
    if slices != [] {
      var n := |slices| - 1;
      VolumesOfSlices(slices[..n], iv);
      assert Accs(slices, iv)[..n] == Accs(slices[..n], iv);
      VolumeConcat(Concat(slices[..n]), slices[n]);
    } else {
      assert Concat(slices) == [];
    }
  }

  /** The closed windows and the open one hold exactly the traded size. */
  lemma VolumeConserved(trades: seq<Trade>, iv: Interval)
    ensures var s := Cut(trades, iv);
            && (forall i :: 0 <= i < |s.closed| ==> s.closed[i] != [])
            && Volumes(Accs(s.closed, iv)) + Volume(s.open) == Volume(trades)
  {
    var s := Cut(trades, iv);
    CutConcat(trades, iv);
    VolumesOfSlices(s.closed, iv);
    VolumeConcat(Concat(s.closed), s.open);
  }

  // --------------------------------------------------- time-ordered trades' windows

  ghost predicate Ordered(trades: seq<Trade>) { forall i, j :: 0 <= i <= j < |trades| ==> trades[i].ts <= trades[j].ts }

  /** No window reaches past the end of the axis. */
  ghost predicate Fits(trades: seq<Trade>, iv: Interval) {
    forall i :: 0 <= i < |trades| ==> !Saturates(trades[i].ts, iv)
  }

  function Windows(trades: seq<Trade>, iv: Interval): seq<int> {
    seq(|trades|, i requires 0 <= i < |trades| => Window(trades[i].ts, iv))
  }

  function Lengths(slices: seq<seq<Trade>>): seq<nat> { seq(|slices|, i requires 0 <= i < |slices| => |slices[i]|) }

  /** The open slice lies in the last trade's window. */
  lemma {:induction false} OpenWindow(trades: seq<Trade>, iv: Interval)
    requires Ordered(trades) && Fits(trades, iv) && trades != []
    ensures var open := Cut(trades, iv).open;
            && open != [] && !Saturates(open[0].ts, iv)
            && Window(open[0].ts, iv) == Window(Last(trades).ts, iv)
  {
    hide Cut, Window, WindowClose, Saturates;
    var n := |trades| - 1;
    var f, t := trades[..n], trades[n];
    CutExtend(f, t, iv);
    assert trades == f + [t];
    if n > 0 {
      OpenWindow(f, iv);
      RotatesIffLater(t, Cut(f, iv).open[0], iv);
      WindowMonotone(f[n - 1].ts, t.ts, iv);
    } else {
      CutParts(f, iv);
    }
  }

  /** A time-ordered trade cuts exactly when its window is another one. */
  lemma {:induction false} CutsOnChange(f: seq<Trade>, t: Trade, iv: Interval)
    requires Ordered(f + [t]) && Fits(f + [t], iv)
    ensures Ordered(f) && Fits(f, iv)
    ensures f != [] ==>
      var open := Cut(f, iv).open;
      && open != []
      && (t.ts >= WindowClose(open[0].ts, iv) <==> Window(Last(f).ts, iv) != Window(t.ts, iv))
  {
    hide Cut, Window, WindowClose, Saturates;
    var trades := f + [t];
    assert forall i :: 0 <= i < |f| ==> f[i] == trades[i];
    if f != [] {
      OpenWindow(f, iv);
      RotatesIffLater(t, Cut(f, iv).open[0], iv);
      assert trades[|f|] == t;
      WindowMonotone(Last(f).ts, t.ts, iv);
    }
  }

  lemma WindowsExtend(f: seq<Trade>, t: Trade, iv: Interval)
    ensures Windows(f + [t], iv) == Windows(f, iv) + [Window(t.ts, iv)]
    ensures f != [] ==> Windows(f, iv)[|f| - 1] == Window(Last(f).ts, iv)
    ensures |Windows(f, iv)| == |f|
  {
    hide Window;
  }

  ghost predicate CutAtRuns(trades: seq<Trade>, iv: Interval) {
    var s, g := Cut(trades, iv), Group(Windows(trades, iv));
    Lengths(s.closed) == g.closed && |s.open| == g.last
  }

  lemma {:induction false} CutsStayAtRuns(f: seq<Trade>, t: Trade, iv: Interval)
    requires CutAtRuns(f, iv) && (f == [] <==> Cut(f, iv).open == [])
    requires f != [] ==>
      (t.ts >= WindowClose(Cut(f, iv).open[0].ts, iv) <==> Window(Last(f).ts, iv) != Window(t.ts, iv))
    ensures CutAtRuns(f + [t], iv)
  {
    hide Group, Cut, Window, WindowClose, Lengths, Windows;
    var s := Cut(f, iv);
    CutExtend(f, t, iv);
    LengthsAppend(s.closed, s.open);
    WindowsExtend(f, t, iv);
    GroupExtend(Windows(f, iv), Window(t.ts, iv));
    NoWindows(iv);
  }

  lemma NoWindows(iv: Interval)
    ensures Windows([], iv) == [] && CutAtRuns([], iv) && Group<int>([]).closed == []
  {
  }

  /** For time-ordered trades the slices are the maximal runs of trades in one
      epoch-anchored window. */
  lemma {:induction false} SlicesAreWindows(trades: seq<Trade>, iv: Interval)
    requires Ordered(trades) && Fits(trades, iv)
    ensures var s, g := Cut(trades, iv), Group(Windows(trades, iv));
            Lengths(s.closed) == g.closed && |s.open| == g.last
  {
    if trades == [] {
      NoWindows(iv);
    } else {
      var f, t := Front(trades), Last(trades);
      assert trades == f + [t];
      hide Group, Cut, Window, WindowClose, Lengths, Windows, Ordered, Fits;
      CutsOnChange(f, t, iv);
      SlicesAreWindows(f, iv);
      CutParts(f, iv);
      CutsStayAtRuns(f, t, iv);
    }
  }

  lemma LengthsAppend(slices: seq<seq<Trade>>, slice: seq<Trade>)
    ensures Lengths(slices + [slice]) == Lengths(slices) + [|slice|]
  {
  }

  /** Every trade of the slice lies in one aligned window, the one its bar is stamped
      with the end of. */
  ghost predicate FillsWindow(slice: seq<Trade>, iv: Interval) {
    slice != [] &&
    var c := Describe(slice, iv).closeTs;
    c % iv == 0 && forall j :: 0 <= j < |slice| ==> c - iv <= slice[j].ts < c
  }

  lemma FillsOne(t: Trade, iv: Interval)
    requires !Saturates(t.ts, iv)
    ensures FillsWindow([t], iv)
  {
    CloseIsNextMultiple(t.ts, iv);
  }

  lemma FillsMore(slice: seq<Trade>, t: Trade, iv: Interval)
    requires FillsWindow(slice, iv) && !Saturates(slice[0].ts, iv) && !Saturates(t.ts, iv)
    requires Window(t.ts, iv) == Window(slice[0].ts, iv)
    ensures FillsWindow(slice + [t], iv)
  {
    CloseIsNextMultiple(t.ts, iv);
    CloseIsNextMultiple(slice[0].ts, iv);
    assert (slice + [t])[0] == slice[0];
    hide WindowClose, Saturates, High, Low, Volume;
    assert forall j :: 0 <= j < |slice| ==> (slice + [t])[j] == slice[j];
  }

  /** For time-ordered trades every bar holds only trades of the window it names. */
  lemma {:induction false} BarsFillTheirWindows(trades: seq<Trade>, iv: Interval)
    requires Ordered(trades) && Fits(trades, iv)
    ensures var s := Cut(trades, iv);
            && (forall i :: 0 <= i < |s.closed| ==> FillsWindow(s.closed[i], iv))
            && (trades != [] ==> FillsWindow(s.open, iv))
  {
    if trades != [] {
      var n := |trades| - 1;
      var f, t := trades[..n], trades[n];
      assert trades == f + [t] && !Saturates(t.ts, iv);
      CutsOnChange(f, t, iv);
      BarsFillTheirWindows(f, iv);
      CutExtend(f, t, iv);
      CutParts(f, iv);
      FillsOne(t, iv);
      if n > 0 {
        OpenWindow(f, iv);
      }
      hide Cut, FillsWindow, Window, WindowClose, Saturates, Ordered, Fits;
      var s := Cut(f, iv);
      if n > 0 && Window(f[n - 1].ts, iv) == Window(t.ts, iv) {
        FillsMore(s.open, t, iv);
      }
    }
  }

  /** In any order, a slice goes on only with trades below its close: a late trade
      joins the later window that is open. */
  lemma {:induction false} SlicesStayBelowClose(trades: seq<Trade>, iv: Interval)
    ensures var s := Cut(trades, iv);
            && (forall i, j :: 0 <= i < |s.closed| && 0 < j < |s.closed[i]| ==>
                  s.closed[i][j].ts < WindowClose(s.closed[i][0].ts, iv))
            && (forall j :: 0 < j < |s.open| ==> s.open[j].ts < WindowClose(s.open[0].ts, iv))
  {
    if trades != [] {
      var f, t := Front(trades), Last(trades);
      SlicesStayBelowClose(f, iv);
      assert trades == f + [t];
      CutExtend(f, t, iv);
      hide Cut, WindowClose;
    }
  }

  lemma WindowMonotone(a: nat, b: nat, iv: nat)
    requires a <= b && iv > 0
    ensures Window(a, iv) <= Window(b, iv)
  {
    DivMonotone(a, b, iv);
  }
}
