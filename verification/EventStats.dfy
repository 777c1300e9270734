/** `EventStats` of `analysis/probe_binance_trades.py`: match events inferred from
    consecutive rows, with their sizes, price levels and gaps, the gaps feeding an
    autocorrelation of their own. Floats are reals. */
module EventStats {
  import opened Prelude
  import opened Grouping
  import Scan
  import ScanResults
  import A = AutoCorrelation

  datatype Row<P> = Row(stamp: int, side: bool, price: P)

  type Event<P> = seq<Row<P>>

  function Key<P>(row: Row<P>, withSide: bool): Scan.SideKey { Scan.SideKey(row.stamp, withSide && row.side) }

  function Keys<P>(rows: seq<Row<P>>, withSide: bool): seq<Scan.SideKey> {
    seq(|rows|, i requires 0 <= i < |rows| => Key(rows[i], withSide))
  }

  // ------------------------------------------------ what a list of events adds to

  ghost function Prices<P>(event: Event<P>): set<P> { set i | 0 <= i < |event| :: event[i].price }

  function Sizes<P>(events: seq<Event<P>>): seq<nat> { seq(|events|, i requires 0 <= i < |events| => |events[i]|) }

  ghost function Levels<P>(events: seq<Event<P>>): seq<nat> {
    seq(|events|, i requires 0 <= i < |events| => |Prices(events[i])|)
  }

  /** The rows of a list of events, in order. */
  function Flat<P>(events: seq<Event<P>>): seq<Row<P>> {
    if events == [] then [] else Flat(Front(events)) + Last(events)
  }

  /** Rows cut into consecutive slices of the given sizes. */
  function Slices<P>(rows: seq<Row<P>>, sizes: seq<nat>): seq<Event<P>>
    requires Grouping.Sum(sizes) == |rows|
    decreases |sizes|
  {
    if sizes == [] then []
    else
      var cut := |rows| - Last(sizes);
      Slices(rows[..cut], Front(sizes)) + [rows[cut..]]
  }

  /** The events of a stream: its rows cut at the maximal runs of their keys. */
  function Events<P>(rows: seq<Row<P>>, withSide: bool): seq<Event<P>> {
    RunsSum(Keys(rows, withSide));
    Slices(rows, Runs(Keys(rows, withSide)))
  }

  lemma {:induction false} FlatAppend<P>(events: seq<Event<P>>, e: Event<P>)
    ensures Flat(events + [e]) == Flat(events) + e
  {
    assert Front(events + [e]) == events;
  }

  /** A list of events is its rows cut at its sizes. */
  lemma {:induction false} SlicesOfFlat<P>(events: seq<Event<P>>)
    ensures Grouping.Sum(Sizes(events)) == |Flat(events)|
    ensures Slices(Flat(events), Sizes(events)) == events
  {
    if events != [] {
      var f, e := Front(events), Last(events);
      SlicesOfFlat(f);
      assert events == f + [e];
      ColumnsExtend(f, e);
      SumAppend(Sizes(f), |e|);
      hide Sizes, Flat;
      FlatAppend(f, e);
      assert Front(Sizes(events)) == Sizes(f);
      assert (Flat(f) + e)[..|Flat(f)|] == Flat(f) && (Flat(f) + e)[|Flat(f)|..] == e;
    }
  }

  /** The sizes of a stream's events are its runs. */
  lemma {:induction false} SlicesSizes<P>(rows: seq<Row<P>>, sizes: seq<nat>)
    requires Grouping.Sum(sizes) == |rows|
    ensures Sizes(Slices(rows, sizes)) == sizes && Flat(Slices(rows, sizes)) == rows
    decreases |sizes|
  {
    NoSlices(rows);
    if sizes != [] {
      SlicesUnfold(rows, sizes);
      hide Slices, Flat, Sizes, Grouping.Sum;
      var cut := |rows| - Last(sizes);
      SlicesSizes(rows[..cut], Front(sizes));
      ColumnsExtend(Slices(rows[..cut], Front(sizes)), rows[cut..]);
      FlatAppend(Slices(rows[..cut], Front(sizes)), rows[cut..]);
      assert rows == rows[..cut] + rows[cut..] && sizes == Front(sizes) + [Last(sizes)];
    }
  }

  lemma NoSlices<P>(rows: seq<Row<P>>)
    ensures Grouping.Sum([]) == 0
    ensures rows == [] ==> Sizes(Slices(rows, [])) == [] && Flat(Slices(rows, [])) == []
  {
  }

  lemma SlicesUnfold<P>(rows: seq<Row<P>>, sizes: seq<nat>)
    requires Grouping.Sum(sizes) == |rows| && sizes != []
    ensures Last(sizes) <= |rows| && Grouping.Sum(Front(sizes)) == |rows| - Last(sizes)
    ensures var cut := |rows| - Last(sizes);
            Slices(rows, sizes) == Slices(rows[..cut], Front(sizes)) + [rows[cut..]]
  {
  }

  lemma EventsHave<P>(rows: seq<Row<P>>, withSide: bool)
    ensures Sizes(Events(rows, withSide)) == Runs(Keys(rows, withSide)) && Flat(Events(rows, withSide)) == rows
    ensures |Events(rows, withSide)| == |Runs(Keys(rows, withSide))|
  {
    hide Group, Slices, Flat;
    RunsSum(Keys(rows, withSide));
    SlicesSizes(rows, Runs(Keys(rows, withSide)));
    assert |Sizes(Events(rows, withSide))| == |Events(rows, withSide)|;
  }

  function Ones(s: seq<nat>): nat { if s == [] then 0 else Ones(Front(s)) + (if Last(s) == 1 then 1 else 0) }

  /** The microseconds between successive event stamps. */
  function Deltas(stamps: seq<int>): seq<int> {
    if |stamps| < 2 then [] else Deltas(Front(stamps)) + [Last(stamps) - stamps[|stamps| - 2]]
  }

  function Seconds(us: int): real { us as real / 1000000.0 }

  function InSeconds(us: seq<int>): seq<real> { seq(|us|, i requires 0 <= i < |us| => Seconds(us[i])) }

  function Total(s: seq<real>): real { if s == [] then 0.0 else Total(Front(s)) + Last(s) }

  function Square(x: real): real { x * x }

  function Squares(s: seq<real>): real {
    if s == [] then 0.0 else Squares(Front(s)) + Square(Last(s))
  }

  predicate Subsecond(us: int) { 0 < us < 1000000 }

  function Short(us: seq<int>): seq<int> {
    if us == [] then []
    else Short(Front(us)) + (if Subsecond(Last(us)) then [Last(us)] else [])
  }

  function IntTotal(s: seq<int>): int { if s == [] then 0 else IntTotal(Front(s)) + Last(s) }

  lemma {:induction false} SizeFolds(s: seq<nat>, n: nat)
    ensures Ones(s + [n]) == Ones(s) + (if n == 1 then 1 else 0)
    ensures Longest(s + [n]) == Max(Longest(s), n) && Tally(s + [n]) == Bump(Tally(s), n)
    ensures Grouping.Sum(s + [n]) == Grouping.Sum(s) + n
  {
    assert (s + [n])[..|s|] == s;
  }

  lemma {:induction false} GapFolds(us: seq<int>, d: int)
    ensures InSeconds(us + [d]) == InSeconds(us) + [Seconds(d)]
    ensures Total(InSeconds(us + [d])) == Total(InSeconds(us)) + Seconds(d)
    ensures Squares(InSeconds(us + [d])) == Squares(InSeconds(us)) + Square(Seconds(d))
    ensures Short(us + [d]) == if Subsecond(d) then Short(us) + [d] else Short(us)
    ensures Subsecond(d) ==> IntTotal(Short(us) + [d]) == IntTotal(Short(us)) + d
  {
    hide Square;
    var r := InSeconds(us) + [Seconds(d)];
    assert InSeconds(us + [d]) == r && r[..|us|] == InSeconds(us);
    assert (us + [d])[..|us|] == us;
    assert (Short(us) + [d])[..|Short(us)|] == Short(us);
  }

  lemma {:induction false} DeltasExtend(stamps: seq<int>, t: int)
    ensures Deltas(stamps + [t]) == if stamps == [] then [] else Deltas(stamps) + [t - Last(stamps)]
    ensures |Deltas(stamps)| == if stamps == [] then 0 else |stamps| - 1
  {
    assert (stamps + [t])[..|stamps|] == stamps;
    DeltasLength(stamps);
  }

  lemma {:induction false} DeltasLength(stamps: seq<int>)
    ensures |Deltas(stamps)| == if stamps == [] then 0 else |stamps| - 1
  {
    if |stamps| >= 2 {
      DeltasLength(Front(stamps));
    }
  }

  /** The gaps telescope: they add up to the span of the stamps. */
  lemma {:induction false} GapsTelescope(stamps: seq<int>)
    ensures stamps != [] ==> Total(InSeconds(Deltas(stamps))) == Seconds(Last(stamps) - stamps[0])
    ensures stamps == [] ==> Total(InSeconds(Deltas(stamps))) == 0.0
  {
    if |stamps| >= 2 {
      var n := |stamps| - 1;
      GapsTelescope(stamps[..n]);
      GapFolds(Deltas(stamps[..n]), stamps[n] - stamps[n - 1]);
    }
  }

  // ----------------------------------------------------------------- the object

  datatype Error = ZeroDivision

  datatype Summary = Summary(
    events: nat, meanSize: real, singleFrac: real, p95: nat, maxSize: nat,
    meanLevels: real, singleLevelFrac: real, meanGap: real, varOverMean: real, cv2: real,
    acfLag1: real, acfLag5: real,
    subsecondMean: Option<real>)

  function Stamp<P>(event: Event<P>): int { if event == [] then 0 else event[0].stamp }

  function StampsOf<P>(events: seq<Event<P>>): seq<int> {
    seq(|events|, i requires 0 <= i < |events| => Stamp(events[i]))
  }

  lemma {:induction false} ColumnsExtend<P>(events: seq<Event<P>>, e: Event<P>)
    ensures Sizes(events + [e]) == Sizes(events) + [|e|] && StampsOf(events + [e]) == StampsOf(events) + [Stamp(e)]
    ensures Levels(events + [e]) == Levels(events) + [|Prices(e)|]
  {
  }

  lemma {:induction false} PricesExtend<P>(e: Event<P>, row: Row<P>)
    ensures Prices(e + [row]) == Prices(e) + {row.price}
  {
    forall i | 0 <= i < |e| ensures e[i].price in Prices(e + [row]) {
      assert (e + [row])[i] == e[i];
    }
    assert (e + [row])[|e|] == row;
  }

  lemma {:induction false} KeysExtend<P>(rows: seq<Row<P>>, row: Row<P>, withSide: bool)
    ensures Keys(rows + [row], withSide) == Keys(rows, withSide) + [Key(row, withSide)]
  {
  }

  datatype SizeFigures = SizeFigures(
    events: nat, single: nat, singleLevel: nat, childrenSum: nat, childrenHist: map<nat, nat>, childrenMax: nat,
        levelsSum: nat)

  /** The size figures of a list of events. */
  ghost predicate SizesAre<P>(closed: seq<Event<P>>, f: SizeFigures) {
    && f.events == |closed| && f.childrenSum == Grouping.Sum(Sizes(closed)) && f.childrenMax == Longest(Sizes(closed))
    && f.childrenHist == Tally(Sizes(closed)) && f.single == Ones(Sizes(closed))
    && f.levelsSum == Grouping.Sum(Levels(closed)) && f.singleLevel == Ones(Levels(closed))
  }

  method CountSizes<P>(ghost closed: seq<Event<P>>, f: SizeFigures, ghost e: Event<P>, count: nat, levels: nat)
    returns (f': SizeFigures)
    requires SizesAre(closed, f) && count == |e| && levels == |Prices(e)|
    ensures SizesAre(closed + [e], f')
  {
    ColumnsExtend(closed, e);
    SizeFolds(Sizes(closed), |e|);
    SizeFolds(Levels(closed), |Prices(e)|);
    hide Ones, Longest, Tally, Grouping.Sum, Sizes, Levels, Prices, Bump;
    f' := f.(
      events := f.events + 1,
      childrenSum := f.childrenSum + count,
      childrenMax := Max(f.childrenMax, count),
      childrenHist := Bump(f.childrenHist, count),
      levelsSum := f.levelsSum + levels,
      single := f.single + (if count == 1 then 1 else 0),
      singleLevel := f.singleLevel + (if levels == 1 then 1 else 0));
  }

  datatype GapFigures = GapFigures(
    prevTime: Option<int>, gaps: nat, sum: real, sumsq: real, short: nat, shortSum: int)

  /** The gap figures of a list of event stamps. */
  ghost predicate GapsAre(stamps: seq<int>, f: GapFigures) {
    var us := Deltas(stamps);
    && f.prevTime == (if stamps == [] then None else Some(Last(stamps)))
    && f.gaps == |us| && f.sum == Total(InSeconds(us)) && f.sumsq == Squares(InSeconds(us))
    && f.short == |Short(us)| && f.shortSum == IntTotal(Short(us))
  }

  lemma {:induction false} GapColumns(stamps: seq<int>, t: int)
    ensures stamps == [] ==> Deltas(stamps + [t]) == Deltas(stamps)
    ensures stamps != [] ==>
      var us, us', d := Deltas(stamps), Deltas(stamps + [t]), t - Last(stamps);
      && us' == us + [d] && InSeconds(us') == InSeconds(us) + [Seconds(d)]
      && Total(InSeconds(us')) == Total(InSeconds(us)) + Seconds(d)
      && Squares(InSeconds(us')) == Squares(InSeconds(us)) + Square(Seconds(d))
      && Short(us') == (if Subsecond(d) then Short(us) + [d] else Short(us))
      && IntTotal(Short(us')) == IntTotal(Short(us)) + (if Subsecond(d) then d else 0)
  {
    NoDeltas();
    hide Deltas, InSeconds, Total, Square, Squares, Short, IntTotal, Seconds;
    DeltasExtend(stamps, t);
    if stamps != [] {
      GapFolds(Deltas(stamps), t - Last(stamps));
    }
  }

  lemma NoDeltas()
    ensures Deltas([]) == []
  {
  }

  method CountGap(ghost stamps: seq<int>, f: GapFigures, t: int) returns (f': GapFigures)
    requires GapsAre(stamps, f)
    ensures GapsAre(stamps + [t], f')
  {
    hide Deltas, InSeconds, Total, Square, Squares, Short, IntTotal, Seconds;
    GapColumns(stamps, t);
    f' := f.(prevTime := Some(t));
    if f.prevTime.Some? {
      var gapUs := t - f.prevTime.value;
      var gap := Seconds(gapUs);
      f' := f'.(gaps := f.gaps + 1, sum := f.sum + gap, sumsq := f.sumsq + Square(gap));
      if 0 < gapUs < 1000000 {
        f' := f'.(short := f.short + 1, shortSum := f.shortSum + gapUs);
      }
    }
  }

  /** The open event is the last run of the rows, under its key. */
  ghost predicate OpenIs<P>(
      rows: seq<Row<P>>, withSide: bool, current: Event<P>, keyStamp: Option<int>, keySide: bool, count: nat,
          prices: set<P>)
  {
    && count == |current| && prices == Prices(current) && (rows == [] <==> current == [])
        && (rows == [] <==> keyStamp.None?)
    && |current| == Group(Keys(rows, withSide)).last
    && (rows != [] ==>
          var row := Last(rows);
          keyStamp == Some(row.stamp) && Stamp(current) == row.stamp && (withSide ==> keySide == row.side))
  }

  predicate SameKey<P>(rows: seq<Row<P>>, row: Row<P>, withSide: bool) {
    rows != [] && Key(Last(rows), withSide) == Key(row, withSide)
  }

  lemma {:induction false} OpenStep<P>(
      rows: seq<Row<P>>, withSide: bool, current: Event<P>, keyStamp: Option<int>, keySide: bool, count: nat,
          prices: set<P>, row: Row<P>)
    requires OpenIs(rows, withSide, current, keyStamp, keySide, count, prices)
    ensures SameKey(rows, row, withSide) <==> !(keyStamp != Some(row.stamp) || (withSide && row.side != keySide))
    ensures SameKey(rows, row, withSide) ==>
      OpenIs(rows + [row], withSide, current + [row], keyStamp, keySide, count + 1, prices + {row.price})
    ensures !SameKey(rows, row, withSide) ==>
      OpenIs(rows + [row], withSide, [row], Some(row.stamp), row.side, 1, {row.price})
  {
    KeysExtend(rows, row, withSide);
    GroupExtend(Keys(rows, withSide), Key(row, withSide));
    PricesExtend(current, row);
    PricesExtend([], row);
    assert Keys(rows, withSide) == [] <==> rows == [];
    assert [] + [row] == [row];
    hide Group, Prices;
  }

  /** What has been closed: one event per finished run, and one more per report. */
  ghost predicate Ledger<P>(rows: seq<Row<P>>, withSide: bool, closed: seq<Event<P>>, current: Event<P>, reports: nat) {
    && (rows == [] ==> closed == [] && reports == 0)
    && (rows != [] ==> Stamp(if closed == [] then current else closed[0]) == rows[0].stamp)
    && |closed| == |Group(Keys(rows, withSide)).closed| + reports
    && (reports == 0 ==> Sizes(closed) == Group(Keys(rows, withSide)).closed && Flat(closed) + current == rows)
  }

  lemma {:induction false} LedgerStep<P>(
      rows: seq<Row<P>>, withSide: bool, closed: seq<Event<P>>, current: Event<P>, reports: nat, row: Row<P>)
    requires Ledger(rows, withSide, closed, current, reports)
    requires (rows == [] <==> current == []) && |current| == Group(Keys(rows, withSide)).last
    ensures SameKey(rows, row, withSide) ==> Ledger(rows + [row], withSide, closed, current + [row], reports)
    ensures !SameKey(rows, row, withSide) ==>
      Ledger(rows + [row], withSide, closed + (if rows == [] then [] else [current]), [row], reports)
  {
    hide Group, Sizes, Flat;
    KeysExtend(rows, row, withSide);
    GroupExtend(Keys(rows, withSide), Key(row, withSide));
    NoRuns();
    if SameKey(rows, row, withSide) {
      assert Flat(closed) + (current + [row]) == (Flat(closed) + current) + [row];
    } else {
      ColumnsExtend(closed, current);
      FlatAppend(closed, current);
      assert closed + [] == closed;
    }
  }

  lemma NoRuns()
    ensures Group<Scan.SideKey>([]).closed == [] && Runs<Scan.SideKey>([]) == []
  {
  }

  /** A row either lengthens the open event or, after the open event is closed,
      opens its own. */
  lemma {:induction false} PushStep<P>(
      rows: seq<Row<P>>, withSide: bool, closed: seq<Event<P>>, current: Event<P>, reports: nat,
      keyStamp: Option<int>, keySide: bool, count: nat, prices: set<P>, row: Row<P>)
    requires OpenIs(rows, withSide, current, keyStamp, keySide, count, prices)
    requires Ledger(rows, withSide, closed, current, reports)
    ensures SameKey(rows, row, withSide) <==> !(keyStamp != Some(row.stamp) || (withSide && row.side != keySide))
    ensures SameKey(rows, row, withSide) ==>
      && OpenIs(rows + [row], withSide, current + [row], keyStamp, keySide, count + 1, prices + {row.price})
      && Ledger(rows + [row], withSide, closed, current + [row], reports)
    ensures !SameKey(rows, row, withSide) ==>
      && OpenIs(rows + [row], withSide, [row], Some(row.stamp), row.side, 1, {row.price})
      && Ledger(rows + [row], withSide, if rows == [] then closed else closed + [current], [row], reports)
  {
    OpenStep(rows, withSide, current, keyStamp, keySide, count, prices, row);
    assert (rows == [] <==> current == []) && |current| == Group(Keys(rows, withSide)).last;
    hide OpenIs, SameKey;
    LedgerStep(rows, withSide, closed, current, reports, row);
    assert closed + [] == closed;
    hide Ledger;
  }

  lemma {:induction false} TallyBelow(s: seq<nat>, n: nat)
    requires forall i :: 0 <= i < |s| ==> s[i] < n
    ensures Mass(Tally(s), n) == |s| && forall k :: k in Tally(s) ==> k < n
  {
    if s == [] {
      EmptyMass(n);
    } else {
      var m := |s| - 1;
      forall i | 0 <= i < m ensures s[..m][i] < n {
        assert s[..m][i] == s[i];
      }
      TallyBelow(s[..m], n);
      BumpMass(Tally(s[..m]), s[m], n);
    }
  }

  lemma {:induction false} SizesBelow(s: seq<nat>)
    ensures forall i :: 0 <= i < |s| ==> s[i] <= Longest(s)
  {
    if s != [] {
      var m := |s| - 1;
      SizesBelow(s[..m]);
      assert forall i :: 0 <= i < m ==> s[..m][i] == s[i];
    }
  }

  /** The rank walk of `report`: a rank within the events is always reached. */
  method SizeAtRank(hist: map<nat, nat>, rank: int, ghost sizes: seq<nat>) returns (p: nat)
    requires hist == Tally(sizes) && 0 < rank <= |sizes|
    ensures ScanResults.Ranked(hist, rank as real, p)
  {
    var reached, size := ScanResults.RankWalk(hist, rank as real);
    p := if reached then size else 0;
    if !reached {
      TallyReaches(sizes);
    }
  }

  /** Some size has every event at or below it. */
  lemma TallyReaches(sizes: seq<nat>)
    requires sizes != []
    ensures exists k :: k in Tally(sizes) && Mass(Tally(sizes), k + 1) == |sizes|
  {
    var top := Longest(sizes);
    SizesBelow(sizes);
    TallyBelow(sizes, top + 1);
    LongestCounted(sizes);
  }

  lemma {:induction false} LongestCounted(s: seq<nat>)
    requires s != []
    ensures Longest(s) in Tally(s)
  {
    var m := |s| - 1;
    if m > 0 {
      LongestCounted(s[..m]);
    }
  }

  function Ratio(a: real, b: real): real
    requires b != 0.0
  {
    a / b
  }

  lemma ZeroProduct(x: real, y: real, z: real)
    requires x != 0.0 && y == x * z && y == 0.0
    ensures z == 0.0
  {
    assert z == (x * z) / x;
  }

  lemma SquareNonzero(x: real)
    requires x != 0.0
    ensures Square(x) != 0.0
  {
    if Square(x) == 0.0 {
      ZeroProduct(x, Square(x), x);
    }
  }

  ghost function Variance(sumsq: real, n: nat, mean: real): real
    requires n > 0
  {
    Ratio(sumsq, n as real) - Square(mean)
  }

  /** The size half of a summary, from the list of events it was made of. */
  ghost predicate SizesSummarised<P>(s: Summary, closed: seq<Event<P>>) {
    closed != [] &&
    var n := |closed| as real;
    && s.events == |closed| && s.maxSize == Longest(Sizes(closed))
    && s.meanSize == Ratio(Grouping.Sum(Sizes(closed)) as real, n)
    && s.singleFrac == Ratio(Ones(Sizes(closed)) as real, n)
    && s.meanLevels == Ratio(Grouping.Sum(Levels(closed)) as real, n)
    && s.singleLevelFrac == Ratio(Ones(Levels(closed)) as real, n)
    && ScanResults.Ranked(Tally(Sizes(closed)), Rank95(|closed|) as real, s.p95)
  }

  const MAX_LAG: nat := 5

  /** The estimate at a lag, zero where the history is too short for one. */
  function Padded(acf: seq<Option<real>>, lag: nat): real
    requires lag >= 1
  {
    if lag - 1 < |acf| then UnwrapOr(acf[lag - 1], 0.0) else 0.0
  }

  ghost function GapAcf(stamps: seq<int>): seq<Option<real>> {
    A.Acf(A.REALS, MAX_LAG, None, InSeconds(Deltas(stamps)))
  }

  /** The gap half of a summary, from the stamps of the events and their span. */
  ghost predicate GapsSummarised(s: Summary, stamps: seq<int>, span: int) {
    var us := Deltas(stamps);
    |stamps| >= 2 && s.meanGap != 0.0 && Square(s.meanGap) != 0.0 &&
    var v := Variance(Squares(InSeconds(us)), |stamps| - 1, s.meanGap);
    && s.meanGap == Ratio(Seconds(span), (|stamps| - 1) as real)
    && s.varOverMean == Ratio(v, s.meanGap) && s.cv2 == Ratio(v, Square(s.meanGap))
    && s.acfLag1 == Padded(GapAcf(stamps), 1) && s.acfLag5 == Padded(GapAcf(stamps), 5)
    && s.subsecondMean ==
       (if Short(us) == [] then None else Some(Ratio(IntTotal(Short(us)) as real, |Short(us)| as real)))
  }

  ghost predicate Summarises<P>(s: Summary, closed: seq<Event<P>>, span: int) {
    SizesSummarised(s, closed) && GapsSummarised(s, StampsOf(closed), span)
  }

  method Summarise<P>(ghost closed: seq<Event<P>>, ghost span: int, f: SizeFigures, g: GapFigures,
                      acf: seq<Option<real>>)
    returns (r: Result<Summary, Error>)
    requires acf == GapAcf(StampsOf(closed))
    requires SizesAre(closed, f) && GapsAre(StampsOf(closed), g)
    requires g.gaps == (if closed == [] then 0 else |closed| - 1) && (closed != [] ==> g.sum == Seconds(span))
    ensures r.Ok? <==> |closed| >= 2 && span != 0
    ensures r.Ok? ==> Summarises(r.value, closed, span)
  {
    hide SizesAre, GapsAre, Sizes, Tally, Seconds, ScanResults.Ranked, StampsOf, Ratio, Square, Rank95, SizesSummarised,
      GapsSummarised, GapAcf, Padded;
    FiguresHold(closed, f);
    if g.gaps == 0 {
      return Err(ZeroDivision);
    }
    var n := f.events as real;
    RatioZero(g.sum, g.gaps as real);
    NoSeconds(span);
    CeilRank(f.events);
    var meanGap := Ratio(g.sum, g.gaps as real);
    var varGap := Ratio(g.sumsq, g.gaps as real) - Square(meanGap);
    var p95 := SizeAtRank(f.childrenHist, Rank95(f.events), Sizes(closed));
    if meanGap == 0.0 {
      return Err(ZeroDivision);
    }
    SquareNonzero(meanGap);
    var s := Summary(f.events, Ratio(f.childrenSum as real, n), Ratio(f.single as real, n), p95, f.childrenMax,
                     Ratio(f.levelsSum as real, n), Ratio(f.singleLevel as real, n),
                     meanGap, Ratio(varGap, meanGap), Ratio(varGap, Square(meanGap)), Padded(acf, 1), Padded(acf, 5),
                     if g.short == 0 then None else Some(Ratio(g.shortSum as real, g.short as real)));
    SizesHold(s, closed, f);
    GapsHold(s, StampsOf(closed), span, g);
    r := Ok(s);
  }

  lemma FiguresHold<P>(closed: seq<Event<P>>, f: SizeFigures)
    requires SizesAre(closed, f)
    ensures |Sizes(closed)| == |closed| == |StampsOf(closed)|
    ensures f.events == |closed| && f.childrenHist == Tally(Sizes(closed))
  {
  }

  lemma NoSeconds(us: int)
    ensures Seconds(us) == 0.0 <==> us == 0
  {
  }

  lemma SizesHold<P>(s: Summary, closed: seq<Event<P>>, f: SizeFigures)
    requires closed != [] && SizesAre(closed, f)
    requires s.events == f.events && s.maxSize == f.childrenMax
    requires s.meanSize == Ratio(f.childrenSum as real, f.events as real)
    requires s.singleFrac == Ratio(f.single as real, f.events as real)
    requires s.meanLevels == Ratio(f.levelsSum as real, f.events as real)
    requires s.singleLevelFrac == Ratio(f.singleLevel as real, f.events as real)
    requires ScanResults.Ranked(f.childrenHist, Rank95(f.events) as real, s.p95)
    ensures SizesSummarised(s, closed)
  {
    hide Sizes, Levels, Ones, Longest, Tally, Grouping.Sum, ScanResults.Ranked, Ratio, Rank95;
  }

  lemma GapsHold(s: Summary, stamps: seq<int>, span: int, g: GapFigures)
    requires |stamps| >= 2 && GapsAre(stamps, g) && g.gaps == |stamps| - 1 && g.sum == Seconds(span)
    requires s.meanGap == Ratio(g.sum, g.gaps as real) && s.meanGap != 0.0 && Square(s.meanGap) != 0.0
    requires s.varOverMean == Ratio(Ratio(g.sumsq, g.gaps as real) - Square(s.meanGap), s.meanGap)
    requires s.cv2 == Ratio(Ratio(g.sumsq, g.gaps as real) - Square(s.meanGap), Square(s.meanGap))
    requires s.acfLag1 == Padded(GapAcf(stamps), 1) && s.acfLag5 == Padded(GapAcf(stamps), 5)
    requires s.subsecondMean == if g.short == 0 then None else Some(Ratio(g.shortSum as real, g.short as real))
    ensures GapsSummarised(s, stamps, span)
  {
    hide GapAcf, Padded, Deltas, InSeconds, Total, Squares, Short, IntTotal, Ratio, Square, Seconds;
  }

  lemma RatioZero(a: real, b: real)
    requires b != 0.0
    ensures Ratio(a, b) == 0.0 <==> a == 0.0
  {
    assert Ratio(a, b) * b == a;
  }

  /** The time from the first row to the last, in microseconds. */
  function Span<P>(rows: seq<Row<P>>): int { if rows == [] then 0 else Last(rows).stamp - rows[0].stamp }

  lemma {:induction false} LedgerClose<P>(
      rows: seq<Row<P>>, withSide: bool, closed: seq<Event<P>>, current: Event<P>, reports: nat)
    requires Ledger(rows, withSide, closed, current, reports)
    requires rows != [] ==> Stamp(current) == Last(rows).stamp
    ensures rows != [] ==> Ledger(rows, withSide, closed + [current], current, reports + 1)
    ensures rows != [] ==> Stamp(current) - Stamp((closed + [current])[0]) == Span(rows)
    ensures rows == [] ==> closed == []
  {
    hide Group, Sizes;
  }

  /** The gaps of the closed events span the rows. */
  lemma {:induction false} ClosedSpan<P>(closed: seq<Event<P>>, g: GapFigures)
    requires GapsAre(StampsOf(closed), g)
    ensures g.gaps == if closed == [] then 0 else |closed| - 1
    ensures closed != [] ==> g.sum == Seconds(Stamp(Last(closed)) - Stamp(closed[0]))
  {
    DeltasLength(StampsOf(closed));
    GapsTelescope(StampsOf(closed));
    hide Total, Deltas, InSeconds, Short, Squares, IntTotal, Seconds;
  }

  /** The rank of the ninety-fifth percentile of `n`. */
  function Rank95(n: nat): int { Ceil(0.95 * n as real) }

  lemma CeilRank(n: nat)
    requires n > 0
    ensures 0 < Rank95(n) <= n
  {
  }

  lemma NothingYet<P>(withSide: bool)
    ensures SizesAre<P>([], SizeFigures(0, 0, 0, 0, map[], 0, 0))
    ensures GapsAre(StampsOf<P>([]), GapFigures(None, 0, 0.0, 0.0, 0, 0)) && InSeconds(Deltas(StampsOf<P>([]))) == []
    ensures OpenIs<P>([], withSide, [], None, false, 0, {}) && Ledger<P>([], withSide, [], [], 0)
  {
    assert StampsOf<P>([]) == [] && Sizes<P>([]) == [] && Levels<P>([]) == [] && Keys<P>([], withSide) == [];
    assert InSeconds([]) == [];
  }

  lemma OpenHolds<P>(
      rows: seq<Row<P>>, withSide: bool, current: Event<P>, keyStamp: Option<int>, keySide: bool, count: nat,
      prices: set<P>)
    requires OpenIs(rows, withSide, current, keyStamp, keySide, count, prices)
    ensures count == |current| && prices == Prices(current) && (rows == [] <==> keyStamp.None?)
    ensures keyStamp.Some? ==> Stamp(current) == keyStamp.value
    ensures rows != [] ==> Stamp(current) == Last(rows).stamp
  {
    hide Group, Prices;
  }

  lemma StampsExtend<P>(closed: seq<Event<P>>, e: Event<P>)
    ensures StampsOf(closed + [e]) == StampsOf(closed) + [Stamp(e)]
  {
    ColumnsExtend(closed, e);
    hide StampsOf, Stamp;
  }

  /** What a closed event feeds the autocorrelation: the gap behind it, if any. */
  lemma {:induction false} GapFed(stamps: seq<int>, g: GapFigures, t: int)
    requires GapsAre(stamps, g)
    ensures InSeconds(Deltas(stamps + [t])) ==
      InSeconds(Deltas(stamps)) + (if g.prevTime.Some? then [Seconds(t - g.prevTime.value)] else [])
  {
    GapColumns(stamps, t);
    hide Deltas, InSeconds, Seconds, Total, Squares, Square, Short, IntTotal;
  }

  class EventStats<P(==)> {
    const withSide: bool
    var keyStamp: Option<int>
    var keySide: bool
    var count: nat
    var prices: set<P>
    var sizes: SizeFigures
    var times: GapFigures
    const gapAcf: A.AutoCorr<real>

    ghost var rows: seq<Row<P>>
    ghost var closed: seq<Event<P>>
    ghost var current: Event<P>
    ghost var reports: nat

    /** The object and the autocorrelation it owns. */
    ghost function Repr(): set<object> { {this, gapAcf, gapAcf.ring, gapAcf.cross} }

    /** The autocorrelation has been fed exactly the gaps. */
    ghost predicate Fed()
      reads this`closed, gapAcf, gapAcf.ring, gapAcf.cross
    {
      && gapAcf.Valid() && gapAcf.ops == A.REALS && gapAcf.k == MAX_LAG && gapAcf.lags.None?
      && gapAcf.hist == InSeconds(Deltas(StampsOf(closed)))
    }

    ghost predicate Counted()
      reads this`closed, this`sizes, this`times, gapAcf, gapAcf.ring, gapAcf.cross
    {
      SizesAre(closed, sizes) && GapsAre(StampsOf(closed), times) && Fed()
    }

    ghost predicate Valid()
      reads this, gapAcf, gapAcf.ring, gapAcf.cross
    {
      && Counted()
      && OpenIs(rows, withSide, current, keyStamp, keySide, count, prices)
      && Ledger(rows, withSide, closed, current, reports)
    }

    constructor (withSide: bool)
      ensures Valid() && rows == [] && reports == 0 && this.withSide == withSide && fresh(Repr())
    {
      var acf := new A.AutoCorr<real>(A.REALS, MAX_LAG, None);
      this.withSide, gapAcf := withSide, acf;
      keyStamp, keySide, count, prices := None, false, 0, {};
      sizes := SizeFigures(0, 0, 0, 0, map[], 0, 0);
      times := GapFigures(None, 0, 0.0, 0.0, 0, 0);
      rows, closed, current, reports := [], [], [], 0;
      new;
      NothingYet<P>(withSide);
      hide SizesAre, GapsAre, OpenIs, Ledger, StampsOf, Deltas, InSeconds, A.AutoCorr.Valid;
    }

    /** `_close`: the open event joins the closed ones; it stays open. */
    method Close()
      requires Counted() && OpenIs(rows, withSide, current, keyStamp, keySide, count, prices)
      modifies this`closed, this`sizes, this`times, gapAcf, gapAcf.ring, gapAcf.cross
      ensures Counted() && closed == if rows == [] then old(closed) else old(closed) + [current]
    {
      hide OpenIs, Counted, Prices, Stamp;
      OpenHolds(rows, withSide, current, keyStamp, keySide, count, prices);
      if keyStamp.Some? {
        CountOpen();
      }
    }

    /** The open event into every figure. */
    method CountOpen()
      requires Counted() && count == |current| && prices == Prices(current) && keyStamp == Some(Stamp(current))
      modifies this`closed, this`sizes, this`times, gapAcf, gapAcf.ring, gapAcf.cross
      ensures Counted() && closed == old(closed) + [current]
    {
      hide SizesAre, GapsAre, Prices, StampsOf, Stamp, Fed;
      StampsExtend(closed, current);
      var nextSizes := CountSizes(closed, sizes, current, count, |prices|);
      var nextTimes := CountGap(StampsOf(closed), times, keyStamp.value);
      Feed(keyStamp.value);
      sizes, times := nextSizes, nextTimes;
    }

    /** The gap behind the closing event goes to the autocorrelation. */
    method Feed(t: int)
      requires Fed() && GapsAre(StampsOf(closed), times) && t == Stamp(current)
      modifies this`closed, gapAcf, gapAcf.ring, gapAcf.cross
      ensures Fed() && closed == old(closed) + [current]
    {
      hide GapsAre, StampsOf, Stamp, Deltas, InSeconds, Seconds, A.AutoCorr.Valid;
      StampsExtend(closed, current);
      GapFed(StampsOf(closed), times, t);
      if times.prevTime.Some? {
        gapAcf.Push(Seconds(t - times.prevTime.value));
      }
      closed := closed + [current];
    }

    /** What the autocorrelation reports is that of the gaps. */
    method GapReport() returns (acf: seq<Option<real>>)
      requires Fed()
      ensures acf == GapAcf(StampsOf(closed))
    {
      hide A.AutoCorr.Valid, A.Acf, StampsOf, Deltas, InSeconds;
      acf := gapAcf.Report();
    }

    /** The open event is closed and an empty one put in its place. */
    method Rotate(stamp: int, side: bool)
      requires Counted() && OpenIs(rows, withSide, current, keyStamp, keySide, count, prices)
      modifies Repr()
      ensures Counted() && rows == old(rows) && reports == old(reports)
      ensures closed == if old(rows) == [] then old(closed) else old(closed) + [old(current)]
      ensures keyStamp == Some(stamp) && keySide == side && count == 0 && prices == {} && current == []
    {
      hide OpenIs, Counted;
      Close();
      keyStamp := Some(stamp);
      keySide := side;
      count := 0;
      prices := {};
      current := [];
    }

    /** `push`: a row of another key closes the open event and opens its own. */
    method Push(stamp: int, side: bool, price: P)
      requires Valid()
      modifies Repr()
      ensures Valid() && reports == old(reports) && rows == old(rows) + [Row(stamp, side, price)]
      ensures var same := SameKey(old(rows), Row(stamp, side, price), withSide);
              && current == (if same then old(current) else []) + [Row(stamp, side, price)]
              && closed == old(closed) + (if same || old(rows) == [] then [] else [old(current)])
    {
      ghost var row := Row(stamp, side, price);
      hide OpenIs, Ledger, Counted, SameKey;
      PushStep(rows, withSide, closed, current, reports, keyStamp, keySide, count, prices, row);
      if keyStamp != Some(stamp) || (withSide && side != keySide) {
        Rotate(stamp, side);
        assert current + [row] == [row] && prices + {price} == {price};
      }
      count := count + 1;
      prices := prices + {price};
      current := current + [row];
      rows := rows + [row];
    }

    /** `report`: closes the open event, then divides. It fails exactly when fewer
        than two events are closed or the first and the last row bear one stamp. */
    method Report() returns (r: Result<Summary, Error>)
      requires Valid()
      modifies this`closed, this`sizes, this`times, this`reports, gapAcf, gapAcf.ring, gapAcf.cross
      ensures Valid() && reports == old(reports) + (if rows == [] then 0 else 1)
      ensures closed == if rows == [] then old(closed) else old(closed) + [current]
      ensures r.Ok? <==> |closed| >= 2 && Span(rows) != 0
      ensures r.Ok? ==> Summarises(r.value, closed, Span(rows))
    {
      hide Ledger, OpenIs, Counted, Stamp, Summarises, Span;
      OpenHolds(rows, withSide, current, keyStamp, keySide, count, prices);
      LedgerClose(rows, withSide, closed, current, reports);
      Close();
      if rows != [] {
        reports := reports + 1;
      }
      r := Divide(Span(rows));
    }

    /** The divisions of a report. */
    method Divide(ghost span: int) returns (r: Result<Summary, Error>)
      requires Counted() && (closed != [] ==> Stamp(Last(closed)) - Stamp(closed[0]) == span)
      ensures r.Ok? <==> |closed| >= 2 && span != 0
      ensures r.Ok? ==> Summarises(r.value, closed, span)
    {
      hide SizesAre, GapsAre, StampsOf, Stamp, Summarises, Seconds, GapAcf, Fed;
      ClosedSpan(closed, times);
      var acf := GapReport();
      r := Summarise(closed, span, sizes, times, acf);
    }
  }

  // ------------------------------------------------------- one report per stream

  /** After one report the closed events are the rows cut at the maximal runs of their
      keys. */
  lemma FirstReport<P>(rows: seq<Row<P>>, withSide: bool, closed: seq<Event<P>>, current: Event<P>)
    requires Ledger(rows, withSide, closed, current, 0) && |current| == Group(Keys(rows, withSide)).last
    ensures rows != [] ==> closed + [current] == Events(rows, withSide)
  {
    ColumnsExtend(closed, current);
    FlatAppend(closed, current);
    assert Keys(rows, withSide) == [] <==> rows == [];
    hide Sizes, Flat;
    SlicesOfFlat(closed + [current]);
  }

  /** The event count is the number of maximal runs exactly when one report has been
      made since the rows began: every further one counts the open event again. */
  lemma CountRightIffOneReport<P>(
      rows: seq<Row<P>>, withSide: bool, closed: seq<Event<P>>, current: Event<P>, reports: nat)
    requires Ledger(rows, withSide, closed, current, reports) && rows != []
    ensures |closed| == |Runs(Keys(rows, withSide))| - 1 + reports
    ensures |closed| == |Runs(Keys(rows, withSide))| <==> reports == 1
  {
    assert |Keys(rows, withSide)| == |rows|;
    hide Group, Sizes;
  }

  /** Renaming keys one to one moves no run. */
  lemma {:induction false} RunsRenamed<K, L>(a: seq<K>, b: seq<L>)
    requires |a| == |b| && forall i, j :: 0 <= i < |a| && 0 <= j < |a| ==> (a[i] == a[j] <==> b[i] == b[j])
    ensures Runs(a) == Runs(b) && Group(a).last == Group(b).last && Group(a).closed == Group(b).closed
  {
    if a != [] {
      RunsRenamed(Front(a), Front(b));
    }
  }

  /** The scan's two groupings and the two accumulators see the same events. */
  lemma TwinsAgree<P>(r: Scan.Report, ts: seq<Scan.Trade>, rows: seq<Row<P>>)
    requires Scan.CountsGroups(r, ts) && |rows| == |ts|
    requires forall i :: 0 <= i < |ts| ==> rows[i].stamp == ts[i].row.stamp && rows[i].side == ts[i].row.side
    ensures r.parentsSide == |Runs(Keys(rows, true))| && r.histSide == HistOf(Runs(Keys(rows, true)), Scan.HIST_CAP)
    ensures r.parentsTime == |Runs(Keys(rows, false))| && r.histTime == HistOf(Runs(Keys(rows, false)), Scan.HIST_CAP)
  {
    assert Keys(rows, true) == Scan.SideKeys(ts);
    RunsRenamed(Keys(rows, false), Scan.Stamps(ts));
  }

  /** The capped and the uncapped histogram are one exactly when no event is more than
      one past the cap. */
  lemma {:induction false} HistIsTallyIff(s: seq<nat>, cap: nat)
    ensures HistOf(s, cap) == Tally(s) <==> forall i :: 0 <= i < |s| ==> s[i] <= cap + 1
    ensures forall k :: k in HistOf(s, cap) ==> k <= cap + 1
  {
    HistKeys(s, cap);
    if forall i :: 0 <= i < |s| ==> s[i] <= cap + 1 {
      TallyWithinCap(s, cap);
    } else {
      var i :| 0 <= i < |s| && s[i] > cap + 1;
      TallyKeys(s);
      assert s[i] in s;
    }
  }

  lemma {:induction false} TallyWithinCap(s: seq<nat>, cap: nat)
    requires forall i :: 0 <= i < |s| ==> s[i] <= cap + 1
    ensures Tally(s) == HistOf(s, cap)
  {
    if s != [] {
      forall i | 0 <= i < |s| - 1 ensures Front(s)[i] <= cap + 1 {
        assert Front(s)[i] == s[i];
      }
      TallyWithinCap(Front(s), cap);
    }
  }

  /** Below the cap the two histograms hold the same; above it the capped one has a
      single bucket. */
  lemma {:induction false} HistKeys(s: seq<nat>, cap: nat)
    ensures forall k :: k <= cap ==> (k in HistOf(s, cap) <==> k in Tally(s))
    ensures cap + 1 in HistOf(s, cap) <==> exists i :: 0 <= i < |s| && s[i] > cap
    ensures forall k :: k in HistOf(s, cap) ==> k <= cap + 1
  {
    if s != [] {
      HistKeys(Front(s), cap);
      assert s == Front(s) + [Last(s)];
    }
  }

  lemma {:induction false} HistMass(s: seq<nat>, cap: nat, n: nat)
    requires n <= cap + 1
    ensures Mass(HistOf(s, cap), n) == Mass(Tally(s), n)
  {
    if s != [] {
      HistMass(Front(s), cap, n);
      BumpMass(HistOf(Front(s), cap), Bucket(Last(s), cap), n);
      BumpMass(Tally(Front(s)), Last(s), n);
    }
  }

  /** A whole number reaches a target exactly when it reaches the next whole one. */
  lemma CeilWhole(m: int, t: real)
    ensures (m as real) < t <==> (m as real) < Ceil(t) as real
  {
    CeilBounds(t);
    var c := Ceil(t);
    hide Ceil;
    if m < c {
      assert m <= c - 1;
      assert (m as real) <= (c as real) - 1.0;
    } else {
      assert (m as real) >= (c as real);
    }
  }

  lemma CeilTarget(hist: map<nat, nat>, t: real, r: nat)
    ensures ScanResults.Ranked(hist, t, r) <==> ScanResults.Ranked(hist, Ceil(t) as real, r)
  {
    hide Mass, Ceil;
    forall k | k in hist
      ensures (Mass(hist, k + 1) as real) < t <==> (Mass(hist, k + 1) as real) < (Ceil(t) as real)
    {
      CeilWhole(Mass(hist, k + 1), t);
    }
    CeilWhole(Mass(hist, r + 1), t);
  }

  /** The size the capped histogram ranks is the one the uncapped ranks, in its bucket. */
  lemma RankedInBucket(s: seq<nat>, cap: nat, t: real, capped: nat, uncapped: nat)
    requires ScanResults.Ranked(HistOf(s, cap), t, capped) && ScanResults.Ranked(Tally(s), t, uncapped)
    requires t <= |s| as real
    ensures capped == Bucket(uncapped, cap)
  {
    hide Mass, HistOf, Tally;
    TallyKeys(s);
    HistKeys(s, cap);
    forall k | k in HistOf(s, cap) && k <= cap ensures Mass(HistOf(s, cap), k + 1) == Mass(Tally(s), k + 1) {
      HistMass(s, cap, k + 1);
    }
    if s != [] {
      TallyReaches(s);
    }
    if uncapped > cap {
      var i :| 0 <= i < |s| && s[i] == uncapped;
      assert cap + 1 in HistOf(s, cap);
    }
    assert ScanResults.Ranked(HistOf(s, cap), t, Bucket(uncapped, cap));
    ScanResults.RankedOnce(HistOf(s, cap), t, capped, Bucket(uncapped, cap));
  }

  /** The scan's 95th percentile, by side or by time, is the accumulator's in its bucket:
      the same size unless that lies past the scan's cap. */
  lemma TwinsPercentile<P>(r: Scan.Report, ts: seq<Scan.Trade>, rows: seq<Row<P>>, withSide: bool, p: nat, s: Summary)
    requires Scan.CountsGroups(r, ts) && |rows| == |ts|
    requires forall i :: 0 <= i < |ts| ==> rows[i].stamp == ts[i].row.stamp && rows[i].side == ts[i].row.side
    requires SizesSummarised(s, Events(rows, withSide))
    requires var hist, parents := if withSide then r.histSide else r.histTime,
                                  if withSide then r.parentsSide else r.parentsTime;
             ScanResults.Ranked(hist, 0.95 * parents as real, p)
    ensures p == Bucket(s.p95, Scan.HIST_CAP)
    ensures (if withSide then r.histSide else r.histTime) == Tally(Runs(Keys(rows, withSide))) <==>
              forall i :: 0 <= i < |Runs(Keys(rows, withSide))| ==>
                Runs(Keys(rows, withSide))[i] <= Scan.HIST_CAP + 1
  {
    hide Scan.CountsGroups, Group, HistOf, Tally, Keys, Slices, Flat, Events, Sizes, ScanResults.Ranked, Ratio;
    var runs := Runs(Keys(rows, withSide));
    TwinHistogram(r, ts, rows, withSide);
    HistIsTallyIff(runs, Scan.HIST_CAP);
    EventsHave(rows, withSide);
    CeilTarget(HistOf(runs, Scan.HIST_CAP), 0.95 * |runs| as real, p);
    CeilRank(|runs|);
    RankedInBucket(runs, Scan.HIST_CAP, Rank95(|runs|) as real, p, s.p95);
  }

  lemma TwinHistogram<P>(r: Scan.Report, ts: seq<Scan.Trade>, rows: seq<Row<P>>, withSide: bool)
    requires Scan.CountsGroups(r, ts) && |rows| == |ts|
    requires forall i :: 0 <= i < |ts| ==> rows[i].stamp == ts[i].row.stamp && rows[i].side == ts[i].row.side
    ensures (if withSide then r.histSide else r.histTime) == HistOf(Runs(Keys(rows, withSide)), Scan.HIST_CAP)
    ensures (if withSide then r.parentsSide else r.parentsTime) == |Runs(Keys(rows, withSide))|
  {
    hide Group, HistOf, Keys, Scan.CountsGroups;
    TwinsAgree(r, ts, rows);
  }

  /** `probe`'s accumulators: every row to each, then one report each. */
  method Probe<P(==)>(input: seq<Row<P>>) returns (primary: Result<Summary, Error>, timestamp: Result<Summary, Error>)
    ensures primary.Ok? <==> |Runs(Keys(input, true))| >= 2 && Span(input) != 0
    ensures primary.Ok? ==>
      primary.value.events == |Runs(Keys(input, true))| && primary.value.maxSize == Longest(Runs(Keys(input, true)))
    ensures primary.Ok? ==> primary.value.meanSize == Ratio(|input| as real, primary.value.events as real)
    ensures timestamp.Ok? <==> |Runs(Keys(input, false))| >= 2 && Span(input) != 0
    ensures primary.Ok? ==> Summarises(primary.value, Events(input, true), Span(input))
    ensures timestamp.Ok? ==> timestamp.value.events == |Runs(Keys(input, false))|
    ensures timestamp.Ok? ==> timestamp.value.meanSize == Ratio(|input| as real, timestamp.value.events as real)
    ensures timestamp.Ok? ==> Summarises(timestamp.value, Events(input, false), Span(input))
  {
    hide EventStats.Valid, Group, Keys, Span, Longest, Ratio, Summarises, Events;
    var p := Pushed(input, true);
    var t := Pushed(input, false);
    primary := ReportOnce(p);
    timestamp := ReportOnce(t);
  }

  /** An accumulator after every row. */
  method Pushed<P(==)>(input: seq<Row<P>>, withSide: bool) returns (e: EventStats<P>)
    ensures e.Valid() && e.withSide == withSide && e.reports == 0 && e.rows == input && fresh(e.Repr())
  {
    hide EventStats.Valid, Keys;
    e := new EventStats<P>(withSide);
    var i := 0;
    while i < |input|
      invariant 0 <= i <= |input| && fresh(e.Repr())
      invariant e.Valid() && e.withSide == withSide && e.reports == 0 && e.rows == input[..i]
    {
      var row := input[i];
      e.Push(row.stamp, row.side, row.price);
      assert input[..i + 1] == input[..i] + [row] && Row(row.stamp, row.side, row.price) == row;
      i := i + 1;
    }
    assert input[..i] == input;
  }

  lemma OpenIsLast<P>(
      rows: seq<Row<P>>, withSide: bool, current: Event<P>, keyStamp: Option<int>, keySide: bool, count: nat,
      prices: set<P>)
    requires OpenIs(rows, withSide, current, keyStamp, keySide, count, prices)
    ensures |current| == Group(Keys(rows, withSide)).last
  {
  }

  lemma NothingClosed<P>(rows: seq<Row<P>>, withSide: bool, closed: seq<Event<P>>, current: Event<P>)
    requires Ledger(rows, withSide, closed, current, 0)
    ensures rows == [] ==> closed == [] && Runs(Keys(rows, withSide)) == []
  {
    hide Group;
    NoRuns();
    assert rows == [] ==> Keys(rows, withSide) == [];
  }

  /** The counts a summary of a stream's events holds, in terms of the runs. */
  lemma SummaryHas<P>(s: Summary, rows: seq<Row<P>>, withSide: bool)
    requires Summarises(s, Events(rows, withSide), Span(rows))
    ensures s.events == |Runs(Keys(rows, withSide))| && s.maxSize == Longest(Runs(Keys(rows, withSide)))
    ensures s.meanSize == Ratio(|rows| as real, s.events as real)
  {
    hide Events, Group, Longest, Grouping.Sum, Ratio, GapsSummarised, Sizes;
    EventsHave(rows, withSide);
    RunsSum(Keys(rows, withSide));
  }

  method ReportOnce<P(==)>(e: EventStats<P>) returns (r: Result<Summary, Error>)
    requires e.Valid() && e.reports == 0
    modifies e.Repr()
    ensures e.Valid() && e.rows == old(e.rows) && (e.rows != [] ==> e.reports == 1)
    ensures r.Ok? <==> |Runs(Keys(e.rows, e.withSide))| >= 2 && Span(e.rows) != 0
    ensures r.Ok? ==>
      r.value.events == |Runs(Keys(e.rows, e.withSide))| && r.value.maxSize == Longest(Runs(Keys(e.rows, e.withSide)))
    ensures r.Ok? ==> r.value.meanSize == Ratio(|e.rows| as real, r.value.events as real)
    ensures r.Ok? ==> Summarises(r.value, Events(e.rows, e.withSide), Span(e.rows))
  {
    hide EventStats.Counted, OpenIs, Ledger, Summarises, Group, Keys, Events, Longest, Ratio, Span;
    OpenIsLast(e.rows, e.withSide, e.current, e.keyStamp, e.keySide, e.count, e.prices);
    FirstReport(e.rows, e.withSide, e.closed, e.current);
    EventsHave(e.rows, e.withSide);
    NothingClosed(e.rows, e.withSide, e.closed, e.current);
    r := e.Report();
    if r.Ok? {
      SummaryHas(r.value, e.rows, e.withSide);
    }
  }

  /** The second of two reports counts one event more than the first, on every stream
      that reports at all. */
  method ReportTwice<P(==)>(input: seq<Row<P>>, withSide: bool)
    returns (first: Result<Summary, Error>, second: Result<Summary, Error>)
    ensures first.Ok? <==> |Runs(Keys(input, withSide))| >= 2 && Span(input) != 0
    ensures first.Ok? ==> first.value.events == |Runs(Keys(input, withSide))|
    ensures first.Ok? ==> second.Ok? && second.value.events == first.value.events + 1
  {
    hide EventStats.Counted, OpenIs, Ledger, Summarises, Group, Keys, Events, Longest, Ratio, Span;
    var e := Pushed(input, withSide);
    first := ReportOnce(e);
    EmptyStream<P>(withSide);
    if e.rows != [] {
      CountRightIffOneReport(e.rows, withSide, e.closed, e.current, 1);
    }
    second := e.Report();
    if second.Ok? {
      SummaryCount(second.value, e.closed, Span(e.rows));
    }
  }

  lemma EmptyStream<P>(withSide: bool)
    ensures Runs(Keys<P>([], withSide)) == []
  {
    assert Keys<P>([], withSide) == [];
  }

  lemma SummaryCount<P>(s: Summary, closed: seq<Event<P>>, span: int)
    requires Summarises(s, closed, span)
    ensures s.events == |closed|
  {
  }

  /** Two rows a second apart: two events, and three by the second report. */
  method SecondReportMiscounts() returns (first: nat, second: nat)
    ensures first == 2 && second == 3
  {
    var rows: seq<Row<int>> := [Row(0, true, 1), Row(1000000, true, 1)];
    TwoKeys(rows);
    var once, twice := ReportTwice(rows, true);
    first, second := once.value.events, twice.value.events;
  }

  lemma TwoKeys(rows: seq<Row<int>>)
    requires |rows| == 2 && rows[0].stamp != rows[1].stamp
    ensures |Runs(Keys(rows, true))| == 2
  {
    var keys := Keys(rows, true);
    assert keys == ([] + [keys[0]]) + [keys[1]];
    GroupExtend([], keys[0]);
    GroupExtend([] + [keys[0]], keys[1]);
  }
}
