/** `analysis/observed_bars.py`: the same fold written in Python, with empty windows
    filled up to an hour. */
module ObservedBars {
  import opened Prelude
  import opened Bars

  const FILL_LIMIT: nat := 3_600_000_000_000

  type Step = x: int | x > 0 witness 1

  /** A trade leg of the table's source: its stamp is any integer. */
  datatype Print = Print(price: real, size: real, ts: int)

  datatype Row = Row(openTs: int, closeTs: int, open: real, high: real, low: real, close: real, volume: real,
      count: nat)

  /** The rows written, the open window as its row would read, and the last price. */
  datatype Tape = Tape(rows: seq<Row>, window: Option<Row>, lastClose: real)

  /** The start of the window a stamp falls in. */
  function WindowStart(ts: int, step: Step): int { ts - ts % step }

  function OpenRow(t: Print, start: int, step: int): Row {
    Row(start, start + step, t.price, t.price, t.price, t.price, t.size, 1)
  }

  function ExtendRow(w: Row, t: Print): Row {
    w.(high := MaxR(w.high, t.price), low := MinR(w.low, t.price), close := t.price,
       volume := w.volume + t.size, count := w.count + 1)
  }

  function EmptyRow(t: int, step: int, price: real): Row { Row(t, t + step, price, price, price, price, 0.0, 0) }

  /** The empty windows from `lo` up to `hi`. */
  function Fill(lo: int, hi: int, step: Step, price: real): seq<Row>
    decreases hi - lo
  {
    if lo >= hi then [] else [EmptyRow(lo, step, price)] + Fill(lo + step, hi, step, price)
  }

  function Desert(w: Row, start: int, step: Step, price: real): seq<Row> {
    if 0 < start - w.closeTs <= FILL_LIMIT then Fill(w.closeTs, start, step, price) else []
  }

  function Next(s: Tape, t: Print, step: Step): Tape {
    var start := WindowStart(t.ts, step);
    match s.window
    case None => Tape(s.rows, Some(OpenRow(t, start, step)), t.price)
    case Some(w) =>
      if start == w.openTs then Tape(s.rows, Some(ExtendRow(w, t)), t.price)
      else Tape(s.rows + [w] + Desert(w, start, step, s.lastClose), Some(OpenRow(t, start, step)), t.price)
  }

  function TapeOf(trades: seq<Print>, step: Step): Tape {
    if trades == [] then Tape([], None, 0.0)
    else Next(TapeOf(Front(trades), step), Last(trades), step)
  }

  /** Every row the program writes, the last window included. */
  function Written(trades: seq<Print>, step: Step): seq<Row> {
    var s := TapeOf(trades, step);
    if s.window.Some? then s.rows + [s.window.value] else s.rows
  }

  lemma {:induction false} TapeExtend(trades: seq<Print>, t: Print, step: Step)
    ensures TapeOf(trades + [t], step) == Next(TapeOf(trades, step), t, step)
  {
    assert Front(trades + [t]) == trades;
  }

  /** `main`: the window fold with its desert fill. */
  method Observe(trades: seq<Print>, step: Step) returns (rows: seq<Row>)
    ensures rows == Written(trades, step)
  {
    rows := [];
    var window: Option<Row> := None;
    var lastClose := 0.0;
    var i := 0;
    while i < |trades|
      invariant 0 <= i <= |trades| && TapeOf(trades[..i], step) == Tape(rows, window, lastClose)
    {
      var trade := trades[i];
      TapeExtend(trades[..i], trade, step);
      assert trades[..i + 1] == trades[..i] + [trade];
      hide TapeOf;
      i := i + 1;
      var start := WindowStart(trade.ts, step);
      if window.None? {
        window := Some(OpenRow(trade, start, step));
      } else if start == window.value.openTs {
        window := Some(ExtendRow(window.value, trade));
      } else {
        var w := window.value;
        ghost var before := rows + [w];
        rows := rows + [w];
        if 0 < start - w.closeTs <= FILL_LIMIT {
          var t := w.closeTs;
          while t < start
            invariant rows + Fill(t, start, step, lastClose) == before + Fill(w.closeTs, start, step, lastClose)
          {
            assert rows + Fill(t, start, step, lastClose)
                == (rows + [EmptyRow(t, step, lastClose)]) + Fill(t + step, start, step, lastClose);
            rows := rows + [EmptyRow(t, step, lastClose)];
            t := t + step;
          }
        }
        window := Some(OpenRow(trade, start, step));
      }
      lastClose := trade.price;
    }
    assert trades[..i] == trades;
    if window.Some? {
      rows := rows + [window.value];
    }
  }

  // -------------------------------------------------------- the twin of the fold

  /** The rows that hold a trade. */
  function Traded(rows: seq<Row>): seq<Row> {
    if rows == [] then []
    else
      var f, r := Traded(Front(rows)), Last(rows);
      if r.count > 0 then f + [r] else f
  }

  lemma {:induction false} TradedAppend(rows: seq<Row>, r: Row)
    ensures Traded(rows + [r]) == if r.count > 0 then Traded(rows) + [r] else Traded(rows)
  {
    assert (rows + [r])[..|rows|] == rows;
  }

  lemma {:induction false} TradedSkips(rows: seq<Row>, empty: seq<Row>)
    requires forall i :: 0 <= i < |empty| ==> empty[i].count == 0
    ensures Traded(rows + empty) == Traded(rows)
  {
    if empty == [] {
      assert rows + empty == rows;
    } else {
      var n := |empty| - 1;
      TradedSkips(rows, empty[..n]);
      TradedAppend(rows + empty[..n], empty[n]);
      assert rows + empty == (rows + empty[..n]) + [empty[n]];
    }
  }

  lemma {:induction false} FillEmpty(lo: int, hi: int, step: Step, price: real)
    ensures forall i :: 0 <= i < |Fill(lo, hi, step, price)| ==> (Fill(lo, hi, step, price)[i].count == 0)
    decreases hi - lo
  {
    if lo < hi {
      FillEmpty(lo + step, hi, step, price);
    }
  }

  /** A window of the adapter's fold as a row of the table. */
  function RowOf(slice: seq<Trade>, step: Interval): Row
    requires slice != []
  {
    var d := Describe(slice, step);
    Row(d.closeTs - step, d.closeTs, d.open, d.high, d.low, d.close, d.volume, d.count)
  }

  function RowsOf(slices: seq<seq<Trade>>, step: Interval): seq<Row>
    requires forall i :: 0 <= i < |slices| ==> slices[i] != []
  {
    seq(|slices|, i requires 0 <= i < |slices| => RowOf(slices[i], step))
  }

  /** A window starts one interval before its close. */
  lemma StartIsClose(ts: U64, step: Interval)
    requires !Saturates(ts, step)
    ensures WindowStart(ts, step) == WindowClose(ts, step) - step
    ensures WindowStart(ts, step) == Window(ts, step) * step
  {
    CloseIsNextMultiple(ts, step);
    DivBounds(ts, step);
    assert ts == (ts / step) * step + ts % step;
  }

  lemma SameStartIffSameWindow(a: U64, b: U64, step: Interval)
    requires !Saturates(a, step) && !Saturates(b, step)
    ensures WindowStart(a, step) == WindowStart(b, step) <==> Window(a, step) == Window(b, step)
  {
    StartIsClose(a, step);
    StartIsClose(b, step);
    DivBounds(a, step);
    DivBounds(b, step);
    if Window(a, step) < Window(b, step) {
      MulMonotone(Window(a, step) + 1, Window(b, step), step);
    } else {
      MulMonotone(Window(b, step), Window(a, step), step);
      if Window(a, step) > Window(b, step) {
        MulMonotone(Window(b, step) + 1, Window(a, step), step);
      }
    }
  }

  lemma RowsExtend(slices: seq<seq<Trade>>, slice: seq<Trade>, step: Interval)
    requires slice != [] && forall i :: 0 <= i < |slices| ==> slices[i] != []
    ensures RowsOf(slices + [slice], step) == RowsOf(slices, step) + [RowOf(slice, step)]
  {
    hide Describe;
  }

  /** A trade as the script reads it. */
  function PrintOf(t: Trade): Print { Print(t.price, t.size, t.ts) }

  function Prints(trades: seq<Trade>): seq<Print> { seq(|trades|, i requires 0 <= i < |trades| => PrintOf(trades[i])) }

  lemma OpenRowIs(t: Trade, step: Interval)
    requires !Saturates(t.ts, step)
    ensures OpenRow(PrintOf(t), WindowStart(t.ts, step), step) == RowOf([t], step)
  {
    hide Describe, WindowClose, WindowStart, Window, Saturates;
    DescribeOne(t, step);
    StartIsClose(t.ts, step);
  }

  lemma ExtendRowIs(slice: seq<Trade>, t: Trade, step: Interval)
    requires slice != []
    ensures ExtendRow(RowOf(slice, step), PrintOf(t)) == RowOf(slice + [t], step)
  {
    hide Describe;
    DescribeExtend(slice, t, step);
  }

  /** A tape and a cut side by side. */
  ghost predicate Twins(s: Tape, c: Slices, step: Interval) {
    && (forall i :: 0 <= i < |c.closed| ==> c.closed[i] != [])
    && Traded(s.rows) == RowsOf(c.closed, step)
    && s.window == (if c.open == [] then None else Some(RowOf(c.open, step)))
  }

  lemma NoTwins(step: Interval)
    ensures Twins(TapeOf([], step), Cut([], step), step)
  {
    assert Traded([]) == [] && RowsOf([], step) == [];
  }

  /** The open slice, if any, lies in a window that fits, and `t` closes it exactly
      when its own window is another. */
  ghost predicate Turns(c: Slices, t: Trade, step: Interval) {
    c.open != [] ==>
      && !Saturates(c.open[0].ts, step)
      && (t.ts >= WindowClose(c.open[0].ts, step) <==> Window(c.open[0].ts, step) != Window(t.ts, step))
  }

  lemma CutTurns(f: seq<Trade>, t: Trade, step: Interval)
    requires Ordered(f + [t]) && Fits(f + [t], step)
    ensures Ordered(f) && Fits(f, step) && !Saturates(t.ts, step)
    ensures Turns(Cut(f, step), t, step)
  {
    hide Cut, Window, WindowClose, Saturates;
    assert (f + [t])[|f|] == t;
    CutsOnChange(f, t, step);
    CutParts(f, step);
    if f != [] {
      OpenWindow(f, step);
    }
  }

  lemma TwinsFirst(s: Tape, c: Slices, t: Trade, step: Interval)
    requires Twins(s, c, step) && !Saturates(t.ts, step) && c.open == []
    ensures Twins(Next(s, PrintOf(t), step), CutStep(c, t, step), step)
  {
    hide Traded, RowsOf, RowOf, WindowStart, Saturates, OpenRow;
    OpenRowIs(t, step);
  }

  /** A trade that joins the open slice. */
  lemma TwinsJoin(s: Tape, c: Slices, t: Trade, step: Interval)
    requires Twins(s, c, step) && !Saturates(t.ts, step) && Turns(c, t, step)
    requires c.open != [] && t.ts < WindowClose(c.open[0].ts, step)
    ensures Twins(Next(s, PrintOf(t), step), CutStep(c, t, step), step)
  {
    hide Traded, RowsOf, RowOf, WindowClose, Window, WindowStart, Saturates, OpenRow, ExtendRow;
    SameStartIffSameWindow(t.ts, c.open[0].ts, step);
    StartOfRow(c.open, step);
    ExtendRowIs(c.open, t, step);
  }

  /** A trade that turns the window, its empty windows filled or not. */
  lemma TwinsTurn(s: Tape, c: Slices, t: Trade, step: Interval)
    requires Twins(s, c, step) && !Saturates(t.ts, step) && Turns(c, t, step)
    requires c.open != [] && t.ts >= WindowClose(c.open[0].ts, step)
    ensures Twins(Next(s, PrintOf(t), step), CutStep(c, t, step), step)
  {
    hide Traded, RowsOf, RowOf, WindowClose, Window, WindowStart, Saturates, Fill, OpenRow, ExtendRow;
    var w, start := s.window.value, WindowStart(t.ts, step);
    OpenRowIs(t, step);
    SameStartIffSameWindow(t.ts, c.open[0].ts, step);
    StartOfRow(c.open, step);
    RowsExtend(c.closed, c.open, step);
    TradedAppend(s.rows, w);
    DesertEmpty(w, start, step, s.lastClose);
    TradedSkips(s.rows + [w], Desert(w, start, step, s.lastClose));
  }

  lemma StartOfRow(slice: seq<Trade>, step: Interval)
    requires slice != [] && !Saturates(slice[0].ts, step)
    ensures RowOf(slice, step).openTs == WindowStart(slice[0].ts, step)
    ensures RowOf(slice, step).count > 0
  {
    StartIsClose(slice[0].ts, step);
  }

  lemma DesertEmpty(w: Row, start: int, step: Step, price: real)
    ensures forall i :: 0 <= i < |Desert(w, start, step, price)| ==> Desert(w, start, step, price)[i].count == 0
  {
    FillEmpty(w.closeTs, start, step, price);
  }

  /** For time-ordered trades the rows that hold a trade are the adapter's windows. */
  lemma {:induction false} ObservedIsFold(trades: seq<Trade>, step: Interval)
    requires Ordered(trades) && Fits(trades, step)
    ensures Twins(TapeOf(Prints(trades), step), Cut(trades, step), step)
  {
    hide TapeOf, Cut, CutStep, Twins, Next, Turns, Ordered, Fits, Saturates, WindowClose;
    if trades == [] {
      assert Prints(trades) == [];
      NoTwins(step);
    } else {
      var f, t := Front(trades), Last(trades);
      assert trades == f + [t] && Prints(trades) == Prints(f) + [PrintOf(t)];
      CutTurns(f, t, step);
      ObservedIsFold(f, step);
      TapeExtend(Prints(f), PrintOf(t), step);
      CutExtend(f, t, step);
      var s, c := TapeOf(Prints(f), step), Cut(f, step);
      if c.open == [] {
        TwinsFirst(s, c, t, step);
      } else if t.ts < WindowClose(c.open[0].ts, step) {
        TwinsJoin(s, c, t, step);
      } else {
        TwinsTurn(s, c, t, step);
      }
    }
  }

  // ------------------------------------------------------------------- the tiling

  /** Neighbouring rows touch, or are more than an hour apart; an empty row repeats
      the close before it and touches. */
  ghost predicate Adjoins(a: Row, b: Row) {
    && (a.closeTs == b.openTs || b.openTs - a.closeTs > 3_600_000_000_000)
    && (b.count == 0 ==>
          a.closeTs == b.openTs && b.open == b.high == b.low == b.close == a.close && b.volume == 0.0)
  }

  ghost predicate Tiles(rows: seq<Row>) { forall i :: 0 < i < |rows| ==> Adjoins(rows[i - 1], rows[i]) }

  lemma {:induction false} TilesAppend(rows: seq<Row>, r: Row)
    requires Tiles(rows) && (rows != [] ==> Adjoins(Last(rows), r))
    ensures Tiles(rows + [r])
  {
  }

  lemma OneLess(k: nat, step: nat)
    requires k > 0
    ensures (k - 1) * step == k * step - step
    ensures k * step >= step
  {
    assert k * step == (k - 1) * step + step;
    MulMonotone(1, k, step);
  }

  /** A fill over whole windows carries the tiling exactly to its end. */
  lemma {:induction false} FillTiles(rows: seq<Row>, hi: int, step: Step, k: nat)
    requires rows != [] && Tiles(rows)
    requires hi - Last(rows).closeTs == k * step
    ensures var price := Last(rows).close;
            var all := rows + Fill(Last(rows).closeTs, hi, step, price);
            Tiles(all) && Last(all).closeTs == hi && Last(all).close == price
    decreases k
  {
    var w := Last(rows);
    if k == 0 {
      assert Fill(w.closeTs, hi, step, w.close) == [];
      assert rows + [] == rows;
    } else {
      OneLess(k, step);
      var e := EmptyRow(w.closeTs, step, w.close);
      TilesAppend(rows, e);
      FillTiles(rows + [e], hi, step, k - 1);
      assert (rows + [e]) + Fill(e.closeTs, hi, step, w.close) == rows + Fill(w.closeTs, hi, step, w.close);
    }
  }

  /** The open window is that of the last stamp, and the last price closes it. */
  predicate Opened(s: Tape, ts: int, step: Step) {
    && s.window.Some?
    && s.window.value.openTs == WindowStart(ts, step)
    && s.window.value.closeTs == s.window.value.openTs + step
    && s.window.value.close == s.lastClose
  }

  ghost predicate InOrder(trades: seq<Print>) { forall i, j :: 0 <= i <= j < |trades| ==> trades[i].ts <= trades[j].ts }

  /** For time-ordered trades the table has no overlap and no hole of an hour or
      less, and its empty rows carry the last close. */
  lemma {:induction false} ObservedTiles(trades: seq<Print>, step: Step)
    requires InOrder(trades)
    ensures Tiles(Written(trades, step))
    ensures trades != [] ==> Opened(TapeOf(trades, step), Last(trades).ts, step)
  {
    hide Next, Tiles, Opened;
    if trades == [] {
      NoTiles();
    } else {
      var n := |trades| - 1;
      var f, t := trades[..n], trades[n];
      assert trades == f + [t];
      ObservedTiles(f, step);
      TapeExtend(f, t, step);
      hide TapeOf;
      if n == 0 {
        FirstTiles(t, step);
      } else {
        OpenedHas(TapeOf(f, step), f[n - 1].ts, step);
        TilesStep(TapeOf(f, step), f[n - 1].ts, t, step);
      }
      OpenedHas(TapeOf(trades, step), t.ts, step);
    }
  }

  lemma NoTiles()
    ensures Tiles([])
  {
  }

  lemma OpenedHas(s: Tape, ts: int, step: Step)
    requires Opened(s, ts, step)
    ensures s.window.Some?
  {
  }

  lemma FirstTiles(t: Print, step: Step)
    ensures var s := Next(TapeOf([], step), t, step);
            Opened(s, t.ts, step) && Tiles(s.rows + [s.window.value])
  {
  }

  /** One trade, the last stamp before it being `last`. */
  lemma TilesStep(s: Tape, last: int, t: Print, step: Step)
    requires Opened(s, last, step) && Tiles(s.rows + [s.window.value]) && last <= t.ts
    ensures var n := Next(s, t, step);
            Opened(n, t.ts, step) && Tiles(n.rows + [n.window.value])
  {
    hide WindowStart, Window, Tiles, Fill;
    var w, start := s.window.value, WindowStart(t.ts, step);
    if start == w.openTs {
      SameHead(s.rows, w, ExtendRow(w, t));
    } else {
      WholeGap(last, t.ts, step);
      DesertTiles(s.rows + [w], t, start, step, Window(t.ts, step) - Window(last, step) - 1);
      assert s.rows + [w] + Desert(w, start, step, s.lastClose) == (s.rows + [w]) + Desert(w, start, step, s.lastClose);
    }
  }

  /** A new window opens on a tiled table, `k` windows past the end of the last row. */
  lemma DesertTiles(rows: seq<Row>, t: Print, start: int, step: Step, k: nat)
    requires rows != [] && Tiles(rows) && start - Last(rows).closeTs == k * step
    ensures Tiles(rows + Desert(Last(rows), start, step, Last(rows).close) + [OpenRow(t, start, step)])
  {
    hide Tiles, Fill;
    FillTiles(rows, start, step, k);
    if 0 < start - Last(rows).closeTs <= FILL_LIMIT {
      TilesAppend(rows + Desert(Last(rows), start, step, Last(rows).close), OpenRow(t, start, step));
    } else {
      TilesAppend(rows, OpenRow(t, start, step));
      assert rows + [] == rows;
    }
  }

  lemma StartIsMultiple(ts: int, step: Step)
    ensures WindowStart(ts, step) == Window(ts, step) * step
  {
    assert ts == (ts / step) * step + ts % step;
  }

  /** A later window starts a whole number of windows past the end of an earlier one. */
  lemma WholeGap(a: int, b: int, step: Step)
    requires a <= b
    ensures WindowStart(a, step) != WindowStart(b, step) ==>
      && Window(a, step) < Window(b, step)
      && WindowStart(b, step) - (WindowStart(a, step) + step) == (Window(b, step) - Window(a, step) - 1) * step
  {
    StartIsMultiple(a, step);
    StartIsMultiple(b, step);
    DivMonotone(a, b, step);
    hide WindowStart;
    if WindowStart(a, step) != WindowStart(b, step) {
      GapIsWhole(Window(a, step), Window(b, step), step);
    }
  }

  lemma GapIsWhole(a: int, b: int, step: int)
    requires a <= b && a * step != b * step
    ensures a < b && b * step - (a * step + step) == (b - a - 1) * step
  {
    assert (b - a - 1) * step == b * step - a * step - step;
  }

  lemma SameHead(rows: seq<Row>, w: Row, v: Row)
    requires Tiles(rows + [w]) && v.openTs == w.openTs && v.count > 0
    ensures Tiles(rows + [v])
  {
    forall i | 0 < i < |rows + [v]| ensures Adjoins((rows + [v])[i - 1], (rows + [v])[i]) {
      assert Adjoins((rows + [w])[i - 1], (rows + [w])[i]);
    }
  }

  // ------------------------------------------------------------- the rows themselves

  lemma ExtremesShow(slice: seq<Trade>)
    requires slice != []
    ensures IsHighest(slice, High(slice)) && IsLowest(slice, Low(slice))
  {
    hide High, Low;
    Extremes(slice);
  }

  /** A row of a window shows its trades: the aligned window of the first, the first and
      last price, a price none exceeds and one none undercuts, the size and the number. */
  lemma RowShowsSlice(slice: seq<Trade>, step: Interval)
    requires slice != [] && !Saturates(slice[0].ts, step)
    ensures var r := RowOf(slice, step);
            && Aligned(r, slice[0].ts, step)
            && r.open == slice[0].price && r.close == Last(slice).price
            && IsHighest(slice, r.high) && IsLowest(slice, r.low)
            && r.volume == SizeOf(slice) && r.count == |slice|
  {
    hide WindowClose, WindowStart, Window, High, Low, Volume, SizeOf, Saturates, IsHighest, IsLowest;
    ExtremesShow(slice);
    VolumeIsSize(slice);
    StartIsClose(slice[0].ts, step);
    StartHolds(slice[0].ts, step);
  }

  /** A row spans one interval, from a multiple of it, and the stamp falls in it. */
  predicate Aligned(r: Row, ts: int, step: Step) {
    r.openTs % step == 0 && r.openTs <= ts < r.closeTs == r.openTs + step
  }

  lemma StartHolds(ts: nat, step: Step)
    ensures WindowStart(ts, step) % step == 0 && WindowStart(ts, step) <= ts < WindowStart(ts, step) + step
  {
    assert ts == ts / step * step + ts % step;
    MultipleMod(ts / step, step);
  }

  /** An empty row opens less than an hour after the close of the last row with a trade. */
  ghost predicate FillsAnHour(rows: seq<Row>) {
    && (rows != [] ==> rows[0].count > 0)
    && forall i, j :: 0 <= i < j < |rows| && rows[i].count > 0 && Empties(rows, i, j) ==>
         rows[j].openTs < rows[i].closeTs + 3_600_000_000_000
  }

  /** No row after `i` up to `j` has a trade. */
  ghost predicate Empties(rows: seq<Row>, i: int, j: int)
    requires 0 <= i < j < |rows|
  {
    forall k :: i < k <= j ==> rows[k].count == 0
  }

  lemma {:induction false} FillOpens(lo: int, hi: int, step: Step, price: real)
    ensures forall i :: 0 <= i < |Fill(lo, hi, step, price)| ==>
              Fill(lo, hi, step, price)[i].count == 0 && Fill(lo, hi, step, price)[i].openTs < hi
    decreases hi - lo
  {
    if lo < hi {
      FillOpens(lo + step, hi, step, price);
    }
  }

  lemma FillsAppend(rows: seq<Row>, r: Row)
    requires FillsAnHour(rows) && r.count > 0
    ensures FillsAnHour(rows + [r])
  {
    var all := rows + [r];
    forall i, j | 0 <= i < j < |all| && all[i].count > 0 && Empties(all, i, j)
      ensures all[j].openTs < all[i].closeTs + 3_600_000_000_000
    {
      assert all[j].count == 0;
      assert forall k :: i < k <= j ==> all[k] == rows[k];
    }
  }

  lemma FillsDesert(rows: seq<Row>, w: Row, empty: seq<Row>)
    requires FillsAnHour(rows + [w]) && w.count > 0
    requires forall i :: 0 <= i < |empty| ==>
               empty[i].count == 0 && empty[i].openTs < w.closeTs + 3_600_000_000_000
    ensures FillsAnHour(rows + [w] + empty)
  {
    var before, all := rows + [w], rows + [w] + empty;
    forall i, j | 0 <= i < j < |all| && all[i].count > 0 && Empties(all, i, j)
      ensures all[j].openTs < all[i].closeTs + 3_600_000_000_000
    {
      if j < |before| {
        assert forall k :: i < k <= j ==> all[k] == before[k];
      } else {
        assert all[|rows|] == w && !(i < |rows| <= j);
        assert i == |rows| && all[j] == empty[j - |before|];
      }
    }
  }

  lemma FillsStep(s: Tape, t: Print, step: Step)
    requires FillsAnHour(s.rows) && (s.window.Some? ==> s.window.value.count > 0)
    requires s.window.None? ==> s.rows == []
    ensures var n := Next(s, t, step); FillsAnHour(n.rows) && n.window.Some? && n.window.value.count > 0
  {
    hide WindowStart, FillsAnHour, Fill;
    if s.window.Some? && WindowStart(t.ts, step) != s.window.value.openTs {
      var w, start := s.window.value, WindowStart(t.ts, step);
      FillsAppend(s.rows, w);
      FillOpens(w.closeTs, start, step, s.lastClose);
      FillsDesert(s.rows, w, Desert(w, start, step, s.lastClose));
    }
  }

  /** For trades in any order no gap of more than an hour is filled: an empty row always
      opens less than an hour after the last row with a trade. */
  lemma {:induction false} DesertsStayEmpty(trades: seq<Print>, step: Step)
    ensures FillsAnHour(Written(trades, step))
    ensures var s := TapeOf(trades, step);
            && FillsAnHour(s.rows) && (s.window.Some? ==> s.window.value.count > 0)
            && (s.window.None? ==> s.rows == [])
  {
    if trades != [] {
      DesertsStayEmpty(Front(trades), step);
      hide Next, FillsAnHour;
      var s := TapeOf(Front(trades), step);
      FillsStep(s, Last(trades), step);
      var n := Next(s, Last(trades), step);
      FillsAppend(n.rows, n.window.value);
    }
  }
}
