/** The figures of a scan's report, read off the positions of its lines and rows. */
module ScanColumns {
  import opened Prelude
  import opened Grouping
  import opened LineReader
  import opened Scan

  lemma OneMore(a: set<int>, b: set<int>, n: int, more: bool)
    requires n !in a && b == if more then a + {n} else a
    ensures |b| == |a| + if more then 1 else 0
  {
  }

  // ------------------------------------------------------------- the lines

  /** A line less the carriage returns at its end. */
  lemma {:induction false} ReturnsStripped(line: Bytes)
    ensures var s := StripReturns(line);
            && |s| <= |line| && s == line[..|s|]
            && (s != [] ==> Last(s) != 13)
            && forall i :: |s| <= i < |line| ==> line[i] == 13
  {
    if line != [] && Last(line) == 13 {
      ReturnsStripped(Front(line));
    }
  }

  /** Pieces without a newline, joined by newlines, are the lines read back, whether or not
      a newline ends the last. */
  lemma LinesByNewline(pieces: seq<Bytes>)
    requires pieces != [] && Last(pieces) != [] && forall j :: 0 <= j < |pieces| ==> 10 !in pieces[j]
    ensures Lines(Join(pieces, 10)) == pieces && Lines(Join(pieces, 10) + [10]) == pieces
  {
    hide Split, Join;
    SplitUnique(pieces, 10);
    SplitUnique(pieces + [[]], 10);
    JoinExtend(pieces, [], 10);
    assert Front(pieces + [[]]) == pieces;
    assert Join(pieces, 10) + [10] + [] == Join(pieces, 10) + [10];
  }

  /** The places of a list in order. */
  ghost predicate Ascending(places: seq<nat>) { forall a, b :: 0 <= a < b < |places| ==> places[a] < places[b] }

  lemma AscendingGrows(places: seq<nat>, n: nat)
    requires Ascending(places) && forall a :: 0 <= a < |places| ==> places[a] < n
    ensures Ascending(places + [n])
  {
  }

  ghost predicate Holds(lines: seq<Bytes>, content: seq<Bytes>, places: seq<nat>) {
    && Ascending(places) && |places| == |content|
    && (forall i :: i in places <==> 0 <= i < |lines| && StripReturns(lines[i]) != [])
    && forall k :: 0 <= k < |content| ==> places[k] < |lines| && content[k] == StripReturns(lines[places[k]])
  }

  /** The content is the lines that hold something, each less its carriage returns. */
  lemma {:induction false} ContentByPlace(lines: seq<Bytes>) returns (places: seq<nat>)
    ensures Holds(lines, Content(lines), places)
  {
    places := [];
    if lines != [] {
      hide StripReturns;
      var f, n := Front(lines), |lines| - 1;
      places := ContentByPlace(f);
      assert forall i :: 0 <= i < n ==> f[i] == lines[i];
      if StripReturns(lines[n]) != [] {
        AscendingGrows(places, n);
        places := places + [n];
      }
    }
  }

  ghost predicate Trading(content: seq<Bytes>, number: Number, ts: seq<Trade>, places: seq<nat>) {
    && Ascending(places) && |places| == |ts|
    && (forall i :: i in places <==> 0 <= i < |content| && Parse(content[i], number).Good?)
    && forall k :: 0 <= k < |ts| ==> places[k] < |content| && ts[k].line == content[places[k]]
                                     && Parse(ts[k].line, number) == Good(ts[k].row)
  }

  lemma TradingGrows(content: seq<Bytes>, line: Bytes, number: Number, ts: seq<Trade>, places: seq<nat>)
    requires Trading(content, number, ts, places)
    ensures !Parse(line, number).Good? ==> Trading(content + [line], number, ts, places)
    ensures Parse(line, number).Good? ==>
      Trading(content + [line], number, ts + [Trade(line, Parse(line, number).row)], places + [|content|])
  {
    hide Parse;
    var c, n := content + [line], |content|;
    assert forall i :: 0 <= i < n ==> c[i] == content[i];
    assert forall a :: 0 <= a < |places| ==> places[a] in places;
    AscendingGrows(places, n);
  }

  /** The trades are the lines that parse, each with its row. */
  lemma {:induction false} TradesByPlace(content: seq<Bytes>, number: Number) returns (places: seq<nat>)
    ensures Trading(content, number, Trades(content, number), places)
  {
    hide Parse, Trading, Trades;
    places := [];
    if content == [] {
      NothingTrades(content, number);
    } else {
      var f, line := Front(content), Last(content);
      LinesExtend(f, line, number);
      assert content == f + [line] && Trades(f, number) + [] == Trades(f, number);
      places := TradesByPlace(f, number);
      TradingGrows(f, line, number, Trades(f, number), places);
      if Parse(line, number).Good? {
        places := places + [|f|];
      }
    }
  }

  lemma NothingTrades(content: seq<Bytes>, number: Number)
    requires content == []
    ensures Trading(content, number, Trades(content, number), [])
  {
  }

  /** The header is the fields of the one line before every row that is no row and follows
      bad sides alone; rows, malformed lines and the header account for every line. */
  lemma HeaderByPlace(r: Report, content: seq<Bytes>, number: Number)
    requires CountsLines(r, content, number)
    ensures r.header.None? <==> forall i: nat :: !Titles(content, number, i)
    ensures forall i: nat :: Titles(content, number, i) ==>
              && r.header.Some? && r.header.value != []
              && Join(r.header.value, (',' as int) as byte) == content[i]
              && forall j :: 0 <= j < |r.header.value| ==> (',' as int) as byte !in r.header.value[j]
    ensures r.rows + r.malformed + (if r.header.Some? then 1 else 0) == |content|
  {
    hide Split, Join, Parse, Header, Trades;
    HeaderIsFirst(content, number);
    forall i: nat | Titles(content, number, i)
      ensures r.header == Some(Split(content[i], COMMA)) && Join(Split(content[i], COMMA), COMMA) == content[i]
    {
      SplitJoins(content[i], COMMA);
    }
    forall i: nat | Titles(content, number, i)
      ensures forall j :: 0 <= j < |r.header.value| ==> COMMA !in r.header.value[j]
    {
      SplitJoins(content[i], COMMA);
    }
  }

  // ------------------------------------------------------------- neighbours

  /** An element and the one before it stand in a relation. */
  ghost predicate Stands<K(!new)>(s: seq<K>, r: (K, K) -> bool, i: int) { 0 < i < |s| && r(s[i - 1], s[i]) }

  ghost function Steps<K(!new)>(s: seq<K>, r: (K, K) -> bool): set<int> { set i | 0 < i < |s| && Stands(s, r, i) }

  lemma StepsNext<K(!new)>(s: seq<K>, r: (K, K) -> bool)
    requires s != []
    ensures |Steps(s, r)| == |Steps(Front(s), r)| + if Stands(s, r, |s| - 1) then 1 else 0
  {
    forall i | 0 < i < |s| - 1 ensures Stands(s, r, i) <==> Stands(Front(s), r, i) {
    }
    OneMore(Steps(Front(s), r), Steps(s, r), |s| - 1, Stands(s, r, |s| - 1));
  }

  lemma NoSteps<K(!new)>(s: seq<K>, r: (K, K) -> bool)
    requires |s| < 2
    ensures |Steps(s, r)| == 0
  {
    assert Steps(s, r) == {};
  }

  predicate Descends(a: int, b: int) { b < a }

  predicate Skips(a: int, b: int) { b > a + 1 }

  predicate Same<K(==)>(a: K, b: K) { a == b }

  lemma {:induction false} StepsCounted(s: seq<int>)
    ensures Regressions(s) == |Steps(s, Descends)| && Gaps(s) == |Steps(s, Skips)|
  {
    if |s| < 2 {
      NoSteps(s, Descends);
      NoSteps(s, Skips);
    } else {
      StepsCounted(Front(s));
      StepsNext(s, Descends);
      StepsNext(s, Skips);
      hide Steps;
    }
  }

  lemma {:induction false} TiesCounted<K(!new)>(s: seq<K>)
    ensures Ties(s) == |Steps(s, Same)|
  {
    if |s| < 2 {
      NoSteps(s, Same);
    } else {
      TiesCounted(Front(s));
      StepsNext(s, Same);
      hide Steps;
    }
  }

  predicate EarlierStamp(a: Trade, b: Trade) { b.row.stamp < a.row.stamp }

  predicate OneStamp(a: Trade, b: Trade) { a.row.stamp == b.row.stamp }

  predicate LowerId(a: Trade, b: Trade) { b.row.id < a.row.id }

  predicate OneId(a: Trade, b: Trade) { a.row.id == b.row.id }

  predicate SkippedId(a: Trade, b: Trade) { b.row.id > a.row.id + 1 }

  predicate OneLine(a: Trade, b: Trade) { a.line == b.line }

  /** A relation of rows that is one of a column's values steps where the column does. */
  lemma StepsOfColumn<K(!new)>(ts: seq<Trade>, q: (Trade, Trade) -> bool, column: seq<K>, r: (K, K) -> bool)
    requires |column| == |ts|
    requires forall i :: 0 < i < |ts| ==> (Stands(ts, q, i) <==> Stands(column, r, i))
    ensures Steps(ts, q) == Steps(column, r)
  {
  }

  /** The order and duplicate figures, by the rows that stand so to the row before. */
  lemma OrderByNeighbours(r: Report, ts: seq<Trade>)
    requires CountsOrder(r, ts)
    ensures r.timeRegressions == |Steps(ts, EarlierStamp)| && r.timeTies == |Steps(ts, OneStamp)|
    ensures r.idRegressions == |Steps(ts, LowerId)| && r.idTies == |Steps(ts, OneId)|
    ensures r.idGaps == |Steps(ts, SkippedId)| && r.duplicates == |Steps(ts, OneLine)|
    ensures ts != [] ==> r.firstTime == Some(ts[0].row.stamp) && r.lastTime == Some(ts[|ts| - 1].row.stamp)
  {
    hide Regressions, Gaps, Ties, TieRun, MaxTieRun, Steps;
    var stamps, ids, raws := Stamps(ts), Ids(ts), RawLines(ts);
    StepsCounted(stamps);
    StepsCounted(ids);
    TiesCounted(stamps);
    TiesCounted(ids);
    TiesCounted(raws);
    StepsOfColumn(ts, EarlierStamp, stamps, Descends);
    StepsOfColumn(ts, OneStamp, stamps, Same);
    StepsOfColumn(ts, LowerId, ids, Descends);
    StepsOfColumn(ts, OneId, ids, Same);
    StepsOfColumn(ts, SkippedId, ids, Skips);
    StepsOfColumn(ts, OneLine, raws, Same);
  }

  // ------------------------------------------------------------ the tallies

  /** Where a value stands. */
  ghost function Places(s: seq<nat>, k: nat): set<int> { set i | 0 <= i < |s| && s[i] == k }

  lemma PlacesNext(f: seq<nat>, n: nat, k: nat)
    ensures |Places(f + [n], k)| == |Places(f, k)| + if n == k then 1 else 0
  {
    var s := f + [n];
    assert s[|f|] == n && forall i :: 0 <= i < |f| ==> s[i] == f[i];
    OneMore(Places(f, k), Places(s, k), |f|, n == k);
  }

  lemma NoPlaces(k: nat)
    ensures |Places([], k)| == 0 && Tally([]) == map[] && HistOf([], 256) == map[]
  {
    assert Places([], k) == {};
  }

  lemma {:induction false} TallyAt(s: seq<nat>, k: nat)
    ensures Get(Tally(s), k) == |Places(s, k)|
  {
    hide Tally, Places;
    NoPlaces(k);
    if s != [] {
      TallyAt(Front(s), k);
      TallyAppend(Front(s), Last(s));
      PlacesNext(Front(s), Last(s), k);
      assert s == Front(s) + [Last(s)];
    }
  }

  /** What a histogram shows of a length: itself up to 256, and 257 for any more. */
  function Shown(length: nat): nat { if length <= 256 then length else 257 }

  function AllShown(runs: seq<nat>): seq<nat> { seq(|runs|, i requires 0 <= i < |runs| => Shown(runs[i])) }

  lemma {:induction false} HistAt(runs: seq<nat>, k: nat)
    ensures Get(HistOf(runs, 256), k) == |Places(AllShown(runs), k)|
    ensures k in HistOf(runs, 256) ==> Get(HistOf(runs, 256), k) > 0
  {
    hide HistOf, Places;
    NoPlaces(k);
    if runs == [] {
      assert AllShown(runs) == [];
    } else {
      var f, n := Front(runs), Last(runs);
      HistAt(f, k);
      HistAppend(f, n, 256);
      PlacesNext(AllShown(f), Shown(n), k);
      assert runs == f + [n] && AllShown(runs) == AllShown(f) + [Shown(n)];
    }
  }

  /** Each histogram gives, for a length up to 256, the number of runs of that length, and
      under 257 the number of longer ones; it holds no other entry. */
  lemma HistogramsByLength(r: Report, ts: seq<Trade>, k: nat)
    requires CountsGroups(r, ts)
    ensures Get(r.histSide, k) == |Places(AllShown(Runs(SideKeys(ts))), k)| && (k in r.histSide ==> r.histSide[k] > 0)
    ensures Get(r.histTime, k) == |Places(AllShown(Runs(Stamps(ts))), k)| && (k in r.histTime ==> r.histTime[k] > 0)
  {
    hide HistOf, Runs, Stamps, SideKeys, AllShown;
    HistAt(Runs(SideKeys(ts)), k);
    HistAt(Runs(Stamps(ts)), k);
  }

  /** The line is counted under its number of fields: it is not the header. */
  ghost predicate CountedAs(content: seq<Bytes>, number: Number, i: nat, k: nat) {
    i < |content| && !Titles(content, number, i) && |Split(content[i], (',' as int) as byte)| == k
  }

  lemma TitlesLast(content: seq<Bytes>, number: Number)
    requires content != []
    ensures var f := Front(content);
            Titles(content, number, |f|) <==>
              Header(f, number).None? && Trades(f, number) == [] && Parse(Last(content), number).NotNumeric?
  {
    var f, n := Front(content), |content| - 1;
    HeaderIsFirst(f, number);
    NoTrades(f, number);
    hide Parse, Header, Trades;
    assert forall j :: 0 <= j < n ==> f[j] == content[j];
    if Header(f, number).Some? {
      var i: nat :| Titles(f, number, i);
      assert Parse(content[i], number).NotNumeric?;
    } else if Trades(f, number) == [] {
      AllBadSides(f, number, n);
    }
  }

  lemma TitlesFront(content: seq<Bytes>, number: Number, i: nat)
    requires i < |content| - 1
    ensures Titles(content, number, i) <==> Titles(Front(content), number, i)
  {
    hide Parse;
    assert forall j :: 0 <= j <= i ==> Front(content)[j] == content[j];
  }

  /** The lines counted under a number of fields. */
  ghost function CountedUnder(content: seq<Bytes>, number: Number, k: nat): set<int> {
    set i: nat | i < |content| && CountedAs(content, number, i, k)
  }

  lemma CountedNext(content: seq<Bytes>, number: Number, k: nat)
    requires content != []
    ensures |CountedUnder(content, number, k)| == |CountedUnder(Front(content), number, k)| +
      if CountedAs(content, number, |content| - 1, k) then 1 else 0
  {
    hide Split, Titles;
    var f, n := Front(content), |content| - 1;
    forall i: nat | i < n ensures CountedAs(content, number, i, k) <==> CountedAs(f, number, i, k) {
      TitlesFront(content, number, i);
    }
    OneMore(CountedUnder(f, number, k), CountedUnder(content, number, k), n, CountedAs(content, number, n, k));
  }

  lemma ShapesNext(content: seq<Bytes>, number: Number, k: nat)
    requires content != []
    ensures Get(Tally(Shapes(content, number)), k) == Get(Tally(Shapes(Front(content), number)), k) +
      if CountedAs(content, number, |content| - 1, k) then 1 else 0
  {
    TitlesLast(content, number);
    hide Split, Tally, Titles, Parse, Header, Trades;
    TallyAppend(Shapes(Front(content), number), |Split(Last(content), COMMA)|);
  }

  lemma {:induction false} ShapesAt(content: seq<Bytes>, number: Number, k: nat)
    ensures Get(Tally(Shapes(content, number)), k) == |CountedUnder(content, number, k)|
  {
    if content == [] {
      assert CountedUnder(content, number, k) == {};
    } else {
      ShapesAt(Front(content), number, k);
      CountedNext(content, number, k);
      ShapesNext(content, number, k);
      hide Shapes, CountedAs, CountedUnder, Tally;
    }
  }

  /** The layout counts: for each number of fields the lines that have it, the header
      apart, and for each width the trades whose fifth field has it. */
  lemma LayoutByPlace(r: Report, content: seq<Bytes>, number: Number, k: nat)
    requires CountsLayout(r, content, number)
    ensures Get(r.fieldCounts, k) == |CountedUnder(content, number, k)|
    ensures var ts := Trades(content, number);
            Get(r.digitCounts, k) == |set i | 0 <= i < |ts| && StampOf(ts[i].line) != None
                                              && |StampOf(ts[i].line).value| == k|
  {
    hide Tally, Shapes, Split, Parse, Trades;
    ShapesAt(content, number, k);
    var ts := Trades(content, number);
    var places := TradesByPlace(content, number);
    forall i | 0 <= i < |ts| ensures StampOf(ts[i].line).Some? {
      GoodHasStamp(ts[i].line, number);
    }
    TallyAt(Widths(ts), k);
    assert (set i | 0 <= i < |ts| && StampOf(ts[i].line) != None && |StampOf(ts[i].line).value| == k)
        == Places(Widths(ts), k);
  }

  /** The fifth field of a line. */
  function StampOf(line: Bytes): Option<Bytes> {
    var fields := Split(line, (',' as int) as byte);
    if |fields| < 5 then None else Some(fields[4])
  }

  lemma GoodHasStamp(line: Bytes, number: Number)
    requires Parse(line, number).Good?
    ensures StampOf(line).Some?
  {
  }
}
