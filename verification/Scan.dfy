/** `analysis/preflight.py`: the single-pass scan of a trade archive and the percentile
    off a size histogram. How a field is read as a number is the parameter `number`. */
module Scan {
  import opened Prelude
  import opened Grouping
  import opened LineReader

  const RETURN: byte := 13
  const COMMA: byte := 44
  const IDX_ID: nat := 0
  const IDX_TIME: nat := 4
  const IDX_SIDE: nat := 5
  const HIST_CAP: nat := 256
  const FIELDS: nat := 7
  const MICROSECOND_DIGITS: nat := 16

  // ---------------------------------------------------------------- parsing

  datatype Row = Row(id: int, stamp: int, side: bool)

  datatype SideKey = SideKey(stamp: int, side: bool)

  datatype Parsed = NotNumeric | BadSide | Good(row: Row)

  datatype Trade = Trade(line: Bytes, row: Row)

  type Number = Bytes -> Option<int>

  function StripReturns(line: Bytes): Bytes {
    if line != [] && Last(line) == RETURN then StripReturns(Front(line)) else line
  }

  /** The two spellings of either truth value; anything else is no side. */
  function SideOf(text: Bytes): Option<bool> {
    if text == [84, 114, 117, 101] || text == [116, 114, 117, 101] then Some(true)
    else if text == [70, 97, 108, 115, 101] || text == [102, 97, 108, 115, 101] then Some(false)
    else None
  }

  function Parse(line: Bytes, number: Number): Parsed {
    var parts := Split(line, COMMA);
    if |parts| <= IDX_SIDE || number(parts[IDX_ID]).None? || number(parts[IDX_TIME]).None? then NotNumeric
    else match SideOf(parts[IDX_SIDE])
      case None => BadSide
      case Some(side) => Good(Row(number(parts[IDX_ID]).value, number(parts[IDX_TIME]).value, side))
  }

  /** The bytes of an ASCII text. */
  function Ascii(s: string): Bytes { seq(|s|, i requires 0 <= i < |s| => (s[i] as int % 256) as byte) }

  lemma SideSpellings(text: Bytes)
    ensures SideOf(text).None? <==> forall s :: s in {"True", "true", "False", "false"} ==> text != Ascii(s)
    ensures SideOf(text).Some? ==> (SideOf(text).value <==> text == Ascii("True") || text == Ascii("true"))
  {
    assert Ascii("True") == [84, 114, 117, 101] && Ascii("true") == [116, 114, 117, 101];
    assert Ascii("False") == [70, 97, 108, 115, 101] && Ascii("false") == [102, 97, 108, 115, 101];
  }

  /** The row read off a line, by the fields it was joined from: the first is the id, the
      fifth the stamp and the sixth the side. */
  lemma RowByColumns(fields: seq<Bytes>, number: Number)
    requires fields != [] && forall j :: 0 <= j < |fields| ==> (',' as int) as byte !in fields[j]
    ensures var p := Parse(Join(fields, (',' as int) as byte), number);
            && (p.NotNumeric? <==> |fields| < 6 || number(fields[0]).None? || number(fields[4]).None?)
            && (p.BadSide? <==>
                  !p.NotNumeric? && forall s :: s in {"True", "true", "False", "false"} ==> fields[5] != Ascii(s))
            && (p.Good? ==> p.row == Row(number(fields[0]).value, number(fields[4]).value,
                                         fields[5] == Ascii("True") || fields[5] == Ascii("true")))
  {
    hide SideOf, Join, Split, Ascii;
    SplitUnique(fields, COMMA);
    if |fields| >= 6 {
      SideSpellings(fields[5]);
    }
  }

  /** The lines that hold something once their carriage returns are stripped. */
  function Content(lines: seq<Bytes>): seq<Bytes> {
    if lines == [] then []
    else
      var line := StripReturns(Last(lines));
      Content(Front(lines)) + (if line == [] then [] else [line])
  }

  function Trades(content: seq<Bytes>, number: Number): seq<Trade> {
    if content == [] then []
    else
      var line := Last(content);
      var parsed := Parse(line, number);
      Trades(Front(content), number) + (if parsed.Good? then [Trade(line, parsed.row)] else [])
  }

  /** The first line that is no row, if it comes before every row. */
  function Header(content: seq<Bytes>, number: Number): Option<Bytes> {
    if content == [] then None
    else
      var h := Header(Front(content), number);
      if h.None? && Trades(Front(content), number) == [] && Parse(Last(content), number).NotNumeric?
      then Some(Last(content)) else h
  }

  ghost predicate Titles(content: seq<Bytes>, number: Number, i: nat) {
    && i < |content| && Parse(content[i], number).NotNumeric?
    && forall j :: 0 <= j < i ==> Parse(content[j], number).BadSide?
  }

  lemma {:induction false} NoTrades(content: seq<Bytes>, number: Number)
    ensures Trades(content, number) == [] <==> forall j :: 0 <= j < |content| ==> !Parse(content[j], number).Good?
  {
    if content != [] {
      NoTrades(Front(content), number);
      hide Parse;
      var n := |content| - 1;
      assert forall j :: 0 <= j < n ==> Front(content)[j] == content[j];
    }
  }

  /** The header is the one non-numeric line with nothing but bad sides before it. */
  lemma {:induction false} HeaderIsFirst(content: seq<Bytes>, number: Number)
    ensures Header(content, number).Some? <==> exists i: nat :: Titles(content, number, i)
    ensures forall i: nat :: Titles(content, number, i) ==> Header(content, number) == Some(content[i])
  {
    if content != [] {
      var f, n := Front(content), |content| - 1;
      HeaderIsFirst(f, number);
      NoTrades(f, number);
      hide Parse, Trades;
      assert forall j :: 0 <= j < n ==> f[j] == content[j];
      forall i: nat | i < n ensures Titles(content, number, i) <==> Titles(f, number, i) {
      }
      if Header(f, number).Some? {
        var i: nat :| Titles(f, number, i);
        assert Titles(content, number, i) && !Titles(content, number, n);
      } else if Trades(f, number) == [] {
        AllBadSides(f, number, n);
        assert Titles(content, number, n) <==> Parse(Last(content), number).NotNumeric?;
      } else {
        assert !Titles(content, number, n);
      }
    }
  }

  lemma {:induction false} AllBadSides(content: seq<Bytes>, number: Number, n: nat)
    requires n <= |content|
    requires forall i: nat :: !Titles(content, number, i)
    requires forall j :: 0 <= j < |content| ==> !Parse(content[j], number).Good?
    ensures forall j :: 0 <= j < n ==> Parse(content[j], number).BadSide?
  {
    hide Parse;
    if n > 0 {
      AllBadSides(content, number, n - 1);
      assert !Titles(content, number, n - 1);
    }
  }

  // ---------------------------------------------------- what the scan counts

  function Stamps(ts: seq<Trade>): seq<int> { seq(|ts|, i requires 0 <= i < |ts| => ts[i].row.stamp) }

  function Ids(ts: seq<Trade>): seq<int> { seq(|ts|, i requires 0 <= i < |ts| => ts[i].row.id) }

  function SideKeys(ts: seq<Trade>): seq<SideKey> {
    seq(|ts|, i requires 0 <= i < |ts| => SideKey(ts[i].row.stamp, ts[i].row.side))
  }

  function RawLines(ts: seq<Trade>): seq<Bytes> { seq(|ts|, i requires 0 <= i < |ts| => ts[i].line) }

  /** The number of descents between neighbours. */
  function Regressions(s: seq<int>): nat {
    if |s| < 2 then 0 else Regressions(Front(s)) + (if Last(s) < s[|s| - 2] then 1 else 0)
  }

  /** The number of ascents by more than one between neighbours. */
  function Gaps(s: seq<int>): nat {
    if |s| < 2 then 0 else Gaps(Front(s)) + (if Last(s) - s[|s| - 2] > 1 then 1 else 0)
  }

  /** The tie counter as the loop keeps it: reset by an ascent, not by a descent. */
  function TieRun(s: seq<int>): nat {
    if |s| < 2 then 0
    else if Last(s) == s[|s| - 2] then TieRun(Front(s)) + 1
    else if Last(s) < s[|s| - 2] then TieRun(Front(s))
    else 0
  }

  function MaxTieRun(s: seq<int>): nat {
    if s == [] then 0 else Max(MaxTieRun(Front(s)), TieRun(s))
  }

  datatype Report = Report(
    rows: nat, malformed: nat, header: Option<seq<Bytes>>,
    firstTime: Option<int>, lastTime: Option<int>,
    timeRegressions: nat, timeTies: nat, maxTieRun: nat,
    idRegressions: nat, idTies: nat, idGaps: nat, duplicates: nat,
    parentsSide: nat, histSide: map<nat, nat>, parentsTime: nat, histTime: map<nat, nat>,
    fieldCounts: map<nat, nat>, digitCounts: map<nat, nat>)

  ghost predicate CountsLines(r: Report, content: seq<Bytes>, number: Number) {
    && r.rows == |Trades(content, number)|
    && r.rows + r.malformed + (if Header(content, number).Some? then 1 else 0) == |content|
    && (Header(content, number).None? ==> r.header.None?)
    && (Header(content, number).Some? ==> r.header == Some(Split(Header(content, number).value, COMMA)))
  }

  /** The field counts of every line but the header. */
  function Shapes(content: seq<Bytes>, number: Number): seq<nat> {
    if content == [] then []
    else
      var f, line := Front(content), Last(content);
      if Header(f, number).None? && Trades(f, number) == [] && Parse(line, number).NotNumeric?
      then Shapes(f, number) else Shapes(f, number) + [|Split(line, COMMA)|]
  }

  function StampWidth(line: Bytes): nat {
    var parts := Split(line, COMMA);
    if IDX_TIME < |parts| then |parts[IDX_TIME]| else 0
  }

  /** The stamp widths of the trades. */
  function Widths(ts: seq<Trade>): seq<nat> {
    seq(|ts|, i requires 0 <= i < |ts| => StampWidth(ts[i].line))
  }

  ghost predicate CountsLayout(r: Report, content: seq<Bytes>, number: Number) {
    r.fieldCounts == Tally(Shapes(content, number)) && r.digitCounts == Tally(Widths(Trades(content, number)))
  }

  ghost predicate CountsOrder(r: Report, ts: seq<Trade>) {
    && r.firstTime == (if ts == [] then None else Some(ts[0].row.stamp))
    && r.lastTime == (if ts == [] then None else Some(Last(ts).row.stamp))
    && r.timeRegressions == Regressions(Stamps(ts)) && r.timeTies == Ties(Stamps(ts))
    && r.maxTieRun == (if MaxTieRun(Stamps(ts)) == 0 then 0 else MaxTieRun(Stamps(ts)) + 1)
    && r.idRegressions == Regressions(Ids(ts)) && r.idTies == Ties(Ids(ts)) && r.idGaps == Gaps(Ids(ts))
    && r.duplicates == Ties(RawLines(ts))
  }

  ghost predicate CountsGroups(r: Report, ts: seq<Trade>) {
    && r.parentsSide == |Runs(SideKeys(ts))| && r.histSide == HistOf(Runs(SideKeys(ts)), HIST_CAP)
    && r.parentsTime == |Runs(Stamps(ts))| && r.histTime == HistOf(Runs(Stamps(ts)), HIST_CAP)
  }

  /** The whole report is that of the content. */
  ghost predicate Reports(r: Report, content: seq<Bytes>, number: Number) {
    && CountsLines(r, content, number) && CountsLayout(r, content, number)
    && CountsOrder(r, Trades(content, number)) && CountsGroups(r, Trades(content, number))
  }

  lemma {:induction false} TiesExtend<K>(keys: seq<K>, k: K)
    ensures Ties(keys + [k]) == Ties(keys) + (if keys != [] && Last(keys) == k then 1 else 0)
  {
    assert (keys + [k])[..|keys|] == keys;
  }

  lemma {:induction false} OrderExtend(s: seq<int>, x: int)
    ensures Regressions(s + [x]) == Regressions(s) + (if s != [] && x < Last(s) then 1 else 0)
    ensures Gaps(s + [x]) == Gaps(s) + (if s != [] && x - Last(s) > 1 then 1 else 0)
    ensures TieRun(s + [x]) ==
      if s == [] then 0 else if x == Last(s) then TieRun(s) + 1 else if x < Last(s) then TieRun(s) else 0
    ensures MaxTieRun(s + [x]) == Max(MaxTieRun(s), TieRun(s + [x]))
  {
    assert Front(s + [x]) == s;
  }

  function LastOf<T>(s: seq<T>): Option<T> { if s == [] then None else Some(Last(s)) }

  /** The columns of the trades, side by side. */
  ghost predicate Columns(ts: seq<Trade>, stamps: seq<int>, ids: seq<int>, keys: seq<SideKey>, raws: seq<Bytes>) {
    stamps == Stamps(ts) && ids == Ids(ts) && keys == SideKeys(ts) && raws == RawLines(ts)
  }

  lemma {:induction false} ColumnsExtend(
      ts: seq<Trade>, t: Trade, stamps: seq<int>, ids: seq<int>, keys: seq<SideKey>, raws: seq<Bytes>)
    requires Columns(ts, stamps, ids, keys, raws)
    ensures Columns(ts + [t], stamps + [t.row.stamp], ids + [t.row.id],
                    keys + [SideKey(t.row.stamp, t.row.side)], raws + [t.line])
  {
  }

  lemma {:induction false} LinesExtend(content: seq<Bytes>, line: Bytes, number: Number)
    ensures Trades(content + [line], number) == Trades(content, number) +
      (if Parse(line, number).Good? then [Trade(line, Parse(line, number).row)] else [])
    ensures Header(content + [line], number) ==
      if Header(content, number).None? && Trades(content, number) == [] && Parse(line, number).NotNumeric?
      then Some(line) else Header(content, number)
  {
    assert Front(content + [line]) == content;
  }

  lemma {:induction false} ContentExtend(lines: seq<Bytes>, i: nat)
    requires i < |lines|
    ensures Content(lines[..i + 1]) ==
      Content(lines[..i]) + (if StripReturns(lines[i]) == [] then [] else [StripReturns(lines[i])])
  {
    assert Front(lines[..i + 1]) == lines[..i];
  }

  // ------------------------------------------------------------- the one pass

  datatype TimeCounts = TimeCounts(first: Option<int>, prev: Option<int>, regressions: nat, ties: nat,
      run: nat, longest: nat)

  datatype IdCounts = IdCounts(prev: Option<int>, regressions: nat, ties: nat, gaps: nat)

  /** The tallies with the expected shape and width kept aside until the end. */
  datatype LayoutCounts = LayoutCounts(
    fields: map<nat, nat>, fieldsExpected: nat, digits: map<nat, nat>, digitsExpected: nat)

  function Merged(h: map<nat, nat>, k: nat, n: nat): map<nat, nat> { if n == 0 then h else h[k := Get(h, k) + n] }

  lemma MergedCounts(h: map<nat, nat>, k: nat, n: nat, j: nat)
    ensures Merged(Bump(h, j), k, n) == Bump(Merged(h, k, n), j)
    ensures Merged(h, k, n + 1) == Bump(Merged(h, k, n), k)
  {
  }

  ghost predicate LayoutCounted(content: seq<Bytes>, number: Number, c: LayoutCounts) {
    && Merged(c.fields, FIELDS, c.fieldsExpected) == Tally(Shapes(content, number))
    && Merged(c.digits, MICROSECOND_DIGITS, c.digitsExpected) == Tally(Widths(Trades(content, number)))
  }

  datatype GroupCounts<K> = GroupCounts(key: Option<K>, size: nat, parents: nat, hist: map<nat, nat>)

  ghost predicate TimesCounted(stamps: seq<int>, c: TimeCounts) {
    && c.first == (if stamps == [] then None else Some(stamps[0])) && c.prev == LastOf(stamps)
    && c.regressions == Regressions(stamps) && c.ties == Ties(stamps)
    && c.run == TieRun(stamps) && c.longest == MaxTieRun(stamps)
  }

  ghost predicate IdsCounted(ids: seq<int>, c: IdCounts) {
    c.prev == LastOf(ids) && c.regressions == Regressions(ids) && c.ties == Ties(ids) && c.gaps == Gaps(ids)
  }

  ghost predicate GroupsCounted<K>(keys: seq<K>, c: GroupCounts<K>) {
    c.key == LastOf(keys) && Tracked(keys, c.size, c.parents, c.hist, HIST_CAP)
  }

  lemma {:induction false} TieRunBounded(s: seq<int>)
    ensures TieRun(s) <= MaxTieRun(s)
    ensures s == [] ==> MaxTieRun(s) == 0
  {
    if s != [] {
      assert MaxTieRun(s) == Max(MaxTieRun(Front(s)), TieRun(s));
    }
  }

  /** A row's stamp against the one before it. */
  method CountStamp(ghost stamps: seq<int>, c: TimeCounts, stamp: int) returns (c': TimeCounts)
    requires TimesCounted(stamps, c)
    ensures TimesCounted(stamps + [stamp], c')
  {
    OrderExtend(stamps, stamp);
    TiesExtend(stamps, stamp);
    TieRunBounded(stamps);
    hide Regressions, Ties, TieRun, MaxTieRun;
    c' := c.(prev := Some(stamp));
    if c.first.None? {
      c' := c'.(first := Some(stamp));
    }
    if c.prev.Some? {
      if stamp < c.prev.value {
        c' := c'.(regressions := c.regressions + 1);
      } else if stamp == c.prev.value {
        c' := c'.(ties := c.ties + 1, run := c.run + 1);
        if c'.run > c.longest {
          c' := c'.(longest := c'.run);
        }
      } else {
        c' := c'.(run := 0);
      }
    }
  }

  /** A row's id against the one before it. */
  method CountId(ghost ids: seq<int>, c: IdCounts, id: int) returns (c': IdCounts)
    requires IdsCounted(ids, c)
    ensures IdsCounted(ids + [id], c')
  {
    OrderExtend(ids, id);
    TiesExtend(ids, id);
    hide Regressions, Ties, Gaps;
    c' := c.(prev := Some(id));
    if c.prev.Some? {
      if id < c.prev.value {
        c' := c'.(regressions := c.regressions + 1);
      } else if id == c.prev.value {
        c' := c'.(ties := c.ties + 1);
      } else if id - c.prev.value > 1 {
        c' := c'.(gaps := c.gaps + 1);
      }
    }
  }

  lemma {:induction false} LayoutExtend(content: seq<Bytes>, line: Bytes, number: Number)
    ensures Header(content, number).None? && Trades(content, number) == [] && Parse(line, number).NotNumeric? ==>
      Shapes(content + [line], number) == Shapes(content, number)
    ensures !(Header(content, number).None? && Trades(content, number) == [] && Parse(line, number).NotNumeric?) ==>
      Shapes(content + [line], number) == Shapes(content, number) + [|Split(line, COMMA)|]
    ensures Widths(Trades(content + [line], number)) ==
      Widths(Trades(content, number)) + (if Parse(line, number).Good? then [StampWidth(line)] else [])
  {
    assert Front(content + [line]) == content;
    LinesExtend(content, line, number);
    hide Parse, Split, Header, Trades, StampWidth;
  }

  /** A line that is no header against the layout. */
  method CountLayout(ghost content: seq<Bytes>, number: Number, c: LayoutCounts, line: Bytes, isRow: bool)
    returns (c': LayoutCounts)
    requires LayoutCounted(content, number, c) && isRow == Parse(line, number).Good?
    requires !(Header(content, number).None? && Trades(content, number) == [] && Parse(line, number).NotNumeric?)
    ensures LayoutCounted(content + [line], number, c')
  {
    hide Parse, Split, Header, Trades, Shapes, Widths, Tally, Bump, Merged;
    LayoutExtend(content, line, number);
    var parts := Split(line, COMMA);
    TallyAppend(Shapes(content, number), |parts|);
    TallyAppend(Widths(Trades(content, number)), StampWidth(line));
    MergedCounts(c.fields, FIELDS, c.fieldsExpected, |parts|);
    MergedCounts(c.digits, MICROSECOND_DIGITS, c.digitsExpected, StampWidth(line));
    assert Widths(Trades(content, number)) + [] == Widths(Trades(content, number));
    c' := c;
    if isRow && |parts| == FIELDS {
      c' := c'.(fieldsExpected := c.fieldsExpected + 1);
    } else {
      c' := c'.(fields := Bump(c.fields, |parts|));
    }
    if isRow {
      if StampWidth(line) == MICROSECOND_DIGITS {
        c' := c'.(digitsExpected := c.digitsExpected + 1);
      } else {
        c' := c'.(digits := Bump(c.digits, StampWidth(line)));
      }
    }
  }

  /** A row's key against the open group: one step of either grouping rule. */
  method CountKey<K(==)>(ghost keys: seq<K>, c: GroupCounts<K>, k: K) returns (c': GroupCounts<K>)
    requires GroupsCounted(keys, c)
    ensures GroupsCounted(keys + [k], c')
  {
    hide Tracked, Group, HistOf;
    TrackerStep(keys, k, c.size, c.parents, c.hist, HIST_CAP);
    var size, parents, hist := c.size, c.parents, c.hist;
    if c.key != Some(k) {
      if size != 0 {
        parents := parents + 1;
        hist := Bump(hist, Bucket(size, HIST_CAP));
      }
      size := 0;
    }
    c' := GroupCounts(Some(k), size + 1, parents, hist);
  }

  /** Closing the open group when the rows end. */
  method CloseGroup<K>(ghost keys: seq<K>, c: GroupCounts<K>) returns (parents: nat, hist: map<nat, nat>)
    requires GroupsCounted(keys, c)
    ensures parents == |Runs(keys)| && hist == HistOf(Runs(keys), HIST_CAP)
  {
    hide Tracked, Group, HistOf;
    TrackerClose(keys, c.size, c.parents, c.hist, HIST_CAP);
    parents, hist := c.parents, c.hist;
    if c.size != 0 {
      parents := parents + 1;
      hist := Bump(hist, Bucket(c.size, HIST_CAP));
    }
  }

  lemma TitleKeepsLayout(content: seq<Bytes>, line: Bytes, number: Number, c: LayoutCounts)
    requires LayoutCounted(content, number, c)
    requires Header(content, number).None? && Trades(content, number) == [] && Parse(line, number).NotNumeric?
    ensures LayoutCounted(content + [line], number, c)
  {
    LayoutExtend(content, line, number);
    hide Parse, Split, Header, Trades, Shapes, Widths, Tally, Merged;
    assert Widths(Trades(content, number)) + [] == Widths(Trades(content, number));
  }

  lemma LayoutDone(content: seq<Bytes>, number: Number, c: LayoutCounts, r: Report)
    requires LayoutCounted(content, number, c)
    requires r.fieldCounts == Merged(c.fields, FIELDS, c.fieldsExpected)
    requires r.digitCounts == Merged(c.digits, MICROSECOND_DIGITS, c.digitsExpected)
    ensures CountsLayout(r, content, number)
  {
    hide Parse, Split, Header, Trades, Shapes, Widths, Tally, Merged;
  }

  lemma {:induction false} NothingRead(number: Number)
    ensures LayoutCounted([], number, LayoutCounts(map[], 0, map[], 0))
    ensures Content([]) == [] && Trades([], number) == [] && Header([], number).None?
    ensures Columns([], [], [], [], []) && Ties<Bytes>([]) == 0
    ensures TimesCounted([], TimeCounts(None, None, 0, 0, 0, 0)) && IdsCounted([], IdCounts(None, 0, 0, 0))
    ensures GroupsCounted<SideKey>([], GroupCounts(None, 0, 0, map[]))
        && GroupsCounted<int>([], GroupCounts(None, 0, 0, map[]))
  {
  }

  /** `scan`: one pass over the lines, the running scalars held in records. */
  method ScanLines(lines: seq<Bytes>, number: Number) returns (r: Report)
    ensures Reports(r, Content(lines), number)
  {
    hide Parse, Split, StripReturns, Trades, Header, Content, Columns, TimesCounted, IdsCounted, GroupsCounted, Ties,
      Group, HistOf, CountsOrder, CountsGroups, Shapes, Widths, Tally, Merged, LayoutCounted, CountsLayout;
    var rows, malformed, duplicates := 0, 0, 0;
    var header: Option<seq<Bytes>>, prevRaw: Option<Bytes> := None, None;
    var times, idents := TimeCounts(None, None, 0, 0, 0, 0), IdCounts(None, 0, 0, 0);
    var bySide: GroupCounts<SideKey> := GroupCounts(None, 0, 0, map[]);
    var byTime: GroupCounts<int> := GroupCounts(None, 0, 0, map[]);
    var layout := LayoutCounts(map[], 0, map[], 0);
    ghost var content: seq<Bytes>, ts: seq<Trade> := [], [];
    ghost var stamps: seq<int>, ids: seq<int>, keys: seq<SideKey>, raws: seq<Bytes> := [], [], [], [];
    var i := 0;
    NothingRead(number);
    assert lines[..0] == [];
    while i < |lines|
      invariant 0 <= i <= |lines|
      invariant content == Content(lines[..i]) && ts == Trades(content, number)
      invariant rows == |ts| && rows + malformed + (if header.Some? then 1 else 0) == |content|
      invariant header.Some? <==> Header(content, number).Some?
      invariant header.Some? ==> header.value == Split(Header(content, number).value, COMMA)
      invariant LayoutCounted(content, number, layout)
      invariant Columns(ts, stamps, ids, keys, raws)
      invariant TimesCounted(stamps, times) && IdsCounted(ids, idents)
      invariant GroupsCounted(keys, bySide) && GroupsCounted(stamps, byTime)
      invariant duplicates == Ties(raws) && prevRaw == LastOf(raws)
    {
      ContentExtend(lines, i);
      var line := StripReturns(lines[i]);
      i := i + 1;
      if line == [] {
        continue;
      }
      LinesExtend(content, line, number);
      var parsed := Parse(line, number);
      if parsed.NotNumeric? && header.None? && rows == 0 {
        TitleKeepsLayout(content, line, number, layout);
        header := Some(Split(line, COMMA));
        content := content + [line];
        continue;
      }
      layout := CountLayout(content, number, layout, line, parsed.Good?);
      content := content + [line];
      if !parsed.Good? {
        malformed := malformed + 1;
        continue;
      }
      var row := parsed.row;
      rows := rows + 1;
      TiesExtend(raws, line);
      if Some(line) == prevRaw {
        duplicates := duplicates + 1;
      }
      prevRaw := Some(line);
      times := CountStamp(stamps, times, row.stamp);
      idents := CountId(ids, idents, row.id);
      bySide := CountKey(keys, bySide, SideKey(row.stamp, row.side));
      byTime := CountKey(stamps, byTime, row.stamp);

      ColumnsExtend(ts, Trade(line, row), stamps, ids, keys, raws);
      ts := ts + [Trade(line, row)];
      stamps, ids := stamps + [row.stamp], ids + [row.id];
      keys, raws := keys + [SideKey(row.stamp, row.side)], raws + [line];
    }
    assert lines[..|lines|] == lines;
    var parentsSide, histSide := CloseGroup(keys, bySide);
    var parentsTime, histTime := CloseGroup(stamps, byTime);
    r := Report(rows, malformed, header, times.first, times.prev, times.regressions, times.ties,
                if times.longest == 0 then 0 else times.longest + 1,
                idents.regressions, idents.ties, idents.gaps, duplicates,
                parentsSide, histSide, parentsTime, histTime,
                Merged(layout.fields, FIELDS, layout.fieldsExpected),
                Merged(layout.digits, MICROSECOND_DIGITS, layout.digitsExpected));
    LayoutDone(content, number, layout, r);
    Assembled(ts, stamps, ids, keys, raws, times, idents, r);
  }

  lemma {:induction false} Assembled(
      ts: seq<Trade>, stamps: seq<int>, ids: seq<int>, keys: seq<SideKey>, raws: seq<Bytes>,
      times: TimeCounts, idents: IdCounts, r: Report)
    requires Columns(ts, stamps, ids, keys, raws) && TimesCounted(stamps, times) && IdsCounted(ids, idents)
    requires r.firstTime == times.first && r.lastTime == times.prev
    requires r.timeRegressions == times.regressions && r.timeTies == times.ties
    requires r.maxTieRun == if times.longest == 0 then 0 else times.longest + 1
    requires r.idRegressions == idents.regressions && r.idTies == idents.ties && r.idGaps == idents.gaps
    requires r.duplicates == Ties(raws)
    requires r.parentsSide == |Runs(keys)| && r.histSide == HistOf(Runs(keys), HIST_CAP)
    requires r.parentsTime == |Runs(stamps)| && r.histTime == HistOf(Runs(stamps), HIST_CAP)
    ensures CountsOrder(r, ts) && CountsGroups(r, ts)
  {
    hide Regressions, Gaps, TieRun, MaxTieRun, Ties, Group, HistOf;
  }
}
