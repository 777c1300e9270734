/** What an event is, by the rows in it, and the summary of one short list of events,
    figure by figure. */
module EventFigures {
  import opened Prelude
  import opened Grouping
  import opened EventStats
  import Scan
  import ScanResults
  import A = AutoCorrelation

  // ------------------------------------------------------------- the cut

  /** Two rows of one instant and, where sides count, of one side. */
  predicate Alike<P(==)>(a: Row<P>, b: Row<P>, withSide: bool) {
    a.stamp == b.stamp && (withSide ==> a.side == b.side)
  }

  /** The rows in order, cut exactly between neighbours that are not alike. */
  ghost predicate CutWhereUnlike<P(!new)>(rows: seq<Row<P>>, withSide: bool, events: seq<Event<P>>) {
    && Flat(events) == rows
    && (forall k :: 0 <= k < |events| ==> events[k] != [])
    && (forall k, i :: 0 <= k < |events| && 0 <= i < |events[k]| ==> Alike(events[k][0], events[k][i], withSide))
    && (forall k :: 0 < k < |events| ==> !Alike(events[k - 1][0], events[k][0], withSide))
  }

  ghost predicate Keyed<P(!new)>(events: seq<Event<P>>, withSide: bool, heads: seq<Scan.SideKey>) {
    && |events| == |heads|
    && forall k :: 0 <= k < |events| ==>
         events[k] != [] && forall i :: 0 <= i < |events[k]| ==> Key(events[k][i], withSide) == heads[k]
  }

  lemma {:induction false} KeyedUnrolls<P(!new)>(events: seq<Event<P>>, withSide: bool, heads: seq<Scan.SideKey>)
    requires |events| == |heads| && Keyed(events, withSide, heads)
    ensures |heads| == |Sizes(events)| && Keys(Flat(events), withSide) == Unroll(heads, Sizes(events))
  {
    hide Keys, Key, Keyed, Flat, Unroll, Sizes;
    if events == [] {
      NothingUnrolled(events, withSide, heads);
    } else {
      var f, e, k := Front(events), Last(events), Last(heads);
      KeyedFront(events, withSide, heads);
      KeyedUnrolls(f, withSide, Front(heads));
      ColumnsExtend(f, e);
      FlatAppend(f, e);
      KeysJoin(Flat(f), e, withSide, k);
      UnrollAppend(Front(heads), Sizes(f), k, |e|);
      assert events == f + [e] && heads == Front(heads) + [k];
    }
  }

  lemma NothingUnrolled<P(!new)>(events: seq<Event<P>>, withSide: bool, heads: seq<Scan.SideKey>)
    requires events == [] && heads == []
    ensures |heads| == |Sizes(events)| && Keys(Flat(events), withSide) == Unroll(heads, Sizes(events))
  {
    assert Flat(events) == [] && Keys(Flat(events), withSide) == [];
  }

  lemma KeyedFront<P(!new)>(events: seq<Event<P>>, withSide: bool, heads: seq<Scan.SideKey>)
    requires events != [] && Keyed(events, withSide, heads)
    ensures |Sizes(Front(events))| == |events| - 1 == |heads| - 1
    ensures Keyed(Front(events), withSide, Front(heads))
    ensures forall i :: 0 <= i < |Last(events)| ==> Key(Last(events)[i], withSide) == Last(heads)
  {
    hide Key;
  }

  lemma KeysJoin<P>(rows: seq<Row<P>>, e: Event<P>, withSide: bool, k: Scan.SideKey)
    requires forall i :: 0 <= i < |e| ==> Key(e[i], withSide) == k
    ensures Keys(rows + e, withSide) == Keys(rows, withSide) + Repeat(k, |e|)
  {
    hide Key;
  }

  lemma KeyedGrows<P(!new)>(
      events: seq<Event<P>>, withSide: bool, heads: seq<Scan.SideKey>, e: Event<P>, k: Scan.SideKey)
    requires Keyed(events, withSide, heads)
    requires e != [] && forall i :: 0 <= i < |e| ==> Key(e[i], withSide) == k
    ensures Keyed(events + [e], withSide, heads + [k])
  {
    hide Key;
  }

  /** The keys of rows cut in two. */
  lemma KeysCut<P>(rows: seq<Row<P>>, withSide: bool, before: seq<Scan.SideKey>, k: Scan.SideKey, n: nat)
    requires Keys(rows, withSide) == before + Repeat(k, n)
    ensures |rows| == |before| + n && Keys(rows[..|before|], withSide) == before
    ensures forall i :: 0 <= i < n ==> Key(rows[|before|..][i], withSide) == k
  {
    hide Key;
    var keys := Keys(rows, withSide);
    assert |keys| == |rows|;
    assert forall i :: 0 <= i < |before| ==> keys[i] == before[i];
    forall i | 0 <= i < n ensures Key(rows[|before|..][i], withSide) == k {
      assert keys[|before| + i] == Repeat(k, n)[i];
    }
  }

  lemma {:induction false} SlicesKeyed<P(!new)>(
      rows: seq<Row<P>>, withSide: bool, heads: seq<Scan.SideKey>, runs: seq<nat>)
    requires Canonical(heads, runs) && |heads| == |runs| && Keys(rows, withSide) == Unroll(heads, runs)
    ensures Grouping.Sum(runs) == |rows| && Keyed(Slices(rows, runs), withSide, heads)
    decreases |runs|
  {
    hide Canonical, Unroll, Keys, Key, Keyed, Slices, Grouping.Sum;
    if runs == [] {
      NothingKeyed(rows, withSide, heads, runs);
    } else {
      CodeUnfolds(heads, runs);
      var h, r := Front(heads), Front(runs);
      var before := Unroll(h, r);
      KeysCut(rows, withSide, before, Last(heads), Last(runs));
      SlicesKeyed(rows[..|before|], withSide, h, r);
      SumAppend(r, Last(runs));
      assert runs == r + [Last(runs)] && heads == h + [Last(heads)];
      SlicesUnfold(rows, runs);
      KeyedGrows(Slices(rows[..|before|], r), withSide, h, rows[|before|..], Last(heads));
    }
  }

  lemma NothingKeyed<P(!new)>(rows: seq<Row<P>>, withSide: bool, heads: seq<Scan.SideKey>, runs: seq<nat>)
    requires runs == [] && Canonical(heads, runs) && Keys(rows, withSide) == Unroll(heads, runs)
    ensures Grouping.Sum(runs) == |rows| && Keyed(Slices(rows, runs), withSide, heads)
  {
    hide Key;
  }

  lemma CodeUnfolds(heads: seq<Scan.SideKey>, runs: seq<nat>)
    requires runs != [] && Canonical(heads, runs)
    ensures heads != [] && |heads| == |runs| && Last(runs) >= 1 && Canonical(Front(heads), Front(runs))
    ensures Unroll(heads, runs) == Unroll(Front(heads), Front(runs)) + Repeat(Last(heads), Last(runs))
  {
  }

  /** The events of a stream are its rows cut exactly where neighbours are not alike. */
  lemma EventsCutWhereUnlike<P(!new)>(rows: seq<Row<P>>, withSide: bool, events: seq<Event<P>>)
    ensures events == Events(rows, withSide) <==> CutWhereUnlike(rows, withSide, events)
  {
    var keys := Keys(rows, withSide);
    RunsSum(keys);
    hide Slices, Flat, Group, Unroll, Key, Alike;
    if events == Events(rows, withSide) {
      RunsEncode(keys);
      SlicesKeyed(rows, withSide, Group(keys).heads, Runs(keys));
      EventsHave(rows, withSide);
      KeyedCut(rows, withSide, events, Group(keys).heads);
    }
    if CutWhereUnlike(rows, withSide, events) {
      var heads := CutKeyed(rows, withSide, events);
      KeyedUnrolls(events, withSide, heads);
      RunsAreMaximal(keys, Sizes(events));
      SlicesOfFlat(events);
    }
  }

  lemma KeyedCut<P(!new)>(rows: seq<Row<P>>, withSide: bool, events: seq<Event<P>>, heads: seq<Scan.SideKey>)
    requires Keyed(events, withSide, heads) && Flat(events) == rows
    requires forall j :: 0 < j < |heads| ==> heads[j - 1] != heads[j]
    ensures CutWhereUnlike(rows, withSide, events)
  {
    hide Flat;
  }

  lemma CutKeyed<P(!new)>(rows: seq<Row<P>>, withSide: bool, events: seq<Event<P>>) returns (heads: seq<Scan.SideKey>)
    requires CutWhereUnlike(rows, withSide, events)
    ensures Keyed(events, withSide, heads) && Canonical(heads, Sizes(events))
  {
    heads := seq(|events|, k requires 0 <= k < |events| => Key(events[k][0], withSide));
  }

  // ------------------------------------------------------------- the figures

  /** The gaps counted as short are those of more than none and less than a second. */
  lemma {:induction false} ShortIsSubsecond(us: seq<int>, d: int)
    ensures multiset(Short(us))[d] == if 0 < d < 1_000_000 then multiset(us)[d] else 0
  {
    hide Short;
    if us == [] {
      NoneShort();
    } else {
      var f, x := Front(us), Last(us);
      ShortIsSubsecond(f, d);
      GapFolds(f, x);
      assert us == f + [x] && multiset(us) == multiset(f) + multiset{x};
      assert multiset(Short(f) + [x]) == multiset(Short(f)) + multiset{x};
    }
  }

  lemma NoneShort()
    ensures Short([]) == []
  {
  }

  /** Four events of three, two, one and one row. */
  function Sample(): seq<Event<int>> {
    [[Row(0, true, 7), Row(0, true, 7), Row(0, true, 8)],
     [Row(250_000, false, 9), Row(250_000, false, 9)],
     [Row(1_250_000, false, 9)],
     [Row(1_750_000, true, 9)]]
  }

  lemma SampleColumns()
    ensures Sizes(Sample()) == [3, 2, 1, 1] && Levels(Sample()) == [2, 1, 1, 1]
    ensures StampsOf(Sample()) == [0, 250_000, 1_250_000, 1_750_000]
  {
    forall k | 0 <= k < 4 ensures Prices(Sample()[k]) == if k == 0 then {7, 8} else {9} {
      var e := Sample()[k];
      assert e[0].price in Prices(e) && e[|e| - 1].price in Prices(e);
    }
  }

  lemma SampleGaps()
    ensures Deltas([0, 250_000, 1_250_000, 1_750_000]) == [250_000, 1_000_000, 500_000]
    ensures InSeconds([250_000, 1_000_000, 500_000]) == [0.25, 1.0, 0.5]
    ensures Squares([0.25, 1.0, 0.5]) == 1.3125
    ensures Short([250_000, 1_000_000, 500_000]) == [250_000, 500_000]
    ensures IntTotal([250_000, 500_000]) == 750_000
  {
    DeltasExtend([0, 250_000, 1_250_000], 1_750_000);
  }

  lemma NoSizes()
    ensures Grouping.Sum([]) == 0 && Ones([]) == 0 && Longest([]) == 0 && Tally([]) == map[]
  {
  }

  lemma SampleSizes()
    ensures Grouping.Sum([3, 2, 1, 1]) == 7 && Ones([3, 2, 1, 1]) == 2 && Longest([3, 2, 1, 1]) == 3
    ensures Tally([3, 2, 1, 1]) == map[1 := 2, 2 := 1, 3 := 1]
  {
    hide Grouping.Sum, Ones, Longest, Tally;
    NoSizes();
    SizeFolds([], 3);
    SizeFolds([3], 2);
    SizeFolds([3, 2], 1);
    SizeFolds([3, 2, 1], 1);
    assert [] + [3] == [3] && [3] + [2] == [3, 2] && [3, 2] + [1] == [3, 2, 1] && [3, 2, 1] + [1] == [3, 2, 1, 1];
  }

  lemma SampleLevels()
    ensures Grouping.Sum([2, 1, 1, 1]) == 5 && Ones([2, 1, 1, 1]) == 3
  {
    hide Grouping.Sum, Ones, Longest, Tally;
    NoSizes();
    SizeFolds([], 2);
    SizeFolds([2], 1);
    SizeFolds([2, 1], 1);
    SizeFolds([2, 1, 1], 1);
    assert [] + [2] == [2] && [2] + [1] == [2, 1] && [2, 1] + [1] == [2, 1, 1] && [2, 1, 1] + [1] == [2, 1, 1, 1];
  }

  lemma SampleRank(r: nat)
    requires ScanResults.Ranked(map[1 := 2, 2 := 1, 3 := 1], Rank95(4) as real, r)
    ensures r == 3
  {
    var h: map<nat, nat> := map[1 := 2, 2 := 1, 3 := 1];
    assert Rank95(4) == 4;
    assert Mass(h, 1) == 0 && Mass(h, 2) == 2 && Mass(h, 3) == 3 && Mass(h, 4) == 4;
    ScanResults.RankedOnce(h, 4.0, r, 3);
  }

  /** The lag-one and lag-five estimates of those gaps. */
  lemma SampleLags()
    ensures Padded(A.Acf(A.REALS, 5, None, [0.25, 1.0, 0.5]), 1) == 5.0 / 14.0
    ensures Padded(A.Acf(A.REALS, 5, None, [0.25, 1.0, 0.5]), 5) == 0.0
  {
    var h := [0.25, 1.0, 0.5];
    assert h[..2] == [0.25, 1.0] && h[..2][..1] == [0.25] && h[..2][..1][..0] == [];
    assert A.Total(A.REALS, h) == 1.75;
    assert A.TotalSquares(A.REALS, h) == 1.3125;
    assert A.Mean(A.REALS, h) == 7.0 / 12.0;
    assert A.Variance(A.REALS, h) == 7.0 / 72.0;
    A.CrossNext([0.25], 1);
    A.CrossNext([0.25, 1.0], 1);
    A.CrossNext(h, 1);
    assert A.CrossTimes(A.REALS, h, 1, 1) == 0.75;
    A.EstimateIs(h, 1, 5.0 / 14.0);
  }

  /** The summary of those four events. */
  lemma SummaryWorked(s: Summary)
    requires Summarises(s, Sample(), 1_750_000)
    ensures s.events == 4 && s.meanSize == 1.75 && s.singleFrac == 0.5 && s.p95 == 3 && s.maxSize == 3
    ensures s.meanLevels == 1.25 && s.singleLevelFrac == 0.75
    ensures s.meanGap == 7.0 / 12.0 && s.varOverMean == 1.0 / 6.0 && s.cv2 == 2.0 / 7.0
    ensures s.acfLag1 == 5.0 / 14.0 && s.acfLag5 == 0.0 && s.subsecondMean == Some(375_000.0)
  {
    hide Sizes, Levels, StampsOf, Deltas, InSeconds, Squares, Short, IntTotal, Padded, A.Acf, Grouping.Sum, Ones,
      Longest, Tally, ScanResults.Ranked, Rank95;
    SampleColumns();
    SampleGaps();
    SampleSizes();
    SampleLevels();
    SampleRank(s.p95);
    SampleLags();
  }
}
