/** What a scan's report promises, whatever the archive holds. */
module ScanResults {
  import opened Prelude
  import opened Grouping
  import opened LineReader
  import opened Scan

  /** The report depends on the bytes delivered, not on how the reads cut them. */
  method ScanStream(chunks: seq<Bytes>, number: Number) returns (r: Report)
    ensures Reports(r, Content(Lines(Delivered(chunks))), number)
  {
    hide Lines, Delivered, Content, Reports;
    var lines := ByteLines(chunks);
    r := ScanLines(lines, number);
  }

  /** Ties and parents partition the rows, the finer key never has fewer parents,
      each histogram counts every parent, and weighing it by size gives back the
      rows exactly when no parent is more than one past the cap. */
  lemma ReportAddsUp(r: Report, ts: seq<Trade>)
    requires r.rows == |ts| && CountsOrder(r, ts) && CountsGroups(r, ts)
    ensures r.parentsTime + r.timeTies == r.rows
    ensures r.parentsTime <= r.parentsSide <= r.rows
    ensures Mass(r.histSide, HIST_CAP + 2) == r.parentsSide && Mass(r.histTime, HIST_CAP + 2) == r.parentsTime
    ensures Weighted(r.histSide, HIST_CAP + 2) == r.rows <==>
      forall i :: 0 <= i < |Runs(SideKeys(ts))| ==> Runs(SideKeys(ts))[i] <= HIST_CAP + 1
    ensures Weighted(r.histTime, HIST_CAP + 2) == r.rows <==>
      forall i :: 0 <= i < |Runs(Stamps(ts))| ==> Runs(Stamps(ts))[i] <= HIST_CAP + 1
  {
    hide Mass, Weighted, Group, HistOf, Ties, Regressions, Gaps, MaxTieRun, Stamps, SideKeys;
    var keys, stamps := SideKeys(ts), Stamps(ts);
    SidesRefine(ts);
    FinerKeysMoreRuns(keys, stamps);
    RunsAreKeysLessTies(stamps);
    GroupAddsUp(keys, r.parentsSide, r.histSide);
    GroupAddsUp(stamps, r.parentsTime, r.histTime);
  }

  lemma SidesRefine(ts: seq<Trade>)
    ensures |SideKeys(ts)| == |ts| == |Stamps(ts)|
    ensures forall i, j :: 0 <= i < |ts| && 0 <= j < |ts| && SideKeys(ts)[i] == SideKeys(ts)[j] ==>
              Stamps(ts)[i] == Stamps(ts)[j]
  {
  }

  lemma {:induction false} GroupAddsUp<K>(keys: seq<K>, parents: nat, hist: map<nat, nat>)
    requires parents == |Runs(keys)| && hist == HistOf(Runs(keys), HIST_CAP)
    ensures parents <= |keys| && Mass(hist, HIST_CAP + 2) == parents
    ensures Weighted(hist, HIST_CAP + 2) == |keys| <==>
      forall i :: 0 <= i < |Runs(keys)| ==> Runs(keys)[i] <= HIST_CAP + 1
  {
    RunsAreKeysLessTies(keys);
    HistogramSums(Runs(keys), HIST_CAP);
    RunsSum(keys);
    hide Mass, Weighted, Group, HistOf, Ties;
  }

  predicate AllEqual(s: seq<nat>) { forall i, j :: 0 <= i < |s| && 0 <= j < |s| ==> s[i] == s[j] }

  lemma OneKeyWhenEqual(s: seq<nat>)
    ensures |Tally(s)| == 1 <==> s != [] && AllEqual(s)
  {
    TallyKeys(s);
    hide Tally;
    var keys := Tally(s).Keys;
    if s != [] {
      assert s[0] in keys;
      if AllEqual(s) {
        assert keys == {s[0]};
      } else {
        var i, j :| 0 <= i < |s| && 0 <= j < |s| && s[i] != s[j];
        TwoInOne(keys, s[i], s[j]);
      }
    } else {
      assert keys == {};
    }
  }

  lemma TwoInOne(keys: set<nat>, a: nat, b: nat)
    requires a in keys && b in keys && a != b
    ensures |keys| >= 2
  {
    assert keys == {a} + (keys - {a});
    assert |keys| == 1 + |keys - {a}|;
    assert b in keys - {a};
  }

  /** The field count is stable exactly when there are data lines and all have one
      shape; the stamps are in microseconds throughout exactly when every trade's is
      sixteen digits wide. */
  lemma LayoutVerdicts(r: Report, content: seq<Bytes>, number: Number)
    requires CountsLayout(r, content, number)
    ensures |r.fieldCounts| == 1 <==> Shapes(content, number) != [] && AllEqual(Shapes(content, number))
    ensures var w := Widths(Trades(content, number));
            r.digitCounts.Keys == {16} <==>
              w != [] && forall i :: 0 <= i < |w| ==> w[i] == 16
  {
    OneKeyWhenEqual(Shapes(content, number));
    var w := Widths(Trades(content, number));
    TallyKeys(w);
    hide Tally, Shapes, Widths;
    if r.digitCounts.Keys == {16} {
      assert 16 in w;
      forall i | 0 <= i < |w| ensures w[i] == 16 {
        assert w[i] in r.digitCounts.Keys;
      }
    }
    if w != [] && forall i :: 0 <= i < |w| ==> w[i] == 16 {
      assert w[0] in r.digitCounts.Keys;
      assert r.digitCounts.Keys == {16};
    }
  }

  ghost predicate Nondecreasing(s: seq<int>) { forall i, j :: 0 <= i <= j < |s| ==> s[i] <= s[j] }

  lemma {:induction false} RegressionsCount(s: seq<int>)
    ensures Regressions(s) == 0 <==> Nondecreasing(s)
  {
    if s != [] {
      RegressionsCount(Front(s));
      var n := |s| - 1;
      assert forall i :: 0 <= i < n ==> Front(s)[i] == s[i];
      if n > 0 && Nondecreasing(Front(s)) && s[n - 1] <= s[n] {
        assert forall i :: 0 <= i < n ==> Front(s)[i] <= Front(s)[n - 1];
      }
    }
  }

  /** The reported `sorted` flag is true exactly when stamps and ids never descend. */
  lemma SortedMeansSorted(r: Report, ts: seq<Trade>)
    requires CountsOrder(r, ts)
    ensures r.timeRegressions == 0 && r.idRegressions == 0 <==> Nondecreasing(Stamps(ts)) && Nondecreasing(Ids(ts))
  {
    RegressionsCount(Stamps(ts));
    RegressionsCount(Ids(ts));
  }

  // -------------------------------------------------------- the longest tie run

  /** A descent that comes straight after a tie. */
  ghost predicate DropsTie(s: seq<int>, i: nat) {
    2 <= i < |s| && s[i - 2] == s[i - 1] && s[i] < s[i - 1]
  }

  /** The tie counter is the open run's, at every row, exactly when no descent
      comes straight after a tie: the loop does not reset it on a descent. */
  lemma {:induction false} TieCounterExactIff(s: seq<int>)
    ensures (forall n :: 0 < n <= |s| ==> TieRun(s[..n]) + 1 == Group(s[..n]).last) <==>
              forall i: nat :: !DropsTie(s, i)
  {
    if forall i: nat :: !DropsTie(s, i) {
      forall n | 0 < n <= |s| ensures TieRun(s[..n]) + 1 == Group(s[..n]).last {
        TieCounterExact(s, n);
      }
    } else {
      var i: nat :| DropsTie(s, i);
      DropLeavesCounter(s, i);
      hide TieRun, Group;
      assert 0 < i + 1 <= |s|;
    }
  }

  lemma {:induction false} DropLeavesCounter(s: seq<int>, i: nat)
    requires DropsTie(s, i)
    ensures Group(s[..i + 1]).last == 1 && TieRun(s[..i + 1]) > 0
  {
    OrderExtend(s[..i - 1], s[i - 1]);
    OrderExtend(s[..i], s[i]);
    GroupExtend(s[..i], s[i]);
    hide TieRun, Group;
    assert s[..i - 1] + [s[i - 1]] == s[..i] && s[..i] + [s[i]] == s[..i + 1];
  }

  lemma {:induction false} TieCounterExact(s: seq<int>, n: nat)
    requires 0 < n <= |s| && forall i: nat :: !DropsTie(s, i)
    ensures TieRun(s[..n]) + 1 == Group(s[..n]).last
  {
    if n > 1 {
      TieCounterExact(s, n - 1);
      assert !DropsTie(s, n - 1);
      assert s[..n] == s[..n - 1] + [s[n - 1]];
      OrderExtend(s[..n - 1], s[n - 1]);
      GroupExtend(s[..n - 1], s[n - 1]);
      if n > 2 {
        assert s[..n - 1] == s[..n - 2] + [s[n - 2]];
        OrderExtend(s[..n - 2], s[n - 2]);
        GroupExtend(s[..n - 2], s[n - 2]);
      }
    } else {
      assert s[..1][..0] == [];
    }
  }

  /** Rows `i` up to `j` in which no stamp ascends. */
  ghost predicate NonAscending(s: seq<int>, i: nat, j: nat) {
    i < j <= |s| && forall k :: i < k < j ==> s[k] <= s[k - 1]
  }

  lemma {:induction false} StretchGrows(f: seq<int>, x: int, i: nat)
    requires NonAscending(f, i, |f|)
    ensures Ties((f + [x])[i..]) == Ties(f[i..]) + (if x == Last(f) then 1 else 0)
    ensures NonAscending(f + [x], i, |f| + 1) <==> x <= Last(f)
  {
    TiesExtend(f[i..], x);
    hide Ties;
    assert (f + [x])[i..] == f[i..] + [x];
    if x <= Last(f) {
      assert forall k :: i < k < |f| ==> (f + [x])[k] == f[k];
    } else {
      assert (f + [x])[|f|] == x && (f + [x])[|f| - 1] == Last(f);
    }
  }

  lemma OneRow(s: seq<int>, i: nat)
    requires i + 1 == |s|
    ensures NonAscending(s, i, |s|) && Ties(s[i..]) == 0
  {
  }

  /** The tie counter holds the ties of a stretch without an ascent that ends here. */
  lemma {:induction false} TrailingTies(s: seq<int>) returns (i: nat)
    requires s != []
    ensures NonAscending(s, i, |s|) && Ties(s[i..]) == TieRun(s)
  {
    var f, x := Front(s), Last(s);
    OrderExtend(f, x);
    assert s == f + [x];
    hide Ties, TieRun;
    if f == [] || x > Last(f) {
      i := |f|;
      OneRow(s, i);
    } else {
      i := TrailingTies(f);
      StretchGrows(f, x, i);
    }
  }

  /** No stretch that ends here holds more. */
  lemma {:induction false} TrailingBound(s: seq<int>, i: nat)
    requires NonAscending(s, i, |s|)
    ensures Ties(s[i..]) <= TieRun(s)
  {
    var f, x := Front(s), Last(s);
    OrderExtend(f, x);
    assert s == f + [x];
    hide Ties, TieRun;
    if i == |f| {
      OneRow(s, i);
    } else {
      assert forall k :: i < k < |f| ==> f[k] == s[k];
      TrailingBound(f, i);
      StretchGrows(f, x, i);
    }
  }

  lemma SliceOfFront(s: seq<int>, i: nat, j: nat)
    requires i <= j < |s|
    ensures Front(s)[i..j] == s[i..j]
    ensures NonAscending(Front(s), i, j) <==> NonAscending(s, i, j)
  {
    assert forall k :: 0 <= k < |s| - 1 ==> Front(s)[k] == s[k];
  }

  /** The figure behind the report is the ties of some stretch without an ascent. */
  lemma {:induction false} MaxIsSomeStretch(s: seq<int>) returns (i: nat, j: nat)
    requires s != []
    ensures NonAscending(s, i, j) && Ties(s[i..j]) == MaxTieRun(s)
  {
    var f := Front(s);
    assert MaxTieRun(s) == Max(MaxTieRun(f), TieRun(s));
    assert f == [] ==> MaxTieRun(f) == 0;
    hide Ties, TieRun, MaxTieRun;
    if f == [] || TieRun(s) >= MaxTieRun(f) {
      i := TrailingTies(s);
      j := |s|;
      assert s[i..j] == s[i..];
    } else {
      i, j := MaxIsSomeStretch(f);
      SliceOfFront(s, i, j);
    }
  }

  /** No stretch without an ascent holds more. */
  lemma {:induction false} MaxBoundsStretches(s: seq<int>, i: nat, j: nat)
    requires NonAscending(s, i, j)
    ensures Ties(s[i..j]) <= MaxTieRun(s)
  {
    var f := Front(s);
    assert MaxTieRun(s) == Max(MaxTieRun(f), TieRun(s));
    hide Ties, TieRun, MaxTieRun;
    if j == |s| {
      TrailingBound(s, i);
      assert s[i..j] == s[i..];
    } else {
      SliceOfFront(s, i, j);
      MaxBoundsStretches(f, i, j);
    }
  }

  /** Neither the open run nor any closed one is longer than the counters say. */
  ghost predicate Covered(s: seq<int>) {
    && 1 <= Group(s).last <= TieRun(s) + 1 && TieRun(s) <= MaxTieRun(s)
    && Longest(Group(s).closed) <= MaxTieRun(s) + 1
  }

  lemma CoveredOne(x: int)
    ensures Covered([x])
  {
    assert Front([x]) == [];
  }

  lemma {:induction false} CoveredGrows(f: seq<int>, x: int)
    requires f != [] && Covered(f)
    ensures Covered(f + [x])
  {
    hide TieRun, MaxTieRun, Longest, Group;
    OrderExtend(f, x);
    GroupExtend(f, x);
    LongestAppend(Group(f).closed, Group(f).last);
  }

  lemma {:induction false} AllCovered(s: seq<int>)
    requires s != []
    ensures Covered(s)
  {
    hide Covered;
    assert s == Front(s) + [Last(s)];
    if |s| == 1 {
      CoveredOne(Last(s));
      assert s == [Last(s)];
    } else {
      AllCovered(Front(s));
      CoveredGrows(Front(s), Last(s));
    }
  }

  /** A run of equal stamps is such a stretch, so it is never under-counted. */
  lemma {:induction false} NeverUnderCounted(s: seq<int>)
    requires s != []
    ensures 1 <= Longest(Runs(s)) <= MaxTieRun(s) + 1
  {
    AllCovered(s);
    hide TieRun, MaxTieRun, Longest, Group;
    LongestAppend(Group(s).closed, Group(s).last);
  }

  /** The longest run of equal stamps, in rows, or none when no two tie. */
  function TrueTieRun(s: seq<int>): nat { if Longest(Runs(s)) >= 2 then Longest(Runs(s)) else 0 }

  lemma NothingTies()
    ensures MaxTieRun([]) == 0 && Longest(Runs<int>([])) == 0
  {
    assert Longest([]) == 0;
  }

  /** The reported longest tie run is never too small, and is right exactly when no
      stretch without an ascent holds as many ties as the longest run has rows. */
  lemma ReportedTieRunRightIff(r: Report, ts: seq<Trade>)
    requires CountsOrder(r, ts)
    ensures r.maxTieRun >= TrueTieRun(Stamps(ts))
    ensures r.maxTieRun == TrueTieRun(Stamps(ts)) <==>
              forall i: nat, j: nat :: NonAscending(Stamps(ts), i, j) ==>
                Ties(Stamps(ts)[i..j]) < Longest(Runs(Stamps(ts)))
  {
    var s := Stamps(ts);
    NothingTies();
    if s != [] {
      hide Ties, TieRun, MaxTieRun, Longest, Group, Regressions, Gaps, Stamps;
      NeverUnderCounted(s);
      var i, j := MaxIsSomeStretch(s);
      forall a: nat, b: nat | NonAscending(s, a, b) ensures Ties(s[a..b]) <= MaxTieRun(s) {
        MaxBoundsStretches(s, a, b);
      }
    }
  }

  /** A descent between two ties: three rows are reported where two is the truth. */
  lemma TieRunOverReported()
    ensures MaxTieRun([5, 5, 3, 3]) + 1 == 3 && Longest(Runs([5, 5, 3, 3])) == 2
  {
    OrderExtend([], 5);
    OrderExtend([5], 5);
    OrderExtend([5, 5], 3);
    OrderExtend([5, 5, 3], 3);
    Grown();
    assert MaxTieRun([]) == 0 && Longest([]) == 0;
    hide MaxTieRun, TieRun, Longest;
    RunsOfExample();
    hide Group;
    LongestAppend([2], 2);
    LongestAppend([], 2);
    assert [] + [2] == [2] && [2] + [2] == [2, 2];
  }

  lemma RunsOfExample()
    ensures Runs([5, 5, 3, 3]) == [2, 2]
  {
    GroupExtend([], 5);
    GroupExtend([5], 5);
    GroupExtend([5, 5], 3);
    GroupExtend([5, 5, 3], 3);
    hide Group;
    Grown();
  }

  lemma Grown()
    ensures [] + [5] == [5] && [5] + [5] == [5, 5] && [5, 5] + [3] == [5, 5, 3] && [5, 5, 3] + [3] == [5, 5, 3, 3]
  {
  }

  // --------------------------------------------------------------- percentiles

  lemma {:induction false} LeastExists(s: set<nat>, x: nat)
    requires x in s
    ensures exists m: nat :: m in s && forall k :: k in s ==> m <= k
    decreases x
  {
    if y: nat :| y in s && y < x {
      LeastExists(s, y);
    }
  }

  /** No key in between, no mass in between. */
  lemma {:induction false} MassGap(h: map<nat, nat>, a: nat, b: nat)
    requires a <= b && forall k :: a <= k < b ==> k !in h
    ensures Mass(h, a) == Mass(h, b)
    decreases b
  {
    if a < b {
      MassGap(h, a, b - 1);
    }
  }

  /** `r` is the least size whose cumulative count reaches the target, or the
      largest size when none does. */
  ghost predicate Ranked(hist: map<nat, nat>, target: real, r: nat) {
    && r in hist
    && (forall k :: k in hist && k < r ==> (Mass(hist, k + 1) as real) < target)
    && (target <= (Mass(hist, r + 1) as real) || forall k :: k in hist ==> k <= r)
  }

  lemma RankedOnce(hist: map<nat, nat>, target: real, r: nat, s: nat)
    requires Ranked(hist, target, r) && Ranked(hist, target, s)
    ensures r == s
  {
  }

  lemma {:induction false} MassStep(h: map<nat, nat>, a: nat, k: nat)
    requires a <= k && k in h && forall j :: a <= j < k ==> j !in h
    ensures Mass(h, k + 1) == Mass(h, a) + h[k]
  {
    MassGap(h, a, k);
  }

  /** Walks the sizes upwards until the cumulative count reaches the target. */
  method RankWalk(hist: map<nat, nat>, target: real) returns (reached: bool, size: nat)
    ensures reached ==> Ranked(hist, target, size) && target <= (Mass(hist, size + 1) as real)
    ensures !reached ==> forall k :: k in hist ==> (Mass(hist, k + 1) as real) < target
    ensures !reached && hist != map[] ==> size in hist && forall k :: k in hist ==> k <= size
    ensures !reached && hist == map[] ==> size == 0
  {
    hide Mass;
    var seen: nat := 0;
    var rest := hist.Keys;
    ghost var floor: nat := 0;
    size := 0;
    EmptyWalk(hist);
    while rest != {}
      invariant rest <= hist.Keys && seen == Mass(hist, floor)
      invariant forall k :: k in rest ==> floor <= k
      invariant forall k :: k in hist && k !in rest ==> k < floor && k <= size && (Mass(hist, k + 1) as real) < target
      invariant rest == hist.Keys ==> size == 0
      invariant rest != hist.Keys ==> size in hist && size !in rest
      decreases rest
    {
      ghost var any :| any in rest;
      LeastExists(rest, any);
      size :| size in rest && forall k :: k in rest ==> size <= k;
      MassStep(hist, floor, size);
      seen := seen + hist[size];
      if seen as real >= target {
        return true, size;
      }
      rest := rest - {size};
      floor := size + 1;
    }
    reached := false;
  }

  lemma EmptyWalk(h: map<nat, nat>)
    ensures Mass(h, 0) == 0
  {
  }

  /** `percentile`. */
  method Percentile(hist: map<nat, nat>, total: nat, q: real) returns (r: nat)
    ensures total == 0 || hist == map[] ==> r == 0
    ensures total > 0 && hist != map[] ==> Ranked(hist, q * total as real, r)
  {
    if total == 0 {
      return 0;
    }
    hide Mass;
    var reached;
    reached, r := RankWalk(hist, q * total as real);
  }
}
