/** The per-second counts of `probe` in `analysis/probe_binance_trades.py`: rows
    counted by the second they fall in, and the middle and the high rank of those
    counts over every second of the span, the empty ones included. */
module PerSecond {
  import opened Prelude
  import opened Grouping
  import ScanResults

  datatype Error = NoRows | ZeroDivision

  datatype Figures = Figures(mean: real, median: nat, p95: nat, zeroFrac: real)

  function Second(stamp: int): int { stamp / 1000000 }

  lemma SecondHolds(stamp: int)
    ensures Second(stamp) * 1_000_000 <= stamp < (Second(stamp) + 1) * 1_000_000
  {
  }

  function SecondsOf(stamps: seq<int>): seq<int> {
    seq(|stamps|, i requires 0 <= i < |stamps| => Second(stamps[i]))
  }

  // --------------------------------------------------------- what is to be ranked

  /** The integers from `lo` up to but not including `hi`. */
  ghost function Range(lo: int, hi: int): (r: set<int>)
    ensures forall s :: s in r <==> lo <= s < hi
    ensures |r| == if lo < hi then hi - lo else 0
    decreases hi - lo
  {
    if lo >= hi then {} else Range(lo, hi - 1) + {hi - 1}
  }

  /** The seconds from the first row's to the last row's. */
  ghost function SpanOf(seconds: seq<int>): set<int>
    requires seconds != []
  {
    Range(seconds[0], Last(seconds) + 1)
  }

  function Length(seconds: seq<int>): int
    requires seconds != []
  {
    Last(seconds) - seconds[0] + 1
  }

  /** No row falls outside the span: so for rows in time order. */
  ghost predicate Within(seconds: seq<int>)
    requires seconds != []
  {
    forall i :: 0 <= i < |seconds| ==> seconds[0] <= seconds[i] <= Last(seconds)
  }

  /** The seconds of the span with at most `c` rows. */
  ghost function Quiet(seconds: seq<int>, c: nat): set<int>
    requires seconds != []
  {
    set s | s in SpanOf(seconds) && multiset(seconds)[s] <= c
  }

  /** `c` is the least count that `rank` seconds of the span do not exceed. */
  ghost predicate RankIs(seconds: seq<int>, rank: int, c: nat)
    requires seconds != []
  {
    |Quiet(seconds, c)| >= rank && forall k: nat :: k < c ==> |Quiet(seconds, k)| < rank
  }

  /** The distinct seconds that have a row. */
  ghost function Distinct(seconds: seq<int>): set<int> { set s | s in seconds }

  /** The seconds with more than `c` rows, wherever they fall. */
  ghost function Busy(seconds: seq<int>, c: nat): set<int> {
    set s | s in Distinct(seconds) && multiset(seconds)[s] > c
  }

  /** The busy seconds outside the span. */
  ghost function Strays(seconds: seq<int>, c: nat): set<int>
    requires seconds != []
  {
    Busy(seconds, c) - SpanOf(seconds)
  }

  /** The span less every second with more than `c` rows: what the program takes for
      the seconds with at most `c`. */
  ghost function Taken(seconds: seq<int>, c: nat): int
    requires seconds != []
  {
    Length(seconds) - |Busy(seconds, c)|
  }

  /** The seconds of the span without a row, as the program counts them. */
  ghost function Missing(seconds: seq<int>): int
    requires seconds != []
  {
    Length(seconds) - |Distinct(seconds)|
  }

  /** `c` is the least count at which the program's number reaches the rank. */
  ghost predicate TakenRank(seconds: seq<int>, rank: int, c: nat)
    requires seconds != []
  {
    Taken(seconds, c) >= rank && forall k: nat :: k < c ==> Taken(seconds, k) < rank
  }

  /** The stray seconds busier than the ranked count leave enough seconds to reach the
      rank at it. */
  ghost predicate Covered(seconds: seq<int>, rank: int)
    requires seconds != []
  {
    exists c: nat :: RankIs(seconds, rank, c) && |Quiet(seconds, c)| - |Strays(seconds, c)| >= rank
  }

  // ------------------------------------------------------------ the two dictionaries

  /** The rows by second. */
  ghost predicate CountedBy(counts: map<int, nat>, seconds: seq<int>) {
    counts.Keys == (set s | s in seconds) && forall s :: s in counts ==> counts[s] == multiset(seconds)[s]
  }

  /** The seconds among `keys` that have `c` rows. */
  ghost function Having(counts: map<int, nat>, keys: set<int>, c: nat): set<int>
    requires keys <= counts.Keys
  {
    set s | s in keys && counts[s] == c
  }

  function GetInt(h: map<nat, int>, k: nat): int { if k in h then h[k] else 0 }

  /** How many seconds have each count. */
  ghost predicate Histogram(h: map<nat, int>, counts: map<int, nat>, keys: set<int>)
    requires keys <= counts.Keys
  {
    && (forall c: nat :: GetInt(h, c) == |Having(counts, keys, c)|)
    && (forall c: nat :: c in h ==> h[c] > 0)
  }

  lemma HavingOneMore(counts: map<int, nat>, keys: set<int>, s: int, c: nat)
    requires keys <= counts.Keys && s in counts && s !in keys
    ensures |Having(counts, keys + {s}, c)| == |Having(counts, keys, c)| + (if counts[s] == c then 1 else 0)
  {
    if counts[s] == c {
      assert Having(counts, keys + {s}, c) == Having(counts, keys, c) + {s};
    } else {
      assert Having(counts, keys + {s}, c) == Having(counts, keys, c);
    }
  }

  lemma HistogramStep(h: map<nat, int>, counts: map<int, nat>, keys: set<int>, s: int)
    requires keys <= counts.Keys && s in counts && s !in keys && Histogram(h, counts, keys)
    ensures Histogram(h[counts[s] := GetInt(h, counts[s]) + 1], counts, keys + {s})
  {
    var h' := h[counts[s] := GetInt(h, counts[s]) + 1];
    forall c: nat ensures GetInt(h', c) == |Having(counts, keys + {s}, c)| {
      HavingOneMore(counts, keys, s, c);
      assert GetInt(h, c) == |Having(counts, keys, c)|;
    }
  }

  lemma NothingHad(counts: map<int, nat>)
    ensures Histogram(map[], counts, {})
  {
    forall c: nat ensures |Having(counts, {}, c)| == 0 {
      assert Having(counts, {}, c) == {};
    }
  }

  lemma EmptyIfNone(s: set<int>)
    ensures (forall x: int :: x !in s) ==> s == {}
  {
    if forall x: int :: x !in s {
      assert s == {};
    }
  }

  /** The histogram over the values of a dictionary. */
  method Tabulate(counts: map<int, nat>) returns (h: map<nat, int>)
    ensures Histogram(h, counts, counts.Keys)
  {
    hide Histogram;
    h := map[];
    var rest := counts.Keys;
    NothingHad(counts);
    assert counts.Keys - rest == {};
    while rest != {}
      invariant rest <= counts.Keys && Histogram(h, counts, counts.Keys - rest)
      decreases rest
    {
      EmptyIfNone(rest);
      var s: int :| s in rest;
      HistogramStep(h, counts, counts.Keys - rest, s);
      assert counts.Keys - (rest - {s}) == (counts.Keys - rest) + {s};
      h := h[counts[s] := GetInt(h, counts[s]) + 1];
      rest := rest - {s};
    }
    assert counts.Keys - {} == counts.Keys;
  }

  // ------------------------------------------------------------------- the rank walk

  /** The entries below `n`, summed; an entry may be negative. */
  function Below(h: map<nat, int>, n: nat): int { if n == 0 then 0 else Below(h, n - 1) + GetInt(h, n - 1) }

  predicate Reaches(h: map<nat, int>, rank: int, c: nat) { c in h && Below(h, c + 1) >= rank }

  /** The counts the walk may take for the middle: positive, at the rank, and not
      past the first that stops it. */
  ghost predicate Eligible(h: map<nat, int>, middle: int, high: int, c: nat) {
    c > 0 && Reaches(h, middle, c) && forall k: nat :: k < c ==> !Reaches(h, high, k)
  }

  /** What the walk leaves: the first key at the high rank, and the first eligible
      one for the middle, zero standing for none. */
  ghost predicate Walked(h: map<nat, int>, middle: int, high: int, median: nat, p95: nat) {
    && (forall k: nat :: k < p95 ==> !Reaches(h, high, k))
    && (Reaches(h, high, p95) || (p95 == 0 && forall k: nat :: !Reaches(h, high, k)))
    && (forall k: nat :: k < median ==> !Eligible(h, middle, high, k))
    && (Eligible(h, middle, high, median) || (median == 0 && forall k: nat :: !Eligible(h, middle, high, k)))
  }

  lemma {:induction false} BelowGap(h: map<nat, int>, a: nat, b: nat)
    requires a <= b && forall k: nat :: a <= k < b ==> k !in h
    ensures Below(h, a) == Below(h, b)
    decreases b
  {
    if a < b {
      BelowGap(h, a, b - 1);
    }
  }

  /** The loop over the sorted histogram, with its two guards. */
  method Walk(h: map<nat, int>, middle: int, high: int) returns (median: nat, p95: nat)
    ensures Walked(h, middle, high, median, p95)
  {
    hide Below;
    median, p95 := 0, 0;
    var seen := 0;
    var rest := h.Keys;
    ghost var floor: nat := 0;
    NothingBelow(h);
    while rest != {}
      invariant rest <= h.Keys && seen == Below(h, floor) && p95 == 0
      invariant forall k :: k in h ==> (k in rest <==> floor <= k)
      invariant forall k: nat :: k < floor ==> !Reaches(h, high, k)
      invariant forall k: nat :: k < median ==> !Eligible(h, middle, high, k)
      invariant Eligible(h, middle, high, median) ||
                (median == 0 && forall k: nat :: k < floor ==> !Eligible(h, middle, high, k))
      decreases rest
    {
      ghost var any :| any in rest;
      ScanResults.LeastExists(rest, any);
      var count :| count in rest && forall k :: k in rest ==> count <= k;
      BelowNext(h, floor, count);
      seen := seen + h[count];
      assert forall k: nat :: floor <= k < count ==> !Reaches(h, high, k) && !Eligible(h, middle, high, k);
      if seen >= middle && median == 0 {
        median := count;
      }
      if seen >= high {
        assert Reaches(h, high, count);
        assert forall k: nat :: k > count ==> !Eligible(h, middle, high, k);
        assert median == 0 ==> !Eligible(h, middle, high, count);
        return median, count;
      }
      rest := rest - {count};
      floor := count + 1;
    }
  }

  lemma NothingBelow(h: map<nat, int>)
    ensures Below(h, 0) == 0
  {
  }

  lemma BelowNext(h: map<nat, int>, a: nat, k: nat)
    requires a <= k && k in h && forall j: nat :: a <= j < k ==> j !in h
    ensures Below(h, k + 1) == Below(h, a) + h[k]
  {
    BelowGap(h, a, k);
  }

  // ------------------------------------------------- what the histogram holds

  /** The finished histogram: the seconds that have rows, and the rest of the span at zero. */
  ghost predicate Finished(h: map<nat, int>, counts: map<int, nat>, seconds: seq<int>)
    requires seconds != []
  {
    && CountedBy(counts, seconds)
    && 0 in h && h[0] == Length(seconds) - |counts|
    && (forall c: nat :: c > 0 ==> GetInt(h, c) == |Having(counts, counts.Keys, c)|)
    && (forall c: nat :: c > 0 && c in h ==> h[c] > 0)
  }

  lemma SplitCount(a: set<int>, b: set<int>)
    ensures |a| == |a * b| + |a - b|
  {
    assert a == (a * b) + (a - b);
  }

  /** The zero entry counts the empty seconds exactly when no row is outside the span. */
  lemma MissingIsEmptyIffWithin(counts: map<int, nat>, seconds: seq<int>)
    requires seconds != [] && CountedBy(counts, seconds)
    ensures Length(seconds) - |counts| == |Quiet(seconds, 0)| <==> Within(seconds)
  {
    var span, hit := SpanOf(seconds), counts.Keys;
    assert Quiet(seconds, 0) == span - hit;
    assert |counts| == |hit|;
    SplitCount(span, hit);
    SplitCount(hit, span);
    assert hit * span == span * hit;
    if Within(seconds) {
      assert hit - span == {};
      assert seconds[0] <= Last(seconds);
    } else {
      var i :| 0 <= i < |seconds| && !(seconds[0] <= seconds[i] <= Last(seconds));
      assert seconds[i] in hit - span;
    }
  }

  lemma BusySplits(counts: map<int, nat>, seconds: seq<int>, c: nat)
    requires CountedBy(counts, seconds)
    ensures c > 0 ==> |Busy(seconds, c - 1)| == |Busy(seconds, c)| + |Having(counts, counts.Keys, c)|
    ensures Busy(seconds, 0) == counts.Keys == Distinct(seconds)
    ensures |counts| == |counts.Keys|
  {
    if c > 0 {
      var exact := Having(counts, counts.Keys, c);
      assert forall s :: s in exact <==> s in Distinct(seconds) && multiset(seconds)[s] == c;
      assert Busy(seconds, c - 1) == Busy(seconds, c) + exact;
      assert Busy(seconds, c) !! exact;
    }
  }

  lemma BelowUnfolds(h: map<nat, int>, c: nat)
    ensures Below(h, c + 1) == GetInt(h, c) + (if c == 0 then 0 else Below(h, c))
  {
    NothingBelow(h);
  }

  /** The walk's running sum is the span less the seconds busier than the count. */
  lemma {:induction false} BelowIsTaken(h: map<nat, int>, counts: map<int, nat>, seconds: seq<int>, c: nat)
    requires seconds != [] && Finished(h, counts, seconds)
    ensures Below(h, c + 1) == Taken(seconds, c)
  {
    hide CountedBy, Below, Busy, Distinct, Having;
    BusySplits(counts, seconds, c);
    BelowUnfolds(h, c);
    if c > 0 {
      BelowIsTaken(h, counts, seconds, c - 1);
    }
  }

  lemma BusyShrinks(seconds: seq<int>, a: nat, b: nat)
    requires a <= b
    ensures |Busy(seconds, b)| <= |Busy(seconds, a)|
  {
    var p, q := Busy(seconds, b), Busy(seconds, a);
    assert p <= q;
    SplitCount(q, p);
    assert q * p == p;
  }

  /** No second has more rows than there are. */
  lemma NoneBusier(seconds: seq<int>)
    ensures Busy(seconds, |seconds|) == {}
  {
    forall s: int ensures multiset(seconds)[s] <= |seconds| {
      assert multiset(seconds)[s] <= |multiset(seconds)|;
    }
  }

  /** A rank some count reaches is reached at a key no greater. */
  lemma {:induction false} SomeKeyReaches(h: map<nat, int>, counts: map<int, nat>, seconds: seq<int>, rank: int, c: nat)
    requires seconds != [] && Finished(h, counts, seconds) && Taken(seconds, c) >= rank
    ensures exists k: nat :: k <= c && Reaches(h, rank, k)
  {
    BelowIsTaken(h, counts, seconds, c);
    if c in h {
      assert Reaches(h, rank, c);
    } else {
      BelowIsTaken(h, counts, seconds, c - 1);
      SomeKeyReaches(h, counts, seconds, rank, c - 1);
    }
  }

  /** The first key at a rank is the least count whose number reaches it. */
  lemma FirstIsRanked(h: map<nat, int>, counts: map<int, nat>, seconds: seq<int>, rank: int, c: nat)
    requires seconds != [] && Finished(h, counts, seconds)
    ensures TakenRank(seconds, rank, c) <==> Reaches(h, rank, c) && forall k: nat :: k < c ==> !Reaches(h, rank, k)
  {
    hide Finished, Taken;
    BelowIsTaken(h, counts, seconds, c);
    forall k: nat | k < c ensures Reaches(h, rank, k) ==> Taken(seconds, k) >= rank {
      BelowIsTaken(h, counts, seconds, k);
    }
    if TakenRank(seconds, rank, c) {
      SomeKeyReaches(h, counts, seconds, rank, c);
      var k: nat :| k <= c && Reaches(h, rank, k);
      assert k == c;
    } else if Reaches(h, rank, c) && forall k: nat :: k < c ==> !Reaches(h, rank, k) {
      var k: nat :| k < c && Taken(seconds, k) >= rank;
      SomeKeyReaches(h, counts, seconds, rank, k);
    }
  }

  // --------------------------------------------- the program's number and the span's

  /** The program's number is the span's own, less the strays. */
  lemma TakenIsQuiet(seconds: seq<int>, c: nat)
    requires seconds != [] && Length(seconds) >= 0
    ensures Taken(seconds, c) == |Quiet(seconds, c)| - |Strays(seconds, c)|
  {
    var span, busy := SpanOf(seconds), Busy(seconds, c);
    assert Quiet(seconds, c) == span - busy;
    SplitCount(span, busy);
    SplitCount(busy, span);
    assert busy * span == span * busy;
  }

  /** The count the program ranks is the span's own exactly where the strays leave it
      covered. */
  lemma RankRightIff(seconds: seq<int>, rank: int, c: nat)
    requires seconds != [] && Length(seconds) >= 0 && TakenRank(seconds, rank, c)
    ensures RankIs(seconds, rank, c) <==> Covered(seconds, rank)
  {
    hide Quiet, Strays, Taken;
    TakenIsQuiet(seconds, c);
    if RankIs(seconds, rank, c) {
      assert Covered(seconds, rank);
    }
    if d: nat :| RankIs(seconds, rank, d) && |Quiet(seconds, d)| - |Strays(seconds, d)| >= rank {
      TakenIsQuiet(seconds, d);
      assert c == d;
    }
  }

  /** Rows in any order within the span leave every rank covered. */
  lemma WithinCovers(seconds: seq<int>, rank: int)
    requires seconds != [] && Within(seconds) && rank <= Length(seconds)
    ensures Length(seconds) >= 1 && Covered(seconds, rank)
  {
    assert seconds[0] <= Last(seconds);
    var c := LeastTaken(seconds, rank);
    hide Quiet, Taken, Busy;
    forall k: nat ensures Taken(seconds, k) == |Quiet(seconds, k)| && |Strays(seconds, k)| == 0 {
      NoStrays(seconds, k);
      TakenIsQuiet(seconds, k);
    }
    assert RankIs(seconds, rank, c);
  }

  lemma NoStrays(seconds: seq<int>, c: nat)
    requires seconds != [] && Within(seconds)
    ensures Strays(seconds, c) == {}
  {
    assert forall s :: s in Distinct(seconds) ==> s in SpanOf(seconds);
  }

  /** Every rank up to the span's length is that of some count. */
  lemma LeastTaken(seconds: seq<int>, rank: int) returns (c: nat)
    requires seconds != [] && rank <= Length(seconds)
    ensures TakenRank(seconds, rank, c)
  {
    NoneBusier(seconds);
    c := LeastTakenFrom(seconds, rank, |seconds|);
  }

  lemma {:induction false} LeastTakenFrom(seconds: seq<int>, rank: int, any: nat) returns (c: nat)
    requires seconds != [] && Taken(seconds, any) >= rank
    ensures TakenRank(seconds, rank, c)
    decreases any
  {
    hide Taken;
    c := any;
    if y: nat :| y < any && Taken(seconds, y) >= rank {
      c := LeastTakenFrom(seconds, rank, y);
    }
  }

  // ------------------------------------------------------------------ the report

  /** The least and the greatest rank the walk looks for. */
  function Middle(span: int): int { Ceil(0.5 * span as real) }

  function High(span: int): int { Ceil(0.95 * span as real) }

  /** They are the least whole numbers that reach half and nineteen twentieths of it. */
  lemma RanksInSpan(span: int)
    ensures 2 * (Middle(span) - 1) < span <= 2 * Middle(span)
    ensures 20 * (High(span) - 1) < 19 * span <= 20 * High(span)
    ensures span >= 1 ==> 0 < Middle(span) <= High(span) <= span
    ensures span < 0 ==> span < High(span) && span < Middle(span)
  {
  }

  /** The two ranks reported of rows in these seconds: what the walk leaves of their
      histogram. */
  ghost predicate RanksReported(seconds: seq<int>, median: nat, p95: nat)
    requires seconds != []
  {
    exists h: map<nat, int>, counts: map<int, nat> ::
      Finished(h, counts, seconds) && Walked(h, Middle(Length(seconds)), High(Length(seconds)), median, p95)
  }

  /** What is reported of rows in these seconds. */
  ghost predicate Reported(seconds: seq<int>, f: Figures) {
    && seconds != [] && Length(seconds) != 0
    && f.mean == |seconds| as real / Length(seconds) as real
    && f.zeroFrac == Missing(seconds) as real / Length(seconds) as real
    && RanksReported(seconds, f.median, f.p95)
  }

  lemma FinishedMissing(h: map<nat, int>, counts: map<int, nat>, seconds: seq<int>, rank: int)
    requires seconds != [] && Finished(h, counts, seconds)
    ensures Reaches(h, rank, 0) <==> Missing(seconds) >= rank
    ensures Taken(seconds, 0) == Missing(seconds)
  {
    BusySplits(counts, seconds, 0);
    BelowIsTaken(h, counts, seconds, 0);
  }

  /** The walk's high rank. */
  lemma HighIsTaken(h: map<nat, int>, counts: map<int, nat>, seconds: seq<int>, middle: int, high: int, m: nat, p: nat)
    requires seconds != [] && Finished(h, counts, seconds) && Walked(h, middle, high, m, p) && high <= Length(seconds)
    ensures TakenRank(seconds, high, p)
  {
    hide Finished, Taken, TakenRank;
    var c := LeastTaken(seconds, high);
    FirstIsRanked(h, counts, seconds, high, c);
    FirstIsRanked(h, counts, seconds, high, p);
  }

  /** Few empty seconds: the walk's middle is the ranked count. */
  lemma DenseMedian(h: map<nat, int>, counts: map<int, nat>, seconds: seq<int>, middle: int, high: int, m: nat, p: nat)
    requires seconds != [] && Finished(h, counts, seconds) && Walked(h, middle, high, m, p)
    requires Missing(seconds) < middle <= high && middle <= Length(seconds)
    ensures TakenRank(seconds, middle, m)
  {
    hide Finished, Taken, TakenRank, Below, Missing;
    var c := LeastTaken(seconds, middle);
    FirstIsRanked(h, counts, seconds, middle, c);
    FinishedMissing(h, counts, seconds, middle);
    assert forall k: nat :: Reaches(h, high, k) ==> Reaches(h, middle, k);
    assert Eligible(h, middle, high, c);
    assert forall k: nat :: k < c ==> !Eligible(h, middle, high, k);
  }

  /** The empty seconds reach the high rank: the walk stops on them. */
  lemma EmptyMedian(h: map<nat, int>, counts: map<int, nat>, seconds: seq<int>, middle: int, high: int, m: nat, p: nat)
    requires seconds != [] && Finished(h, counts, seconds) && Walked(h, middle, high, m, p)
    requires Missing(seconds) >= high >= middle
    ensures m == 0 && TakenRank(seconds, middle, m)
  {
    hide Finished, Taken, TakenRank, Below, Missing;
    FinishedMissing(h, counts, seconds, high);
    FinishedMissing(h, counts, seconds, middle);
    FirstIsRanked(h, counts, seconds, middle, 0);
  }

  lemma ReachesOn(h: map<nat, int>, counts: map<int, nat>, seconds: seq<int>, rank: int, a: nat, b: nat)
    requires seconds != [] && Finished(h, counts, seconds)
    requires Reaches(h, rank, a) && a <= b && b in h
    ensures Reaches(h, rank, b)
  {
    BelowIsTaken(h, counts, seconds, a);
    BelowIsTaken(h, counts, seconds, b);
    BusyShrinks(seconds, a, b);
  }

  lemma BetweenIsEligible(
      h: map<nat, int>, counts: map<int, nat>, seconds: seq<int>, middle: int, high: int, m: nat, k: nat)
    requires seconds != [] && Finished(h, counts, seconds)
    requires Reaches(h, middle, 0) && Eligible(h, middle, high, m) && 0 < k < m && k in h
    ensures Eligible(h, middle, high, k)
  {
    hide Finished, Reaches;
    ReachesOn(h, counts, seconds, middle, 0, k);
  }

  /** In between, the walk passes the empty seconds over for the next count. */
  lemma SparseMedian(h: map<nat, int>, counts: map<int, nat>, seconds: seq<int>, middle: int, high: int, m: nat, p: nat)
    requires seconds != [] && Finished(h, counts, seconds) && Walked(h, middle, high, m, p)
    requires middle <= Missing(seconds) < high <= Length(seconds)
    ensures m > 0 && FewestOfAny(seconds, m)
  {
    hide Finished, Below, Missing, Taken, TakenRank, FewestOfAny;
    FinishedMissing(h, counts, seconds, high);
    FinishedMissing(h, counts, seconds, middle);
    var c := LeastTaken(seconds, high);
    FirstIsRanked(h, counts, seconds, high, c);
    ReachesOn(h, counts, seconds, middle, 0, c);
    assert Eligible(h, middle, high, c);
    forall k: nat | 0 < k < m ensures k !in h {
      if k in h {
        BetweenIsEligible(h, counts, seconds, middle, high, m, k);
      }
    }
    FewestIs(h, counts, seconds, m);
  }

  /** `m` is the fewest rows of any second that has one. */
  ghost predicate FewestOfAny(seconds: seq<int>, m: nat) {
    && (exists s :: s in seconds && multiset(seconds)[s] == m)
    && (forall s :: s in seconds ==> m <= multiset(seconds)[s])
  }

  lemma FewestIs(h: map<nat, int>, counts: map<int, nat>, seconds: seq<int>, m: nat)
    requires seconds != [] && Finished(h, counts, seconds) && m > 0 && m in h
    requires forall k: nat :: 0 < k < m ==> k !in h
    ensures FewestOfAny(seconds, m)
  {
    var having := Having(counts, counts.Keys, m);
    assert GetInt(h, m) == |having| && having != {};
    EmptyIfNone(having);
    var s: int :| s in having;
    assert s in seconds && multiset(seconds)[s] == m;
    forall t | t in seconds ensures m <= multiset(seconds)[t] {
      var k := multiset(seconds)[t];
      assert t in counts && counts[t] == k && t in Having(counts, counts.Keys, k);
      assert GetInt(h, k) == |Having(counts, counts.Keys, k)|;
    }
  }

  /** The 95th percentile is that of the counts over every second of the span exactly
      where the strays leave it covered; of a span that runs backwards it is zero. */
  lemma HighRankRightIff(seconds: seq<int>, median: nat, p95: nat)
    requires seconds != [] && RanksReported(seconds, median, p95)
    ensures Length(seconds) >= 1 ==>
      (RankIs(seconds, High(Length(seconds)), p95) <==> Covered(seconds, High(Length(seconds))))
    ensures Length(seconds) < 0 ==> p95 == 0
  {
    var span := Length(seconds);
    var h, counts :| Finished(h, counts, seconds) && Walked(h, Middle(span), High(span), median, p95);
    RanksInSpan(span);
    hide Finished, TakenRank, RankIs, Covered, Middle, High;
    if span >= 1 {
      HighIsTaken(h, counts, seconds, Middle(span), High(span), median, p95);
      RankRightIff(seconds, High(span), p95);
    } else if span < 0 {
      NothingReached(h, counts, seconds, High(span));
    }
  }

  lemma NothingReached(h: map<nat, int>, counts: map<int, nat>, seconds: seq<int>, rank: int)
    requires seconds != [] && Finished(h, counts, seconds) && rank > Length(seconds)
    ensures forall k: nat :: !Reaches(h, rank, k)
  {
    forall k: nat ensures !Reaches(h, rank, k) {
      BelowIsTaken(h, counts, seconds, k);
    }
  }

  /** The median is right exactly where the empty seconds fall short of the middle
      rank or reach the high one, and the strays leave it covered. Between the two
      ranks the middle count is zero, and what is reported is the fewest rows of any
      second with a row; of a span that runs backwards it is zero. */
  lemma MedianRightIff(seconds: seq<int>, median: nat, p95: nat)
    requires seconds != [] && RanksReported(seconds, median, p95)
    ensures var middle, high, missing := Middle(Length(seconds)), High(Length(seconds)), Missing(seconds);
            Length(seconds) >= 1 ==>
              && (RankIs(seconds, middle, median) <==> !(middle <= missing < high) && Covered(seconds, middle))
              && (middle <= missing < high ==> RankIs(seconds, middle, 0) && median > 0 && FewestOfAny(seconds, median))
    ensures Length(seconds) < 0 ==> median == 0
  {
    var span := Length(seconds);
    var h, counts :| Finished(h, counts, seconds) && Walked(h, Middle(span), High(span), median, p95);
    RanksInSpan(span);
    hide Finished, TakenRank, RankIs, Covered, Middle, High, Missing, Length, FewestOfAny;
    if span < 0 {
      NothingReached(h, counts, seconds, Middle(span));
    } else if span >= 1 {
      if Missing(seconds) < Middle(span) {
        DenseMedian(h, counts, seconds, Middle(span), High(span), median, p95);
        RankRightIff(seconds, Middle(span), median);
      } else if Missing(seconds) >= High(span) {
        EmptyMedian(h, counts, seconds, Middle(span), High(span), median, p95);
        RankRightIff(seconds, Middle(span), median);
      } else {
        SparseMedian(h, counts, seconds, Middle(span), High(span), median, p95);
        ZeroIsRanked(seconds, Middle(span), median);
      }
    }
  }

  /** Enough empty seconds make zero the ranked count, and no other. */
  lemma ZeroIsRanked(seconds: seq<int>, rank: int, m: nat)
    requires seconds != [] && Length(seconds) >= 0 && Missing(seconds) >= rank
    ensures RankIs(seconds, rank, 0) && (m > 0 ==> !RankIs(seconds, rank, m))
  {
    TakenIsQuiet(seconds, 0);
    assert Busy(seconds, 0) == Distinct(seconds);
  }

  /** Two rows three seconds apart: two of the four seconds are empty, and
      one row a second is reported where the middle is none. */
  lemma SparseMedianIsWrong(median: nat, p95: nat)
    requires RanksReported([0, 3], median, p95)
    ensures median == 1 && RankIs([0, 3], Middle(4), 0)
  {
    hide RanksReported, RankIs, Covered, Middle, High;
    ExampleSeconds();
    MedianRightIff([0, 3], median, p95);
    hide Length, Missing;
  }

  lemma ExampleSeconds()
    ensures Length([0, 3]) == 4 && Missing([0, 3]) == 2 && Middle(4) == 2 && High(4) == 4
    ensures multiset([0, 3])[0] == 1 && 0 in [0, 3]
  {
    assert Distinct([0, 3]) == {0, 3};
  }

  /** Rows out of order: the span is one second of two rows, and the three rows of a
      stray second are reported. */
  lemma StrayRowsMisrank(median: nat, p95: nat)
    requires RanksReported([0, 5, 5, 5, 0], median, p95)
    ensures p95 == 3 && RankIs([0, 5, 5, 5, 0], High(1), 2)
  {
    var seconds := [0, 5, 5, 5, 0];
    StraySeconds();
    var h, counts :| Finished(h, counts, seconds) && Walked(h, Middle(1), High(1), median, p95);
    hide Finished, RankIs, Taken, Walked;
    HighIsTaken(h, counts, seconds, Middle(1), High(1), median, p95);
  }

  lemma StraySeconds()
    ensures var s := [0, 5, 5, 5, 0];
            && Length(s) == 1 && High(1) == 1
            && Taken(s, 0) < 1 && Taken(s, 1) < 1 && Taken(s, 2) < 1 && Taken(s, 3) == 1
            && RankIs(s, 1, 2)
  {
    var s := [0, 5, 5, 5, 0];
    assert Distinct(s) == {0, 5};
    assert multiset(s)[0] == 2 && multiset(s)[5] == 3;
    assert Busy(s, 3) == {};
    assert 5 in Busy(s, 0) && 5 in Busy(s, 1) && 5 in Busy(s, 2);
    assert SpanOf(s) == {0};
    assert Quiet(s, 2) == {0} && Quiet(s, 1) == {} && Quiet(s, 0) == {};
  }

  // ------------------------------------------------------------------- the program

  lemma {:induction false} SecondsExtend(stamps: seq<int>, t: int)
    ensures SecondsOf(stamps + [t]) == SecondsOf(stamps) + [Second(t)]
  {
  }

  lemma CountedOneMore(counts: map<int, nat>, seconds: seq<int>, s: int)
    requires CountedBy(counts, seconds)
    ensures CountedBy(counts[s := (if s in counts then counts[s] else 0) + 1], seconds + [s])
  {
    assert forall t :: t in seconds + [s] <==> t in seconds || t == s;
    assert multiset(seconds + [s]) == multiset(seconds) + multiset{s};
  }

  /** The rows by second, one pass, with the first and the last second. */
  method CountSeconds(stamps: seq<int>) returns (counts: map<int, nat>, first: Option<int>, last: Option<int>)
    ensures CountedBy(counts, SecondsOf(stamps))
    ensures stamps == [] ==> first == None && last == None
    ensures stamps != [] ==> first == Some(Second(stamps[0])) && last == Some(Second(Last(stamps)))
  {
    hide CountedBy, Second;
    counts, first, last := map[], None, None;
    NoneCounted();
    assert stamps[..0] == [];
    var i := 0;
    while i < |stamps|
      invariant 0 <= i <= |stamps| && CountedBy(counts, SecondsOf(stamps[..i]))
      invariant i == 0 ==> first == None && last == None
      invariant i > 0 ==> first == Some(Second(stamps[0])) && last == Some(Second(stamps[i - 1]))
    {
      var s := Second(stamps[i]);
      SecondsExtend(stamps[..i], stamps[i]);
      assert stamps[..i + 1] == stamps[..i] + [stamps[i]];
      CountedOneMore(counts, SecondsOf(stamps[..i]), s);
      if first.None? {
        first := Some(s);
      }
      last := Some(s);
      counts := counts[s := (if s in counts then counts[s] else 0) + 1];
      i := i + 1;
    }
    assert stamps[..i] == stamps;
  }

  lemma NoneCounted()
    ensures CountedBy(map[], SecondsOf([]))
  {
    assert SecondsOf([]) == [];
  }

  lemma FinishedIs(h: map<nat, int>, counts: map<int, nat>, seconds: seq<int>)
    requires seconds != [] && CountedBy(counts, seconds) && Histogram(h, counts, counts.Keys)
    ensures Finished(h[0 := Length(seconds) - |counts|], counts, seconds)
    ensures Length(seconds) - |counts| == Missing(seconds)
  {
    var h' := h[0 := Length(seconds) - |counts|];
    forall c: nat | c > 0 ensures GetInt(h', c) == |Having(counts, counts.Keys, c)| {
      assert GetInt(h', c) == GetInt(h, c);
    }
    assert counts.Keys == Distinct(seconds) && |counts| == |counts.Keys|;
  }

  /** The per-second part of `probe`: it fails on no rows, and on a span of zero,
      which only a last row a second before the first has. */
  method PerSecondCounts(stamps: seq<int>) returns (r: Result<Figures, Error>)
    ensures r == Err(NoRows) <==> stamps == []
    ensures r == Err(ZeroDivision) <==> stamps != [] && Second(Last(stamps)) + 1 == Second(stamps[0])
    ensures r.Ok? ==> Reported(SecondsOf(stamps), r.value)
  {
    hide CountedBy, Histogram, Second, Walked, Middle, High;
    var counts, first, last := CountSeconds(stamps);
    if first.None? {
      return Err(NoRows);
    }
    ghost var seconds := SecondsOf(stamps);
    var span := last.value - first.value + 1;
    var h := Tabulate(counts);
    var missing := span - |counts|;
    FinishedIs(h, counts, seconds);
    h := h[0 := missing];
    var median, p95 := Walk(h, Middle(span), High(span));
    if span == 0 {
      return Err(ZeroDivision);
    }
    r := Ok(Figures(|stamps| as real / span as real, median, p95, missing as real / span as real));
  }
}
