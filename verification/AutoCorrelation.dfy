/** The streaming autocorrelation of `analysis/probe_binance_aggtrades.py`: a ring
    of the last `k` values and one running sum per lag, over an arithmetic nothing
    is assumed of. What holds here holds bit for bit in floating point. */
module AutoCorrelation {
  import opened Prelude

  datatype Arith<!N> = Arith(
    zero: N,
    add: (N, N) -> N,
    sub: (N, N) -> N,
    mul: (N, N) -> N,
    div: (N, N) -> N,
    divInt: (N, nat) -> N,
    nonPositive: N -> bool)

  // -------------------------------------------------- the history's own sums

  /** `p` added `times` times over. */
  function AddTimes<N>(ops: Arith<N>, acc: N, p: N, times: nat): N {
    if times == 0 then acc else ops.add(AddTimes(ops, acc, p, times - 1), p)
  }

  /** The left-to-right sum of x_i * x_(i-d) over a history, each product taken
      `times` times. */
  function CrossTimes<N>(ops: Arith<N>, hist: seq<N>, d: nat, times: nat): N
    requires d >= 1
  {
    if hist == [] then ops.zero
    else
      var n := |hist| - 1;
      var before := CrossTimes(ops, hist[..n], d, times);
      if n < d then before else AddTimes(ops, before, ops.mul(hist[n], hist[n - d]), times)
  }

  function Cross<N>(ops: Arith<N>, hist: seq<N>, d: nat): N
    requires d >= 1
  {
    if hist == [] then ops.zero
    else
      var n := |hist| - 1;
      if n < d then Cross(ops, hist[..n], d)
      else ops.add(Cross(ops, hist[..n], d), ops.mul(hist[n], hist[n - d]))
  }

  function Total<N>(ops: Arith<N>, hist: seq<N>): N {
    if hist == [] then ops.zero else ops.add(Total(ops, Front(hist)), Last(hist))
  }

  function TotalSquares<N>(ops: Arith<N>, hist: seq<N>): N {
    if hist == [] then ops.zero
    else
      var x := Last(hist);
      ops.add(TotalSquares(ops, Front(hist)), ops.mul(x, x))
  }

  lemma CrossAppend<N>(ops: Arith<N>, hist: seq<N>, x: N, d: nat, times: nat)
    requires d >= 1
    ensures CrossTimes(ops, hist + [x], d, times) ==
      if |hist| < d then CrossTimes(ops, hist, d, times)
      else AddTimes(ops, CrossTimes(ops, hist, d, times), ops.mul(x, hist[|hist| - d]), times)
  {
    assert (hist + [x])[..|hist|] == hist;
  }

  lemma AddOnce<N>(ops: Arith<N>, acc: N, p: N)
    ensures AddTimes(ops, acc, p, 1) == ops.add(acc, p)
  {
    assert AddTimes(ops, acc, p, 0) == acc;
  }

  // ------------------------------------------------------------------ lags

  function Insert(x: int, s: seq<int>): seq<int> {
    if s == [] || x <= s[0] then [x] + s else [s[0]] + Insert(x, s[1..])
  }

  function Sorted(s: seq<int>): seq<int> {
    if s == [] then [] else Insert(s[0], Sorted(s[1..]))
  }

  predicate Ascending(s: seq<int>) { forall i, j :: 0 <= i < j < |s| ==> s[i] <= s[j] }

  function Count(s: seq<int>, d: int): nat {
    if s == [] then 0 else Count(Front(s), d) + (if Last(s) == d then 1 else 0)
  }

  lemma {:induction false} InsertMultiset(x: int, s: seq<int>)
    ensures multiset(Insert(x, s)) == multiset(s) + multiset{x}
  {
    if s != [] && x > s[0] {
      InsertMultiset(x, s[1..]);
      assert s == [s[0]] + s[1..];
    }
  }

  lemma {:induction false} InsertAscends(x: int, s: seq<int>)
    requires Ascending(s)
    ensures Ascending(Insert(x, s))
  {
    if s != [] && x > s[0] {
      var t := s[1..];
      assert forall j :: 0 <= j < |t| ==> t[j] == s[j + 1];
      InsertAscends(x, t);
      InsertBounded(x, t, s[0]);
      hide Insert;
      Prepended(s[0], Insert(x, t));
    }
  }

  lemma {:induction false} InsertBounded(x: int, s: seq<int>, low: int)
    requires low <= x && forall j :: 0 <= j < |s| ==> low <= s[j]
    ensures forall j :: 0 <= j < |Insert(x, s)| ==> low <= Insert(x, s)[j]
  {
    if s != [] && x > s[0] {
      InsertBounded(x, s[1..], low);
    }
  }

  lemma Prepended(low: int, s: seq<int>)
    requires Ascending(s) && forall j :: 0 <= j < |s| ==> low <= s[j]
    ensures Ascending([low] + s)
  {
  }

  lemma {:induction false} SortedAscends(s: seq<int>)
    ensures Ascending(Sorted(s)) && multiset(Sorted(s)) == multiset(s)
  {
    if s != [] {
      SortedAscends(s[1..]);
      InsertAscends(s[0], Sorted(s[1..]));
      InsertMultiset(s[0], Sorted(s[1..]));
      assert s == [s[0]] + s[1..];
    }
  }

  lemma {:induction false} CountIsMultiplicity(s: seq<int>, d: int)
    ensures Count(s, d) == multiset(s)[d]
  {
    if s != [] {
      CountIsMultiplicity(Front(s), d);
      assert s == Front(s) + [Last(s)];
    }
  }

  lemma {:induction false} CountNext(s: seq<int>, j: nat)
    requires j < |s|
    ensures forall e :: Count(s[..j + 1], e) == Count(s[..j], e) + (if e == s[j] then 1 else 0)
  {
    assert s[..j + 1][..j] == s[..j];
  }

  lemma {:induction false} CountBeyond(s: seq<int>, j: nat, d: int)
    requires j <= |s| && forall i :: j <= i < |s| ==> s[i] != d
    ensures Count(s, d) == Count(s[..j], d)
  {
    if j < |s| {
      assert Front(s)[..j] == s[..j];
      CountBeyond(Front(s), j, d);
    } else {
      assert s[..j] == s;
    }
  }

  predicate LagsInRange(lags: seq<int>, k: nat) { forall i :: 0 <= i < |lags| ==> 1 <= lags[i] <= k }

  /** How often a push adds a lag's product. */
  function Multiplicity(lags: Option<seq<int>>, d: nat): nat {
    match lags
    case None => 1
    case Some(s) => Count(s, d)
  }

  // -------------------------------------------------------------- estimates

  function Mean<N>(ops: Arith<N>, hist: seq<N>): N
    requires |hist| >= 1
  {
    ops.divInt(Total(ops, hist), |hist|)
  }

  function Variance<N>(ops: Arith<N>, hist: seq<N>): N
    requires |hist| >= 1
  {
    ops.sub(ops.divInt(TotalSquares(ops, hist), |hist|), ops.mul(Mean(ops, hist), Mean(ops, hist)))
  }

  function LagEstimate<N>(ops: Arith<N>, hist: seq<N>, d: nat, times: nat): N
    requires 1 <= d < |hist|
  {
    var mean := Mean(ops, hist);
    ops.div(ops.sub(ops.divInt(CrossTimes(ops, hist, d, times), |hist| - d), ops.mul(mean, mean)), Variance(ops, hist))
  }

  function EstimateAt<N>(ops: Arith<N>, lags: Option<seq<int>>, hist: seq<N>, d: nat): Option<N>
    requires 1 <= d < |hist|
  {
    if Multiplicity(lags, d) == 0 then None else Some(LagEstimate(ops, hist, d, Multiplicity(lags, d)))
  }

  /** What `acf` reports of a history. */
  function Acf<N>(ops: Arith<N>, k: nat, lags: Option<seq<int>>, hist: seq<N>): seq<Option<N>> {
    if |hist| < 2 then []
    else if ops.nonPositive(Variance(ops, hist)) then seq(k, _ => Some(ops.zero))
    else
      seq(if k < |hist| - 1 then k else |hist| - 1,
          i requires 0 <= i < |hist| - 1 => EstimateAt(ops, lags, hist, i + 1))
  }

  // ------------------------------------------------------------- the object

  /** The value `d` pushes ago. */
  function Recent<N>(hist: seq<N>, d: int): N
    requires 1 <= d <= |hist|
  {
    hist[|hist| - d]
  }

  /** The ring slot `d` behind `pos`, by a compare and an add. */
  function Back(pos: int, d: int, k: int): int { if pos - d < 0 then pos - d + k else pos - d }

  class AutoCorr<N(0)> {
    const ops: Arith<N>
    const k: nat
    const ring: array<N>
    var pos: nat
    var filled: nat
    var n: nat
    var sum: N
    var sumsq: N
    const cross: array<N>
    const lags: Option<seq<int>>
    /** Every value pushed, oldest first. */
    ghost var hist: seq<N>

    ghost predicate Shape()
      reads this
    {
      && ring.Length == k && cross.Length == k + 1 && ring != cross
      && n == |hist| && filled == (if n < k then n else k)
      && (k > 0 ==> pos < k) && (k == 0 ==> pos == 0)
      && (lags.Some? ==> Ascending(lags.value) && LagsInRange(lags.value, k))
    }

    ghost predicate RingHolds()
      requires Shape()
      reads this, ring
    {
      forall d :: 1 <= d <= filled ==> ring[Back(pos, d, k)] == Recent(hist, d)
    }

    ghost predicate Valid()
      reads this, ring, cross
    {
      && Shape() && RingHolds()
      && sum == Total(ops, hist) && sumsq == TotalSquares(ops, hist)
      && forall d :: 1 <= d <= k ==> cross[d] == CrossTimes(ops, hist, d, Multiplicity(lags, d))
    }

    constructor (ops: Arith<N>, maxLag: nat, lags: Option<seq<int>>)
      requires lags.Some? ==> LagsInRange(lags.value, maxLag)
      ensures Valid() && hist == [] && fresh(ring) && fresh(cross)
      ensures this.ops == ops && k == maxLag
      ensures this.lags == (match lags case None => None case Some(s) => Some(Sorted(s)))
    {
      this.ops := ops;
      k := maxLag;
      ring := new N[maxLag](_ => ops.zero);
      cross := new N[maxLag + 1](_ => ops.zero);
      pos, filled, n := 0, 0, 0;
      sum, sumsq := ops.zero, ops.zero;
      this.lags := match lags case None => None case Some(s) => Some(Sorted(s));
      hist := [];
      if lags.Some? {
        SortedAscends(lags.value);
        SortedInRange(lags.value, maxLag);
      }
    }

    method Push(x: N)
      requires Valid() && k >= 1
      modifies this, ring, cross
      ensures Valid() && hist == old(hist) + [x]
    {
      AddProducts(x);
      sum := ops.add(sum, x);
      sumsq := ops.add(sumsq, ops.mul(x, x));
      Store(x);
      assert Front(hist) == old(hist);
    }

    /** Adds the new value's product with each tracked value behind it. */
    method AddProducts(x: N)
      requires Valid() && k >= 1
      modifies cross
      ensures forall d :: 1 <= d <= k ==> cross[d] == CrossTimes(ops, hist + [x], d, Multiplicity(lags, d))
    {
      hide CrossTimes;
      if lags.None? {
        AddEveryLag(x);
      } else {
        AddTrackedLags(x);
      }
      forall d | 1 <= d <= k ensures cross[d] == CrossTimes(ops, hist + [x], d, Multiplicity(lags, d)) {
        CrossAppend(ops, hist, x, d, Multiplicity(lags, d));
        assert old(cross[d]) == CrossTimes(ops, hist, d, Multiplicity(lags, d));
      }
    }

    /** Overwrites the oldest slot once the ring is full. */
    method Store(x: N)
      requires Shape() && RingHolds() && k >= 1
      modifies ring, this`pos, this`filled, this`n, this`hist
      ensures Shape() && RingHolds() && hist == old(hist) + [x]
    {
      ring[pos] := x;
      pos := if pos + 1 == k then 0 else pos + 1;
      if filled < k {
        filled := filled + 1;
      }
      n := n + 1;
      hist := hist + [x];
      forall d | 1 <= d <= filled ensures ring[Back(pos, d, k)] == Recent(hist, d) {
        if d > 1 {
          assert old(ring[Back(pos, d - 1, k)]) == Recent(old(hist), d - 1);
        }
      }
    }

    method AddEveryLag(x: N)
      requires Shape() && RingHolds() && k >= 1
      modifies cross
      ensures forall e :: 1 <= e <= filled ==>
        cross[e] == AddTimes(ops, old(cross[e]), ops.mul(x, Recent(hist, e)), 1)
      ensures forall e :: filled < e <= k ==> cross[e] == old(cross[e])
    {
      var i := pos;
      for d := 1 to filled + 1
        invariant i == (if d == 1 then pos else Back(pos, d - 1, k))
        invariant forall e :: 1 <= e < d ==>
          cross[e] == AddTimes(ops, old(cross[e]), ops.mul(x, Recent(hist, e)), 1)
        invariant forall e :: d <= e <= k ==> cross[e] == old(cross[e])
      {
        i := i - 1;
        if i < 0 {
          i := i + k;
        }
        assert i == Back(pos, d, k) && ring[i] == Recent(hist, d);
        AddOnce(ops, cross[d], ops.mul(x, ring[i]));
        cross[d] := ops.add(cross[d], ops.mul(x, ring[i]));
      }
    }

    method AddTrackedLags(x: N)
      requires Shape() && RingHolds() && k >= 1 && lags.Some?
      modifies cross
      ensures forall e :: 1 <= e <= filled ==>
        cross[e] == AddTimes(ops, old(cross[e]), ops.mul(x, Recent(hist, e)), Count(lags.value, e))
      ensures forall e :: filled < e <= k ==> cross[e] == old(cross[e])
    {
      var s := lags.value;
      var j := 0;
      while j < |s|
        invariant 0 <= j <= |s|
        invariant forall e :: 1 <= e <= filled ==>
          cross[e] == AddTimes(ops, old(cross[e]), ops.mul(x, Recent(hist, e)), Count(s[..j], e))
        invariant forall e :: filled < e <= k ==> cross[e] == old(cross[e])
      {
        var d := s[j];
        if d > filled {
          break;
        }
        var i := pos - d;
        if i < 0 {
          i := i + k;
        }
        assert i == Back(pos, d, k) && ring[i] == Recent(hist, d);
        cross[d] := ops.add(cross[d], ops.mul(x, ring[i]));
        CountNext(s, j);
        j := j + 1;
      }
      forall e | 1 <= e <= filled ensures Count(s, e) == Count(s[..j], e) {
        CountBeyond(s, j, e);
      }
    }

    method Report() returns (out: seq<Option<N>>)
      requires Valid()
      ensures out == Acf(ops, k, lags, hist)
    {
      hide Total, TotalSquares, CrossTimes;
      if n < 2 {
        return [];
      }
      var mean := ops.divInt(sum, n);
      var variance := ops.sub(ops.divInt(sumsq, n), ops.mul(mean, mean));
      assert mean == Mean(ops, hist) && variance == Variance(ops, hist);
      if ops.nonPositive(variance) {
        return seq(k, _ => Some(ops.zero));
      }
      out := [];
      var d := 1;
      while d <= k
        invariant 1 <= d <= k + 1 && |out| == d - 1 && d <= n
        invariant forall e :: 1 <= e < d ==> out[e - 1] == EstimateAt(ops, lags, hist, e)
      {
        var m := n - d;
        if m <= 0 {
          break;
        }
        if lags.Some? { CountIsMultiplicity(lags.value, d); }
        if lags.Some? && d !in lags.value {
          out := out + [None];
        } else {
          var cov := ops.sub(ops.divInt(cross[d], m), ops.mul(mean, mean));
          out := out + [Some(ops.div(cov, variance))];
        }
        d := d + 1;
      }
      assert out == Acf(ops, k, lags, hist);
    }
  }

  lemma SortedInRange(s: seq<int>, k: nat)
    requires LagsInRange(s, k)
    ensures LagsInRange(Sorted(s), k)
  {
    SortedAscends(s);
    forall i | 0 <= i < |Sorted(s)| ensures 1 <= Sorted(s)[i] <= k {
      assert Sorted(s)[i] in multiset(Sorted(s));
    }
  }

  /** `AutoCorr(max_lag, lags)`: refused exactly when some lag is out of range. */
  method Create<N(0)>(ops: Arith<N>, maxLag: nat, lags: Option<seq<int>>) returns (r: Option<AutoCorr<N>>)
    ensures r.None? <==> lags.Some? && exists d :: d in lags.value && !(1 <= d <= maxLag)
    ensures r.Some? ==> r.value.Valid() && r.value.hist == [] && fresh(r.value)
                        && r.value.ops == ops && r.value.k == maxLag
                        && r.value.lags == (match lags case None => None case Some(s) => Some(Sorted(s)))
  {
    if lags.Some? && exists i :: 0 <= i < |lags.value| && !(1 <= lags.value[i] <= maxLag) {
      var i :| 0 <= i < |lags.value| && !(1 <= lags.value[i] <= maxLag);
      assert lags.value[i] in lags.value;
      return None;
    }
    var a := new AutoCorr(ops, maxLag, lags);
    r := Some(a);
  }

  // --------------------------------------------- restricting the lags kept

  /** A lag kept once carries the running sum the unrestricted form carries,
      whatever the arithmetic. */
  lemma {:induction false} OnceIsCross<N>(ops: Arith<N>, hist: seq<N>, d: nat)
    requires d >= 1
    ensures CrossTimes(ops, hist, d, 1) == Cross(ops, hist, d)
  {
    if hist != [] {
      var n := |hist| - 1;
      OnceIsCross(ops, hist[..n], d);
      if n >= d {
        var p := ops.mul(hist[n], hist[n - d]);
        assert AddTimes(ops, CrossTimes(ops, hist[..n], d, 1), p, 0) == CrossTimes(ops, hist[..n], d, 1);
      }
    }
  }

  const INTEGERS: Arith<int> := Arith(0, (a, b) => a + b, (a, b) => a - b, (a, b) => a * b,
                                      (a, b) => if b == 0 then 0 else a / b,
                                      (a, n: nat) => if n == 0 then 0 else a / n, a => a <= 0)

  lemma {:induction false} ShortHistoryCross(hist: seq<int>, d: nat, times: nat)
    requires d >= 1 && |hist| <= d
    ensures CrossTimes(INTEGERS, hist, d, times) == 0
  {
    if hist != [] {
      ShortHistoryCross(Front(hist), d, times);
    }
  }

  lemma {:induction false} AddOnes(acc: int, times: nat)
    ensures AddTimes(INTEGERS, acc, 1, times) == acc + times
  {
    if times > 0 {
      AddOnes(acc, times - 1);
    }
  }

  /** Restricting the lags leaves a lag's sum as the unrestricted one on every
      history and arithmetic if and only if the lag is kept exactly once: a lag
      listed twice is accumulated twice. */
  lemma RestrictionIsExactIff(lags: seq<int>, d: nat)
    requires d >= 1
    ensures multiset(lags)[d] == 1 <==>
              forall hist: seq<int> ::
                CrossTimes(INTEGERS, hist, d, Multiplicity(Some(Sorted(lags)), d)) == Cross(INTEGERS, hist, d)
  {
    SortedAscends(lags);
    CountIsMultiplicity(Sorted(lags), d);
    var m := Multiplicity(Some(Sorted(lags)), d);
    if m == 1 {
      forall hist: seq<int> ensures CrossTimes(INTEGERS, hist, d, m) == Cross(INTEGERS, hist, d) {
        OnceIsCross(INTEGERS, hist, d);
      }
    } else {
      var ones := seq(d + 1, i => 1);
      OnceIsCross(INTEGERS, ones, d);
      OnesCross(ones, d, m);
      OnesCross(ones, d, 1);
    }
  }

  lemma OnesCross(ones: seq<int>, d: nat, times: nat)
    requires d >= 1 && |ones| == d + 1 && forall i :: 0 <= i <= d ==> ones[i] == 1
    ensures CrossTimes(INTEGERS, ones, d, times) == times
  {
    ShortHistoryCross(ones[..d], d, times);
    AddOnes(0, times);
  }

  /** One product, accumulated twice by the lag listed twice. */
  lemma {:induction false} LagListedTwice()
    ensures CrossTimes(INTEGERS, [1, 1], 1, Multiplicity(Some(Sorted([1, 1])), 1)) == 2
    ensures Cross(INTEGERS, [1, 1], 1) == 1
  {
    SortedAscends([1, 1]);
    CountIsMultiplicity(Sorted([1, 1]), 1);
    OnesCross([1, 1], 1, 2);
    OnesCross([1, 1], 1, 1);
    OnceIsCross(INTEGERS, [1, 1], 1);
  }

  /** A constant history: the lag that was not kept is reported all the same, as zero. */
  lemma {:induction false} DroppedLagReportsZero()
    ensures Multiplicity(Some(Sorted([1])), 2) == 0
    ensures Acf(INTEGERS, 2, Some(Sorted([1])), [5, 5, 5]) == [Some(0), Some(0)]
  {
    SortedAscends([1]);
    CountIsMultiplicity(Sorted([1]), 2);
    ConstantVariance([5, 5, 5]);
  }

  lemma ConstantVariance(hist: seq<int>)
    requires hist == [5, 5, 5]
    ensures Variance(INTEGERS, hist) == 0
  {
    assert hist[..2] == [5, 5] && hist[..2][..1] == [5] && hist[..2][..1][..0] == [];
    assert Total(INTEGERS, hist[..2][..1]) == 5 && TotalSquares(INTEGERS, hist[..2][..1]) == 25;
    assert Total(INTEGERS, hist[..2]) == 10 && TotalSquares(INTEGERS, hist[..2]) == 50;
    assert Total(INTEGERS, hist) == 15 && TotalSquares(INTEGERS, hist) == 75;
  }

  /** What a restricted estimator reports at a lag, against the unrestricted one:
      the identical value where the lag was kept once and the variance is positive;
      nothing where it was not kept - except that a non-positive variance reports
      zero at every lag, kept or not. */
  lemma RestrictedReport<N>(ops: Arith<N>, k: nat, lags: seq<int>, hist: seq<N>, d: nat)
    requires 1 <= d <= k && d < |hist| && |hist| >= 2
    ensures var full := Acf(ops, k, None, hist); var kept := Acf(ops, k, Some(Sorted(lags)), hist);
            && |full| == |kept| && d <= |kept|
            && (multiset(lags)[d] == 1 ==> kept[d - 1] == full[d - 1])
            && (multiset(lags)[d] == 0 ==>
                  (kept[d - 1] == None <==> !ops.nonPositive(Variance(ops, hist))))
  {
    hide LagEstimate, Sorted, Variance;
    SortedAscends(lags);
    CountIsMultiplicity(Sorted(lags), d);
    if !ops.nonPositive(Variance(ops, hist)) {
      assert Acf(ops, k, None, hist)[d - 1] == EstimateAt(ops, None, hist, d);
      assert Acf(ops, k, Some(Sorted(lags)), hist)[d - 1] == EstimateAt(ops, Some(Sorted(lags)), hist, d);
    }
  }

  // ------------------------------------------------------- a known answer

  /** The arithmetic of the estimates over the reals, where rounding plays no part. */
  const REALS: Arith<real> :=
    Arith(0.0, (a, b) => a + b, (a, b) => a - b, (a, b) => a * b, (a, b) => if b == 0.0 then 0.0 else a / b,
          (a, n: nat) => if n == 0 then 0.0 else a / n as real, a => a <= 0.0)

  function Alternating(a: real, b: real, n: nat): (r: seq<real>)
    ensures |r| == n
  {
    seq(n, i => if i % 2 == 0 then a else b)
  }

  lemma AlternatingFront(a: real, b: real, n: nat)
    requires n > 0
    ensures Front(Alternating(a, b, n)) == Alternating(a, b, n - 1)
    ensures Last(Alternating(a, b, n)) == if n % 2 == 1 then a else b
  {
  }

  /** `x` at the even positions below `n` and `y` at the odd ones, added up. */
  function Interleaved(x: real, y: real, n: nat): real {
    ((n + 1) / 2) as real * x + (n / 2) as real * y
  }

  lemma InterleavedNext(x: real, y: real, n: nat)
    requires n > 0
    ensures Interleaved(x, y, n) == Interleaved(x, y, n - 1) + if n % 2 == 1 then x else y
  {
    if n % 2 == 1 {
      assert n / 2 == (n - 1) / 2 && (n + 1) / 2 == n / 2 + 1;
      assert ((n + 1) / 2) as real == (n / 2) as real + 1.0;
    } else {
      assert (n + 1) / 2 == n / 2 && n / 2 == (n - 1) / 2 + 1;
      assert (n / 2) as real == ((n - 1) / 2) as real + 1.0;
    }
  }

  lemma {:induction false} AlternatingTotals(a: real, b: real, n: nat)
    ensures Total(REALS, Alternating(a, b, n)) == Interleaved(a, b, n)
    ensures TotalSquares(REALS, Alternating(a, b, n)) == Interleaved(a * a, b * b, n)
  {
    hide Interleaved, Alternating;
    if n == 0 {
      NoneInterleaved(a, b);
      NoneInterleaved(a * a, b * b);
    } else {
      AlternatingTotals(a, b, n - 1);
      AlternatingFront(a, b, n);
      InterleavedNext(a, b, n);
      InterleavedNext(a * a, b * b, n);
    }
  }

  /** What the cross sum of an alternating history comes to: of its mixed product at an
      odd lag, of its two squares at an even one. */
  function AlternatingSum(mixed: real, first: real, second: real, n: int, d: nat): real {
    if n < d then 0.0
    else if d % 2 == 1 then Interleaved(mixed, mixed, n - d)
    else Interleaved(first, second, n - d)
  }

  function Adds(mixed: real, first: real, second: real, n: nat, d: nat): real {
    if d % 2 == 1 then mixed else if (n - d) % 2 == 1 then first else second
  }

  lemma SumNext(mixed: real, first: real, second: real, n: nat, d: nat)
    requires n > d
    ensures AlternatingSum(mixed, first, second, n, d) ==
      AlternatingSum(mixed, first, second, n - 1, d) + Adds(mixed, first, second, n, d)
  {
    hide Interleaved;
    InterleavedNext(mixed, mixed, n - d);
    InterleavedNext(first, second, n - d);
  }

  /** The product a value adds at a lag. */
  function LagProduct(hist: seq<real>, d: nat): real
    requires d < |hist|
  {
    Last(hist) * hist[|hist| - 1 - d]
  }

  /** At an odd lag a product mixes the two values, at an even lag it is a square. */
  lemma ProductAt(a: real, b: real, n: nat, d: nat)
    requires n > d
    ensures LagProduct(Alternating(a, b, n), d) == Adds(a * b, a * a, b * b, n, d)
  {
    var hist := Alternating(a, b, n);
    assert Last(hist) == if (n - 1) % 2 == 0 then a else b;
    assert hist[n - 1 - d] == if (n - 1 - d) % 2 == 0 then a else b;
  }

  lemma CrossNext(hist: seq<real>, d: nat)
    requires d >= 1 && hist != []
    ensures CrossTimes(REALS, hist, d, 1) == CrossTimes(REALS, Front(hist), d, 1) +
      if |hist| <= d then 0.0 else LagProduct(hist, d)
  {
    if |hist| > d {
      AddOnce(REALS, CrossTimes(REALS, Front(hist), d, 1), Last(hist) * hist[|hist| - 1 - d]);
    }
  }

  lemma {:induction false} AlternatingCross(a: real, b: real, n: nat, d: nat)
    requires d >= 1
    ensures CrossTimes(REALS, Alternating(a, b, n), d, 1) == AlternatingSum(a * b, a * a, b * b, n, d)
  {
    hide CrossTimes, Alternating, AlternatingSum, LagProduct, Adds;
    if n == 0 {
      NothingCrossed(Alternating(a, b, n), d);
      NoneYet(a * b, a * a, b * b, n, d);
    } else {
      AlternatingCross(a, b, n - 1, d);
      AlternatingFront(a, b, n);
      CrossNext(Alternating(a, b, n), d);
      if n > d {
        ProductAt(a, b, n, d);
        SumNext(a * b, a * a, b * b, n, d);
      } else {
        NoneYet(a * b, a * a, b * b, n, d);
        NoneYet(a * b, a * a, b * b, n - 1, d);
      }
    }
  }

  lemma NothingCrossed(hist: seq<real>, d: nat)
    requires d >= 1 && hist == []
    ensures CrossTimes(REALS, hist, d, 1) == 0.0
  {
  }

  lemma NoneYet(mixed: real, first: real, second: real, n: nat, d: nat)
    requires n <= d
    ensures AlternatingSum(mixed, first, second, n, d) == 0.0
  {
    hide Interleaved;
    NoneInterleaved(mixed, mixed);
    NoneInterleaved(first, second);
  }

  lemma NoneInterleaved(x: real, y: real)
    ensures Interleaved(x, y, 0) == 0.0
  {
    var none := 0.0;
    assert ((0 + 1) / 2) as real == none && (0 / 2) as real == none;
    assert none * x == 0.0 && none * y == 0.0;
  }

  lemma Undone(n: real, q: real)
    requires n != 0.0
    ensures n * q / n == q
  {
  }

  lemma Halves(x: real, y: real, n: nat)
    requires n > 0 && (n % 2 == 0 || x == y)
    ensures Interleaved(x, y, n) / n as real == (x + y) / 2.0
  {
    var g, h := ((n + 1) / 2) as real, (n / 2) as real;
    assert n as real == g + h;
    assert Interleaved(x, y, n) == g * x + h * y == n as real * ((x + y) / 2.0);
    Undone(n as real, (x + y) / 2.0);
  }

  function Squared(x: real): real { x * x }

  lemma SquaredPositive(x: real)
    requires x != 0.0
    ensures Squared(x) > 0.0
  {
    PositiveProduct(AbsR(x), AbsR(x), Squared(x));
  }

  lemma PositiveProduct(x: real, y: real, p: real)
    requires x > 0.0 && y > 0.0 && p == x * y
    ensures p > 0.0
  {
  }

  /** A quarter of the squared difference. */
  function Spread(a: real, b: real): real { Squared(a - b) / 4.0 }

  lemma SpreadCentres(a: real, b: real)
    ensures a != b ==> Spread(a, b) > 0.0
    ensures a * b - (a + b) / 2.0 * ((a + b) / 2.0) == Spread(a, b) * -1.0
    ensures (a * a + b * b) / 2.0 - (a + b) / 2.0 * ((a + b) / 2.0) == Spread(a, b)
  {
    if a != b { SquaredPositive(a - b); }
    assert Squared(a - b) == a * a - 2.0 * (a * b) + b * b;
  }

  lemma AlternatingMoments(a: real, b: real, m: nat)
    requires m >= 1
    ensures Mean(REALS, Alternating(a, b, 2 * m)) == (a + b) / 2.0
    ensures Variance(REALS, Alternating(a, b, 2 * m)) == Spread(a, b)
  {
    hide Total, TotalSquares, Interleaved, Alternating, Spread;
    AlternatingTotals(a, b, 2 * m);
    Halves(a, b, 2 * m);
    Halves(a * a, b * b, 2 * m);
    SpreadCentres(a, b);
  }

  /** What a lag reports where its centred covariance is `q` times the variance. */
  lemma EstimateIs(hist: seq<real>, d: nat, q: real)
    requires 1 <= d < |hist| && Variance(REALS, hist) != 0.0
    requires var mean := Mean(REALS, hist);
      CrossTimes(REALS, hist, d, 1) / (|hist| - d) as real - mean * mean == Variance(REALS, hist) * q
    ensures LagEstimate(REALS, hist, d, 1) == q
  {
    hide CrossTimes, Mean, Variance;
    Undone(Variance(REALS, hist), q);
  }

  lemma AlternatingEstimate(a: real, b: real, m: nat, d: nat)
    requires a != b && 1 <= d < 2 * m
    ensures LagEstimate(REALS, Alternating(a, b, 2 * m), d, 1) == if d % 2 == 1 then -1.0 else 1.0
  {
    hide CrossTimes, Interleaved, Alternating, Mean, Variance, Spread;
    AlternatingMoments(a, b, m);
    AlternatingCross(a, b, 2 * m, d);
    SpreadCentres(a, b);
    if d % 2 == 1 {
      Halves(a * b, a * b, 2 * m - d);
      EstimateIs(Alternating(a, b, 2 * m), d, -1.0);
    } else {
      Halves(a * a, b * b, 2 * m - d);
      EstimateIs(Alternating(a, b, 2 * m), d, 1.0);
    }
  }

  /** A history that alternates between two values an even number of times reports
      one at every even lag and minus one at every odd lag. */
  lemma AlternatingReport(a: real, b: real, m: nat, k: nat)
    requires a != b && m >= 1
    ensures var out := Acf(REALS, k, None, Alternating(a, b, 2 * m));
            && |out| == Min(k, 2 * m - 1)
            && forall i :: 0 <= i < |out| ==> out[i] == Some(if i % 2 == 0 then -1.0 else 1.0)
  {
    hide LagEstimate, Variance, Alternating, Spread;
    AlternatingMoments(a, b, m);
    SpreadCentres(a, b);
    var hist := Alternating(a, b, 2 * m);
    forall i | 0 <= i < Min(k, 2 * m - 1)
      ensures Acf(REALS, k, None, hist)[i] == Some(if i % 2 == 0 then -1.0 else 1.0)
    {
      AlternatingEstimate(a, b, m, i + 1);
      assert Acf(REALS, k, None, hist)[i] == EstimateAt(REALS, None, hist, i + 1);
    }
  }
}
