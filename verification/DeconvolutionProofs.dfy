/** `deconvolve_sizes` and `reconstruct` as inverses of one another. */
module DeconvolutionProofs {
  import opened Prelude
  import opened Deconvolution

  // ------------------------------------------------------------------ sums

  function Combined(x: real, k: real, y: real): real { x + k * y }

  lemma CombinedAdds(a: real, x: real, b: real, y: real, k: real)
    ensures Combined(a, k, b) + Combined(x, k, y) == Combined(a + x, k, b + y)
    ensures Combined(0.0, k, 0.0) == 0.0
  {
  }

  lemma {:induction false} SumCombined(s: seq<real>, a: seq<real>, b: seq<real>, k: real)
    requires |s| == |a| == |b|
    requires forall i :: 0 <= i < |s| ==> s[i] == Combined(a[i], k, b[i])
    ensures Sum(s) == Combined(Sum(a), k, Sum(b))
  {
    hide Combined;
    if s == [] {
      CombinedAdds(0.0, 0.0, 0.0, 0.0, k);
    } else {
      SumCombined(Front(s), Front(a), Front(b), k);
      CombinedAdds(Sum(Front(a)), Last(a), Sum(Front(b)), Last(b), k);
    }
  }

  lemma {:induction false} SumNonNegative(s: seq<real>)
    requires forall i :: 0 <= i < |s| ==> s[i] >= 0.0
    ensures Sum(s) >= 0.0
  {
    if s != [] {
      SumNonNegative(Front(s));
    }
  }

  lemma {:induction false} SumZero(s: seq<real>)
    requires forall i :: 0 <= i < |s| ==> s[i] == 0.0
    ensures Sum(s) == 0.0
  {
    if s != [] {
      SumZero(Front(s));
    }
  }

  lemma SumScaled(s: Pmf, total: real)
    requires total != 0.0
    ensures Sum(Scaled(s, total)) == Sum(s) / total
  {
    var zero: seq<real> := seq(KEYS, i => 0.0);
    SumZero(zero);
    forall i | 0 <= i < KEYS
      ensures Scaled(s, total)[i] == zero[i] + (1.0 / total) * s[i]
    {
    }
    SumCombined(Scaled(s, total), zero, s, 1.0 / total);
  }

  // ------------------------------------------------------ the accepted law

  /** What a round that yields a law yields: a non-negative pmf summing to one. */
  lemma LawIsPmf(o: Observed, p: map<nat, real>, f: Pmf)
    requires Law(o, p) == Ok(f)
    ensures Sum(f) == 1.0
    ensures forall i :: 0 <= i < KEYS ==> f[i] >= 0.0
  {
    hide Sum, Value;
    var c := Clamped(o, p);
    SumNonNegative(c);
    SumScaled(c, Sum(c));
    SelfQuotient(Sum(c));
  }

  /** An accepted result is one round's law, from a law it differs from by less
      than the stopping tolerance at every key. */
  lemma {:induction false} LastRound(o: Observed, fixed: map<nat, real>, f: Pmf, rounds: nat) returns (g: Pmf)
    requires Iterate(o, fixed, f, rounds).Ok?
    ensures var (p, h) := Iterate(o, fixed, f, rounds).value;
            p == NextP(o, fixed, g) && Law(o, p) == Ok(h) && Converged(g, h)
    decreases rounds
  {
    hide Law, NextP, Converged;
    var p := NextP(o, fixed, f);
    var h := Law(o, p).value;
    if Converged(f, h) {
      g := f;
    } else {
      g := LastRound(o, fixed, h, rounds - 1);
    }
  }

  /** Whatever is accepted, F is a pmf and the fixed buckets kept their value. */
  lemma AcceptedIsPmf(o: Observed, fixed: map<nat, real>, p: map<nat, real>, f: Pmf)
    requires Iterate(o, fixed, o.size, 80) == Ok((p, f))
    ensures Sum(f) == 1.0 && forall i :: 0 <= i < KEYS ==> f[i] >= 0.0
    ensures forall b :: b in fixed ==> b in p && p[b] == fixed[b]
    ensures forall b :: b in p && b !in fixed ==> p[b] >= 0.0
  {
    hide Iterate, Law, NextP, Sum, Coincidence, BucketMass;
    var g := LastRound(o, fixed, o.size, 80);
    NextPKeys(o, fixed, g, g);
    LawIsPmf(o, p, f);
  }

  // ------------------------------------------- reconstruct after deconvolve

  ghost predicate NoSizeClamp(o: Observed, p: map<nat, real>)
    requires MatchedTotal(o.touch, p) < 1.0
  {
    forall i :: 0 <= i < KEYS ==> Value(o, p, i) >= 0.0
  }

  lemma ValuesSum(o: Observed, p: map<nat, real>)
    requires MatchedTotal(o.touch, p) < 1.0 && NoSizeClamp(o, p)
    ensures Sum(Clamped(o, p)) == (Sum(o.size) - MatchedTotal(o.touch, p)) / (1.0 - MatchedTotal(o.touch, p))
  {
    var m := MatchedTotal(o.touch, p);
    var left: Pmf := seq(KEYS, i requires 0 <= i < KEYS => o.size[i] - MatchedAt(o.touch, p)[i]);
    SumCombined(left, o.size, MatchedAt(o.touch, p), -1.0);
    SumScaled(left, 1.0 - m);
    assert Clamped(o, p) == Scaled(left, 1.0 - m);
  }

  lemma MixedMarginalSum(p: map<nat, real>, f: Pmf, touch: Pmf)
    ensures var m := MatchedTotal(touch, p);
            Sum(MixedMarginal(p, f, touch)) == m + (1.0 - m) * Sum(f)
  {
    SumCombined(MixedMarginal(p, f, touch), MatchedAt(touch, p), f, 1.0 - MatchedTotal(touch, p));
  }

  /** A key's reconstructed mass is the observed one exactly when the law carries
      that key's unclamped remainder. */
  lemma MarginalAtKey(o: Observed, p: map<nat, real>, f: Pmf, key: nat)
    requires key < KEYS && MatchedTotal(o.touch, p) < 1.0
    ensures MixedMarginal(p, f, o.touch)[key] == o.size[key] <==> f[key] == Value(o, p, key)
  {
    var k := 1.0 - MatchedTotal(o.touch, p);
    var b := MatchedAt(o.touch, p)[key];
    if MixedMarginal(p, f, o.touch)[key] == o.size[key] {
      DivideBack(o.size[key], b, k, f[key]);
    } else if f[key] == Value(o, p, key) {
      MultiplyBack(o.size[key], b, k);
    }
  }

  lemma UnclampedLaw(o: Observed, p: map<nat, real>, f: Pmf)
    requires Law(o, p) == Ok(f) && Sum(o.size) == 1.0 && NoSizeClamp(o, p)
    ensures forall i :: 0 <= i < KEYS ==> f[i] == Value(o, p, i)
  {
    ValuesSum(o, p);
    SelfQuotient(1.0 - MatchedTotal(o.touch, p));
    ScaledByOne(Clamped(o, p));
  }

  lemma SelfQuotient(k: real)
    requires k != 0.0
    ensures k / k == 1.0
  {
  }

  lemma ScaledByOne(s: Pmf)
    ensures Scaled(s, 1.0) == s
  {
  }

  /** Reconstructing an accepted channel returns the observed size marginal
      exactly, if and only if that marginal sums to one and the last round's
      non-negativity clamp changed nothing. */
  lemma MarginalRoundTrip(o: Observed, fixed: map<nat, real>, p: map<nat, real>, f: Pmf)
    requires Iterate(o, fixed, o.size, 80) == Ok((p, f))
    ensures MatchedTotal(o.touch, p) < 0.95
    ensures MixedMarginal(p, f, o.touch) == o.size <==> Sum(o.size) == 1.0 && NoSizeClamp(o, p)
  {
    hide NextP, Sum, Value, MatchedAt, Clamped, Scaled, FirstNegative, Iterate;
    var g := LastRound(o, fixed, o.size, 80);
    LawIsPmf(o, p, f);
    forall i | 0 <= i < KEYS
      ensures MixedMarginal(p, f, o.touch)[i] == o.size[i] <==> f[i] == Value(o, p, i)
    {
      MarginalAtKey(o, p, f, i);
    }
    if Sum(o.size) == 1.0 && NoSizeClamp(o, p) {
      UnclampedLaw(o, p, f);
      assert MixedMarginal(p, f, o.touch) == o.size;
    } else if MixedMarginal(p, f, o.touch) == o.size {
      MixedMarginalSum(p, f, o.touch);
    }
  }

  lemma MultiplyBack(a: real, b: real, k: real)
    requires k > 0.0
    ensures b + k * ((a - b) / k) == a
  {
  }

  lemma DivideBack(a: real, b: real, k: real, x: real)
    requires k > 0.0 && a == b + k * x
    ensures (a - b) / k == x
  {
  }

  lemma {:induction false} SumGap(a: seq<real>, b: seq<real>, d: seq<real>)
    requires |a| == |b| == |d|
    requires forall i :: 0 <= i < |a| ==> AbsR(a[i] - b[i]) <= d[i]
    ensures AbsR(Sum(a) - Sum(b)) <= Sum(d)
  {
    if a != [] {
      var n := |a| - 1;
      SumGap(a[..n], b[..n], d[..n]);
    }
  }

  function Times(eps: real, u: Pmf): Pmf { seq(KEYS, i requires 0 <= i < KEYS => eps * u[i]) }

  lemma SumTimes(eps: real, u: Pmf)
    ensures Sum(Times(eps, u)) == eps * Sum(u)
  {
    hide Sum;
    var zero: seq<real> := seq(KEYS, i => 0.0);
    SumZero(zero);
    SumCombined(Times(eps, u), zero, u, eps);
  }

  lemma HitWeightGap(w: Pmf, f: Pmf, g: Pmf, b: nat, eps: real, i: nat)
    requires i < KEYS && eps >= 0.0 && w[i] >= 0.0 && AbsR(g[i] - f[i]) <= eps
    ensures AbsR(HitWeights(w, g, b)[i] - HitWeights(w, f, b)[i]) <= Times(eps, BucketWeights(w, b))[i]
  {
    HitGap(BucketWeights(w, b)[i], if i == TAIL then 0.0 else f[i], if i == TAIL then 0.0 else g[i], eps);
  }

  /** Laws within `eps` of each other at every key hit within `eps` of the mass. */
  lemma HitsDiffer(w: Pmf, f: Pmf, g: Pmf, b: nat, eps: real)
    requires eps >= 0.0
    requires forall i :: 0 <= i < KEYS ==> w[i] >= 0.0 && AbsR(g[i] - f[i]) <= eps
    ensures AbsR(Hits(w, g, b) - Hits(w, f, b)) <= eps * BucketMass(w, b)
  {
    hide Sum, HitWeights, BucketWeights, Times, AbsR;
    var u := BucketWeights(w, b);
    forall i | 0 <= i < KEYS ensures AbsR(HitWeights(w, g, b)[i] - HitWeights(w, f, b)[i]) <= Times(eps, u)[i] {
      HitWeightGap(w, f, g, b, eps, i);
    }
    SumGap(HitWeights(w, g, b), HitWeights(w, f, b), Times(eps, u));
    SumTimes(eps, u);
  }

  lemma HitGap(w: real, f: real, g: real, eps: real)
    requires w >= 0.0 && AbsR(g - f) <= eps
    ensures AbsR(w * g - w * f) <= eps * w
  {
    WeightedGap(w, g - f, eps);
    Distribute(w, g, f);
  }

  lemma WeightedGap(w: real, d: real, eps: real)
    requires w >= 0.0 && AbsR(d) <= eps
    ensures AbsR(w * d) <= eps * w && eps * w >= 0.0
  {
  }

  lemma CoincidenceDiffer(w: Pmf, f: Pmf, g: Pmf, b: nat, eps: real)
    requires BucketMass(w, b) > 0.0 && eps >= 0.0
    requires forall i :: 0 <= i < KEYS ==> w[i] >= 0.0 && AbsR(g[i] - f[i]) <= eps
    ensures AbsR(Coincidence(w, g, b) - Coincidence(w, f, b)) <= eps
  {
    HitsDiffer(w, f, g, b, eps);
    QuotientGap(Hits(w, g, b), Hits(w, f, b), BucketMass(w, b), eps);
  }

  lemma QuotientGap(x: real, y: real, mass: real, eps: real)
    requires mass > 0.0 && AbsR(x - y) <= eps * mass
    ensures AbsR(x / mass - y / mass) <= eps
  {
    var d := x / mass - y / mass;
    assert d * mass == x - y;
    CancelFactor(if d < 0.0 then -d else d, eps, mass);
  }

  lemma CancelFactor(a: real, b: real, k: real)
    requires k > 0.0 && a * k <= b * k
    ensures a <= b
  {
  }

  /** The probability solved for a bucket restores its observed rate, or the
      coincidence alone where that already exceeds it. */
  lemma SolveBucketMixes(m: real, coincidence: real)
    ensures var c := MinR(0.99, coincidence); var p := SolveBucket(m, coincidence);
            p >= 0.0 && p + (1.0 - p) * c == MaxR(m, c)
  {
    var c := MinR(0.99, coincidence);
    var q := (m - c) / (1.0 - c);
    assert q * (1.0 - c) == m - c;
    assert q < 0.0 <==> m < c;
  }

  /** The exact rate a solved bucket reconstructs to, clamps and all: the observed
      one (or the coincidence where that exceeds it) moved by the drift of the
      coincidence over the last round. */
  lemma MatchRateIdentity(o: Observed, fixed: map<nat, real>, g: Pmf, f: Pmf, b: nat)
    requires Solved(o, fixed, b)
    ensures var p := NextP(o, fixed, g);
            var c := MinR(0.99, Coincidence(o.touch, g, b));
            b in p &&
            MixedRate(p, f, o.touch, b)
              == MaxR(o.matched[b], c) + (1.0 - p[b]) * (Coincidence(o.touch, f, b) - c)
  {
    hide Coincidence, BucketMass, SolveBucket;
    SolveBucketMixes(o.matched[b], Coincidence(o.touch, g, b));
    var p := NextP(o, fixed, g);
    assert p[b] == SolveBucket(o.matched[b], Coincidence(o.touch, g, b));
    var c := MinR(0.99, Coincidence(o.touch, g, b));
    Distribute(1.0 - p[b], Coincidence(o.touch, f, b), c);
  }

  lemma Distribute(k: real, x: real, y: real)
    ensures k * (x - y) == k * x - k * y
  {
  }

  /** Reconstructing an accepted channel returns every solved bucket's observed
      match rate to within the stopping tolerance, given a non-negative touch
      pmf, a rate at most one, and no clamp on that bucket in the last round. */
  lemma MatchRoundTrip(o: Observed, fixed: map<nat, real>, p: map<nat, real>, f: Pmf) returns (g: Pmf)
    requires Iterate(o, fixed, o.size, 80) == Ok((p, f))
    requires forall i :: 0 <= i < KEYS ==> o.touch[i] >= 0.0
    ensures p == NextP(o, fixed, g) && Converged(g, f)
    ensures forall b :: Solved(o, fixed, b) && Coincidence(o.touch, g, b) <= o.matched[b] <= 1.0
                        && Coincidence(o.touch, g, b) <= 0.99 ==>
              b in MixedMatch(p, f, o.touch)
              && AbsR(MixedMatch(p, f, o.touch)[b] - o.matched[b]) <= 0.0000000001
  {
    hide Coincidence, BucketMass, SolveBucket, Iterate, Law;
    g := LastRound(o, fixed, o.size, 80);
    forall b | Solved(o, fixed, b) && Coincidence(o.touch, g, b) <= o.matched[b] <= 1.0
               && Coincidence(o.touch, g, b) <= 0.99
      ensures AbsR(MixedMatch(p, f, o.touch)[b] - o.matched[b]) <= 0.0000000001
    {
      UnclampedRate(o, fixed, g, f, b);
    }
  }

  lemma UnclampedRate(o: Observed, fixed: map<nat, real>, g: Pmf, f: Pmf, b: nat)
    requires Solved(o, fixed, b) && Converged(g, f)
    requires forall i :: 0 <= i < KEYS ==> o.touch[i] >= 0.0
    requires Coincidence(o.touch, g, b) <= o.matched[b] <= 1.0 && Coincidence(o.touch, g, b) <= 0.99
    ensures AbsR(MixedRate(NextP(o, fixed, g), f, o.touch, b) - o.matched[b]) <= 0.0000000001
  {
    hide Coincidence, BucketMass, SolveBucket, MixedRate;
    var c := Coincidence(o.touch, g, b);
    var pb := SolveBucket(o.matched[b], c);
    var drift := Coincidence(o.touch, f, b) - c;
    assert MinR(0.99, c) == c && MaxR(o.matched[b], c) == o.matched[b];
    assert NextP(o, fixed, g)[b] == pb;
    MatchRateIdentity(o, fixed, g, f, b);
    assert MixedRate(NextP(o, fixed, g), f, o.touch, b) == o.matched[b] + (1.0 - pb) * drift;
    CoincidenceDiffer(o.touch, g, f, b, 0.0000000001);
    SolveBucketMixes(o.matched[b], c);
    ProbabilityAtMostOne(pb, c, o.matched[b]);
    DriftWithin(pb, drift, 0.0000000001);
  }

  lemma DriftWithin(p: real, d: real, eps: real)
    requires 0.0 <= p <= 1.0 && AbsR(d) <= eps
    ensures AbsR((1.0 - p) * d) <= eps
  {
    WeightedGap(1.0 - p, d, eps);
    WeightedGap(p, eps, eps);
    assert eps * (1.0 - p) == eps - eps * p;
  }

  lemma ProbabilityAtMostOne(p: real, c: real, m: real)
    requires p + (1.0 - p) * c == m && m <= 1.0 && c <= 0.99
    ensures p <= 1.0
  {
    assert (1.0 - p) * (1.0 - c) == 1.0 - m;
  }

  // ------------------------------------------- deconvolve after reconstruct

  /** A channel the mixture was built from is a fixed point of the inversion: a
      round started at its law returns exactly its law and its probabilities. */
  lemma ReconstructedIsFixedPoint(fixed: map<nat, real>, p: map<nat, real>, f: Pmf, touch: Pmf, o: Observed,
      rounds: nat)
    requires o == Observed(MixedMarginal(p, f, touch), touch, MixedMatch(p, f, touch))
    requires rounds > 0 && Sum(f) == 1.0 && forall i :: 0 <= i < KEYS ==> f[i] >= 0.0
    requires MatchedTotal(touch, p) < 0.95
    requires p.Keys == fixed.Keys + set b | 0 <= b < BUCKETS && BucketMass(touch, b) > 0.0
    requires forall b :: b in fixed ==> p[b] == fixed[b]
    requires forall b :: 0 <= b < BUCKETS && BucketMass(touch, b) > 0.0 ==>
      p[b] >= 0.0 && Coincidence(touch, f, b) <= 0.99
    ensures Iterate(o, fixed, f, rounds) == Ok((p, f))
  {
    hide Law, NextP, MixedMarginal, Sum, Coincidence, BucketMass, MixedMatch, MatchedTotal;
    FixedPointP(fixed, p, f, o);
    FixedPointLaw(o, p, f);
    ConvergedReflexive(f);
    AcceptsFixedPoint(o, fixed, p, f, rounds);
  }

  lemma AcceptsFixedPoint(o: Observed, fixed: map<nat, real>, p: map<nat, real>, f: Pmf, rounds: nat)
    requires rounds > 0 && NextP(o, fixed, f) == p && Law(o, p) == Ok(f) && Converged(f, f)
    ensures Iterate(o, fixed, f, rounds) == Ok((p, f))
  {
    hide Law, NextP, Converged;
    var q := NextP(o, fixed, f);
    assert q == p;
    assert Law(o, q) == Ok(f);
    assert Law(o, q).value == f;
    assert Converged(f, Law(o, q).value);
    assert Iterate(o, fixed, f, rounds) == Ok((q, Law(o, q).value));
  }

  lemma ConvergedReflexive(f: Pmf)
    ensures Converged(f, f)
  {
    forall i | 0 <= i < KEYS ensures Close(f[i], f[i]) {
      assert AbsR(f[i] - f[i]) == 0.0;
    }
  }

  lemma FixedPointP(fixed: map<nat, real>, p: map<nat, real>, f: Pmf, o: Observed)
    requires o.matched == MixedMatch(p, f, o.touch)
    requires p.Keys == fixed.Keys + set b | 0 <= b < BUCKETS && BucketMass(o.touch, b) > 0.0
    requires forall b :: b in fixed ==> p[b] == fixed[b]
    requires forall b :: 0 <= b < BUCKETS && BucketMass(o.touch, b) > 0.0 ==>
      p[b] >= 0.0 && Coincidence(o.touch, f, b) <= 0.99
    ensures NextP(o, fixed, f) == p
  {
    hide Coincidence, BucketMass, SolveBucket, MixedRate;
    forall b | Solved(o, fixed, b)
      ensures SolveBucket(o.matched[b], Coincidence(o.touch, f, b)) == p[b]
    {
      assert o.matched[b] == MixedRate(p, f, o.touch, b);
      FixedPointBucket(p, f, o.touch, b);
    }
  }

  lemma FixedPointBucket(p: map<nat, real>, f: Pmf, touch: Pmf, b: nat)
    requires b in p && p[b] >= 0.0 && BucketMass(touch, b) > 0.0 && Coincidence(touch, f, b) <= 0.99
    ensures SolveBucket(MixedRate(p, f, touch, b), Coincidence(touch, f, b)) == p[b]
  {
    hide Coincidence, BucketMass, SolveBucket;
    SolveMixed(MixedRate(p, f, touch, b), p[b], Coincidence(touch, f, b));
  }

  /** Solving a mixed rate gives back the probability it was mixed with. */
  lemma SolveMixed(m: real, p: real, c: real)
    requires p >= 0.0 && c <= 0.99 && m == p + (1.0 - p) * c
    ensures SolveBucket(m, c) == p
  {
    assert m - c == p * (1.0 - c);
    DivideBack(m, c, 1.0 - c, p);
  }

  lemma FixedPointLaw(o: Observed, p: map<nat, real>, f: Pmf)
    requires o.size == MixedMarginal(p, f, o.touch) && MatchedTotal(o.touch, p) < 0.95
    requires Sum(f) == 1.0 && forall i :: 0 <= i < KEYS ==> f[i] >= 0.0
    ensures Law(o, p) == Ok(f)
  {
    forall i | 0 <= i < KEYS ensures Value(o, p, i) == f[i] {
      MarginalAtKey(o, p, f, i);
    }
    NoneNegative(o, p, 0);
    assert Clamped(o, p) == f;
    ScaledByOne(f);
  }

  lemma {:induction false} NoneNegative(o: Observed, p: map<nat, real>, from: nat)
    requires from <= KEYS && MatchedTotal(o.touch, p) < 1.0
    requires forall i :: 0 <= i < KEYS ==> Value(o, p, i) >= 0.0
    ensures FirstNegative(o, p, from).None?
    decreases KEYS - from
  {
    if from < KEYS {
      NoneNegative(o, p, from + 1);
    }
  }

  lemma ReconstructedMass(p: map<nat, real>, f: Pmf, touch: Pmf)
    requires Sum(f) == 1.0
    ensures Sum(MixedMarginal(p, f, touch)) == 1.0
  {
    MixedMarginalSum(p, f, touch);
    hide Sum, MixedMarginal, MatchedTotal;
  }

  /** From the real start: a channel accepted for a reconstructed observation
      reconstructs the same size marginal exactly when the last round clamped no size. */
  lemma InversionKeepsMarginal(
      fixed: map<nat, real>, p: map<nat, real>, f: Pmf, o: Observed, q: map<nat, real>, h: Pmf)
    requires o.size == MixedMarginal(p, f, o.touch) && Sum(f) == 1.0
    requires Iterate(o, fixed, o.size, 80) == Ok((q, h))
    ensures MatchedTotal(o.touch, q) < 0.95
    ensures MixedMarginal(q, h, o.touch) == MixedMarginal(p, f, o.touch) <==> NoSizeClamp(o, q)
  {
    hide Sum, MixedMarginal, MatchedTotal, Iterate, NoSizeClamp;
    ReconstructedMass(p, f, o.touch);
    MarginalRoundTrip(o, fixed, q, h);
  }

  /** From the real start, every solved match rate in which the last round clamped
      nothing is reconstructed again within the stopping tolerance. */
  lemma InversionKeepsRates(
      fixed: map<nat, real>, p: map<nat, real>, f: Pmf, o: Observed, q: map<nat, real>, h: Pmf)
    returns (g: Pmf)
    requires o.matched == MixedMatch(p, f, o.touch) && forall i :: 0 <= i < KEYS ==> o.touch[i] >= 0.0
    requires Iterate(o, fixed, o.size, 80) == Ok((q, h))
    ensures q == NextP(o, fixed, g) && Converged(g, h)
    ensures forall b :: Solved(o, fixed, b) && Coincidence(o.touch, g, b) <= MixedRate(p, f, o.touch, b) <= 1.0
                        && Coincidence(o.touch, g, b) <= 0.99 ==>
              AbsR(MixedRate(q, h, o.touch, b) - MixedRate(p, f, o.touch, b)) <= 0.0000000001
  {
    hide NextP, Converged, Iterate, Coincidence, MixedRate, BucketMass, AbsR;
    g := MatchRoundTrip(o, fixed, q, h);
    forall b | Solved(o, fixed, b) && Coincidence(o.touch, g, b) <= MixedRate(p, f, o.touch, b) <= 1.0
               && Coincidence(o.touch, g, b) <= 0.99
      ensures AbsR(MixedRate(q, h, o.touch, b) - MixedRate(p, f, o.touch, b)) <= 0.0000000001
    {
      assert o.matched[b] == MixedRate(p, f, o.touch, b);
      assert MixedMatch(q, h, o.touch)[b] == MixedRate(q, h, o.touch, b);
    }
  }
}
