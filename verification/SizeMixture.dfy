/** The mixture and its inversion size by size: what a match rate, a matched mass and a
    solved probability are over the sizes 1 to 30 and the pooled tail, the sizes from 6
    to 10 sharing one rate and those from 11 on, tail included, another. */
module SizeMixture {
  import opened Prelude
  import opened Deconvolution
  import opened DeconvolutionProofs

  /** The mass of size `t`. */
  function At(w: Pmf, t: nat): real
    requires 1 <= t <= 30
  {
    w[t - 1]
  }

  function TailOf(w: Pmf): real { w[30] }

  /** The mass of the sizes from `lo` to `hi`. */
  function MassOf(w: Pmf, lo: nat, hi: nat): real
    requires 1 <= lo && hi <= 30
    decreases hi
  {
    if hi < lo then 0.0 else MassOf(w, lo, hi - 1) + At(w, hi)
  }

  /** The share of the sizes from `lo` to `hi` that an independent draw of law `f` hits. */
  function HitOf(w: Pmf, f: Pmf, lo: nat, hi: nat): real
    requires 1 <= lo && hi <= 30
    decreases hi
  {
    if hi < lo then 0.0 else HitOf(w, f, lo, hi - 1) + At(w, hi) * At(f, hi)
  }

  /** What orders matching with probability `p`, and drawn from `f` otherwise, add up to
      over the touches from `lo` to `hi`. */
  function MatchedOf(w: Pmf, p: real, f: Pmf, lo: nat, hi: nat): real
    requires 1 <= lo && hi <= 30
    decreases hi
  {
    if hi < lo then 0.0 else MatchedOf(w, p, f, lo, hi - 1) + At(w, hi) * (p + (1.0 - p) * At(f, hi))
  }

  /** The probability held at an index, none standing for zero. */
  function Held(p: map<nat, real>, b: nat): real { if b in p then p[b] else 0.0 }

  /** All matched mass, by name. */
  function MatchedMassOf(w: Pmf, p: map<nat, real>): real {
    At(w, 1) * Held(p, 0) + At(w, 2) * Held(p, 1) + At(w, 3) * Held(p, 2)
    + At(w, 4) * Held(p, 3) + At(w, 5) * Held(p, 4)
    + MassOf(w, 6, 10) * Held(p, 5) + (MassOf(w, 11, 30) + TailOf(w)) * Held(p, 6)
  }

  // ------------------------------------------------------------ sums over windows

  /** The sum of `s` over `lo` up to `hi`. */
  function Window(s: seq<real>, lo: nat, hi: nat): real
    requires hi <= |s|
    decreases hi
  {
    if hi <= lo then 0.0 else Window(s, lo, hi - 1) + s[hi - 1]
  }

  lemma {:induction false} WindowOfFront(s: seq<real>, lo: nat, hi: nat)
    requires s != [] && hi < |s|
    ensures Window(Front(s), lo, hi) == Window(s, lo, hi)
    decreases hi
  {
    if hi > lo {
      WindowOfFront(s, lo, hi - 1);
    }
  }

  /** A sum that is zero outside a window is the window's. */
  lemma {:induction false} SumIsWindow(s: seq<real>, lo: nat, hi: nat)
    requires lo <= hi <= |s| && forall i :: 0 <= i < |s| && !(lo <= i < hi) ==> s[i] == 0.0
    ensures Sum(s) == Window(s, lo, hi)
  {
    if s != [] {
      if hi < |s| {
        SumIsWindow(Front(s), lo, hi);
        WindowOfFront(s, lo, hi);
      } else if lo < hi {
        SumIsWindow(Front(s), lo, hi - 1);
        WindowOfFront(s, lo, hi - 1);
      } else {
        SumIsWindow(Front(s), lo - 1, hi - 1);
      }
    }
  }

  lemma {:induction false} WindowIsMass(s: seq<real>, w: Pmf, lo: nat, hi: nat)
    requires 1 <= lo && hi <= 30 <= |s| && forall i :: lo - 1 <= i < hi ==> s[i] == w[i]
    ensures Window(s, lo - 1, hi) == MassOf(w, lo, hi)
    decreases hi
  {
    if hi >= lo {
      WindowIsMass(s, w, lo, hi - 1);
    }
  }

  lemma {:induction false} WindowIsHit(s: seq<real>, w: Pmf, f: Pmf, lo: nat, hi: nat)
    requires 1 <= lo && hi <= 30 <= |s| && forall i :: lo - 1 <= i < hi ==> s[i] == w[i] * f[i]
    ensures Window(s, lo - 1, hi) == HitOf(w, f, lo, hi)
    decreases hi
  {
    if hi >= lo {
      WindowIsHit(s, w, f, lo, hi - 1);
    }
  }

  /** The keys that share a rate. */
  lemma Shares()
    ensures forall i :: 0 <= i < 31 ==> BucketOfKey(i) == if i < 5 then i else if i < 10 then 5 else 6
  {
  }

  /** The mass and the hits of one index over the sizes it stands for. */
  lemma IndexOf(w: Pmf, f: Pmf, b: nat, lo: nat, hi: nat)
    requires 1 <= lo <= hi <= 30
    requires forall i :: 0 <= i < 31 ==> (BucketOfKey(i) == b <==> lo - 1 <= i < hi)
    ensures BucketMass(w, b) == MassOf(w, lo, hi) && Hits(w, f, b) == HitOf(w, f, lo, hi)
  {
    hide BucketOfKey, Sum, Window;
    SumIsWindow(BucketWeights(w, b), lo - 1, hi);
    WindowIsMass(BucketWeights(w, b), w, lo, hi);
    SumIsWindow(HitWeights(w, f, b), lo - 1, hi);
    WindowIsHit(HitWeights(w, f, b), w, f, lo, hi);
  }

  lemma SmallIndex(w: Pmf, f: Pmf, t: nat)
    requires 1 <= t <= 5
    ensures BucketMass(w, t - 1) == At(w, t) && Hits(w, f, t - 1) == At(w, t) * At(f, t)
  {
    hide BucketMass, Hits, BucketOfKey;
    Shares();
    IndexOf(w, f, t - 1, t, t);
    assert MassOf(w, t, t - 1) == 0.0 && HitOf(w, f, t, t - 1) == 0.0;
  }

  lemma MiddleIndex(w: Pmf, f: Pmf)
    ensures BucketMass(w, 5) == MassOf(w, 6, 10) && Hits(w, f, 5) == HitOf(w, f, 6, 10)
  {
    hide BucketMass, Hits, MassOf, HitOf, BucketOfKey;
    Shares();
    IndexOf(w, f, 5, 6, 10);
  }

  lemma LargeIndex(w: Pmf, f: Pmf)
    ensures BucketMass(w, 6) == MassOf(w, 11, 30) + TailOf(w) && Hits(w, f, 6) == HitOf(w, f, 11, 30)
  {
    hide BucketOfKey, Sum, Window, MassOf, HitOf;
    Shares();
    var u, h := BucketWeights(w, 6), HitWeights(w, f, 6);
    SumIsWindow(u, 10, 31);
    LastOfWindow(u);
    WindowIsMass(u, w, 11, 30);
    TailNeverHits(w, f);
    SumIsWindow(h, 10, 30);
    WindowIsHit(h, w, f, 11, 30);
  }

  lemma TailNeverHits(w: Pmf, f: Pmf)
    ensures HitWeights(w, f, 6)[30] == 0.0
  {
  }

  lemma LastOfWindow(s: Pmf)
    ensures Window(s, 10, 31) == Window(s, 10, 30) + s[30]
  {
  }

  // -------------------------------------------------------------- the mixture

  /** Matched with probability `p` out of the mass `m`, else by the hits `h`. */
  function Mixed(p: real, m: real, h: real): real { p * m + (1.0 - p) * h }

  lemma {:induction false} MatchedSplits(w: Pmf, p: real, f: Pmf, lo: nat, hi: nat)
    requires 1 <= lo && hi <= 30
    ensures MatchedOf(w, p, f, lo, hi) == Mixed(p, MassOf(w, lo, hi), HitOf(w, f, lo, hi))
    decreases hi
  {
    hide Mixed;
    if hi >= lo {
      MatchedSplits(w, p, f, lo, hi - 1);
      MixOne(At(w, hi), p, At(f, hi), MassOf(w, lo, hi - 1), HitOf(w, f, lo, hi - 1),
             MassOf(w, lo, hi), HitOf(w, f, lo, hi));
    } else {
      MixNone(p);
    }
  }

  lemma MixNone(p: real)
    ensures Mixed(p, 0.0, 0.0) == 0.0
  {
  }

  lemma MixOne(w: real, p: real, f: real, m: real, h: real, mass: real, hits: real)
    requires mass == m + w && hits == h + w * f
    ensures Mixed(p, mass, hits) == Mixed(p, m, h) + w * (p + (1.0 - p) * f)
  {
  }

  lemma RateTimesMass(p: real, h: real, m: real)
    requires m > 0.0
    ensures (p + (1.0 - p) * (h / m)) * m == p * m + (1.0 - p) * h
  {
    assert (h / m) * m == h;
    assert ((1.0 - p) * (h / m)) * m == (1.0 - p) * ((h / m) * m);
  }

  /** The reconstructed match rates, over the sizes they pool: a rate is given where its
      touches have mass, and weighs that mass into what those touches match. The tail
      never coincides. */
  lemma RatesByName(p: map<nat, real>, f: Pmf, touch: Pmf)
    ensures var rates := MixedMatch(p, f, touch); var (middle, large) := (Held(p, 5), Held(p, 6));
            && (forall t :: 1 <= t <= 5 ==>
                  && (t - 1 in rates <==> At(touch, t) > 0.0)
                  && (t - 1 in rates ==> rates[t - 1] == Held(p, t - 1) + (1.0 - Held(p, t - 1)) * At(f, t)))
            && (5 in rates <==> MassOf(touch, 6, 10) > 0.0)
            && (5 in rates ==> rates[5] * MassOf(touch, 6, 10) == MatchedOf(touch, middle, f, 6, 10))
            && (6 in rates <==> MassOf(touch, 11, 30) + TailOf(touch) > 0.0)
            && (6 in rates ==> rates[6] * (MassOf(touch, 11, 30) + TailOf(touch))
                                 == MatchedOf(touch, large, f, 11, 30) + TailOf(touch) * large)
            && rates.Keys <= {0, 1, 2, 3, 4, 5, 6}
  {
    hide MixedMatch, MassOf, HitOf, MatchedOf, Held, At, TailOf;
    var rates := MixedMatch(p, f, touch);
    forall t | 1 <= t <= 5
      ensures t - 1 in rates <==> At(touch, t) > 0.0
      ensures t - 1 in rates ==> rates[t - 1] == Held(p, t - 1) + (1.0 - Held(p, t - 1)) * At(f, t)
    {
      SmallRate(p, f, touch, t);
    }
    MiddleRate(p, f, touch);
    LargeRate(p, f, touch);
    RateKeys(p, f, touch);
  }

  lemma RateKeys(p: map<nat, real>, f: Pmf, touch: Pmf)
    ensures MixedMatch(p, f, touch).Keys <= {0, 1, 2, 3, 4, 5, 6}
  {
  }

  lemma SmallRate(p: map<nat, real>, f: Pmf, touch: Pmf, t: nat)
    requires 1 <= t <= 5
    ensures var rates := MixedMatch(p, f, touch);
            && (t - 1 in rates <==> At(touch, t) > 0.0)
            && (t - 1 in rates ==> rates[t - 1] == Held(p, t - 1) + (1.0 - Held(p, t - 1)) * At(f, t))
  {
    hide BucketMass, Hits, At;
    SmallIndex(touch, f, t);
    if At(touch, t) > 0.0 {
      SameQuotient(Hits(touch, f, t - 1), At(touch, t) * At(f, t), BucketMass(touch, t - 1), At(touch, t));
      Quotient(At(touch, t), At(f, t));
    }
  }

  lemma MiddleRate(p: map<nat, real>, f: Pmf, touch: Pmf)
    ensures var rates := MixedMatch(p, f, touch);
            && (5 in rates <==> MassOf(touch, 6, 10) > 0.0)
            && (5 in rates ==> rates[5] * MassOf(touch, 6, 10) == MatchedOf(touch, Held(p, 5), f, 6, 10))
  {
    hide BucketMass, Hits, MassOf, HitOf, MatchedOf;
    MiddleIndex(touch, f);
    MatchedSplits(touch, Held(p, 5), f, 6, 10);
    if 5 in MixedMatch(p, f, touch) {
      RateTimesMass(Held(p, 5), Hits(touch, f, 5), BucketMass(touch, 5));
    }
  }

  lemma LargeRate(p: map<nat, real>, f: Pmf, touch: Pmf)
    ensures var rates := MixedMatch(p, f, touch);
            && (6 in rates <==> MassOf(touch, 11, 30) + TailOf(touch) > 0.0)
            && (6 in rates ==> rates[6] * (MassOf(touch, 11, 30) + TailOf(touch))
                                 == MatchedOf(touch, Held(p, 6), f, 11, 30) + TailOf(touch) * Held(p, 6))
  {
    hide BucketMass, Hits, MassOf, HitOf, MatchedOf;
    LargeIndex(touch, f);
    MatchedSplits(touch, Held(p, 6), f, 11, 30);
    if 6 in MixedMatch(p, f, touch) {
      RateTimesMass(Held(p, 6), Hits(touch, f, 6), BucketMass(touch, 6));
      Spread(Held(p, 6), MassOf(touch, 11, 30), TailOf(touch));
    }
  }

  lemma Quotient(w: real, f: real)
    requires w > 0.0
    ensures (w * f) / w == f
  {
  }

  lemma Spread(p: real, m: real, t: real)
    ensures p * (m + t) == p * m + t * p
  {
  }

  // ------------------------------------------------------------- the matched mass

  lemma {:induction false} WindowSplits(s: seq<real>, lo: nat, mid: nat, hi: nat)
    requires lo <= mid <= hi <= |s|
    ensures Window(s, lo, hi) == Window(s, lo, mid) + Window(s, mid, hi)
    decreases hi
  {
    if hi > mid {
      WindowSplits(s, lo, mid, hi - 1);
    }
  }

  lemma {:induction false} WindowIsScaled(s: seq<real>, w: Pmf, r: real, lo: nat, hi: nat)
    requires 1 <= lo && hi <= 30 <= |s| && forall i :: lo - 1 <= i < hi ==> s[i] == w[i] * r
    ensures Window(s, lo - 1, hi) == MassOf(w, lo, hi) * r
    decreases hi
  {
    if hi >= lo {
      WindowIsScaled(s, w, r, lo, hi - 1);
      ScaledOnce(MassOf(w, lo, hi - 1), At(w, hi), r);
    }
  }

  lemma ScaledOnce(m: real, w: real, r: real)
    ensures (m + w) * r == m * r + w * r
  {
  }

  lemma FirstFive(s: seq<real>)
    requires |s| >= 5
    ensures Window(s, 0, 5) == s[0] + s[1] + s[2] + s[3] + s[4]
  {
    assert Window(s, 0, 0) == 0.0 && Window(s, 0, 1) == s[0] && Window(s, 0, 2) == s[0] + s[1];
    assert Window(s, 0, 3) == s[0] + s[1] + s[2] && Window(s, 0, 4) == s[0] + s[1] + s[2] + s[3];
  }

  /** The probability in force at a key. */
  function HeldAt(p: map<nat, real>, i: nat): real { Held(p, if i < 5 then i else if i < 10 then 5 else 6) }

  lemma MatchedAtKeys(touch: Pmf, p: map<nat, real>)
    ensures forall i :: 0 <= i < 31 ==> MatchedAt(touch, p)[i] == touch[i] * HeldAt(p, i)
  {
    Shares();
    hide BucketOfKey;
  }

  lemma FiveTerms(touch: Pmf, p: map<nat, real>)
    ensures Window(MatchedAt(touch, p), 0, 5) ==
              At(touch, 1) * Held(p, 0) + At(touch, 2) * Held(p, 1) + At(touch, 3) * Held(p, 2)
              + At(touch, 4) * Held(p, 3) + At(touch, 5) * Held(p, 4)
  {
    hide Held, Window, MatchedAt;
    var s := MatchedAt(touch, p);
    MatchedAtKeys(touch, p);
    FirstFive(s);
    assert s[0] == touch[0] * HeldAt(p, 0) && s[1] == touch[1] * HeldAt(p, 1) && s[2] == touch[2] * HeldAt(p, 2);
    assert s[3] == touch[3] * HeldAt(p, 3) && s[4] == touch[4] * HeldAt(p, 4);
  }

  lemma MiddleTerms(touch: Pmf, p: map<nat, real>)
    ensures Window(MatchedAt(touch, p), 5, 10) == MassOf(touch, 6, 10) * Held(p, 5)
  {
    hide Held, Window, MatchedAt, MassOf;
    MatchedAtKeys(touch, p);
    WindowIsScaled(MatchedAt(touch, p), touch, Held(p, 5), 6, 10);
  }

  lemma LargeTerms(touch: Pmf, p: map<nat, real>)
    ensures Window(MatchedAt(touch, p), 10, 31) == (MassOf(touch, 11, 30) + TailOf(touch)) * Held(p, 6)
  {
    hide Held, Window, MatchedAt, MassOf;
    var s := MatchedAt(touch, p);
    MatchedAtKeys(touch, p);
    WindowIsScaled(s, touch, Held(p, 6), 11, 30);
    LastOfWindow(s);
    assert s[30] == touch[30] * HeldAt(p, 30);
    ScaledOnce(MassOf(touch, 11, 30), TailOf(touch), Held(p, 6));
  }

  lemma TotalByName(touch: Pmf, p: map<nat, real>)
    ensures MatchedTotal(touch, p) == MatchedMassOf(touch, p)
  {
    hide Held, Sum, MassOf, MatchedAt, Window, At, TailOf;
    var s := MatchedAt(touch, p);
    SumIsWindow(s, 0, 31);
    WindowSplits(s, 0, 5, 31);
    WindowSplits(s, 5, 10, 31);
    FiveTerms(touch, p);
    MiddleTerms(touch, p);
    LargeTerms(touch, p);
  }

  /** A touch's mass matched with probability `p`, and a share of the rest drawn from `f`. */
  function Blend(w: real, p: real, rest: real, f: real): real { w * p + rest * f }

  lemma MarginalAtKeyByName(p: map<nat, real>, f: Pmf, touch: Pmf, i: nat)
    requires i < 31
    ensures MixedMarginal(p, f, touch)[i] == Blend(touch[i], HeldAt(p, i), 1.0 - MatchedMassOf(touch, p), f[i])
  {
    hide MatchedAt, MatchedTotal, MatchedMassOf, HeldAt;
    MatchedAtKeys(touch, p);
    TotalByName(touch, p);
    assert MatchedAt(touch, p)[i] == touch[i] * HeldAt(p, i);
  }

  /** The reconstructed marginal, size by size: what the size's own touches match with
      their own rate's probability, and the law's share of everything unmatched. */
  lemma MarginalByName(p: map<nat, real>, f: Pmf, touch: Pmf)
    ensures var m, rest := MixedMarginal(p, f, touch), 1.0 - MatchedMassOf(touch, p);
            && (forall t :: 1 <= t <= 5 ==> At(m, t) == Blend(At(touch, t), Held(p, t - 1), rest, At(f, t)))
            && (forall t :: 6 <= t <= 10 ==> At(m, t) == Blend(At(touch, t), Held(p, 5), rest, At(f, t)))
            && (forall t :: 11 <= t <= 30 ==> At(m, t) == Blend(At(touch, t), Held(p, 6), rest, At(f, t)))
            && TailOf(m) == Blend(TailOf(touch), Held(p, 6), rest, TailOf(f))
  {
    hide MixedMarginal, MatchedMassOf, Held, Blend;
    forall i | 0 <= i < 31
      ensures MixedMarginal(p, f, touch)[i] == Blend(touch[i], HeldAt(p, i), 1.0 - MatchedMassOf(touch, p), f[i])
    {
      MarginalAtKeyByName(p, f, touch, i);
    }
  }

  // ------------------------------------------------------------------ the inversion

  /** A solved probability closes the gap between the coincidence, held at 0.99, and
      the observed rate; a rate the coincidence already exceeds leaves none. */
  ghost predicate Closes(p: real, rate: real, hit: real, mass: real)
    requires mass > 0.0
  {
    var c := MinR(0.99, hit / mass);
    p * (1.0 - c) == MaxR(0.0, rate - c)
  }

  lemma SolvedCloses(rate: real, hit: real, mass: real)
    requires mass > 0.0
    ensures Closes(SolveBucket(rate, hit / mass), rate, hit, mass)
  {
    var c := MinR(0.99, hit / mass);
    var q := (rate - c) / (1.0 - c);
    assert q * (1.0 - c) == rate - c;
    assert q < 0.0 <==> rate < c;
  }

  /** One pass over the rates: a fixed one keeps its value, and any other is solved
      where it is observed and its touches have mass, from the sizes it pools. */
  lemma SolvedByName(o: Observed, fixed: map<nat, real>, f: Pmf)
    ensures var p := NextP(o, fixed, f);
            && (forall b :: b in fixed ==> b in p && p[b] == fixed[b])
            && (forall t :: 1 <= t <= 5 && t - 1 !in fixed ==>
                  && (t - 1 in p <==> t - 1 in o.matched && At(o.touch, t) > 0.0)
                  && (t - 1 in p ==>
                        Closes(p[t - 1], o.matched[t - 1], At(o.touch, t) * At(f, t), At(o.touch, t))))
            && (5 !in fixed ==>
                  && (5 in p <==> 5 in o.matched && MassOf(o.touch, 6, 10) > 0.0)
                  && (5 in p ==> Closes(p[5], o.matched[5], HitOf(o.touch, f, 6, 10), MassOf(o.touch, 6, 10))))
            && (6 !in fixed ==>
                  && (6 in p <==> 6 in o.matched && MassOf(o.touch, 11, 30) + TailOf(o.touch) > 0.0)
                  && (6 in p ==> Closes(p[6], o.matched[6], HitOf(o.touch, f, 11, 30),
                                        MassOf(o.touch, 11, 30) + TailOf(o.touch))))
            && (forall b :: b in p && b !in fixed ==> b <= 6)
  {
    hide BucketMass, Hits, MassOf, HitOf, SolveBucket, Closes;
    var p := NextP(o, fixed, f);
    MiddleIndex(o.touch, f);
    LargeIndex(o.touch, f);
    forall t | 1 <= t <= 5 && t - 1 !in fixed
      ensures t - 1 in p <==> t - 1 in o.matched && At(o.touch, t) > 0.0
      ensures t - 1 in p ==> Closes(p[t - 1], o.matched[t - 1], At(o.touch, t) * At(f, t), At(o.touch, t))
    {
      SmallSolved(o, fixed, f, t);
    }
    if 5 in p && 5 !in fixed {
      SolvedCloses(o.matched[5], Hits(o.touch, f, 5), BucketMass(o.touch, 5));
    }
    if 6 in p && 6 !in fixed {
      SolvedCloses(o.matched[6], Hits(o.touch, f, 6), BucketMass(o.touch, 6));
    }
  }

  lemma SmallSolved(o: Observed, fixed: map<nat, real>, f: Pmf, t: nat)
    requires 1 <= t <= 5 && t - 1 !in fixed
    ensures var p := NextP(o, fixed, f);
            && (t - 1 in p <==> t - 1 in o.matched && At(o.touch, t) > 0.0)
            && (t - 1 in p ==> Closes(p[t - 1], o.matched[t - 1], At(o.touch, t) * At(f, t), At(o.touch, t)))
  {
    hide BucketMass, Hits, SolveBucket, Closes, At;
    SmallIndex(o.touch, f, t);
    if t - 1 in NextP(o, fixed, f) {
      SolvedCloses(o.matched[t - 1], Hits(o.touch, f, t - 1), BucketMass(o.touch, t - 1));
    }
  }

  /** What is left of a key's observed mass for the law, before any clamp. */
  function Remainder(o: Observed, p: map<nat, real>, i: nat): real
    requires i < 31 && MatchedMassOf(o.touch, p) < 1.0
  {
    (o.size[i] - o.touch[i] * HeldAt(p, i)) / (1.0 - MatchedMassOf(o.touch, p))
  }

  lemma ValueByName(o: Observed, p: map<nat, real>)
    requires MatchedMassOf(o.touch, p) < 1.0
    ensures MatchedTotal(o.touch, p) == MatchedMassOf(o.touch, p)
    ensures forall i :: 0 <= i < 31 ==> Value(o, p, i) == Remainder(o, p, i)
  {
    hide MatchedAt, MatchedTotal, MatchedMassOf, HeldAt;
    TotalByName(o.touch, p);
    MatchedAtKeys(o.touch, p);
    hide Value, Remainder;
    forall i | 0 <= i < 31 ensures Value(o, p, i) == Remainder(o, p, i) {
      ValueAt(o, p, i);
    }
  }

  lemma ValueAt(o: Observed, p: map<nat, real>, i: nat)
    requires i < 31 && MatchedTotal(o.touch, p) == MatchedMassOf(o.touch, p) < 1.0
    requires MatchedAt(o.touch, p)[i] == o.touch[i] * HeldAt(p, i)
    ensures Value(o, p, i) == Remainder(o, p, i)
  {
    hide MatchedTotal, MatchedMassOf, MatchedAt, HeldAt;
    SameQuotient(o.size[i] - MatchedAt(o.touch, p)[i], o.size[i] - o.touch[i] * HeldAt(p, i),
                 1.0 - MatchedTotal(o.touch, p), 1.0 - MatchedMassOf(o.touch, p));
  }

  lemma SameQuotient(a: real, b: real, m: real, n: real)
    requires a == b && m == n && m != 0.0
    ensures a / m == b / n
  {
  }

  /** One pass over the sizes: refused where the matched mass reaches 0.95, else at the
      first key whose remainder is below minus a billionth, else where nothing positive
      remains; and otherwise the positive remainders in proportion, summing to one. */
  lemma LawByName(o: Observed, p: map<nat, real>) returns (total: real)
    ensures Law(o, p) == Err(MatchedMass) <==> MatchedMassOf(o.touch, p) >= 0.95
    ensures MatchedMassOf(o.touch, p) < 0.95 ==>
      var negative := exists i :: 0 <= i < 31 && Remainder(o, p, i) < -0.000000001;
      var empty := forall i :: 0 <= i < 31 ==> Remainder(o, p, i) <= 0.0;
      && (forall k: nat :: Law(o, p) == Err(NegativeMass(k)) <==>
            && k < 31 && Remainder(o, p, k) < -0.000000001
            && forall i :: 0 <= i < k ==> Remainder(o, p, i) >= -0.000000001)
      && (Law(o, p) == Err(ZeroTotal) <==> !negative && empty)
      && (Law(o, p).Ok? <==> !negative && !empty)
      && (Law(o, p).Ok? ==>
            && total > 0.0 && Sum(Law(o, p).value) == 1.0
            && forall i :: 0 <= i < 31 ==> Law(o, p).value[i] * total == MaxR(0.0, Remainder(o, p, i)))
  {
    hide MatchedTotal, MatchedMassOf, Sum, HeldAt, Value, Remainder, FirstNegative, Clamped, Scaled;
    TotalByName(o.touch, p);
    total := 0.0;
    if MatchedMassOf(o.touch, p) < 0.95 {
      ValueByName(o, p);
      FirstNegativeIs(o, p, 0);
      total := Sum(Clamped(o, p));
      ClampedSum(o, p);
      if Law(o, p).Ok? {
        LawIsPmf(o, p, Law(o, p).value);
        AcceptedScales(o, p);
      }
    }
  }

  lemma AcceptedScales(o: Observed, p: map<nat, real>)
    requires Law(o, p).Ok? && MatchedTotal(o.touch, p) < 0.95
    ensures forall i :: 0 <= i < 31 ==> Law(o, p).value[i] * Sum(Clamped(o, p)) == MaxR(0.0, Value(o, p, i))
  {
    hide MatchedTotal, Sum, Value, FirstNegative;
    forall i | 0 <= i < 31 ensures Law(o, p).value[i] * Sum(Clamped(o, p)) == MaxR(0.0, Value(o, p, i)) {
      TimesBack(Clamped(o, p)[i], Sum(Clamped(o, p)));
    }
  }

  lemma TimesBack(x: real, k: real)
    requires k != 0.0
    ensures (x / k) * k == x
  {
  }

  lemma {:induction false} FirstNegativeIs(o: Observed, p: map<nat, real>, start: nat)
    requires start <= 31 && MatchedTotal(o.touch, p) < 1.0
    ensures var n := FirstNegative(o, p, start);
            && (n.Some? ==> start <= n.value < 31 && Value(o, p, n.value) < -0.000000001)
            && (forall i :: start <= i < (if n.Some? then n.value else 31) ==> Value(o, p, i) >= -0.000000001)
    decreases 31 - start
  {
    hide Value;
    if start < 31 && !(Value(o, p, start) < -0.000000001) {
      FirstNegativeIs(o, p, start + 1);
    }
  }

  /** The clamped remainders sum to zero exactly when none is positive. */
  lemma ClampedSum(o: Observed, p: map<nat, real>)
    requires MatchedTotal(o.touch, p) < 1.0
    ensures Sum(Clamped(o, p)) >= 0.0
    ensures Sum(Clamped(o, p)) == 0.0 <==> forall i :: 0 <= i < 31 ==> Value(o, p, i) <= 0.0
  {
    hide Sum, Value, MatchedTotal;
    var c := Clamped(o, p);
    PositiveSum(c);
    assert forall i :: 0 <= i < 31 ==> (c[i] == 0.0 <==> Value(o, p, i) <= 0.0);
  }

  lemma {:induction false} PositiveSum(s: seq<real>)
    requires forall i :: 0 <= i < |s| ==> s[i] >= 0.0
    ensures Sum(s) >= 0.0 && (Sum(s) == 0.0 <==> forall i :: 0 <= i < |s| ==> s[i] == 0.0)
  {
    if s != [] {
      PositiveSum(Front(s));
      assert forall i :: 0 <= i < |s| ==> s[i] == if i < |s| - 1 then Front(s)[i] else Last(s);
    }
  }

  // ------------------------------------------------------------- the rounds

  /** Two laws less than the stopping tolerance apart at every key. */
  predicate Settled(f: Pmf, g: Pmf) { forall i :: 0 <= i < 31 ==> AbsR(g[i] - f[i]) < 0.0000000001 }

  /** Each law is one round of the one before, and no two but the last have settled. */
  ghost predicate Rounds(o: Observed, fixed: map<nat, real>, laws: seq<Pmf>) {
    forall i :: 0 < i < |laws| ==>
      && Law(o, NextP(o, fixed, laws[i - 1])) == Ok(laws[i])
      && (i < |laws| - 1 ==> !Settled(laws[i - 1], laws[i]))
  }

  lemma RoundsPrepend(o: Observed, fixed: map<nat, real>, f: Pmf, laws: seq<Pmf>)
    requires laws != [] && Law(o, NextP(o, fixed, f)) == Ok(laws[0]) && Rounds(o, fixed, laws)
    requires |laws| > 1 ==> !Settled(f, laws[0])
    ensures Rounds(o, fixed, [f] + laws)
  {
    hide Law, NextP, Settled;
  }

  /** The iteration makes its rounds one after another from the law it is given: it ends
      with the probabilities and the law of the first round that settles, with the refusal
      of a round that is refused, and without a fixed point after all rounds. */
  lemma {:induction false} IterationByRounds(o: Observed, fixed: map<nat, real>, f: Pmf, rounds: nat)
    returns (laws: seq<Pmf>)
    ensures var n := |laws| - 1; var r := Iterate(o, fixed, f, rounds);
            && 0 <= n <= rounds && laws[0] == f && Rounds(o, fixed, laws)
            && match r
               case Ok((p, g)) => n > 0 && p == NextP(o, fixed, laws[n - 1]) && g == laws[n] && Settled(laws[n - 1], g)
               case Err(NoFixedPoint) => n == rounds && (n > 0 ==> !Settled(laws[n - 1], laws[n]))
               case Err(e) => n < rounds && (n > 0 ==> !Settled(laws[n - 1], laws[n]))
                              && Law(o, NextP(o, fixed, laws[n])) == Err(e)
    decreases rounds
  {
    hide NextP, Settled, Law, Converged;
    laws := [f];
    if rounds > 0 {
      RefusalsOfLaw(o, NextP(o, fixed, f));
      var law := Law(o, NextP(o, fixed, f));
      if law.Ok? {
        var g := law.value;
        SettledIsConverged(f, g);
        if Converged(f, g) {
          laws := [f, g];
        } else {
          var rest := IterationByRounds(o, fixed, g, rounds - 1);
          RoundsPrepend(o, fixed, f, rest);
          laws := [f] + rest;
        }
      }
    }
  }

  lemma RefusalsOfLaw(o: Observed, p: map<nat, real>)
    ensures Law(o, p) != Err(NoFixedPoint)
  {
    hide FirstNegative, MatchedTotal, Clamped, Scaled, Sum;
  }

  lemma SettledIsConverged(f: Pmf, g: Pmf)
    ensures Settled(f, g) <==> Converged(f, g)
  {
    assert forall i :: 0 <= i < KEYS ==> (Close(f[i], g[i]) <==> AbsR(g[i] - f[i]) < 0.0000000001);
  }
}
