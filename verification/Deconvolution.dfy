/** The size channel's mixture and its inversion: `deconvolve_sizes` of
    `analysis/tape-v2/proto_book.py` and `reconstruct` of
    `analysis/tape-v2/deconvolution_check.py`, over the reals.
    Keys 0..29 are the sizes 1..30 and key 30 is the pooled tail. */
module Deconvolution {
  import opened Prelude

  const SIZE_CAP: nat := 30
  const TAIL: nat := SIZE_CAP
  const KEYS: nat := SIZE_CAP + 1
  const BUCKETS: nat := 7

  type Pmf = s: seq<real> | |s| == KEYS witness seq(KEYS, i => 0.0)

  /** Buckets "1".."5", "6-10" and "11+" are 0..6. */
  function MatchBucketOf(t: nat): nat
    requires t >= 1
  {
    if t <= 5 then t - 1 else if t <= 10 then 5 else 6
  }

  function BucketOfKey(key: nat): nat {
    if key >= TAIL then 6 else MatchBucketOf(key + 1)
  }

  datatype Observed = Observed(size: Pmf, touch: Pmf, matched: map<nat, real>)

  datatype Refusal = MatchedMass | NegativeMass(key: nat) | ZeroTotal | NoFixedPoint

  // ------------------------------------------------------------------ sums

  function Sum(s: seq<real>): real {
    if s == [] then 0.0 else Sum(Front(s)) + Last(s)
  }

  /** The touch masses of one bucket's keys. */
  function BucketWeights(w: Pmf, b: nat): Pmf {
    seq(KEYS, i requires 0 <= i < KEYS => if BucketOfKey(i) == b then w[i] else 0.0)
  }

  function BucketMass(w: Pmf, b: nat): real { Sum(BucketWeights(w, b)) }

  /** Coincidence of an independent draw with the touch; the tail's is declared zero. */
  function HitWeights(w: Pmf, f: Pmf, b: nat): Pmf {
    seq(KEYS, i requires 0 <= i < KEYS => BucketWeights(w, b)[i] * (if i == TAIL then 0.0 else f[i]))
  }

  function Hits(w: Pmf, f: Pmf, b: nat): real { Sum(HitWeights(w, f, b)) }

  function Coincidence(w: Pmf, f: Pmf, b: nat): real
    requires BucketMass(w, b) > 0.0
  {
    Hits(w, f, b) / BucketMass(w, b)
  }

  function Get(p: map<nat, real>, b: nat): real { if b in p then p[b] else 0.0 }

  // ------------------------------------------------------------- inversion

  function SolveBucket(observed: real, coincidence: real): real {
    var c := MinR(0.99, coincidence);
    MaxR(0.0, (observed - c) / (1.0 - c))
  }

  predicate Solved(o: Observed, fixed: map<nat, real>, b: nat) {
    b < BUCKETS && b !in fixed && b in o.matched && BucketMass(o.touch, b) > 0.0
  }

  function NextP(o: Observed, fixed: map<nat, real>, f: Pmf): map<nat, real> {
    fixed + map b | 0 <= b < BUCKETS && Solved(o, fixed, b) :: SolveBucket(o.matched[b], Coincidence(o.touch, f, b))
  }

  function MatchedAt(touch: Pmf, p: map<nat, real>): Pmf {
    seq(KEYS, i requires 0 <= i < KEYS => touch[i] * Get(p, BucketOfKey(i)))
  }

  function MatchedTotal(touch: Pmf, p: map<nat, real>): real { Sum(MatchedAt(touch, p)) }

  /** What is left at a key for the independent law, before any clamp. */
  function Value(o: Observed, p: map<nat, real>, key: nat): real
    requires key < KEYS && MatchedTotal(o.touch, p) < 1.0
  {
    (o.size[key] - MatchedAt(o.touch, p)[key]) / (1.0 - MatchedTotal(o.touch, p))
  }

  function Clamped(o: Observed, p: map<nat, real>): Pmf
    requires MatchedTotal(o.touch, p) < 1.0
  {
    seq(KEYS, i requires 0 <= i < KEYS => MaxR(0.0, Value(o, p, i)))
  }

  function Scaled(s: Pmf, total: real): Pmf
    requires total != 0.0
  {
    seq(KEYS, i requires 0 <= i < KEYS => s[i] / total)
  }

  /** The first key whose remaining mass is genuinely negative. */
  function FirstNegative(o: Observed, p: map<nat, real>, from: nat): Option<nat>
    requires from <= KEYS && MatchedTotal(o.touch, p) < 1.0
    decreases KEYS - from
  {
    if from == KEYS then None
    else if Value(o, p, from) < -0.000000001 then Some(from)
    else FirstNegative(o, p, from + 1)
  }

  function Law(o: Observed, p: map<nat, real>): Result<Pmf, Refusal> {
    if MatchedTotal(o.touch, p) >= 0.95 then Err(MatchedMass)
    else
      var negative := FirstNegative(o, p, 0);
      if negative.Some? then Err(NegativeMass(negative.value))
      else if Sum(Clamped(o, p)) == 0.0 then Err(ZeroTotal)
      else Ok(Scaled(Clamped(o, p), Sum(Clamped(o, p))))
  }

  predicate Close(a: real, b: real) { AbsR(b - a) < 0.0000000001 }

  predicate Converged(f: Pmf, g: Pmf) {
    forall i :: 0 <= i < KEYS ==> Close(f[i], g[i])
  }

  type Channel = (map<nat, real>, Pmf)

  function Iterate(o: Observed, fixed: map<nat, real>, f: Pmf, rounds: nat): Result<Channel, Refusal>
    decreases rounds
  {
    if rounds == 0 then Err(NoFixedPoint)
    else
      var p := NextP(o, fixed, f);
      match Law(o, p)
      case Err(e) => Err(e)
      case Ok(g) => if Converged(f, g) then Ok((p, g)) else Iterate(o, fixed, g, rounds - 1)
  }

  method UpdateP(o: Observed, fixed: map<nat, real>, f: Pmf, before: map<nat, real>) returns (p: map<nat, real>)
    requires before.Keys <= NextP(o, fixed, f).Keys
    requires forall b :: b in fixed ==> b in before && before[b] == fixed[b]
    ensures p == NextP(o, fixed, f)
  {
    hide BucketMass, Hits;
    p := before;
    for b := 0 to BUCKETS
      invariant p.Keys <= NextP(o, fixed, f).Keys
      invariant forall c :: c in fixed ==> c in p && p[c] == fixed[c]
      invariant forall c :: 0 <= c < b && Solved(o, fixed, c) ==>
        c in p && p[c] == SolveBucket(o.matched[c], Coincidence(o.touch, f, c))
    {
      if b in fixed || b !in o.matched {
        continue;
      }
      var mass := BucketMass(o.touch, b);
      if mass <= 0.0 {
        continue;
      }
      var coincidence := MinR(0.99, Hits(o.touch, f, b) / mass);
      p := p[b := MaxR(0.0, (o.matched[b] - coincidence) / (1.0 - coincidence))];
    }
  }

  method UpdateF(o: Observed, p: map<nat, real>) returns (r: Result<Pmf, Refusal>)
    ensures r == Law(o, p)
  {
    hide Sum, MatchedAt;
    var matchedAt := MatchedAt(o.touch, p);
    var matchedTotal := Sum(matchedAt);
    if matchedTotal >= 0.95 {
      return Err(MatchedMass);
    }
    var f: seq<real> := [];
    for key := 0 to KEYS
      invariant |f| == key
      invariant forall i :: 0 <= i < key ==> f[i] == MaxR(0.0, Value(o, p, i))
      invariant FirstNegative(o, p, 0) == FirstNegative(o, p, key)
    {
      var value := (o.size[key] - matchedAt[key]) / (1.0 - matchedTotal);
      if value < -0.000000001 {
        return Err(NegativeMass(key));
      }
      f := f + [MaxR(0.0, value)];
    }
    assert f == Clamped(o, p);
    var total := Sum(f);
    if total == 0.0 {
      return Err(ZeroTotal);
    }
    r := Ok(Scaled(f, total));
  }

  /** Which buckets carry a probability does not depend on the law. */
  lemma NextPKeys(o: Observed, fixed: map<nat, real>, f: Pmf, g: Pmf)
    ensures NextP(o, fixed, f).Keys == NextP(o, fixed, g).Keys
    ensures fixed.Keys <= NextP(o, fixed, f).Keys
    ensures forall b :: b in fixed ==> NextP(o, fixed, f)[b] == fixed[b]
    ensures forall b :: b in NextP(o, fixed, f) && b !in fixed ==>
              Solved(o, fixed, b) && NextP(o, fixed, f)[b] == SolveBucket(o.matched[b], Coincidence(o.touch, f, b))
  {
    hide BucketMass, SolveBucket;
  }

  /** The fixed-point iteration, from the observed marginal, for at most eighty rounds. */
  method DeconvolveSizes(o: Observed, fixed: map<nat, real>) returns (r: Result<Channel, Refusal>)
    ensures r == Iterate(o, fixed, o.size, 80)
  {
    hide Law, NextP, Converged;
    var f := o.size;
    var p := fixed;
    NextPKeys(o, fixed, f, f);
    for round := 0 to 80
      invariant Iterate(o, fixed, o.size, 80) == Iterate(o, fixed, f, 80 - round)
      invariant p.Keys <= NextP(o, fixed, f).Keys
      invariant forall b :: b in fixed ==> b in p && p[b] == fixed[b]
    {
      var previous := f;
      p := UpdateP(o, fixed, f, p);
      var law := UpdateF(o, p);
      if law.Err? {
        return Err(law.error);
      }
      f := law.value;
      NextPKeys(o, fixed, previous, f);
      if Converged(previous, f) {
        return Ok((p, f));
      }
    }
    r := Err(NoFixedPoint);
  }

  // --------------------------------------------------------------- mixture

  function MixedRate(p: map<nat, real>, f: Pmf, touch: Pmf, b: nat): real
    requires BucketMass(touch, b) > 0.0
  {
    Get(p, b) + (1.0 - Get(p, b)) * Coincidence(touch, f, b)
  }

  function MixedMatch(p: map<nat, real>, f: Pmf, touch: Pmf): map<nat, real> {
    map b | 0 <= b < BUCKETS && BucketMass(touch, b) > 0.0 :: MixedRate(p, f, touch, b)
  }

  function MixedMarginal(p: map<nat, real>, f: Pmf, touch: Pmf): Pmf {
    seq(KEYS, i requires 0 <= i < KEYS => MatchedAt(touch, p)[i] + (1.0 - MatchedTotal(touch, p)) * f[i])
  }

  /** The mixture forward. */
  method Reconstruct(p: map<nat, real>, f: Pmf, touch: Pmf) returns (matched: map<nat, real>, marginal: Pmf)
    ensures matched == MixedMatch(p, f, touch)
    ensures marginal == MixedMarginal(p, f, touch)
  {
    matched := map[];
    for b := 0 to BUCKETS
      invariant forall c :: c in matched <==> 0 <= c < b && BucketMass(touch, c) > 0.0
      invariant forall c :: c in matched ==> matched[c] == MixedRate(p, f, touch, c)
    {
      var total := BucketMass(touch, b);
      if total <= 0.0 {
        continue;
      }
      var coincidence := Hits(touch, f, b) / total;
      var pb := Get(p, b);
      matched := matched[b := pb + (1.0 - pb) * coincidence];
      assert matched[b] == MixedRate(p, f, touch, b);
    }
    var matchedAt := MatchedAt(touch, p);
    var matchedTotal := Sum(matchedAt);
    marginal := seq(KEYS, i requires 0 <= i < KEYS => matchedAt[i] + (1.0 - matchedTotal) * f[i]);
    assert matchedTotal == MatchedTotal(touch, p);
    assert marginal == MixedMarginal(p, f, touch);
  }
}
