/** The trailing machine over a path of prints, by the prints themselves: which one arms
    it, where its stop stands, and which one takes it out. */
module TrailingPrints {
  import opened Prelude
  import opened Trailing

  /** A sell is armed by a print at its activation price or above, a buy by one at it or below. */
  predicate Arms(o: Order, px: real) { if o.side == Sell then px >= o.activation else px <= o.activation }

  /** A sell is taken out at its stop or below, a buy at it or above. */
  predicate Takes(o: Order, px: real, stop: real) { if o.side == Sell then px <= stop else px >= stop }

  /** The stop a print alone would set: the offset below it for a sell, above it for a buy. */
  function Off(o: Order, px: real): real { if o.side == Sell then px - o.offset else px + o.offset }

  /** The first print that arms the order. */
  ghost predicate ArmedBy(o: Order, path: seq<real>, a: nat) {
    a < |path| && Arms(o, path[a]) && forall i :: 0 <= i < a ==> !Arms(o, path[i])
  }

  /** A print is through the stated floor, or through what an earlier print since the
      arming one would set. */
  ghost predicate TakenAt(o: Order, path: seq<real>, a: nat, k: nat) {
    && a < k < |path|
    && ((o.floor.Some? && Takes(o, path[k], o.floor.value))
        || exists j :: a <= j < k && Takes(o, path[k], Off(o, path[j])))
  }

  /** The stop is the floor or what some print since the arming one would set, and none of
      them is better: higher for a sell, lower for a buy. */
  ghost predicate BestStop(o: Order, path: seq<real>, a: nat, stop: real) {
    && (o.floor == Some(stop) || exists j :: a <= j < |path| && stop == Off(o, path[j]))
    && (o.floor.Some? ==> Takes(o, o.floor.value, stop))
    && forall j :: a <= j < |path| ==> Takes(o, Off(o, path[j]), stop)
  }

  ghost predicate Outcome(o: Order, path: seq<real>, t: Trail) {
    && (t == Dormant <==> forall k :: 0 <= k < |path| ==> !Arms(o, path[k]))
    && forall a: nat :: ArmedBy(o, path, a) ==>
         && (t.StoppedOut? <==> exists k: nat :: TakenAt(o, path, a, k))
         && (t.Armed? ==> BestStop(o, path, a, t.stop))
  }

  lemma ArmedByExtends(o: Order, f: seq<real>, px: real, a: nat)
    ensures a < |f| ==> (ArmedBy(o, f + [px], a) <==> ArmedBy(o, f, a))
    ensures ArmedBy(o, f + [px], |f|) <==> Arms(o, px) && forall k :: 0 <= k < |f| ==> !Arms(o, f[k])
  {
    var p := f + [px];
    assert p[|f|] == px && forall i :: 0 <= i < |f| ==> p[i] == f[i];
  }

  lemma TakenAtExtends(o: Order, f: seq<real>, px: real, a: nat, k: nat)
    requires k < |f|
    ensures TakenAt(o, f + [px], a, k) <==> TakenAt(o, f, a, k)
  {
    var p := f + [px];
    assert forall i :: 0 <= i < |f| ==> p[i] == f[i];
  }

  /** The order that just armed. */
  lemma JustArmed(o: Order, f: seq<real>, px: real)
    requires Arms(o, px)
    ensures var t := Step(o, Dormant, px);
            t.Armed? && BestStop(o, f + [px], |f|, t.stop)
  {
    assert (f + [px])[|f|] == px;
  }

  /** An armed order meets one more print. */
  lemma OneMorePrint(o: Order, f: seq<real>, px: real, a: nat, stop: real)
    requires a < |f| && BestStop(o, f, a, stop)
    ensures var t := Step(o, Armed(stop), px);
            && (t.StoppedOut? <==> TakenAt(o, f + [px], a, |f|))
            && (t.StoppedOut? || t.Armed?)
            && (t.Armed? ==> BestStop(o, f + [px], a, t.stop))
  {
    var p := f + [px];
    assert p[|f|] == px && forall i :: 0 <= i < |f| ==> p[i] == f[i];
    if o.floor != Some(stop) {
      var j :| a <= j < |f| && stop == Off(o, f[j]);
      assert p[j] == f[j];
    }
  }

  /** What the machine comes to on any path, read off the prints. */
  lemma {:induction false} RunByPrints(o: Order, path: seq<real>)
    ensures Outcome(o, path, Run(o, path))
  {
    if path != [] {
      var f, px := Front(path), Last(path);
      RunByPrints(o, f);
      assert path == f + [px];
      OutcomeGrows(o, f, px, Run(o, f));
      hide Outcome;
    }
  }

  lemma OutcomeGrows(o: Order, f: seq<real>, px: real, t: Trail)
    requires Outcome(o, f, t)
    ensures Outcome(o, f + [px], Step(o, t, px))
  {
    hide BestStop, TakenAt, ArmedBy;
    var p, u := f + [px], Step(o, t, px);
    assert p[|f|] == px && forall i :: 0 <= i < |f| ==> p[i] == f[i];
    forall a: nat | ArmedBy(o, p, a)
      ensures u.StoppedOut? <==> exists k: nat :: TakenAt(o, p, a, k)
      ensures u.Armed? ==> BestStop(o, p, a, u.stop)
    {
      GrowsFrom(o, f, px, t, a);
    }
  }

  lemma GrowsFrom(o: Order, f: seq<real>, px: real, t: Trail, a: nat)
    requires Outcome(o, f, t) && ArmedBy(o, f + [px], a)
    ensures var u := Step(o, t, px);
            && (u.StoppedOut? <==> exists k: nat :: TakenAt(o, f + [px], a, k))
            && (u.Armed? ==> BestStop(o, f + [px], a, u.stop))
  {
    var p := f + [px];
    ArmedByExtends(o, f, px, a);
    forall k: nat ensures k < |f| ==> (TakenAt(o, p, a, k) <==> TakenAt(o, f, a, k)) {
      if k < |f| { TakenAtExtends(o, f, px, a, k); }
    }
    if a == |f| {
      JustArmed(o, f, px);
    } else {
      assert ArmedBy(o, f, a) && t != Dormant;
      if t.Armed? {
        OneMorePrint(o, f, px, a, t.stop);
      }
    }
  }
}
