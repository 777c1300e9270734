/** What every parent step of the book keeps, and what its parts promise. */
module BookProofs {
  import opened Prelude
  import opened BookModel

  // ------------------------------------------------------------- invariant

  predicate Sane(c: Config, b: Book) {
    && b.bid >= 1
    && 1 <= b.Spread() <= c.maxSpread
    && b.bidQueue >= 1 && b.askQueue >= 1
  }

  lemma ProjectKeepsSane(c: Config, b: Book)
    requires Sane(c, b)
    ensures Sane(c, Project(c, b)) && Project(c, b).Spread() == b.Spread()
  {
  }

  lemma JoinKeepsSane(c: Config, b: Book, side: Side, arrival: Option<Lots>)
    requires Sane(c, b)
    ensures Sane(c, Join(c, b, side, arrival))
    ensures Join(c, b, side, arrival).bid == b.bid && Join(c, b, side, arrival).ask == b.ask
  {
  }

  lemma DepleteKeepsSane(c: Config, b: Book, side: Side, w: Walked, d: DepletionDraw)
    requires Sane(c, b)
    requires w.levels == 0 && w.executed > 0 ==> w.residual >= 1
    ensures Sane(c, Deplete(c, b, side, w, d))
  {
  }

  lemma {:induction false} NarrowKeepsSane(c: Config, b: Book, target: int, draws: nat -> NarrowDraw, i: nat)
    requires Sane(c, b) && target >= 1
    ensures Sane(c, Narrow(b, target, draws, i))
    ensures Min(b.Spread(), target) <= Narrow(b, target, draws, i).Spread() <= b.Spread()
    decreases b.Spread() - target
  {
    if b.Spread() > target && draws(i).hit {
      NarrowKeepsSane(c, NarrowOnce(b, draws(i)), target, draws, i + 1);
    }
  }

  lemma WidenKeepsSane(c: Config, b: Book, target: int, d: WidenDraw)
    requires Sane(c, b)
    ensures Sane(c, Widen(c, b, target, d))
  {
  }

  /** Every parent step takes a sane book to a sane observed book and on to a
      sane book. */
  lemma StepKeepsSane(c: Config, b: Book, side: Side, d: Draws)
    requires Sane(c, b) && d.target >= 1
    ensures Sane(c, Observed(c, b, d))
    ensures Sane(c, After(c, Observed(c, b, d), side, d))
  {
    hide Project, Join, Deplete, Narrow, Widen, Walk, Ladder, Sane;
    var projected := Project(c, b.(x := b.x + d.diffusion));
    assert Sane(c, b.(x := b.x + d.diffusion)) by { SaneIgnoresAnchor(c, b, b.x + d.diffusion, b.register); }
    ProjectKeepsSane(c, b.(x := b.x + d.diffusion));
    JoinKeepsSane(c, projected, Sell, d.joinBid);
    JoinKeepsSane(c, Join(c, projected, Sell, d.joinBid), Buy, d.joinAsk);
    var o := Observed(c, b, d);
    var w := WalkOf(c, o, side, d);
    SaneStands(c, o);
    ObservedWalk(c, o, side, d);
    var depleted := Deplete(c, o, side, w, d.depletion);
    DepleteKeepsSane(c, o, side, w, d.depletion);
    var moved := Impact(c, depleted, side);
    assert moved == Struck(c, o, side, d);
    SaneIgnoresAnchor(c, depleted, moved.x, moved.register);
    var suppressed := Suppressed(c, o, side, d);
    if !suppressed {
      NarrowKeepsSane(c, moved, d.target, d.narrow, 0);
    }
    var narrowed := Narrowed(moved, suppressed, d);
    WidenKeepsSane(c, narrowed, d.target, d.widen);
    ProjectKeepsSane(c, Widen(c, narrowed, d.target, d.widen));
  }

  /** Both queues hold something, wherever the prices stand. */
  predicate Standing(b: Book) { b.bidQueue >= 1 && b.askQueue >= 1 }

  lemma SaneStands(c: Config, b: Book)
    requires Sane(c, b)
    ensures Standing(b)
  {
  }

  lemma ProjectKeepsStanding(c: Config, b: Book)
    ensures Standing(Project(c, b)) <==> Standing(b)
  {
    hide Move, Band;
  }

  lemma {:induction false} NarrowKeepsStanding(b: Book, target: int, draws: nat -> NarrowDraw, i: nat)
    requires Standing(b)
    ensures Standing(Narrow(b, target, draws, i))
    decreases b.Spread() - target
  {
    if b.Spread() > target && draws(i).hit {
      NarrowKeepsStanding(NarrowOnce(b, draws(i)), target, draws, i + 1);
    }
  }

  lemma DepleteKeepsStanding(c: Config, b: Book, side: Side, w: Walked, d: DepletionDraw)
    requires Standing(b) && (w.levels == 0 && w.executed > 0 ==> w.residual >= 1)
    ensures Standing(Deplete(c, b, side, w, d))
  {
    hide Visible;
  }

  lemma ObservedStands(c: Config, b: Book, d: Draws)
    requires Standing(b)
    ensures Standing(Observed(c, b, d))
  {
    ProjectKeepsStanding(c, b.(x := b.x + d.diffusion));
    hide Project;
  }

  lemma RelaxKeepsStanding(c: Config, b: Book, suppressed: bool, d: Draws)
    requires Standing(b)
    ensures Standing(Relaxed(c, b, suppressed, d))
  {
    NarrowKeepsStanding(b, d.target, d.narrow, 0);
    hide Narrow;
  }

  lemma StruckStands(c: Config, o: Book, side: Side, d: Draws)
    requires Standing(o)
    ensures Standing(Struck(c, o, side, d))
  {
    ObservedWalk(c, o, side, d);
    DepleteKeepsStanding(c, o, side, WalkOf(c, o, side, d), d.depletion);
    hide Deplete, WalkOf, Kick, Decayed;
  }

  /** No draw and no configuration empties a queue. */
  lemma StepKeepsStanding(c: Config, b: Book, side: Side, d: Draws)
    requires Standing(b)
    ensures Standing(Observed(c, b, d)) && Standing(After(c, Observed(c, b, d), side, d))
  {
    hide Standing, Project, Struck, Suppressed, Relaxed, Observed;
    ObservedStands(c, b, d);
    var o := Observed(c, b, d);
    StruckStands(c, o, side, d);
    RelaxKeepsStanding(c, Struck(c, o, side, d), Suppressed(c, o, side, d), d);
    ProjectKeepsStanding(c, Relaxed(c, Struck(c, o, side, d), Suppressed(c, o, side, d), d));
  }

  lemma SaneIgnoresAnchor(c: Config, b: Book, x: real, register: real)
    ensures Sane(c, b.(x := x, register := register)) <==> Sane(c, b)
  {
  }

  /** The starting book is sane exactly when the origin is at least two ticks and
      the ceiling admits its spread. */
  lemma InitialSane(c: Config, x0: real, askQueue: Lots, bidQueue: Lots)
    ensures Sane(c, Initial(x0, askQueue, bidQueue)) <==> Round(x0) >= 2 && c.maxSpread >= 2
  {
  }

  // --------------------------------------------------------------- the walk

  predicate Positive(ladder: seq<int>) { forall i :: 0 <= i < |ladder| ==> ladder[i] >= 1 }

  lemma {:induction false} LadderTailPositive(touch: int, ratios: seq<real>)
    ensures Positive(LadderTail(touch, ratios)) && |LadderTail(touch, ratios)| == |ratios|
  {
    if ratios != [] {
      LadderTailPositive(touch, ratios[1..]);
    }
  }

  lemma LadderPositive(c: Config, touch: int)
    requires touch >= 1
    ensures Positive(Ladder(c, touch)) && |Ladder(c, touch)| >= 1 && Ladder(c, touch)[0] == touch
  {
    var n := if c.maxLevels == 0 then Max(0, |c.ratios| - 1) else Min(c.maxLevels - 1, |c.ratios|);
    LadderTailPositive(touch, c.ratios[..n]);
  }

  /** `q` is the whole number of lots nearest to `x`, the even one of two, but never
      less than one. */
  predicate NearestLots(q: int, x: real) {
    && q >= 1
    && (x < 0.5 ==> q == 1)
    && (x >= 0.5 ==> AbsR(q as real - x) <= 0.5)
    && (x > 0.5 && AbsR(q as real - x) == 0.5 ==> q % 2 == 0)
  }

  /** A ratio's share of the touch. */
  function Share(touch: int, ratio: real): real { touch as real * ratio }

  lemma BehindIsNearest(touch: int, ratio: real)
    ensures NearestLots(Behind(touch, ratio), Share(touch, ratio))
  {
    RoundIsNearest(touch as real * ratio);
  }

  lemma RoundIsNearest(x: real)
    ensures NearestLots(Max(1, Round(x)), x)
  {
    var low := x.Floor;
    assert low as real <= x < low as real + 1.0;
    if x < 0.5 {
      assert low <= 0;
    } else if x > 0.5 {
      assert low >= 0;
    }
  }

  /** The quantities of a ladder: the touch, and behind it the ratio of each level to the
      touch, as many as the ratios and the level bound allow. A bound of zero drops the
      last ratio. */
  ghost predicate IsLadder(c: Config, touch: int, ladder: seq<int>) {
    && |ladder| == (if c.maxLevels >= 1 then Min(c.maxLevels, |c.ratios| + 1) else Max(1, |c.ratios|))
    && ladder[0] == touch
    && forall i :: 0 < i < |ladder| ==> NearestLots(ladder[i], Share(touch, c.ratios[i - 1]))
  }

  lemma {:induction false} LadderTailAt(touch: int, ratios: seq<real>, i: nat)
    requires i < |ratios|
    ensures |LadderTail(touch, ratios)| == |ratios|
    ensures LadderTail(touch, ratios)[i] == Behind(touch, ratios[i])
  {
    hide Behind;
    LadderTailPositive(touch, ratios);
    if i > 0 {
      LadderTailAt(touch, ratios[1..], i - 1);
    }
  }

  lemma NearestIsUnique(p: int, q: int, x: real)
    requires NearestLots(p, x) && NearestLots(q, x)
    ensures p == q
  {
    if x > 0.5 {
      if p < q {
        NearestGap(p, q, x);
      } else if q < p {
        NearestGap(q, p, x);
      }
    } else if x == 0.5 {
      assert p as real <= 1.0 && q as real <= 1.0;
    }
  }

  lemma NearestGap(p: int, q: int, x: real)
    requires p < q && AbsR(p as real - x) <= 0.5 && AbsR(q as real - x) <= 0.5
    ensures q == p + 1 && AbsR(p as real - x) == 0.5 && AbsR(q as real - x) == 0.5
  {
    assert (q as real) - (p as real) <= 1.0;
    assert (q - p) as real <= 1.0;
  }

  /** The frozen ladder is the one its ratios describe, and the only one. */
  lemma LadderByRatios(c: Config, touch: int, ladder: seq<int>)
    ensures IsLadder(c, touch, ladder) <==> ladder == Ladder(c, touch)
  {
    hide NearestLots, Behind, Share, Ladder;
    var own := Ladder(c, touch);
    OwnLevels(c, touch);
    if IsLadder(c, touch, ladder) {
      forall i | 0 <= i < |own| ensures ladder[i] == own[i] {
        if i > 0 {
          NearestIsUnique(ladder[i], own[i], Share(touch, c.ratios[i - 1]));
        }
      }
      assert ladder == own;
    }
  }

  lemma OwnLevels(c: Config, touch: int)
    ensures IsLadder(c, touch, Ladder(c, touch))
  {
    hide NearestLots, Behind, LadderTail, Share;
    var n := if c.maxLevels == 0 then Max(0, |c.ratios| - 1) else Min(c.maxLevels - 1, |c.ratios|);
    var own := Ladder(c, touch);
    LadderTailPositive(touch, c.ratios[..n]);
    forall i | 0 < i < |own| ensures NearestLots(own[i], Share(touch, c.ratios[i - 1])) {
      LadderTailAt(touch, c.ratios[..n], i - 1);
      BehindIsNearest(touch, c.ratios[i - 1]);
    }
  }

  lemma TotalSplit(ladder: seq<int>, n: nat)
    requires n < |ladder|
    ensures Total(ladder[..n + 1]) == Total(ladder[..n]) + ladder[n]
  {
    assert ladder[..n + 1][..n] == ladder[..n];
  }

  lemma {:induction false} ExhaustedFits(ladder: seq<int>, wanted: int, from: nat)
    requires Positive(ladder) && from <= |ladder| && wanted >= 0
    ensures var e := Exhausted(ladder, wanted, from);
            && Total(ladder[..e]) <= Total(ladder[..from]) + wanted
            && (e < |ladder| ==> Total(ladder[..from]) + wanted < Total(ladder[..e + 1]))
    decreases |ladder| - from
  {
    if from < |ladder| {
      TotalSplit(ladder, from);
      if wanted >= ladder[from] {
        ExhaustedFits(ladder, wanted - ladder[from], from + 1);
      }
    }
  }

  lemma {:induction false} TotalMonotone(ladder: seq<int>, m: nat, n: nat)
    requires Positive(ladder) && m <= n <= |ladder|
    ensures Total(ladder[..m]) + (n - m) <= Total(ladder[..n])
    decreases n
  {
    if m < n {
      TotalSplit(ladder, n - 1);
      TotalMonotone(ladder, m, n - 1);
    }
  }

  lemma PrefixesUpTo(ladder: seq<int>)
    requires Positive(ladder)
    ensures forall m :: 0 <= m <= |ladder| ==> Total(ladder[..m]) <= Total(ladder)
    ensures forall m :: 0 <= m < |ladder| ==> Total(ladder[..m]) < Total(ladder)
  {
    assert ladder[..|ladder|] == ladder;
    forall m | 0 <= m <= |ladder| ensures Total(ladder[..m]) + (|ladder| - m) <= Total(ladder) {
      TotalMonotone(ladder, m, |ladder|);
    }
  }

  /** The walk conserves quantity. What executes is the request, capped by the
      ladder, and is the fully consumed prefix plus the part taken at the stopping
      level; the last print sits one tick per observed level past the first. */
  lemma WalkConserves(ladder: seq<int>, wanted: int)
    requires Positive(ladder) && |ladder| >= 1 && wanted >= 1
    ensures var w := Walk(ladder, wanted);
            && w.levels <= |ladder| && w.offset == w.observed - 1
            && w.executed == Min(wanted, Total(ladder))
            && (w.levels < |ladder| ==> w.executed == Total(ladder[..w.levels]) + (ladder[w.levels] - w.residual)
                                        && 1 <= w.residual <= ladder[w.levels])
            && (w.levels == |ladder| ==> w.executed == Total(ladder) && w.residual == 0)
  {
    var e := Exhausted(ladder, wanted, 0);
    ExhaustedWhole(ladder, wanted);
    hide Exhausted, Total, Positive;
    if e < |ladder| {
      assert Walk(ladder, wanted).executed == wanted;
    } else {
      assert ladder[..e] == ladder;
    }
  }

  /** The exhausted prefix fits the request, and the next level does not. */
  lemma ExhaustedWhole(ladder: seq<int>, wanted: int)
    requires Positive(ladder) && wanted >= 0
    ensures var e := Exhausted(ladder, wanted, 0);
            && Total(ladder[..e]) <= wanted
            && (e < |ladder| ==> wanted < Total(ladder[..e]) + ladder[e] && wanted < Total(ladder) && ladder[e] >= 1)
  {
    assert ladder[..0] == [] && Total([]) == 0;
    hide Exhausted, Total;
    var e := Exhausted(ladder, wanted, 0);
    ExhaustedFits(ladder, wanted, 0);
    if e < |ladder| {
      TotalSplit(ladder, e);
      TotalMonotone(ladder, e + 1, |ladder|);
      assert ladder[..|ladder|] == ladder;
    }
  }

  /** The exhausted levels are exactly the prefixes the request covers. */
  lemma LevelsAreLargestPrefix(ladder: seq<int>, wanted: int, n: nat)
    requires Positive(ladder) && wanted >= 1 && n <= |ladder|
    ensures Total(ladder[..n]) <= wanted <==> n <= Walk(ladder, wanted).levels
  {
    var e := Exhausted(ladder, wanted, 0);
    ExhaustedFits(ladder, wanted, 0);
    assert ladder[..0] == [];
    if n <= e {
      TotalMonotone(ladder, n, e);
    } else {
      TotalMonotone(ladder, e + 1, n);
    }
  }

  /** The observed levels are the fewest whose ladder holds what executed: the
      distinct prices a contiguous walk prints at. */
  lemma ObservedLevelsAreFewest(ladder: seq<int>, wanted: int)
    requires Positive(ladder) && |ladder| >= 1 && wanted >= 1
    ensures var w := Walk(ladder, wanted);
            && 1 <= w.observed <= |ladder|
            && w.executed <= Total(ladder[..w.observed])
            && Total(ladder[..w.observed - 1]) < w.executed
  {
    hide Walk;
    WalkConserves(ladder, wanted);
    WalkObserved(ladder, wanted);
    var w := Walk(ladder, wanted);
    assert ladder[..|ladder|] == ladder && ladder[..0] == [];
    if w.levels < |ladder| {
      TotalSplit(ladder, w.levels);
    }
    if w.levels > 0 {
      TotalSplit(ladder, w.levels - 1);
    }
    PrefixesUpTo(ladder);
  }

  lemma WalkObserved(ladder: seq<int>, wanted: int)
    ensures var w := Walk(ladder, wanted);
            w.observed == if w.levels < |ladder| && w.executed > Total(ladder[..w.levels]) then w.levels + 1
                          else Max(w.levels, 1)
  {
  }

  lemma ObservedWalk(c: Config, o: Book, side: Side, d: Draws)
    requires Standing(o)
    ensures var w := WalkOf(c, o, side, d);
            && (w.levels == 0 && w.executed > 0 ==> w.residual >= 1)
            && w.executed == Min(Requested(c, o, side, d), Total(Ladder(c, o.Queue(side))))
  {
    LadderPositive(c, o.Queue(side));
    WalkConserves(Ladder(c, o.Queue(side)), Requested(c, o, side, d));
  }

  // ------------------------------------------------------------- projection

  /** Translated by `m` ticks, the mid is within half the spread and the slack from the
      anchor: one slack for a spread of up to one tick, one for two, one for more. */
  predicate Near(c: Config, b: Book, m: int) {
    var off := AbsR((b.bid + b.ask) as real / 2.0 + m as real - b.x);
    var reach := (b.ask - b.bid) as real / 2.0;
    && (b.ask - b.bid <= 1 ==> off <= reach + c.slack1)
    && (b.ask - b.bid == 2 ==> off <= reach + c.slack2)
    && (b.ask - b.bid >= 3 ==> off <= reach + c.slack3)
  }

  lemma NearIsBand(c: Config, b: Book, m: int)
    ensures Near(c, b, m) <==> AbsR(b.Mid() + m as real - b.x) <= Band(c, b.Spread())
  {
    assert (b.bid + b.ask) as real == b.bid as real + b.bid as real + (b.ask - b.bid) as real;
  }

  /** The projection's move is the least whole-tick translation that brings the
      mid within the band. It needs the band to be at least half a tick, which a
      spread of one tick or more and a non-negative slack give. */
  lemma MoveIsLeast(c: Config, b: Book, m: int)
    requires b.Spread() >= 1 && Slack(c, b.Spread()) >= 0.0
    ensures Near(c, b, Move(c, b))
    ensures Near(c, b, m) ==> Abs(Move(c, b)) <= Abs(m)
  {
    hide Near, Slack;
    CeilBounds(AbsR(b.x - b.Mid()) - Band(c, b.Spread()));
    NearIsBand(c, b, Move(c, b));
    NearIsBand(c, b, m);
  }

  /** Projecting moves the two prices alone, preserves the spread, lands the whole move unless the price floor
      binds, and is idempotent whether it binds or not. */
  lemma ProjectPlaces(c: Config, b: Book)
    requires b.bid >= 1 && b.Spread() >= 1 && Slack(c, b.Spread()) >= 0.0
    ensures Project(c, b).Spread() == b.Spread() && Project(c, b).bid >= 1
    ensures Project(c, b).(bid := b.bid, ask := b.ask) == b
    ensures Near(c, Project(c, b), 0) <==> b.bid + Move(c, b) >= 1
    ensures b.bid + Move(c, b) >= 1 ==> Project(c, b).bid == b.bid + Move(c, b)
    ensures b.bid + Move(c, b) < 1 ==> Project(c, b).bid == 1
    ensures Project(c, Project(c, b)) == Project(c, b)
  {
    var p := Project(c, b);
    var m := Move(c, b);
    MoveIsLeast(c, b, m);
    CeilBounds(AbsR(b.x - b.Mid()) - Band(c, b.Spread()));
    assert p.Mid() == b.Mid() + (p.bid - b.bid) as real;
    if b.bid + m < 1 {
      assert m < 0 && p.bid == 1 && 1 - b.bid > m;
      MoveIsLeast(c, b, 1 - b.bid);
      assert !Near(c, b, 1 - b.bid);
      FloorHolds(c, p);
    }
  }

  lemma FloorHolds(c: Config, p: Book)
    requires p.bid == 1 && p.Mid() > p.x && p.Spread() >= 1
    ensures Project(c, p) == p
  {
    CeilBounds(AbsR(p.x - p.Mid()) - Band(c, p.Spread()));
  }

  // --------------------------------------------------- recession and follow

  /** The recession is capped exactly by the room below the ceiling, and hits
      with no room leave the book as it stood. */
  lemma RecessionIsCapped(c: Config, b: Book, side: Side, w: Walked, d: DepletionDraw)
    requires Sane(c, b) && d.hit
    ensures var v := Visible(c, b, w.levels);
            && v <= c.maxSpread - b.Spread()
            && (v < Max(1, w.levels) <==> c.maxSpread - b.Spread() < Max(1, w.levels))
            && Recede(b, side, v).Spread() <= c.maxSpread
            && (b.Spread() == c.maxSpread ==> Deplete(c, b, side, w, d) == b)
  {
  }

  /** Following the recession restores the spread if and only if the recession was
      applied whole (the price floor did not shorten it) or the spread was one tick. */
  lemma FollowRestoresSpread(c: Config, b: Book, side: Side, visible: nat)
    requires Sane(c, b)
    ensures Follow(Recede(b, side, visible), side, visible).Spread() == b.Spread() <==>
              side.Buy? || b.bid - visible >= 1 || b.Spread() == 1
  {
  }

  /** At the floor the un-struck side follows a recession that was not applied: a
      walk of two levels at bid one moves the bid not at all and the ask by two, so
      a spread of four ends at two. */
  lemma FloorBreaksFollow(c: Config)
    requires c.maxSpread == 10
    ensures var b := Book(1, 5, 3.0, 1, 1, 0.0);
            var w := Walked(2, 2, 2, 0, 1);
            Deplete(c, b, Sell, w, DepletionDraw(true, 4, true, 6)) == Book(1, 3, 3.0, 4, 6, 0.0)
  {
  }

  /** A partial fill of a standing touch leaves exactly the unfilled remainder at
      the struck price, if and only if the depletion coin missed; where it hits
      without room the touch is left standing whole. */
  lemma PartialFillRemainder(c: Config, b: Book, side: Side, w: Walked, d: DepletionDraw)
    requires Sane(c, b) && w.levels == 0 && w.executed > 0 && w.residual == b.Queue(side) - w.executed
    requires c.maxSpread == b.Spread()
    ensures Deplete(c, b, side, w, d).Queue(side) == b.Queue(side) - w.executed <==> !d.hit
  {
  }

  /** At the ceiling a coin that hits leaves the three lots standing of which one was
      taken; the coin that misses leaves two. */
  lemma ConsumedQueueStands(c: Config)
    requires c.maxSpread == 4
    ensures var b := Book(1, 5, 3.0, 3, 1, 0.0);
            var w := Walked(0, 1, 1, 2, 0);
            && Deplete(c, b, Sell, w, DepletionDraw(true, 4, true, 6)).bidQueue == 3
            && Deplete(c, b, Sell, w, DepletionDraw(false, 4, true, 6)).bidQueue == 2
  {
  }

  // --------------------------------------------------------------- relaxing

  /** A narrowing step cuts the spread by one and, where the anchor is displaced
      by more than a quarter tick, brings the mid strictly closer to it. */
  lemma NarrowingIsDirectional(b: Book, d: NarrowDraw)
    ensures NarrowOnce(b, d).Spread() == b.Spread() - 1
    ensures AbsR(b.x - b.Mid()) > 0.25 ==>
      AbsR(NarrowOnce(b, d).Mid() - b.x) < AbsR(b.Mid() - b.x)
    ensures AbsR(b.x - b.Mid()) <= 0.25 ==> AbsR(NarrowOnce(b, d).Mid() - b.x) <= 0.75
  {
    var n := NarrowOnce(b, d);
    assert n.Mid() == b.Mid() - 0.5 || n.Mid() == b.Mid() + 0.5;
  }

  /** If every coin hits, the loop narrows all the way to its target. */
  lemma {:induction false} NarrowReachesTarget(b: Book, target: int, draws: nat -> NarrowDraw, i: nat)
    requires b.Spread() >= target && forall k: nat :: draws(k).hit
    ensures Narrow(b, target, draws, i).Spread() == target
    decreases b.Spread() - target
  {
    if b.Spread() > target {
      NarrowReachesTarget(NarrowOnce(b, draws(i)), target, draws, i + 1);
    }
  }

  /** Relaxation moves the spread toward its target and never across it: narrowing
      and widening exclude one another, and at the target nothing moves. */
  lemma RelaxationApproachesTarget(c: Config, b: Book, suppressed: bool, d: Draws)
    requires Sane(c, b) && d.target >= 1
    ensures var r := Relaxed(c, b, suppressed, d);
            && (b.Spread() >= d.target ==> d.target <= r.Spread() <= b.Spread())
            && (b.Spread() <= d.target ==> b.Spread() <= r.Spread() <= Min(d.target, b.Spread() + 1))
            && (b.Spread() == d.target ==> r == b)
            && (suppressed && b.Spread() >= d.target ==> r == b)
  {
    NarrowKeepsSane(c, b, d.target, d.narrow, 0);
  }
}
