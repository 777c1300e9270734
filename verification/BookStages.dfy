/** The stages of one parent, quote by quote and queue by queue, and two parents worked
    through with numbers. */
module BookStages {
  import opened Prelude
  import opened BookModel
  import opened BookProofs
  import opened BookObject

  // ------------------------------------------------------------- the start

  /** The starting quote stands one tick either side of the whole tick nearest the origin,
      the even one of two. */
  lemma InitialStraddles(x0: real, askQueue: Lots, bidQueue: Lots)
    ensures var b := Initial(x0, askQueue, bidQueue);
            && b.ask == b.bid + 2
            && AbsR((b.bid + 1) as real - x0) <= 0.5
            && (AbsR((b.bid + 1) as real - x0) == 0.5 ==> b.bid % 2 != 0)
            && b.x == x0 && b.askQueue == askQueue && b.bidQueue == bidQueue && b.register == 0.0
  {
    assert x0.Floor as real <= x0 < x0.Floor as real + 1.0;
  }

  // ------------------------------------------------------------- observing

  /** What a draw adds to a queue that stands at a spread. */
  function Arrived(c: Config, q: int, spread: int, arrival: Option<Lots>): int {
    if c.joining && arrival.Some? && (q as real) < c.joinCeiling(spread) then arrival.value else 0
  }

  /** The observed book is the diffused and projected one, each queue grown by its own
      arrivals where it stood below the ceiling of the spread. */
  lemma ObservedByQueue(c: Config, b: Book, d: Draws)
    ensures var o := Observed(c, b, d); var p := Project(c, b.(x := b.x + d.diffusion));
            && o.bid == p.bid && o.ask == p.ask && o.x == b.x + d.diffusion && o.register == b.register
            && o.bidQueue == b.bidQueue + Arrived(c, b.bidQueue, b.ask - b.bid, d.joinBid)
            && o.askQueue == b.askQueue + Arrived(c, b.askQueue, b.ask - b.bid, d.joinAsk)
  {
    ProjectFrame(c, b.(x := b.x + d.diffusion));
    hide Project;
  }

  lemma ProjectFrame(c: Config, b: Book)
    ensures var p := Project(c, b); p.Spread() == b.Spread() && p.(bid := b.bid, ask := b.ask) == b
  {
    hide Move, Band;
  }

  // ------------------------------------------------------------- depletion

  /** The recession: as many ticks as levels were exhausted, one at least, and no more
      than the room below the ceiling. */
  function Ticks(c: Config, b: Book, levels: nat): int { Min(Max(1, levels), c.maxSpread - (b.ask - b.bid)) }

  predicate RecedesWhere(c: Config, b: Book, d: DepletionDraw) { d.hit && b.ask - b.bid < c.maxSpread }

  /** A buyer lifts the ask and a seller drops the bid, down to one; the other quote
      follows by as much if it is drawn to, and stays one tick off. Without a coin or
      without room both stand, and only then may the spread narrow. */
  lemma DepletionByQuote(c: Config, b: Book, side: Side, w: Walked, d: DepletionDraw)
    requires Sane(c, b)
    ensures var r := Deplete(c, b, side, w, d); var t := Ticks(c, b, w.levels);
            && r.x == b.x && r.register == b.register
            && (SuppressRelax(c, b, w, d) <==> RecedesWhere(c, b, d))
            && (!RecedesWhere(c, b, d) ==> r.bid == b.bid && r.ask == b.ask)
            && (RecedesWhere(c, b, d) && side == Buy ==>
                  r.ask == b.ask + t && r.bid == if d.follow then b.bid + t else b.bid)
            && (RecedesWhere(c, b, d) && side == Sell ==>
                  r.bid == Max(1, b.bid - t) && r.ask == if d.follow then Max(b.ask - t, r.bid + 1) else b.ask)
  {
  }

  /** The queue the struck side is left with: its own remainder where the price stays or
      recedes onto the level the walk stopped in, and a fresh draw elsewhere. */
  function StruckQueue(c: Config, b: Book, q: int, w: Walked, d: DepletionDraw): int {
    if RecedesWhere(c, b, d) then
      if w.levels == Ticks(c, b, w.levels) && w.residual > 0 then w.residual else d.drawn
    else if d.hit then q
    else if w.levels >= 1 then d.drawn
    else if w.executed > 0 then w.residual else q
  }

  lemma DepletionByQueue(c: Config, b: Book, side: Side, w: Walked, d: DepletionDraw)
    requires Sane(c, b)
    ensures var r := Deplete(c, b, side, w, d); var followed := RecedesWhere(c, b, d) && d.follow;
            && (side == Buy ==> r.askQueue == StruckQueue(c, b, b.askQueue, w, d)
                                && r.bidQueue == if followed then d.followDrawn else b.bidQueue)
            && (side == Sell ==> r.bidQueue == StruckQueue(c, b, b.bidQueue, w, d)
                                 && r.askQueue == if followed then d.followDrawn else b.askQueue)
  {
  }

  // ------------------------------------------------------------ relaxation

  /** One quote steps inside and takes the drawn queue, the other stands: the ask if the
      anchor lies more than a quarter tick below the mid, the bid if above, and the coin's
      choice between. */
  lemma NarrowingByQuote(b: Book, d: NarrowDraw)
    ensures var r := NarrowOnce(b, d); var off := b.x - (b.bid + b.ask) as real / 2.0;
            && (r == b.(ask := b.ask - 1, askQueue := d.drawn) || r == b.(bid := b.bid + 1, bidQueue := d.drawn))
            && (off < -0.25 ==> r.bid == b.bid)
            && (off > 0.25 ==> r.ask == b.ask)
            && (-0.25 <= off <= 0.25 ==> (d.tieToAsk <==> r.bid == b.bid))
  {
    assert (b.bid + b.ask) as real == b.bid as real + b.bid as real + (b.ask - b.bid) as real;
  }

  /** Narrowing takes `n` coins that hit, and then one that misses or no room. */
  ghost predicate StopsAfter(b: Book, target: int, draws: nat -> NarrowDraw, i: nat, n: nat) {
    var r := Narrow(b, target, draws, i);
    && r.Spread() == b.Spread() - n
    && (forall k: nat :: i <= k < i + n ==> draws(k).hit)
    && (r.Spread() <= target || !draws(i + n).hit)
    && (n > 0 ==> r.Spread() >= target)
  }

  lemma {:induction false} NarrowingStops(b: Book, target: int, draws: nat -> NarrowDraw, i: nat) returns (n: nat)
    ensures StopsAfter(b, target, draws, i, n)
    decreases b.Spread() - target
  {
    n := 0;
    if b.Spread() > target && draws(i).hit {
      n := NarrowingStops(NarrowOnce(b, draws(i)), target, draws, i + 1);
      n := n + 1;
    }
  }

  /** Widening: one tick on one side, which then shows the first ratio of its queue. */
  lemma WideningByQuote(c: Config, b: Book, target: int, d: WidenDraw)
    requires c.ratios != []
    ensures var r := Widen(c, b, target, d); var spread := b.ask - b.bid;
            && (!(spread < target && spread < c.maxSpread && d.hit) ==> r == b)
            && (spread < target && spread < c.maxSpread && d.hit && d.onAsk ==>
                  r == b.(ask := b.ask + 1, askQueue := r.askQueue)
                  && NearestLots(r.askQueue, Share(b.askQueue, c.ratios[0])))
            && (spread < target && spread < c.maxSpread && d.hit && !d.onAsk ==>
                  r == b.(bid := Max(1, b.bid - 1), bidQueue := r.bidQueue)
                  && NearestLots(r.bidQueue, Share(b.bidQueue, c.ratios[0])))
  {
    hide Behind, NearestLots, Share;
    BehindIsNearest(b.askQueue, c.ratios[0]);
    BehindIsNearest(b.bidQueue, c.ratios[0]);
  }

  // ------------------------------------------------- two parents worked through

  const SAMPLE: Config :=
    Config(6, 3, [0.5, 0.25], 0.5, 1.0, 1.0, true, spread => 20.0, 0.25, 0.5, 0.5)

  const BUY: Draws :=
    Draws(2.5, Some(3), None, false, 10, DepletionDraw(true, 5, true, 6), 4,
          n => NarrowDraw(true, true, 9), WidenDraw(true, true))

  const SELL: Draws :=
    Draws(-6.0, None, None, true, 1, DepletionDraw(false, 4, true, 8), 1,
          n => NarrowDraw(n == 0, false, 7), WidenDraw(true, false))

  lemma LaddersWorked()
    ensures Ladder(SAMPLE, 8) == [8, 4, 2] && Ladder(SAMPLE, 6) == [6, 3, 2]
    ensures Walk([8, 4, 2], 10) == Walked(1, 2, 10, 2, 1) && Walk([6, 3, 2], 6) == Walked(1, 1, 6, 3, 0)
  {
    LadderByRatios(SAMPLE, 8, [8, 4, 2]);
    LadderByRatios(SAMPLE, 6, [6, 3, 2]);
    assert Total([8]) == 8 && Total([6]) == 6 by { assert [8][..0] == [] && [6][..0] == []; }
    assert [8, 4, 2][..1] == [8] && [6, 3, 2][..1] == [6];
    hide Ladder, Total;
  }

  /** A buyer of ten walks one level of eight and takes two of the next: the ask recedes
      by one onto those two, the bid follows, and the ask is then pulled a tick further. */
  lemma BuyWorked()
    ensures var o := Observed(SAMPLE, Book(9, 11, 10.0, 8, 8, 0.0), BUY);
            && o == Book(10, 12, 12.5, 11, 8, 0.0)
            && RecordOf(SAMPLE, o, Buy, BUY) == Record(10, 12, 8, 13, 10, 10, 2)
            && After(SAMPLE, o, Buy, BUY) == Book(11, 14, 13.25, 6, 1, 1.0)
  {
    hide Ladder, Walk, Narrow;
    LaddersWorked();
    var o := Book(10, 12, 12.5, 11, 8, 0.0);
    assert Project(SAMPLE, Book(9, 11, 12.5, 8, 8, 0.0)) == Book(10, 12, 12.5, 8, 8, 0.0);
    assert WalkOf(SAMPLE, o, Buy, BUY) == Walked(1, 2, 10, 2, 1);
    assert Struck(SAMPLE, o, Buy, BUY) == Book(11, 13, 13.25, 6, 2, 1.0);
    assert Relaxed(SAMPLE, Book(11, 13, 13.25, 6, 2, 1.0), true, BUY) == Book(11, 14, 13.25, 6, 1, 1.0);
    assert Project(SAMPLE, Book(11, 14, 13.25, 6, 1, 1.0)) == Book(11, 14, 13.25, 6, 1, 1.0);
  }

  /** A seller of the whole touch exhausts it and the coin misses: the queue is drawn
      anew, one narrowing coin hits, and the projection follows the anchor down. */
  lemma SellWorked()
    ensures var o := Observed(SAMPLE, Book(11, 14, 13.25, 6, 1, 1.0), SELL);
            && o == Book(8, 11, 7.25, 6, 1, 1.0)
            && RecordOf(SAMPLE, o, Sell, SELL) == Record(8, 11, 6, 8, 6, 6, 1)
            && After(SAMPLE, o, Sell, SELL) == Book(7, 9, 6.25, 4, 7, -0.5)
  {
    hide Ladder, Walk;
    LaddersWorked();
    var o := Book(8, 11, 7.25, 6, 1, 1.0);
    assert Project(SAMPLE, Book(11, 14, 7.25, 6, 1, 1.0)) == o;
    assert WalkOf(SAMPLE, o, Sell, SELL) == Walked(1, 1, 6, 3, 0);
    assert Struck(SAMPLE, o, Sell, SELL) == Book(8, 11, 6.25, 4, 1, -0.5);
    assert Narrow(Book(8, 10, 6.25, 4, 7, -0.5), 1, SELL.narrow, 1) == Book(8, 10, 6.25, 4, 7, -0.5);
    assert Relaxed(SAMPLE, Book(8, 11, 6.25, 4, 1, -0.5), false, SELL) == Book(8, 10, 6.25, 4, 7, -0.5);
    assert Project(SAMPLE, Book(8, 10, 6.25, 4, 7, -0.5)) == Book(7, 9, 6.25, 4, 7, -0.5);
  }
}
