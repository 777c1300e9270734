/** The discrete book of `analysis/tape-v2/proto_book.py`, on values: one parent
    step from the anchor's diffusion to the closing projection. Prices and
    quantities are integers, the anchor and the bands are reals, and every random
    draw is an input. */
module BookModel {
  import opened Prelude

  type Lots = n: int | n >= 1 witness 1

  datatype Side = Buy | Sell
  {
    function Sign(): int { if Buy? then 1 else -1 }
  }

  datatype Config = Config(
    maxSpread: int,
    maxLevels: nat,
    ratios: seq<real>,
    slack1: real, slack2: real, slack3: real,
    joining: bool, joinCeiling: int -> real,
    g: real, aT: real, rho: real)

  /** `bidQueue` and `askQueue` are the two standing touches. */
  datatype Book = Book(bid: int, ask: int, x: real, bidQueue: int, askQueue: int, register: real)
  {
    function Spread(): int { ask - bid }

    function Mid(): real { bid as real + (ask - bid) as real / 2.0 }

    function Queue(side: Side): int { if side.Buy? then askQueue else bidQueue }

    function WithQueue(side: Side, q: int): Book {
      if side.Buy? then this.(askQueue := q) else this.(bidQueue := q)
    }
  }

  function Opposite(side: Side): Side { if side.Buy? then Sell else Buy }

  // ------------------------------------------------------------ arithmetic

  /** Python's `round`: ties go to the even neighbour. */
  function Round(r: real): int {
    var low := r.Floor;
    var rest := r - low as real;
    if rest < 0.5 then low
    else if rest > 0.5 then low + 1
    else if low % 2 == 0 then low else low + 1
  }

  // ------------------------------------------------------------ projection

  function Slack(c: Config, spread: int): real {
    if spread <= 1 then c.slack1 else if spread == 2 then c.slack2 else c.slack3
  }

  function Band(c: Config, spread: int): real { spread as real / 2.0 + Slack(c, spread) }

  /** The signed whole-tick translation the projection makes, before the price floor. */
  function Move(c: Config, b: Book): int {
    var shift := b.x - b.Mid();
    var band := Band(c, b.Spread());
    if AbsR(shift) <= band then 0
    else Ceil(AbsR(shift) - band) * (if shift > 0.0 then 1 else -1)
  }

  function Project(c: Config, b: Book): Book {
    if AbsR(b.Mid() - b.x) <= Band(c, b.Spread()) then b
    else
      var bid := Max(b.bid + Move(c, b), 1);
      b.(bid := bid, ask := bid + b.Spread())
  }

  // ------------------------------------------------------------------ joins

  /** Arrivals at a standing queue; `arrival` is the draw where the coin hits. */
  function Join(c: Config, b: Book, side: Side, arrival: Option<Lots>): Book {
    if c.joining && arrival.Some? && (b.Queue(side) as real) < c.joinCeiling(b.Spread())
    then b.WithQueue(side, b.Queue(side) + arrival.value)
    else b
  }

  // ------------------------------------------------------------- the walk

  /** The quantity a level holds at a ratio to the touch before it. */
  function Behind(touch: int, ratio: real): int { Max(1, Round(touch as real * ratio)) }

  function LadderTail(touch: int, ratios: seq<real>): seq<int> {
    if ratios == [] then [] else [Behind(touch, ratios[0])] + LadderTail(touch, ratios[1..])
  }

  /** The quantities a parent walks, frozen at the pre-trade touch. A Python slice
      end of minus one drops the last ratio. */
  function Ladder(c: Config, touch: int): seq<int> {
    var n := if c.maxLevels == 0 then Max(0, |c.ratios| - 1) else Min(c.maxLevels - 1, |c.ratios|);
    [touch] + LadderTail(touch, c.ratios[..n])
  }

  function Total(ladder: seq<int>): int {
    if ladder == [] then 0 else Total(Front(ladder)) + Last(ladder)
  }

  /** What one walk did: levels fully exhausted, levels printed at, quantity
      executed, what is left at the stopping level, and the last print's offset
      from the struck price in ticks. */
  datatype Walked = Walked(levels: nat, observed: nat, executed: int, residual: int, offset: nat)

  function Exhausted(ladder: seq<int>, wanted: int, from: nat): nat
    requires from <= |ladder|
    ensures from <= Exhausted(ladder, wanted, from) <= |ladder|
    decreases |ladder| - from
  {
    if from < |ladder| && wanted >= ladder[from] then Exhausted(ladder, wanted - ladder[from], from + 1) else from
  }

  function Walk(ladder: seq<int>, wanted: int): Walked {
    var levels := Exhausted(ladder, wanted, 0);
    var remaining := wanted - Total(ladder[..levels]);
    if levels < |ladder| then
      var observed := if remaining > 0 then levels + 1 else Max(levels, 1);
      Walked(levels, observed, wanted, ladder[levels] - remaining, observed - 1)
    else
      var observed := Max(levels, 1);
      Walked(levels, observed, wanted - remaining, 0, observed - 1)
  }

  // ------------------------------------------------------------- depletion

  /** How far the struck touch recedes where the depletion coin hits. */
  function Visible(c: Config, b: Book, levels: nat): nat {
    Min(Max(1, levels), Max(0, c.maxSpread - b.Spread()))
  }

  function Recede(b: Book, side: Side, visible: nat): Book {
    if side.Buy? then b.(ask := b.ask + visible, bid := Max(b.bid, 1))
    else b.(bid := Max(b.bid - visible, 1))
  }

  function Follow(b: Book, side: Side, visible: nat): Book {
    if side.Buy? then b.(bid := Min(b.bid + visible, b.ask - 1))
    else b.(ask := Max(b.ask - visible, b.bid + 1))
  }

  datatype DepletionDraw = DepletionDraw(hit: bool, drawn: Lots, follow: bool, followDrawn: Lots)

  function Deplete(c: Config, b: Book, side: Side, w: Walked, d: DepletionDraw): Book {
    if d.hit then
      var visible := Visible(c, b, w.levels);
      if visible == 0 then b
      else
        var receded := Recede(b, side, visible);
        var kept := visible == w.levels && w.residual > 0;
        var struck := receded.WithQueue(side, if kept then w.residual else d.drawn);
        if d.follow then Follow(struck, side, visible).WithQueue(Opposite(side), d.followDrawn) else struck
    else if w.levels > 0 then b.WithQueue(side, d.drawn)
    else if w.executed > 0 then b.WithQueue(side, w.residual)
    else b
  }

  predicate SuppressRelax(c: Config, b: Book, w: Walked, d: DepletionDraw) {
    d.hit && Visible(c, b, w.levels) > 0
  }

  // ------------------------------------------------------------ relaxation

  /** What one parent adds to the anchor: the permanent part, and the transient part
      against what the register already holds. */
  function Kick(c: Config, register: real, side: Side): real {
    var s := side.Sign() as real;
    c.g * s + c.aT * (s - (1.0 - c.rho) * register)
  }

  function Decayed(c: Config, register: real, side: Side): real { c.rho * register + side.Sign() as real }

  function Impact(c: Config, b: Book, side: Side): Book {
    b.(x := b.x + Kick(c, b.register, side), register := Decayed(c, b.register, side))
  }

  datatype NarrowDraw = NarrowDraw(hit: bool, tieToAsk: bool, drawn: Lots)

  predicate TowardAsk(b: Book, tieToAsk: bool) {
    b.x < b.Mid() - 0.25 || (AbsR(b.x - b.Mid()) <= 0.25 && tieToAsk)
  }

  function NarrowOnce(b: Book, d: NarrowDraw): Book {
    if TowardAsk(b, d.tieToAsk) then b.(ask := b.ask - 1, askQueue := d.drawn)
    else b.(bid := b.bid + 1, bidQueue := d.drawn)
  }

  /** The narrowing loop, fed by a stream of draws. */
  function Narrow(b: Book, target: int, draws: nat -> NarrowDraw, i: nat): Book
    decreases b.Spread() - target
  {
    if b.Spread() > target && draws(i).hit then Narrow(NarrowOnce(b, draws(i)), target, draws, i + 1) else b
  }

  datatype WidenDraw = WidenDraw(hit: bool, onAsk: bool)

  function Exposed(c: Config, q: int): int
    requires c.ratios != []
  {
    Behind(q, c.ratios[0])
  }

  predicate Widens(c: Config, b: Book, target: int, d: WidenDraw) {
    b.Spread() < target && b.Spread() < c.maxSpread && d.hit
  }

  /** Without depth ratios the quote pull raises: there is no level to expose. */
  predicate WidenRaises(c: Config, b: Book, target: int, d: WidenDraw) { Widens(c, b, target, d) && c.ratios == [] }

  function Widen(c: Config, b: Book, target: int, d: WidenDraw): Book {
    if Widens(c, b, target, d) && c.ratios != [] then
      if d.onAsk then b.(ask := b.ask + 1, askQueue := Exposed(c, b.askQueue))
      else b.(bid := Max(1, b.bid - 1), bidQueue := Exposed(c, b.bidQueue))
    else b
  }

  // -------------------------------------------------------- the parent step

  datatype Draws = Draws(
    diffusion: real,
    joinBid: Option<Lots>,
    joinAsk: Option<Lots>,
    matchesTouch: bool,
    size: Lots,
    depletion: DepletionDraw,
    target: int,
    narrow: nat -> NarrowDraw,
    widen: WidenDraw)

  /** The book a parent observes. */
  function Observed(c: Config, b: Book, d: Draws): Book {
    var projected := Project(c, b.(x := b.x + d.diffusion));
    Join(c, Join(c, projected, Sell, d.joinBid), Buy, d.joinAsk)
  }

  function Requested(c: Config, o: Book, side: Side, d: Draws): int {
    if d.matchesTouch then o.Queue(side) else d.size
  }

  function WalkOf(c: Config, o: Book, side: Side, d: Draws): Walked {
    Walk(Ladder(c, o.Queue(side)), Requested(c, o, side, d))
  }

  function Narrowed(b: Book, suppressed: bool, d: Draws): Book {
    if suppressed then b else Narrow(b, d.target, d.narrow, 0)
  }

  function Relaxed(c: Config, b: Book, suppressed: bool, d: Draws): Book {
    Widen(c, Narrowed(b, suppressed, d), d.target, d.widen)
  }

  /** The book after the fill and its impact, before the spread relaxes. */
  function Struck(c: Config, o: Book, side: Side, d: Draws): Book {
    Impact(c, Deplete(c, o, side, WalkOf(c, o, side, d), d.depletion), side)
  }

  predicate Suppressed(c: Config, o: Book, side: Side, d: Draws) {
    SuppressRelax(c, o, WalkOf(c, o, side, d), d.depletion)
  }

  function After(c: Config, o: Book, side: Side, d: Draws): Book {
    Project(c, Relaxed(c, Struck(c, o, side, d), Suppressed(c, o, side, d), d))
  }

  /** The parent that meets the raising pull. */
  predicate Raises(c: Config, o: Book, side: Side, d: Draws) {
    WidenRaises(c, Narrowed(Struck(c, o, side, d), Suppressed(c, o, side, d), d), d.target, d.widen)
  }

  function Initial(x0: real, askQueue: Lots, bidQueue: Lots): Book {
    var bid := Round(x0) - 1;
    Book(bid, bid + 2, x0, bidQueue, askQueue, 0.0)
  }
}
