/** The simulator's mutable book, each stage of the parent step a method proved
    against `BookModel`, and the whole run over it. */
module BookObject {
  import opened Prelude
  import M = BookModel
  import P = BookProofs

  /** What is recorded of one parent. */
  datatype Record = Record(
    preBid: int, preAsk: int, preTouch: int, lastPrint: int, requested: int, executed: int, levels: int)

  /** The price the struck side stands at. */
  function StruckPrice(o: M.Book, side: M.Side): int { if side.Buy? then o.ask else o.bid }

  function RecordOf(c: M.Config, o: M.Book, side: M.Side, d: M.Draws): Record {
    var w := M.WalkOf(c, o, side, d);
    Record(o.bid, o.ask, o.Queue(side), StruckPrice(o, side) + w.offset * side.Sign(),
           M.Requested(c, o, side, d), w.executed, w.observed)
  }

  /** The book before the `k`-th parent, by the step function alone. */
  function BookAt(c: M.Config, start: M.Book, signs: seq<M.Side>, draws: seq<M.Draws>, k: nat): M.Book
    requires k <= |signs| == |draws|
  {
    if k == 0 then start
    else
      var before := BookAt(c, start, signs, draws, k - 1);
      M.After(c, M.Observed(c, before, draws[k - 1]), signs[k - 1], draws[k - 1])
  }

  class BookSimulator {
    const c: M.Config
    var bid: int
    var ask: int
    var x: real
    var bidQueue: int
    var askQueue: int
    var register: real

    function State(): M.Book
      reads this
    {
      M.Book(bid, ask, x, bidQueue, askQueue, register)
    }

    constructor (c: M.Config, x0: real, askQueue: M.Lots, bidQueue: M.Lots)
      ensures this.c == c && State() == M.Initial(x0, askQueue, bidQueue)
    {
      this.c := c;
      x := x0;
      bid := M.Round(x0) - 1;
      ask := M.Round(x0) - 1 + 2;
      this.askQueue, this.bidQueue := askQueue, bidQueue;
      register := 0.0;
    }

    method Project()
      modifies this`bid, this`ask
      ensures State() == M.Project(c, old(State()))
    {
      var s := ask - bid;
      var mid := bid as real + s as real / 2.0;
      var band := s as real / 2.0 + M.Slack(c, s);
      if AbsR(mid - x) <= band {
        return;
      }
      var shift := x - mid;
      var move := Ceil(AbsR(shift) - band) * (if shift > 0.0 then 1 else -1);
      bid := bid + move;
      ask := ask + move;
      bid := Max(bid, 1);
      ask := bid + s;
    }

    method JoinQueues(joinBid: Option<M.Lots>, joinAsk: Option<M.Lots>)
      modifies this`bidQueue, this`askQueue
      ensures State() == M.Join(c, M.Join(c, old(State()), M.Sell, joinBid), M.Buy, joinAsk)
    {
      if c.joining {
        var ceiling := c.joinCeiling(ask - bid);
        if bidQueue as real < ceiling && joinBid.Some? {
          bidQueue := bidQueue + joinBid.value;
        }
        if askQueue as real < ceiling && joinAsk.Some? {
          askQueue := askQueue + joinAsk.value;
        }
      }
    }

    /** The walk on the struck side, against the frozen ladder. */
    static method WalkLadder(ladder: seq<int>, wanted: int) returns (w: M.Walked)
      requires P.Positive(ladder) && |ladder| >= 1 && wanted >= 1
      ensures w == M.Walk(ladder, wanted)
    {
      var remaining := wanted;
      var levels := 0;
      var offset := 0;
      P.ExhaustedFits(ladder, wanted, 0);
      assert ladder[..0] == [] && ladder[..|ladder|] == ladder;
      while levels < |ladder| && remaining >= ladder[levels]
        invariant 0 <= levels <= |ladder| && remaining >= 0
        invariant remaining == wanted - M.Total(ladder[..levels])
        invariant M.Exhausted(ladder, wanted, 0) == M.Exhausted(ladder, remaining, levels)
        invariant levels < |ladder| ==> offset == levels && (levels > 0 ==> remaining > 0)
        invariant levels == |ladder| ==> offset == levels - 1
        decreases |ladder| - levels
      {
        P.TotalSplit(ladder, levels);
        remaining := remaining - ladder[levels];
        levels := levels + 1;
        if remaining == 0 || levels == |ladder| {
          assert offset == levels - 1;
          break;
        }
        offset := levels;
      }
      assert M.Exhausted(ladder, wanted, 0) == levels;
      var partial, residual := false, 0;
      if levels < |ladder| {
        partial := remaining > 0;
        residual := ladder[levels] - remaining;
        remaining := 0;
      }
      w := M.Walked(levels, if partial then levels + 1 else Max(levels, 1), wanted - remaining, residual, offset);
    }

    method SetQueue(side: M.Side, q: int)
      modifies this`bidQueue, this`askQueue
      ensures State() == old(State()).WithQueue(side, q)
    {
      if side.Buy? {
        askQueue := q;
      } else {
        bidQueue := q;
      }
    }

    /** Effective depletion as a saturated transition; answers whether it receded. */
    method Deplete(side: M.Side, w: M.Walked, d: M.DepletionDraw) returns (suppressRelax: bool)
      modifies this
      ensures State() == M.Deplete(c, old(State()), side, w, d)
      ensures suppressRelax == M.SuppressRelax(c, old(State()), w, d)
    {
      suppressRelax := false;
      if d.hit {
        var room := c.maxSpread - (ask - bid);
        var visible := Min(Max(1, w.levels), Max(0, room));
        if visible > 0 {
          suppressRelax := true;
          if side.Buy? {
            ask := ask + visible;
          } else {
            bid := bid - visible;
          }
          bid := Max(bid, 1);
          if visible == w.levels && w.levels > 0 && w.residual > 0 {
            SetQueue(side, w.residual);
          } else {
            SetQueue(side, d.drawn);
          }
          if d.follow {
            if side.Buy? {
              bid := bid + visible;
              bid := Min(bid, ask - 1);
            } else {
              ask := ask - visible;
              ask := Max(ask, bid + 1);
            }
            SetQueue(M.Opposite(side), d.followDrawn);
          }
        }
      } else if w.levels > 0 {
        SetQueue(side, d.drawn);
      } else if w.executed > 0 {
        SetQueue(side, w.residual);
      }
    }

    method Impact(side: M.Side)
      modifies this`x, this`register
      ensures State() == M.Impact(c, old(State()), side)
    {
      hide M.Kick, M.Decayed;
      x := x + M.Kick(c, register, side);
      register := M.Decayed(c, register, side);
    }

    /** The narrowing loop: quote inside on the side that brings the mid to the anchor. */
    method NarrowSpread(target: int, narrow: nat -> M.NarrowDraw)
      modifies this`bid, this`ask, this`bidQueue, this`askQueue
      ensures State() == M.Narrow(old(State()), target, narrow, 0)
    {
      var s := ask - bid;
      var i := 0;
      while s > target && narrow(i).hit
        invariant s == ask - bid && i >= 0
        invariant M.Narrow(old(State()), target, narrow, 0) == M.Narrow(State(), target, narrow, i)
        decreases s - target
      {
        ghost var was := State();
        var mid := bid as real + s as real / 2.0;
        var towardAsk := x < mid - 0.25 || (AbsR(x - mid) <= 0.25 && narrow(i).tieToAsk);
        if towardAsk {
          ask := ask - 1;
          askQueue := narrow(i).drawn;
        } else {
          bid := bid + 1;
          bidQueue := narrow(i).drawn;
        }
        assert State() == M.NarrowOnce(was, narrow(i));
        s := ask - bid;
        i := i + 1;
      }
      assert M.Narrow(State(), target, narrow, i) == State();
    }

    /** A quote pull at any spread below the drawn target, which raises where there
        is no ladder level to expose. */
    method WidenSpread(target: int, widen: M.WidenDraw) returns (raised: bool)
      modifies this`bid, this`ask, this`bidQueue, this`askQueue
      ensures raised == M.WidenRaises(c, old(State()), target, widen)
      ensures State() == M.Widen(c, old(State()), target, widen)
    {
      hide M.Exposed;
      raised := false;
      var s := ask - bid;
      if s < target && s < c.maxSpread && widen.hit {
        if c.ratios == [] {
          return true;
        }
        if widen.onAsk {
          ask := ask + 1;
          askQueue := M.Exposed(c, askQueue);
        } else {
          bid := Max(1, bid - 1);
          bidQueue := M.Exposed(c, bidQueue);
        }
      }
    }

    /** One parent: its record, and whether it raised before the book was projected. */
    method Parent(side: M.Side, d: M.Draws) returns (r: Record, raised: bool)
      requires P.Standing(State())
      modifies this
      ensures raised == M.Raises(c, M.Observed(c, old(State()), d), side, d)
      ensures !raised ==> State() == M.After(c, M.Observed(c, old(State()), d), side, d) && P.Standing(State())
      ensures r == RecordOf(c, M.Observed(c, old(State()), d), side, d)
    {
      hide M.Project, M.Join, M.Deplete, M.Narrow, M.Widen, M.WidenRaises, M.Walk, M.Ladder, M.SuppressRelax, M.Impact,
        P.Standing;
      P.StepKeepsStanding(c, State(), side, d);
      x := x + d.diffusion;
      Project();
      JoinQueues(d.joinBid, d.joinAsk);
      ghost var o := State();
      var touch := State().Queue(side);
      var wanted := if d.matchesTouch then touch else d.size;
      StandingQueue(o, side);
      P.LadderPositive(c, touch);
      var w := WalkLadder(M.Ladder(c, touch), wanted);
      r := Record(bid, ask, touch, (if side.Buy? then ask else bid) + w.offset * side.Sign(),
                  wanted, w.executed, w.observed);
      var suppressRelax := Deplete(side, w, d.depletion);
      Impact(side);
      if !suppressRelax {
        NarrowSpread(d.target, d.narrow);
      }
      raised := WidenSpread(d.target, d.widen);
      if !raised {
        Project();
      }
    }
  }

  lemma StandingQueue(b: M.Book, side: M.Side)
    requires P.Standing(b)
    ensures b.Queue(side) >= 1
  {
  }

  datatype Error = IndexError

  /** What a record tells of the book `o` its parent observed: a sane quote, the struck
      side's queue, a request that is that queue or the drawn size, an execution the
      ladder of ratios holds, the fewest levels that hold it, and the price of the last. */
  ghost predicate RecordSane(c: M.Config, o: M.Book, side: M.Side, d: M.Draws, r: Record) {
    && r.preBid == o.bid >= 1 && r.preAsk == o.ask && 1 <= r.preAsk - r.preBid <= c.maxSpread
    && r.preTouch == (if side == M.Buy then o.askQueue else o.bidQueue) >= 1
    && r.requested == (if d.matchesTouch then r.preTouch else d.size)
    && r.lastPrint == (if side == M.Buy then r.preAsk + (r.levels - 1) else r.preBid - (r.levels - 1))
    && forall ladder :: P.IsLadder(c, r.preTouch, ladder) ==> Executes(ladder, r)
  }

  /** The record's execution walks the ladder from its top to its last level and no further. */
  predicate Executes(ladder: seq<int>, r: Record) {
    && r.executed == Min(r.requested, M.Total(ladder))
    && 1 <= r.levels <= |ladder|
    && M.Total(ladder[..r.levels - 1]) < r.executed <= M.Total(ladder[..r.levels])
  }

  lemma RecordIsSane(c: M.Config, b: M.Book, side: M.Side, d: M.Draws)
    requires d.target >= 1 && P.Sane(c, b)
    ensures var o := M.Observed(c, b, d); RecordSane(c, o, side, d, RecordOf(c, o, side, d))
  {
    hide M.Observed, M.Walk, M.Ladder, P.IsLadder;
    P.StepKeepsSane(c, b, side, d);
    var o := M.Observed(c, b, d);
    var touch := o.Queue(side);
    P.SaneStands(c, o);
    P.LadderPositive(c, touch);
    P.WalkConserves(M.Ladder(c, touch), M.Requested(c, o, side, d));
    P.ObservedLevelsAreFewest(M.Ladder(c, touch), M.Requested(c, o, side, d));
    forall ladder ensures P.IsLadder(c, touch, ladder) <==> ladder == M.Ladder(c, touch) {
      P.LadderByRatios(c, touch, ladder);
    }
    assert Executes(M.Ladder(c, touch), RecordOf(c, o, side, d));
  }

  /** `r` is the record of the `k`-th parent of the run. */
  ghost predicate RecordedAt(c: M.Config, start: M.Book, signs: seq<M.Side>, draws: seq<M.Draws>, k: nat, r: Record)
    requires k < |signs| == |draws|
  {
    r == RecordOf(c, M.Observed(c, BookAt(c, start, signs, draws, k), draws[k]), signs[k], draws[k])
  }

  /** Whether the `k`-th parent of the run raises. */
  ghost predicate RaisesAt(c: M.Config, start: M.Book, signs: seq<M.Side>, draws: seq<M.Draws>, k: nat)
    requires k < |signs| == |draws|
  {
    M.Raises(c, M.Observed(c, BookAt(c, start, signs, draws, k), draws[k]), signs[k], draws[k])
  }

  lemma RaisesWithoutRatios(c: M.Config, o: M.Book, side: M.Side, d: M.Draws)
    requires M.Raises(c, o, side, d)
    ensures c.ratios == []
  {
  }

  /** A whole run: it raises exactly when some parent's quote pull finds no ladder
      level, which a depth ratio rules out, and otherwise every record is that of the
      book the step function reaches. */
  method Simulate(c: M.Config, x0: real, askQueue: M.Lots, bidQueue: M.Lots,
                  signs: seq<M.Side>, draws: seq<M.Draws>) returns (r: Result<seq<Record>, Error>)
    requires |signs| == |draws|
    ensures r.Err? <==> exists k :: 0 <= k < |signs| && RaisesAt(c, M.Initial(x0, askQueue, bidQueue), signs, draws, k)
    ensures c.ratios != [] ==> r.Ok?
    ensures r.Ok? ==> |r.value| == |signs| && forall k :: 0 <= k < |signs| ==>
      RecordedAt(c, M.Initial(x0, askQueue, bidQueue), signs, draws, k, r.value[k])
  {
    hide M.Observed, M.After, M.Raises, RecordOf, P.Standing;
    var b := new BookSimulator(c, x0, askQueue, bidQueue);
    InitialStands(x0, askQueue, bidQueue);
    hide M.Round, M.Initial;
    ghost var start := b.State();
    var records: seq<Record> := [];
    for k := 0 to |signs|
      invariant |records| == k && b.c == c
      invariant b.State() == BookAt(c, start, signs, draws, k) && P.Standing(b.State())
      invariant forall j :: 0 <= j < k ==> RecordedAt(c, start, signs, draws, j, records[j])
      invariant forall j :: 0 <= j < k ==> !RaisesAt(c, start, signs, draws, j)
    {
      var record, raised := b.Parent(signs[k], draws[k]);
      if raised {
        assert RaisesAt(c, start, signs, draws, k);
        RaisesWithoutRatios(c, M.Observed(c, BookAt(c, start, signs, draws, k), draws[k]), signs[k], draws[k]);
        return Err(IndexError);
      }
      assert RecordedAt(c, start, signs, draws, k, record);
      records := records + [record];
    }
    r := Ok(records);
  }

  lemma InitialStands(x0: real, askQueue: M.Lots, bidQueue: M.Lots)
    ensures P.Standing(M.Initial(x0, askQueue, bidQueue))
  {
  }

  /** For all runs from a sane start every book on the way is sane. */
  lemma {:induction false} EveryBookSane(c: M.Config, start: M.Book, signs: seq<M.Side>, draws: seq<M.Draws>, k: nat)
    requires k <= |signs| == |draws| && forall i :: 0 <= i < |draws| ==> draws[i].target >= 1
    requires P.Sane(c, start)
    ensures P.Sane(c, BookAt(c, start, signs, draws, k))
  {
    hide M.Observed, M.After, P.Sane;
    if k > 0 {
      EveryBookSane(c, start, signs, draws, k - 1);
      P.StepKeepsSane(c, BookAt(c, start, signs, draws, k - 1), signs[k - 1], draws[k - 1]);
    }
  }

  /** And so is every record of such a run. */
  lemma EveryRecordSane(c: M.Config, start: M.Book, signs: seq<M.Side>, draws: seq<M.Draws>, k: nat, r: Record)
    requires k < |signs| == |draws| && forall i :: 0 <= i < |draws| ==> draws[i].target >= 1
    requires P.Sane(c, start) && RecordedAt(c, start, signs, draws, k, r)
    ensures RecordSane(c, M.Observed(c, BookAt(c, start, signs, draws, k), draws[k]), signs[k], draws[k], r)
  {
    hide M.Observed, BookAt, RecordOf, RecordSane, P.Sane;
    EveryBookSane(c, start, signs, draws, k);
    RecordIsSane(c, BookAt(c, start, signs, draws, k), signs[k], draws[k]);
  }
}
