/** The latent anchor over whole runs: permanent impact, and the transient impact the
    register holds. */
module BookAnchor {
  import opened Prelude
  import opened BookModel
  import opened BookObject

  /** The displacement the register stands for. */
  function Transient(c: Config, register: real): real { c.aT * register }

  /** The displacement a net number of buyers leaves for good. */
  function Permanent(c: Config, net: int): real { c.g * net as real }

  predicate SameAnchor(a: Book, b: Book) { a.x == b.x && a.register == b.register }

  // ------------------------------------------------------------- one parent

  lemma ProjectKeepsAnchor(c: Config, b: Book)
    ensures SameAnchor(Project(c, b), b)
  {
    hide Move, Band;
  }

  lemma DepleteKeepsAnchor(c: Config, b: Book, side: Side, w: Walked, d: DepletionDraw)
    ensures SameAnchor(Deplete(c, b, side, w, d), b)
  {
    hide Visible;
  }

  lemma {:induction false} NarrowKeepsAnchor(b: Book, target: int, draws: nat -> NarrowDraw, i: nat)
    ensures SameAnchor(Narrow(b, target, draws, i), b)
    decreases b.Spread() - target
  {
    if b.Spread() > target && draws(i).hit {
      NarrowKeepsAnchor(NarrowOnce(b, draws(i)), target, draws, i + 1);
    }
  }

  lemma RelaxKeepsAnchor(c: Config, b: Book, suppressed: bool, d: Draws)
    ensures SameAnchor(Relaxed(c, b, suppressed, d), b)
  {
    NarrowKeepsAnchor(b, d.target, d.narrow, 0);
    hide Narrow, Exposed;
  }

  lemma ObserveMovesAnchor(c: Config, b: Book, d: Draws)
    ensures Observed(c, b, d).x == b.x + d.diffusion && Observed(c, b, d).register == b.register
  {
    ProjectKeepsAnchor(c, b.(x := b.x + d.diffusion));
    hide Project;
  }

  lemma Factor(a: real, x: real, y: real)
    ensures a * (x - y) == a * x - a * y
  {
  }

  /** Impact moves the anchor by the permanent part and by what the register's
      displacement changed. */
  lemma ImpactMovesAnchor(c: Config, b: Book, side: Side)
    ensures var r := Impact(c, b, side);
            && r.register == c.rho * b.register + (if side == Buy then 1.0 else -1.0)
            && r.register == Decayed(c, b.register, side)
            && r.x == b.x + Permanent(c, if side == Buy then 1 else -1)
                + (Transient(c, r.register) - Transient(c, b.register))
  {
    var s, reg := side.Sign() as real, b.register;
    assert (1.0 - c.rho) * reg == reg - c.rho * reg;
    Factor(c.aT, c.rho * reg + s, reg);
  }

  lemma StepMovesAnchor(c: Config, b: Book, side: Side, d: Draws)
    ensures var r := After(c, Observed(c, b, d), side, d);
            && r.register == Decayed(c, b.register, side)
            && r.x == b.x + d.diffusion + Permanent(c, if side == Buy then 1 else -1)
                + (Transient(c, r.register) - Transient(c, b.register))
  {
    hide Transient, Permanent, Decayed, Observed, Deplete, WalkOf, Project, Impact, Relaxed, Suppressed;
    var o := Observed(c, b, d);
    var w := WalkOf(c, o, side, d);
    var depleted := Deplete(c, o, side, w, d.depletion);
    var moved := Impact(c, depleted, side);
    var suppressed := Suppressed(c, o, side, d);
    ObserveMovesAnchor(c, b, d);
    DepleteKeepsAnchor(c, o, side, w, d.depletion);
    ImpactMovesAnchor(c, depleted, side);
    RelaxKeepsAnchor(c, moved, suppressed, d);
    ProjectKeepsAnchor(c, Relaxed(c, moved, suppressed, d));
    assert After(c, o, side, d) == Project(c, Relaxed(c, moved, suppressed, d));
  }

  // -------------------------------------------------------------- whole runs

  function Diffused(draws: seq<Draws>, k: nat): real
    requires k <= |draws|
  {
    if k == 0 then 0.0 else Diffused(draws, k - 1) + draws[k - 1].diffusion
  }

  /** Buyers less sellers among the first `k`. */
  function NetSign(signs: seq<Side>, k: nat): int
    requires k <= |signs|
  {
    if k == 0 then 0 else NetSign(signs, k - 1) + (if signs[k - 1] == Buy then 1 else -1)
  }

  lemma PermanentAdds(c: Config, m: int, n: int)
    ensures Permanent(c, m + n) == Permanent(c, m) + Permanent(c, n)
    ensures Permanent(c, 0) == 0.0
  {
    assert (m + n) as real == m as real + n as real;
    Factor(c.g, m as real, -(n as real));
  }

  /** Over any run the anchor is where diffusion and the permanent impact of the net
      sign put it, displaced by the register alone: the transient impact of past
      parents is held in the register, and nothing is counted twice. */
  lemma {:induction false} AnchorDecomposes(c: Config, start: Book, signs: seq<Side>, draws: seq<Draws>, k: nat)
    requires k <= |signs| == |draws|
    ensures var b := BookAt(c, start, signs, draws, k);
            b.x - Transient(c, b.register)
              == start.x - Transient(c, start.register) + Diffused(draws, k) + Permanent(c, NetSign(signs, k))
  {
    hide After, Observed, Transient, Permanent, Decayed;
    if k > 0 {
      AnchorDecomposes(c, start, signs, draws, k - 1);
      StepMovesAnchor(c, BookAt(c, start, signs, draws, k - 1), signs[k - 1], draws[k - 1]);
      PermanentAdds(c, NetSign(signs, k - 1), if signs[k - 1] == Buy then 1 else -1);
    } else {
      PermanentAdds(c, 0, 0);
    }
  }

  /** The register within the bound its decay sets, 1 / (1 - rho). */
  predicate Bounded(rho: real, register: real) { AbsR(register) * (1.0 - rho) <= 1.0 }

  lemma Scale(x: real, y: real, k: real)
    requires x <= y && k >= 0.0
    ensures x * k <= y * k && k * x <= k * y
  {
  }

  lemma AbsDecayed(rho: real, register: real, s: real)
    requires rho >= 0.0 && (s == 1.0 || s == -1.0)
    ensures AbsR(rho * register + s) <= rho * AbsR(register) + 1.0
  {
    if register < 0.0 {
      assert rho * AbsR(register) == -(rho * register);
      Scale(register, 0.0, rho);
    } else {
      Scale(0.0, register, rho);
    }
  }

  lemma Expand(rho: real, a: real, k: real)
    ensures (rho * a + 1.0) * k == rho * (a * k) + k
  {
  }

  lemma RegisterStaysBounded(rho: real, register: real, s: real)
    requires 0.0 <= rho < 1.0 && (s == 1.0 || s == -1.0) && Bounded(rho, register)
    ensures Bounded(rho, rho * register + s)
  {
    var a, k := AbsR(register), 1.0 - rho;
    AbsDecayed(rho, register, s);
    Scale(AbsR(rho * register + s), rho * a + 1.0, k);
    Expand(rho, a, k);
    Scale(a * k, 1.0, rho);
    hide AbsR;
  }

  /** Under a decay below one the register, and with it the transient displacement,
      never leaves its bound. */
  lemma {:induction false} RegisterBounded(c: Config, start: Book, signs: seq<Side>, draws: seq<Draws>, k: nat)
    requires k <= |signs| == |draws| && 0.0 <= c.rho < 1.0 && Bounded(c.rho, start.register)
    ensures Bounded(c.rho, BookAt(c, start, signs, draws, k).register)
  {
    hide After, Observed, Bounded, Transient, Permanent, Decayed;
    if k > 0 {
      RegisterBounded(c, start, signs, draws, k - 1);
      StepMovesAnchor(c, BookAt(c, start, signs, draws, k - 1), signs[k - 1], draws[k - 1]);
      DecayedBounded(c, BookAt(c, start, signs, draws, k - 1).register, signs[k - 1]);
    }
  }

  lemma DecayedBounded(c: Config, register: real, side: Side)
    requires 0.0 <= c.rho < 1.0 && Bounded(c.rho, register)
    ensures Bounded(c.rho, Decayed(c, register, side))
  {
    var s := side.Sign() as real;
    assert s == 1.0 || s == -1.0;
    RegisterStaysBounded(c.rho, register, s);
    assert Decayed(c, register, side) == c.rho * register + s;
    hide Bounded;
  }
}
