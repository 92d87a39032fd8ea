/**
 * The value the lattice pricer assigns to every node, defined by backward induction:
 * the terminal level holds the exercise value, every earlier node the discounted average
 * of its two children (or, for a Bermudan option, the larger of that and the exercise
 * value), and the barrier rule is applied at every node using only that node's rate.
 */
module Valuation {
  import opened Wrappers
  import opened RateTree
  import opened Payoff

  /** Everything the valuation depends on, as the pricer fixes it for one call. */
  datatype Inputs = Inputs(
    r0: real,                    // root short rate
    dx: real,                    // rate spacing sigma * sqrt(dt)
    dt: real,                    // time step T / N
    N: nat,                      // number of time steps
    strike: real,
    barrierType: Option<string>,
    barrier: real,               // barrier level
    isBarrier: bool,
    isBermudan: bool,
    isCall: bool)

  /** Risk-neutral probability of an up move. */
  const P: real := 0.5

  /** The exponential function the caller supplies is positive everywhere, as exp is. */
  ghost predicate PositiveValued(exp: real -> real)
  {
    forall x :: 0.0 < exp(x)
  }

  /** One-step discount factor exp(-r * dt) at a node whose rate is r. */
  function Discount(exp: real -> real, r: real, dt: real): (disc: real)
  {
    exp(-r * dt)
  }

  /** Discounted expectation of the up child and the down child. */
  function Continuation(disc: real, up: real, down: real): (cont: real)
  {
    disc * (P * up + (1.0 - P) * down)
  }

  /** Rate at node (i, j) of the lattice the inputs describe. */
  function NodeRate(p: Inputs, i: int, j: int): (rate: real)
  {
    Rate(p.r0, p.dx, i, j)
  }

  /** Value at node (i, j), by backward induction from level N, after the barrier rule. */
  function NodeValue(p: Inputs, exp: real -> real, i: nat, j: nat): (v: real)
    requires PositiveValued(exp)
    requires j <= i <= p.N
    ensures 0.0 <= v
    decreases p.N - i, 1
  {
    if BarrierZeroes(p.isBarrier, p.barrierType, p.barrier, NodeRate(p, i, j)) then 0.0
    else HeldValue(p, exp, i, j)
  }

  /**
   * Value at node (i, j) before the barrier rule: the exercise value at maturity, else the
   * continuation, or for a Bermudan option the larger of continuation and exercise value.
   */
  function HeldValue(p: Inputs, exp: real -> real, i: nat, j: nat): (v: real)
    requires PositiveValued(exp)
    requires j <= i <= p.N
    ensures 0.0 <= v
    decreases p.N - i, 0
  {
    var r := NodeRate(p, i, j);
    if i == p.N then
      Intrinsic(r, p.strike, p.isCall)
    else
      var up := NodeValue(p, exp, i + 1, j + 1);
      var down := NodeValue(p, exp, i + 1, j);
      assert 0.0 <= P * up + (1.0 - P) * down;
      var cont := Continuation(Discount(exp, r, p.dt), up, down);
      if p.isBermudan then Max(cont, Intrinsic(r, p.strike, p.isCall)) else cont
  }

  /** The option price: the value at the root. */
  function Price(p: Inputs, exp: real -> real): (price: real)
    requires PositiveValued(exp)
    ensures 0.0 <= price
  {
    NodeValue(p, exp, 0, 0)
  }

  /** At maturity a node holds the floored call or put payoff unless the barrier zeroes it. */
  lemma TerminalValue(p: Inputs, exp: real -> real, j: nat)
    requires PositiveValued(exp)
    requires j <= p.N
    ensures var r := NodeRate(p, p.N, j);
      NodeValue(p, exp, p.N, j) ==
        if BarrierZeroes(p.isBarrier, p.barrierType, p.barrier, r) then 0.0
        else if p.isCall then (if r - p.strike > 0.0 then r - p.strike else 0.0)
        else (if p.strike - r > 0.0 then p.strike - r else 0.0)
  {
  }

  /** A larger pair of children never gives a smaller continuation, since the discount is positive. */
  lemma ContinuationMonotone(disc: real, up: real, down: real, up': real, down': real)
    requires 0.0 < disc
    requires up <= up' && down <= down'
    ensures Continuation(disc, up, down) <= Continuation(disc, up', down')
  {
  }

  /** A Bermudan node the barrier leaves alone is worth at least its continuation and its exercise value. */
  lemma BermudanNodeBounds(p: Inputs, exp: real -> real, i: nat, j: nat)
    requires PositiveValued(exp)
    requires p.isBermudan && j <= i < p.N
    requires !BarrierZeroes(p.isBarrier, p.barrierType, p.barrier, NodeRate(p, i, j))
    ensures var cont := Continuation(Discount(exp, NodeRate(p, i, j), p.dt), NodeValue(p, exp, i + 1, j + 1), NodeValue(p, exp, i + 1, j));
      cont <= NodeValue(p, exp, i, j) &&
      Intrinsic(NodeRate(p, i, j), p.strike, p.isCall) <= NodeValue(p, exp, i, j)
  {
  }

  /** Early exercise never lowers a node's value. */
  lemma {:induction false} BermudanDominatesAt(p: Inputs, exp: real -> real, i: nat, j: nat)
    requires PositiveValued(exp)
    requires j <= i <= p.N
    ensures NodeValue(p.(isBermudan := false), exp, i, j) <= NodeValue(p.(isBermudan := true), exp, i, j)
    ensures HeldValue(p.(isBermudan := false), exp, i, j) <= HeldValue(p.(isBermudan := true), exp, i, j)
    decreases p.N - i
  {
    var eu, be := p.(isBermudan := false), p.(isBermudan := true);
    if i < p.N {
      BermudanDominatesAt(p, exp, i + 1, j + 1);
      BermudanDominatesAt(p, exp, i + 1, j);
      var disc := Discount(exp, NodeRate(p, i, j), p.dt);
      ContinuationMonotone(disc,
        NodeValue(eu, exp, i + 1, j + 1), NodeValue(eu, exp, i + 1, j),
        NodeValue(be, exp, i + 1, j + 1), NodeValue(be, exp, i + 1, j));
    }
  }

  /** The Bermudan price is at least the European price for the same inputs. */
  lemma BermudanPriceDominates(p: Inputs, exp: real -> real)
    requires PositiveValued(exp)
    ensures Price(p.(isBermudan := false), exp) <= Price(p.(isBermudan := true), exp)
  {
    BermudanDominatesAt(p, exp, 0, 0);
  }

  /** Switching the barrier on never raises a node's value. */
  lemma {:induction false} BarrierLowersAt(p: Inputs, exp: real -> real, i: nat, j: nat)
    requires PositiveValued(exp)
    requires j <= i <= p.N
    ensures NodeValue(p, exp, i, j) <= NodeValue(p.(isBarrier := false), exp, i, j)
    ensures HeldValue(p, exp, i, j) <= HeldValue(p.(isBarrier := false), exp, i, j)
    decreases p.N - i
  {
    var plain := p.(isBarrier := false);
    if i < p.N {
      BarrierLowersAt(p, exp, i + 1, j + 1);
      BarrierLowersAt(p, exp, i + 1, j);
      var disc := Discount(exp, NodeRate(p, i, j), p.dt);
      ContinuationMonotone(disc,
        NodeValue(p, exp, i + 1, j + 1), NodeValue(p, exp, i + 1, j),
        NodeValue(plain, exp, i + 1, j + 1), NodeValue(plain, exp, i + 1, j));
    }
  }

  /** Any barrier, "in" or "out", prices at most the same option without a barrier. */
  lemma BarrierPriceBounded(p: Inputs, exp: real -> real)
    requires PositiveValued(exp)
    ensures Price(p, exp) <= Price(p.(isBarrier := false), exp)
  {
    BarrierLowersAt(p, exp, 0, 0);
  }

  /**
   * A worked two-step example: a European call struck at r0, no barrier. Only the top
   * maturity node pays (2 * dx); it reaches the root through node (1, 1), each step
   * halving and discounting.
   */
  lemma TwoStepCallExample(p: Inputs, exp: real -> real)
    requires PositiveValued(exp)
    requires p.N == 2 && 0.0 <= p.dx
    requires p.isCall && !p.isBermudan && !p.isBarrier && p.strike == p.r0
    ensures Price(p, exp) ==
      0.5 * Discount(exp, NodeRate(p, 0, 0), p.dt) * Discount(exp, NodeRate(p, 1, 1), p.dt) * p.dx
  {
    var d00, d11 := Discount(exp, NodeRate(p, 0, 0), p.dt), Discount(exp, NodeRate(p, 1, 1), p.dt);
    assert NodeValue(p, exp, 2, 2) == 2.0 * p.dx;
    assert NodeValue(p, exp, 2, 1) == 0.0;
    assert NodeValue(p, exp, 2, 0) == 0.0;
    assert NodeValue(p, exp, 1, 1) == d11 * p.dx;
    assert NodeValue(p, exp, 1, 0) == 0.0;
    assert NodeValue(p, exp, 0, 0) == d00 * (0.5 * (d11 * p.dx));
  }
}
