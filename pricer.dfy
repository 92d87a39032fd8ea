/**
 * The lattice pricer itself: fills the (N + 1) x (N + 1) value grid in place, first the
 * maturity level, then every earlier level from N - 1 down to 0, and returns the root value.
 */
module Pricer {
  import opened Wrappers
  import opened RateTree
  import opened Payoff
  import opened Valuation

  /**
   * The grid after levels above `row` are complete and level `row` is complete below column
   * `col`: those entries on or below the diagonal hold their node values, every other entry
   * still holds its initial 0.
   */
  ghost predicate Filled(values: array2<real>, p: Inputs, exp: real -> real, row: int, col: int)
    reads values
  {
    values.Length0 == p.N + 1 && values.Length1 == p.N + 1 && PositiveValued(exp) &&
    forall a, b :: 0 <= a <= p.N && 0 <= b <= p.N ==>
      values[a, b] == if b <= a && (row < a || (a == row && b < col)) then NodeValue(p, exp, a, b) else 0.0
  }

  /** Finishing level `row` (all columns up to the diagonal) is starting level row - 1. */
  lemma NextLevel(values: array2<real>, p: Inputs, exp: real -> real, row: int)
    requires Filled(values, p, exp, row, row + 1)
    ensures Filled(values, p, exp, row - 1, 0)
  {
  }


  /** Stores node (row, col)'s value; with everything before it in place, the filled part grows by one. */
  method SetNode(values: array2<real>, p: Inputs, exp: real -> real, row: nat, col: nat, value: real)
    requires Filled(values, p, exp, row, col)
    requires col <= row <= p.N
    requires value == NodeValue(p, exp, row, col)
    modifies values
    ensures Filled(values, p, exp, row, col + 1)
  {
    values[row, col] := value;
  }

  /** The value at an earlier node, from its rate and its two children's values. */
  lemma InteriorNode(p: Inputs, exp: real -> real, i: nat, j: nat, r: real, up: real, down: real)
    requires PositiveValued(exp)
    requires j <= i < p.N && r == NodeRate(p, i, j)
    requires up == NodeValue(p, exp, i + 1, j + 1) && down == NodeValue(p, exp, i + 1, j)
    ensures var cont := Continuation(Discount(exp, r, p.dt), up, down);
      NodeValue(p, exp, i, j) ==
        if BarrierZeroes(p.isBarrier, p.barrierType, p.barrier, r) then 0.0
        else if p.isBermudan then Max(cont, Intrinsic(r, p.strike, p.isCall))
        else cont
  {
  }

  /**
   * Allocates the zero grid, writes the maturity payoffs, then runs backward induction.
   * tree is the lattice of p, whose rates the grid is valued on.
   */
  method ValueGrid(p: Inputs, tree: seq<seq<real>>, exp: real -> real) returns (values: array2<real>)
    requires IsRateTree(tree, p.r0, p.dx, p.N)
    requires PositiveValued(exp)
    ensures fresh(values)
    ensures values.Length0 == p.N + 1 && values.Length1 == p.N + 1
    ensures forall i, j :: 0 <= j <= i <= p.N ==> values[i, j] == NodeValue(p, exp, i, j)
    ensures forall i, j :: 0 <= i < j <= p.N ==> values[i, j] == 0.0
  {
    var N := p.N;
    values := new real[N + 1, N + 1]((_, _) => 0.0);
    // Maturity level: floored exercise value, then the barrier rule. Each node value is
    // worked out in full (barrier included) before it is stored.
    var j := 0;
    while j < N + 1
      invariant 0 <= j <= N + 1
      invariant Filled(values, p, exp, N, j)
    {
      var r := tree[N][j];
      var value := Intrinsic(r, p.strike, p.isCall);
      if BarrierZeroes(p.isBarrier, p.barrierType, p.barrier, r) {
        value := 0.0;
      }
      TerminalValue(p, exp, j);
      SetNode(values, p, exp, N, j, value);
      j := j + 1;
    }
    NextLevel(values, p, exp, N);
    // Backward induction over levels N - 1 down to 0.
    var i: int := N - 1;
    while i >= 0
      invariant -1 <= i <= N - 1
      invariant Filled(values, p, exp, i, 0)
    {
      j := 0;
      while j < i + 1
        invariant 0 <= j <= i + 1
        invariant Filled(values, p, exp, i, j)
      {
        var r := tree[i][j];
        var disc := Discount(exp, r, p.dt);
        var up, down := values[i + 1, j + 1], values[i + 1, j];
        var continuation := Continuation(disc, up, down);
        var value := continuation;
        if p.isBermudan {
          var intrinsic := Intrinsic(r, p.strike, p.isCall);
          value := Max(continuation, intrinsic);
        }
        if BarrierZeroes(p.isBarrier, p.barrierType, p.barrier, r) {
          value := 0.0;
        }
        InteriorNode(p, exp, i, j, r, up, down);
        SetNode(values, p, exp, i, j, value);
        j := j + 1;
      }
      NextLevel(values, p, exp, i);
      i := i - 1;
    }
  }

  /**
   * Prices the option: builds the lattice, values the grid and returns the root value.
   * sqrtDt stands for np.sqrt(T / N) and exp for np.exp; a and optionType are accepted
   * and ignored, as in the pricer.
   */
  method PriceOption(r0: real, a: real, sigma: real, T: real, N: int, optionType: string,
                     strike: real, barrierType: Option<string>, barrier: real,
                     isBarrier: bool, isBermudan: bool, isCall: bool,
                     sqrtDt: real, exp: real -> real)
    returns (price: real)
    requires 1 <= N
    requires IsSqrt(sqrtDt, T / (N as real))
    requires PositiveValued(exp)
    ensures price == Price(Inputs(r0, sigma * sqrtDt, T / (N as real), N, strike,
                                  barrierType, barrier, isBarrier, isBermudan, isCall), exp)
    ensures 0.0 <= price
  {
    var tree, dt, dx := BuildRateTree(r0, a, sigma, T, N, sqrtDt);
    var p := Inputs(r0, dx, dt, N, strike, barrierType, barrier, isBarrier, isBermudan, isCall);
    var values := ValueGrid(p, tree, exp);
    price := values[0, 0];
  }
}
