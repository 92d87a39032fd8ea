# Hull-White rate option lattice pricer

A Dafny model of the pricing core of `Hull_and_white_rate_options_pricer.py`: the
recombining short-rate lattice built by `build_rate_tree` and the backward-induction
valuation of `price_option`, which prices a call or put on the short rate, European or
Bermudan, with an optional barrier ("Down In", "Up In", "Down Out", "Up Out") applied
node by node.

Modules:

- `RateTree` (`rate_tree.dfy`): `BuildRateTree` builds the lattice with the source's two
  nested append loops over `seq<seq<real>>`; level `i` holds the `i + 1` rates
  `r0 + (2j - i) * dx`. The mean-reversion speed `a` is accepted and unused, as in the source:
  the lattice is a symmetric-displacement simplification, not true Hull-White drift.
- `Payoff` (`payoff.dfy`): the floored exercise value `Intrinsic`, Python's two-argument
  `max` as `Max`, and the barrier rule `BarrierZeroes`, which keeps the source's
  string comparisons and whose contract is the four-case table.
- `Valuation` (`valuation.dfy`): the reference definition of every node's value
  (`NodeValue`, with `HeldValue` the value before the barrier rule), the root price, and
  the lemmas: prices are non-negative, early exercise never lowers a value, switching a
  barrier on never raises one.
- `Pricer` (`pricer.dfy`): `ValueGrid` allocates the zero `(N + 1) x (N + 1)` grid as an
  `array2<real>` and fills it in place (maturity level first, then levels `N - 1` down to
  `0`); `PriceOption` builds the lattice, values the grid and returns entry `(0, 0)`.
  Where the source stores a node's value and then overwrites it with 0 when the barrier
  rule fires, the model works out the final value first and stores it once.

Arithmetic is exact over `real`. The two transcendental calls are parameters:
`sqrtDt` is a given non-negative square root of `T / N` (for `np.sqrt`), and `exp` is a
given function that is positive everywhere (for `np.exp`), so each node's discount factor
is `exp(-r * dt)` and is positive.

For `N = 0`, `T / N` at line 31 raises ZeroDivisionError, so the model requires `N >= 1`.

## Model

| member | source | states |
|---|---|---|
| RateTree.BuildRateTree | Hull_and_white_rate_options_pricer.py:30-40 | dt is T / N, dx is sigma times the square root of dt, the tree has N + 1 levels, level i has exactly i + 1 rates and rate j of level i is r0 + (2j - i) * dx |
| RateTree.AdjacentRatesSpacing | Hull_and_white_rate_options_pricer.py:37 | neighbouring rates of a level differ by exactly 2 * dx |
| RateTree.LevelSymmetric | Hull_and_white_rate_options_pricer.py:37 | every level is symmetric about r0: tree[i][j] + tree[i][i - j] == 2 * r0 |
| RateTree.EvenLevelCentredOnR0 | Hull_and_white_rate_options_pricer.py:37 | on an even level the middle node's rate is r0 |
| Payoff.Intrinsic | Hull_and_white_rate_options_pricer.py:49-50 | the exercise value is non-negative, at least r - strike for a call (strike - r for a put), and equal to that difference or to 0 |
| Payoff.Max | Hull_and_white_rate_options_pricer.py:67 | the Bermudan choice is an upper bound of continuation and exercise value and equals one of them |
| Payoff.BarrierZeroes | Hull_and_white_rate_options_pricer.py:51-57 | a node is zeroed exactly when the barrier is on and the type is "Down In" with r > barrier, "Up In" with r < barrier, "Down Out" with r <= barrier or "Up Out" with r >= barrier; None or any other string zeroes nothing |
| Valuation.NodeValue | Hull_and_white_rate_options_pricer.py:60-76 | with positive discount factors every node value is >= 0 (needs the children's bound) |
| Valuation.HeldValue | Hull_and_white_rate_options_pricer.py:47-69 | the value before the barrier rule (payoff at maturity, continuation or its max with the payoff earlier) is >= 0 |
| Valuation.Price | Hull_and_white_rate_options_pricer.py:77 | the price is the root value and is >= 0 |
| Valuation.TwoStepCallExample | Hull_and_white_rate_options_pricer.py:44-77 | for a European call struck at r0 with no barrier, N = 2 and dx >= 0, the price is 0.5 * disc(0,0) * disc(1,1) * dx |
| Valuation.TerminalValue | Hull_and_white_rate_options_pricer.py:47-57 | maturity node j holds max(r - strike, 0) for a call or max(strike - r, 0) for a put, unless the barrier rule zeroes it |
| Valuation.ContinuationMonotone | Hull_and_white_rate_options_pricer.py:63 | with a positive discount factor, larger child values never give a smaller continuation |
| Valuation.BermudanNodeBounds | Hull_and_white_rate_options_pricer.py:64-67 | a Bermudan node the barrier leaves alone is at least its continuation and at least its exercise value |
| Valuation.BermudanDominatesAt | Hull_and_white_rate_options_pricer.py:60-76 | every node's Bermudan value is >= its European value for the same inputs |
| Valuation.BermudanPriceDominates | Hull_and_white_rate_options_pricer.py:60-77 | the Bermudan price is >= the European price for the same inputs |
| Valuation.BarrierLowersAt | Hull_and_white_rate_options_pricer.py:51-76 | every node's value with the barrier on is <= its value with the barrier off |
| Valuation.BarrierPriceBounded | Hull_and_white_rate_options_pricer.py:51-77 | the price with any barrier, "in" or "out", is <= the price without a barrier |
| Pricer.ValueGrid | Hull_and_white_rate_options_pricer.py:44-76 | returns a fresh (N + 1) x (N + 1) grid whose entry (i, j) with j <= i is the node value and whose entries with j > i are never written and stay 0 |
| Pricer.PriceOption | Hull_and_white_rate_options_pricer.py:43-77 | the returned price is the root value of the lattice for dx = sigma * sqrtDt and dt = T / N, and is >= 0 |

## Left out

- `get_rate_data` (lines 13-27): a network fetch with a fallback rate; r0 is an input instead.
- `LabeledSlider`, `HullWhiteApp` and `start_price_thread` (lines 80-251): the tkinter user interface and the worker thread that keeps it responsive.
- `montecarlo_pricer_v1.py`: the Monte Carlo pricer (random draws, sample covariance, plots) is not part of this model.
- Floating point: values are exact reals, so rounding, overflow, `nan` and `inf` are not modelled; `np.sqrt` and `np.exp` are supplied by the caller as `sqrtDt` and `exp`.
- RateTree.BuildRateTree: requires a real square root of `T / N`, so a negative maturity (for which numpy yields `nan`) is outside the model.
- Pricer.PriceOption: requires `N >= 1`; for `N <= 0` the source raises (division by zero, a bad array shape or an index error) and those failures are not modelled.
