/** Per-node payoff rules of the lattice pricer: the exercise value and the barrier rule. */
module Payoff {
  import opened Wrappers

  /** Python's max(x, y): x unless y is strictly larger. */
  function Max(x: real, y: real): (m: real)
    ensures x <= m && y <= m
    ensures m == x || m == y
  {
    if y > x then y else x
  }

  /** Exercise value of a call (rate above strike) or a put (rate below strike), floored at zero. */
  function Intrinsic(r: real, strike: real, isCall: bool): (v: real)
    ensures 0.0 <= v
    ensures isCall ==> r - strike <= v && (v == 0.0 || v == r - strike)
    ensures !isCall ==> strike - r <= v && (v == 0.0 || v == strike - r)
  {
    var raw := if isCall then r - strike else strike - r;
    Max(raw, 0.0)
  }

  /**
   * Whether the barrier rule zeroes a node whose rate is r. It is checked only when the
   * barrier is switched on and a barrier type is given; an unknown type zeroes nothing.
   */
  function BarrierZeroes(isBarrier: bool, barrierType: Option<string>, barrier: real, r: real): (zeroed: bool)
    ensures zeroed <==> (
      isBarrier &&
      ((barrierType == Some("Down In") && r > barrier) ||
       (barrierType == Some("Up In") && r < barrier) ||
       (barrierType == Some("Down Out") && r <= barrier) ||
       (barrierType == Some("Up Out") && r >= barrier)))
  {
    if isBarrier && barrierType.Some? then
      var kind := barrierType.value;
      if kind == "Down In" || kind == "Up In" then
        !(if kind == "Down In" then r <= barrier else r >= barrier)
      else if kind == "Down Out" || kind == "Up Out" then
        (if kind == "Down Out" then r <= barrier else r >= barrier)
      else
        false
    else
      false
  }
}
