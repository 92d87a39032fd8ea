/**
 * The recombining short-rate lattice of the Hull-White pricer.
 * Level i of the lattice holds the i + 1 rates r0 + (2j - i) * dx, j = 0..i.
 * The mean-reversion speed `a` is accepted but plays no part in placing the nodes.
 */
module RateTree {

  /** The rate at node (i, j) of a lattice rooted at r0 with spacing dx. */
  function Rate(r0: real, dx: real, i: int, j: int): (rate: real)
  {
    r0 + ((2 * j - i) as real) * dx
  }

  /** s is the non-negative square root of x (what np.sqrt returns for x >= 0). */
  predicate IsSqrt(s: real, x: real)
  {
    0.0 <= s && s * s == x
  }

  /** tree has levels 0..N, level i holds exactly i + 1 rates, and each is Rate(r0, dx, i, j). */
  ghost predicate IsRateTree(tree: seq<seq<real>>, r0: real, dx: real, N: nat)
  {
    |tree| == N + 1 &&
    forall i :: 0 <= i <= N ==>
      |tree[i]| == i + 1 &&
      forall j :: 0 <= j <= i ==> tree[i][j] == Rate(r0, dx, i, j)
  }

  /**
   * Builds the lattice level by level, appending each rate to its level and each level
   * to the tree. The caller supplies sqrtDt, the square root of the time step T / N.
   */
  method BuildRateTree(r0: real, a: real, sigma: real, T: real, N: int, sqrtDt: real)
    returns (tree: seq<seq<real>>, dt: real, dx: real)
    requires 1 <= N
    requires IsSqrt(sqrtDt, T / (N as real))
    ensures dt == T / (N as real)
    ensures dx == sigma * sqrtDt
    ensures IsRateTree(tree, r0, dx, N)
  {
    dt := T / (N as real);
    dx := sigma * sqrtDt;
    tree := [];
    var i := 0;
    while i < N + 1
      invariant 0 <= i <= N + 1
      invariant |tree| == i
      invariant forall k :: 0 <= k < i ==>
        |tree[k]| == k + 1 &&
        forall m :: 0 <= m <= k ==> tree[k][m] == Rate(r0, dx, k, m)
    {
      var level: seq<real> := [];
      var j := 0;
      while j < i + 1
        invariant 0 <= j <= i + 1
        invariant |level| == j
        invariant forall m :: 0 <= m < j ==> level[m] == Rate(r0, dx, i, m)
      {
        var rate := r0 + ((2 * j - i) as real) * dx;
        level := level + [rate];
        j := j + 1;
      }
      tree := tree + [level];
      i := i + 1;
    }
  }

  /** Neighbouring rates of one level are 2 * dx apart. */
  lemma AdjacentRatesSpacing(tree: seq<seq<real>>, r0: real, dx: real, N: nat, i: nat, j: nat)
    requires IsRateTree(tree, r0, dx, N)
    requires j < i <= N
    ensures tree[i][j + 1] - tree[i][j] == 2.0 * dx
  {
  }

  /** Every level is symmetric about r0: the j-th rate and the j-th rate from the top average to r0. */
  lemma LevelSymmetric(tree: seq<seq<real>>, r0: real, dx: real, N: nat, i: nat, j: nat)
    requires IsRateTree(tree, r0, dx, N)
    requires j <= i <= N
    ensures tree[i][j] + tree[i][i - j] == 2.0 * r0
  {
  }

  /** On an even level the middle node carries r0 itself. */
  lemma EvenLevelCentredOnR0(tree: seq<seq<real>>, r0: real, dx: real, N: nat, i: nat)
    requires IsRateTree(tree, r0, dx, N)
    requires i <= N && i % 2 == 0
    ensures tree[i][i / 2] == r0
  {
  }
}
