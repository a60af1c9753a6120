/**
 * Math.random as an oracle: the program's n-th call returns draw(n), an
 * arbitrary value in [0, 1). Every property proved about a caller therefore
 * holds for every sequence of draws.
 */
module Draws {
  /** A value Math.random can return. */
  type Fraction = x: real | 0.0 <= x < 1.0

  class Random {
    /** The value of each call, by call number. */
    const draw: nat -> Fraction
    /** How many calls have been made. */
    var count: nat

    constructor(draw: nat -> Fraction)
      ensures this.draw == draw && count == 0
    {
      this.draw := draw;
      count := 0;
    }

    /** Math.random(): the next draw. */
    method Next() returns (x: Fraction)
      modifies this
      ensures x == draw(old(count)) && count == old(count) + 1
    {
      x := draw(count);
      count := count + 1;
    }
  }

  /** Math.floor(x * n): an index below n for any draw x. */
  function Scale(x: Fraction, n: nat): (j: nat)
    requires n > 0
    ensures j < n
  {
    ScaleBound(x, n);
    (x * n as real).Floor
  }

  lemma ScaleBound(x: Fraction, n: nat)
    requires n > 0
    ensures 0.0 <= x * n as real < n as real
  {
  }
}
