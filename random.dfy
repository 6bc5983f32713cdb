/** The generator's source of random choices. `Maze.generate` calls
    `random.randint(1, len(neighbours))`; here the choices come from an
    injected oracle `roll`, the `k`-th call receiving `roll(k)` folded into
    the requested range, so every sequence of choices the real generator can
    make is one some oracle makes. */
module Randomness {

  class RandomSource {
    /** How many numbers have been drawn so far. */
    var draws: nat
    const roll: nat -> nat

    constructor (roll: nat -> nat)
      ensures this.roll == roll && draws == 0
    {
      this.roll := roll;
      draws := 0;
    }

    /** `random.randint(lo, hi)`: a number from `lo` to `hi` inclusive (the
        source raises ValueError when `lo > hi`). */
    method RandInt(lo: int, hi: int) returns (k: int)
      requires lo <= hi
      modifies this`draws
      ensures lo <= k <= hi
      ensures k == lo + roll(old(draws)) % (hi - lo + 1)
      ensures draws == old(draws) + 1
    {
      k := lo + roll(draws) % (hi - lo + 1);
      draws := draws + 1;
    }
  }
}
