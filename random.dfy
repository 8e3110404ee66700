/** Python's `random.choice`, with the generator's output made explicit: a
    fixed stream of draws `source(0), source(1), ...` of which `drawn` have
    been consumed. */
module Rng {

  class Random {
    const source: nat -> nat
    var drawn: nat

    constructor (source: nat -> nat)
      ensures this.source == source && drawn == 0
    {
      this.source := source;
      drawn := 0;
    }

    /** An index into a non-empty sequence of length `n`; consumes one draw. */
    method Choice(n: nat) returns (i: nat)
      requires n > 0
      modifies this
      ensures i < n && i == source(old(drawn)) % n
      ensures drawn == old(drawn) + 1
    {
      i := source(drawn) % n;
      drawn := drawn + 1;
    }
  }
}
