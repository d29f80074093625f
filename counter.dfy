/** counter.ts: a count that starts at 0 and only goes up by one. */
module Counters {
  class Counter {
    var count: nat

    constructor ()
      ensures Value() == 0
    {
      count := 0;
    }

    /** The `value` getter. */
    function Value(): nat
      reads this
    {
      count
    }

    method Increment()
      modifies this
      ensures Value() == old(Value()) + 1
    {
      count := count + 1;
    }
  }

  /** n increments in a row raise the value by exactly n. */
  method IncrementTimes(counter: Counter, n: nat)
    modifies counter
    ensures counter.Value() == old(counter.Value()) + n
  {
    var k := 0;
    while k < n
      invariant 0 <= k <= n
      invariant counter.Value() == old(counter.Value()) + k
    {
      counter.Increment();
      k := k + 1;
    }
  }

  /** A fresh counter incremented n times reads n (the tests check n = 0, 1 and 2). */
  method CountOnFreshCounter(n: nat) returns (value: nat)
    ensures value == n
  {
    var counter := new Counter();
    IncrementTimes(counter, n);
    value := counter.Value();
  }
}
