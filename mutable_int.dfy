/**
 The boxed counter that the scorer stores in its frequency maps: a cell
 that starts at 1, the first sighting of a word, and is bumped in place on
 every later sighting.
 */
module Cells {

  class MutableInt {
    var counter: int

    /** A fresh cell reads 1. */
    constructor ()
      ensures counter == 1
    {
      counter := 1;
    }

    /** The factory the counting loops call: a new cell, not shared with
        anything that existed before, reading 1. */
    static method CreateMutableInt() returns (m: MutableInt)
      ensures fresh(m) && m.counter == 1
    {
      m := new MutableInt();
    }

    /** Raises the value by exactly one; no other object changes. */
    method Increment()
      modifies this
      ensures counter == old(counter) + 1
    {
      var c := GetCounter();
      SetCounter(c + 1);
    }

    /** Reads the current value and changes nothing. */
    method GetCounter() returns (c: int)
      ensures c == counter
    {
      c := counter;
    }

    /** Makes the value exactly `c`. */
    method SetCounter(c: int)
      modifies this
      ensures counter == c
    {
      counter := c;
    }
  }

  /** What a cell reads after it is created and then incremented `k` times. */
  method CreateThenIncrement(k: nat) returns (value: int)
    ensures value == 1 + k
  {
    var cell := MutableInt.CreateMutableInt();
    for i := 0 to k
      invariant cell.counter == 1 + i
    {
      cell.Increment();
    }
    value := cell.GetCounter();
  }
}
