/** The `Numberinator` struct: a number and a name, with an in-place increment. */
module Structs {
  import opened Int32

  class Numberinator {
    var number: i32
    var name: string

    /** `Numberinator::new(number, name)`: stores both fields as given. */
    constructor (number: i32, name: string)
      ensures this.number == number && this.name == name
    {
      this.number := number;
      this.name := name;
    }

    /** `increment(&mut self)`: `self.number += 1`, which panics on overflow in
        a debug build, so the number must be below `i32::MAX`. */
    method Increment()
      requires number < I32_MAX as i32
      modifies this
      ensures number as int == old(number) as int + 1
      ensures name == old(name)
    {
      number := number + 1;
    }
  }

  /** The struct and loop demonstrations of `main`: `new(42, "Initially 42.")`,
      one increment, then five more in a `for` loop. Returns the final fields. */
  method StructsDemo() returns (number: i32, name: string)
    ensures number == 48 && name == "Initially 42."
  {
    var n := new Numberinator(42, "Initially 42.");
    n.Increment();
    for i := 0 to 5
      invariant n.number as int == 43 + i && n.name == "Initially 42."
    {
      n.Increment();
    }
    number, name := n.number, n.name;
  }
}
