/** Why a run of the C++ engine stops without a result. */
module Faults {

  /** `AssertFails(line)`: the `assert` at that line of wasm/blossom.cpp fails and the program
      aborts. `Undefined(line)`: that line reads outside a vector, which C++ leaves undefined.
      `ForestCycle`: `set_edge` at line 197 would close a cycle of parent links; the model stops
      at once where the source goes on with a cyclic forest (see `Search.AttachMate`). `OutOfFuel`: the driver's bound on rounds is used up. */
  datatype Fault = AssertFails(line: int) | Undefined(line: int) | ForestCycle | OutOfFuel
}
