/** Rust's `Option`, used for the food position and for collision results. */
module Wrappers {
  datatype Option<+T> = None | Some(value: T)
}

/** Grid coordinates.  The source stores a cell as a `(u32, u32)` pair;
    the model uses natural numbers (src/main.rs:169-177). */
module Grid {
  datatype Cell = Cell(x: nat, y: nat)
}
