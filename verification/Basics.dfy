/** Definitions shared by all modules. */
module Basics {
  datatype Option<+T> = None | Some(value: T)

  /** Guards a fact that is opened up only where `Unfold(true)` is asserted. */
  ghost predicate Unfold(u: bool) { true }
}
